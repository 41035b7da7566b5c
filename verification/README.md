# CurvedUI core, modelled in Dafny

CurvedUI bends Unity UI canvases into cylinders, rings and spheres, and it
makes pointer input work on the bent surface. This project models the parts
of its core that are discrete logic, not trigonometry or physics:

- the numeric and string helpers;
- tessellation of UI quads and the index lists of the cylinder and sphere
  collider meshes;
- remapping of an already computed hit angle or radius onto canvas
  coordinates, and the raycaster's decision whether to forward a pointer;
- the gaze timed click;
- the common-root search over the transform hierarchy;
- the input module's press, click, drag, hover and scroll state machine and
  its control-method lookup;
- the TextMeshPro vertex-list synchronisation and rebuild flags;
- the editor's define-symbol string editing and layer-name list.

The modules follow the program: `Unity` (vectors and `Mathf`), `Wrappers`,
`ExtensionMethods`, `ControlMethods`, `GazeControlMethod`, `Settings`,
`Tessellation`, `ColliderMesh`, `CanvasMapping`, `GazeClick`, `Hierarchy`,
`InputModule`, `TmpIntegration`, `DefineSymbols` and `LayerMaskField`.

Floats are modelled as `real`. The engine's approximate vector equality,
`Mathf.Approximately`, `Mathf.RoundToInt` (halves to even) and the clamping
`Lerp` are written out. Engine calls become parameters:

- the curving of a vertex;
- the sine and cosine work that yields a hit angle;
- `Physics.Raycast` and the world-to-screen transform;
- the event-handler lookups;
- the control methods' rays;
- `LayerMask.LayerToName`.

Where the engine throws (a null element printed, `Replace` with an empty
value, an array index past the end), the model returns an error value.
`CurvedUISettings.cs` is not part of this model. Its fields that the core
reads are collected in `Settings.CanvasSettings`.

## Model

| member | source | states |
|---|---|---|
| ExtensionMethods.AlmostEqual | DDES9902_Exercises-main_/Assets/CurvedUI/Core/CurvedUIExtensionMethods.cs:14-15 | two vectors are close when their squared distance is below the accuracy: never with a non-positive accuracy, always for equal vectors with a positive one |
| ExtensionMethods.Remap | DDES9902_Exercises-main_/Assets/CurvedUI/Core/CurvedUIExtensionMethods.cs:17-18 | the linear map sends `from1` to `from2` and `to1` to `to2`, and a value inside an increasing source range lands inside an increasing target range |
| ExtensionMethods.RemapEndpoints | DDES9902_Exercises-main_/Assets/CurvedUI/Core/CurvedUIExtensionMethods.cs:17-18 | `Remap` sends `from1` to `from2` and `to1` to `to2` whenever the source interval is not empty |
| ExtensionMethods.RemapInverse | DDES9902_Exercises-main_/Assets/CurvedUI/Core/CurvedUIExtensionMethods.cs:17-18 | remapping from [a,b] to [c,d] and back returns the original value |
| ExtensionMethods.RemapAndClamp | DDES9902_Exercises-main_/Assets/CurvedUI/Core/CurvedUIExtensionMethods.cs:20-21 | the result lies in [from2, to2] when from2 <= to2, and equals the plain remap when that is already inside the range |
| ExtensionMethods.FloorToInt | DDES9902_Exercises-main_/Assets/CurvedUI/Core/CurvedUIExtensionMethods.cs:39 | the result is the greatest integer not above the value |
| ExtensionMethods.CeilToInt | DDES9902_Exercises-main_/Assets/CurvedUI/Core/CurvedUIExtensionMethods.cs:41 | as written, the result is the floor of the value, not its ceiling |
| ExtensionMethods.CeilToIntIsNotCeiling | DDES9902_Exercises-main_/Assets/CurvedUI/Core/CurvedUIExtensionMethods.cs:41 | for 0.5 the helper gives 0 while the true ceiling is 1 |
| ExtensionMethods.ToInt | DDES9902_Exercises-main_/Assets/CurvedUI/Core/CurvedUIExtensionMethods.cs:37 | rounding to the nearest integer: the result is within one half of the value, and a value exactly halfway between two integers goes to the even one |
| ExtensionMethods.ModifyX | DDES9902_Exercises-main_/Assets/CurvedUI/Core/CurvedUIExtensionMethods.cs:43-47 | the copy has the new x and the old y and z; it equals the input exactly when the new x is the old one |
| ExtensionMethods.ModifyY | DDES9902_Exercises-main_/Assets/CurvedUI/Core/CurvedUIExtensionMethods.cs:49-53 | the copy has the new y and the old x and z; it equals the input exactly when the new y is the old one |
| ExtensionMethods.ModifyZ | DDES9902_Exercises-main_/Assets/CurvedUI/Core/CurvedUIExtensionMethods.cs:55-59 | the copy has the new z and the old x and y; it equals the input exactly when the new z is the old one |
| ExtensionMethods.ModifyVectorX | DDES9902_Exercises-main_/Assets/CurvedUI/Core/CurvedUIExtensionMethods.cs:61-65 | the 2D copy has the new x and the old y; it equals the input exactly when the new x is the old one |
| ExtensionMethods.ModifyVectorY | DDES9902_Exercises-main_/Assets/CurvedUI/Core/CurvedUIExtensionMethods.cs:67-71 | the 2D copy has the new y and the old x; it equals the input exactly when the new y is the old one |
| Unity.Clamp | DDES9902_Exercises-main_/Assets/CurvedUI/Core/CurvedUIExtensionMethods.cs:29 | the result lies in [min, max] when min <= max; a value below min gives min, a value inside is kept, a value above max gives max |
| ExtensionMethods.AlmostEqualProperties | DDES9902_Exercises-main_/Assets/CurvedUI/Core/CurvedUIExtensionMethods.cs:14-15 | closeness is symmetric and reflexive; the squared distance is compared with `accuracy` itself, so with the default 0.01 a distance of 0.05 counts as equal and 0.1 does not |
| ExtensionMethods.ModifyComponentLaws | DDES9902_Exercises-main_/Assets/CurvedUI/Core/CurvedUIExtensionMethods.cs:43-59 | each setter replaces exactly one component and keeps the other two; setting a component to its own value changes nothing, a second set overrides the first, and setters of different components commute |
| ExtensionMethods.ModifyVectorLaws | DDES9902_Exercises-main_/Assets/CurvedUI/Core/CurvedUIExtensionMethods.cs:61-71 | the 2D setters replace one component, keep the other, and commute |
| ExtensionMethods.ToStringInline | DDES9902_Exercises-main_/Assets/CurvedUI/Core/CurvedUIExtensionMethods.cs:77-90 | a null list prints as "NULL"; any other list prints as the item-by-item fold, with a ", " (or newline) separator and the prefix before each item |
| ExtensionMethods.InlineFoldNull | DDES9902_Exercises-main_/Assets/CurvedUI/Core/CurvedUIExtensionMethods.cs:83-88 | printing fails with a null reference exactly when some item is null |
| ExtensionMethods.InlineFoldIsJoin | DDES9902_Exercises-main_/Assets/CurvedUI/Core/CurvedUIExtensionMethods.cs:81-89 | for non-null items whose prefixed text is never empty, the result is every `prefix + item` joined by the separator |
| ExtensionMethods.InlineFoldAllEmpty | DDES9902_Exercises-main_/Assets/CurvedUI/Core/CurvedUIExtensionMethods.cs:83-88 | items with empty text and no prefix add neither text nor separators, because the separator is only added after a non-empty accumulation |
| ExtensionMethods.ToStringSeparatedBy | DDES9902_Exercises-main_/Assets/CurvedUI/Core/CurvedUIExtensionMethods.cs:92-119 | a null list gives ""; a null item raises a null reference; otherwise the result is the piece-by-piece text of the items |
| ExtensionMethods.SeparatedByIsJoin | DDES9902_Exercises-main_/Assets/CurvedUI/Core/CurvedUIExtensionMethods.cs:92-119 | with non-empty items and no override, the result is the items joined by the separator |
| ExtensionMethods.SeparatedByWithOverride | DDES9902_Exercises-main_/Assets/CurvedUI/Core/CurvedUIExtensionMethods.cs:110-116 | with a non-empty override and at least two non-empty items, the override stands between the last two items and the separator between the others |
| ExtensionMethods.EmptyElementSkipped | DDES9902_Exercises-main_/Assets/CurvedUI/Core/CurvedUIExtensionMethods.cs:101-104 | an item with empty text contributes nothing, not even its separator |
| GazeControlMethod.Defaults | DDES9902_Exercises-main_/Assets/CurvedUI/Core/ControlMethods/GazeControlMethod.cs:10-12 | a new gaze method has timed click off, a 2 s timer and a 1 s delay |
| GazeControlMethod.SetGazeClickTimer | DDES9902_Exercises-main_/Assets/CurvedUI/Core/ControlMethods/GazeControlMethod.cs:63-67 | the timer setter stores the value, or 0 when the value is negative, and leaves the other settings alone |
| GazeControlMethod.SetGazeClickTimerDelay | DDES9902_Exercises-main_/Assets/CurvedUI/Core/ControlMethods/GazeControlMethod.cs:72-76 | the delay setter stores the value, or 0 when the value is negative, and leaves the other settings alone |
| GazeControlMethod.SetGazeUseTimedClick | DDES9902_Exercises-main_/Assets/CurvedUI/Core/ControlMethods/GazeControlMethod.cs:54-58 | the flag setter stores the flag and leaves the timings alone |
| GazeControlMethod.SettersKeepValid | DDES9902_Exercises-main_/Assets/CurvedUI/Core/ControlMethods/GazeControlMethod.cs:54-76 | the setters keep both timings non-negative, are idempotent, and the two timing setters commute |
| GazeControlMethod.GetEventRay | DDES9902_Exercises-main_/Assets/CurvedUI/Core/ControlMethods/GazeControlMethod.cs:33-43 | with no camera the ray is the default ray; otherwise it is the camera's forward ray |
| GazeControlMethod.Process | DDES9902_Exercises-main_/Assets/CurvedUI/Core/ControlMethods/GazeControlMethod.cs:26-31 | the gaze method never reports the button as held; its ray is the event ray |
| Tessellation.TesselateQuad | DDES9902_Exercises-main_/Assets/CurvedUI/Core/CurvedUIRaycaster.cs:1262-1279 | bilinear interpolation of the quad: the four unit-square corners give the four quad corners, and a quad whose corners are all equal gives that vertex everywhere |
| Tessellation.WeightsConvex | DDES9902_Exercises-main_/Assets/CurvedUI/Core/CurvedUIRaycaster.cs:1262-1279 | the four bilinear weights sum to 1 and are non-negative inside the unit square |
| Tessellation.TesselateCorners | DDES9902_Exercises-main_/Assets/CurvedUI/Core/CurvedUIRaycaster.cs:1262-1279 | at (0,0), (0,1), (1,1) and (1,0) the interpolation returns corners 0, 1, 2 and 3 |
| Tessellation.QuadCount | DDES9902_Exercises-main_/Assets/CurvedUI/Core/CurvedUIRaycaster.cs:1232-1233 | the number of sub-quads along an edge is the ceiling of the edge length over the required size, the size being at least 1 |
| Tessellation.GridLength | DDES9902_Exercises-main_/Assets/CurvedUI/Core/CurvedUIRaycaster.cs:1236-1258 | a grid of hq by vq cells has 4·hq·vq vertices |
| Tessellation.GridIndex | DDES9902_Exercises-main_/Assets/CurvedUI/Core/CurvedUIRaycaster.cs:1236-1258 | cell (x, y) sits at index 4·(y·hq + x); its first vertex is the interpolation at (x/hq, y/vq) and its third at ((x+1)/hq, (y+1)/vq) |
| Tessellation.GridSpansQuad | DDES9902_Exercises-main_/Assets/CurvedUI/Core/CurvedUIRaycaster.cs:1236-1258 | the fractions start at 0 and end at 1, so the first grid vertex is corner 0 and the third vertex of the last cell is corner 2 |
| Tessellation.AppendGrid | DDES9902_Exercises-main_/Assets/CurvedUI/Core/CurvedUIRaycaster.cs:1236-1258 | the nested loops append exactly the grid, row by row, after the existing vertices |
| Tessellation.ModifyQuad | DDES9902_Exercises-main_/Assets/CurvedUI/Core/CurvedUIRaycaster.cs:1219-1259 | the list only grows: the old vertices are a prefix and exactly 4·hq·vq grid vertices follow, hq and vq being the sub-quad counts of the two edges |
| ColliderMesh.CreateCollider | DDES9902_Exercises-main_/Assets/CurvedUI/Core/CurvedUIRaycaster.cs:523-592 | no collider unless the canvas blocks raycasts; a convex cylinder when a rigidbody is present or the mesh collider is off, a mesh cylinder otherwise; a box of the ring diameter for the ring; a mesh for the sphere |
| ColliderMesh.SegmentCount | DDES9902_Exercises-main_/Assets/CurvedUI/Core/CurvedUIRaycaster.cs:731 | the cylinder has max(8, round(BaseCircleSegments·|Angle|/360)) segments, so at least 8 |
| ColliderMesh.Rearrange | DDES9902_Exercises-main_/Assets/CurvedUI/Core/CurvedUIRaycaster.cs:711-725 | the four corners are reordered, none lost or duplicated: corner 1 comes first and corner 3 last, and the two pairs are the original {0,1} and {2,3}, or {1,2} and {0,3} on a vertical cylinder |
| ColliderMesh.StripVertex | DDES9902_Exercises-main_/Assets/CurvedUI/Core/CurvedUIRaycaster.cs:733-737 | the strip starts with the first two reordered corners and ends with the last two |
| ColliderMesh.SegmentTriangles | DDES9902_Exercises-main_/Assets/CurvedUI/Core/CurvedUIRaycaster.cs:775-795 | six indices per segment, all among the segment's four strip vertices 2i..2i+3 |
| ColliderMesh.SegmentSharesDiagonal | DDES9902_Exercises-main_/Assets/CurvedUI/Core/CurvedUIRaycaster.cs:775-795 | the two triangles of a segment use 2i and 2i+3 once and the shared diagonal 2i+1, 2i+2 twice |
| ColliderMesh.WindingReversed | DDES9902_Exercises-main_/Assets/CurvedUI/Core/CurvedUIRaycaster.cs:775-795 | the vertical cylinder lists each triangle of the horizontal one in the reverse order |
| ColliderMesh.FlatStripEnds | DDES9902_Exercises-main_/Assets/CurvedUI/Core/CurvedUIRaycaster.cs:731-737 | the flat strip starts with the first two reordered corners and ends with the last two |
| ColliderMesh.CurveAll | DDES9902_Exercises-main_/Assets/CurvedUI/Core/CurvedUIRaycaster.cs:741-767 | with a zero angle the vertices are left flat; otherwise each one is curved |
| ColliderMesh.StripTrianglesInRange | DDES9902_Exercises-main_/Assets/CurvedUI/Core/CurvedUIRaycaster.cs:772-796 | every index of the strip triangles is below the strip's vertex count |
| ColliderMesh.CylinderTriangles | DDES9902_Exercises-main_/Assets/CurvedUI/Core/CurvedUIRaycaster.cs:772-796 | the loops produce the strip triangles, six per segment |
| ColliderMesh.CylinderColliderMesh | DDES9902_Exercises-main_/Assets/CurvedUI/Core/CurvedUIRaycaster.cs:701-800 | 2·segments vertices, 6·(segments-1) indices all inside the vertex list; with a zero angle the ends are the reordered corners |
| ColliderMesh.QuadTrianglesInRange | DDES9902_Exercises-main_/Assets/CurvedUI/Core/CurvedUIRaycaster.cs:857-868 | every index of the per-quad triangles is below the vertex count |
| ColliderMesh.SphereTriangles | DDES9902_Exercises-main_/Assets/CurvedUI/Core/CurvedUIRaycaster.cs:857-868 | six indices per group of four vertices, each inside the vertex list |
| ColliderMesh.SphereColliderMesh | DDES9902_Exercises-main_/Assets/CurvedUI/Core/CurvedUIRaycaster.cs:802-873 | with a zero angle the four corners and two triangles; otherwise the tessellated grid with the corners removed, curved; the vertex count is a multiple of 4 and every index is in range |
| CanvasMapping.CylinderPoint | DDES9902_Exercises-main_/Assets/CurvedUI/Core/CurvedUIRaycaster.cs:325-326 | x is angle·width/Angle and y is the hit's own local y |
| CanvasMapping.CylinderProportional | DDES9902_Exercises-main_/Assets/CurvedUI/Core/CurvedUIRaycaster.cs:325 | on the cylinder x is proportional to the hit angle: 0 at the centre and ±width/2 at ±Angle/2 |
| CanvasMapping.CylinderVerticalPoint | DDES9902_Exercises-main_/Assets/CurvedUI/Core/CurvedUIRaycaster.cs:379-380 | y is angle·height/Angle and x is the hit's own local x |
| CanvasMapping.VerticalMirrorsCylinder | DDES9902_Exercises-main_/Assets/CurvedUI/Core/CurvedUIRaycaster.cs:378 | the vertical cylinder maps the angle onto y in the same way |
| CanvasMapping.RingX | DDES9902_Exercises-main_/Assets/CurvedUI/Core/CurvedUIRaycaster.cs:433-439 | both branches are one linear map of the angle taken into (-360, 0), from [0, -Angle] onto [-width/2, width/2] |
| CanvasMapping.RingXOneMap | DDES9902_Exercises-main_/Assets/CurvedUI/Core/CurvedUIRaycaster.cs:432-438 | both branches are one linear map of the angle measured below 360; 360 maps to -width/2 and -Angle (or 360-Angle) to +width/2 |
| CanvasMapping.RingY | DDES9902_Exercises-main_/Assets/CurvedUI/Core/CurvedUIRaycaster.cs:442-443 | the outer radius maps to the top (the bottom when flipped), the inner radius to the other edge |
| CanvasMapping.RingYEnds | DDES9902_Exercises-main_/Assets/CurvedUI/Core/CurvedUIRaycaster.cs:442-443 | the outer radius maps to +height/2 (-height/2 when flipped), the inner radius to the other end; flipping negates |
| CanvasMapping.SphereHalfAnglePositive | DDES9902_Exercises-main_/Assets/CurvedUI/Core/CurvedUIRaycaster.cs:488-489 | the vertical half-angle used for the sphere is positive whenever the mapping is defined; a zero width is allowed when the aspect is not preserved |
| CanvasMapping.SpherePoint | DDES9902_Exercises-main_/Assets/CurvedUI/Core/CurvedUIRaycaster.cs:488-493 | the centre maps to the canvas centre, ±|Angle|/2 to the left and right edges, and a zero-width canvas to x = 0 |
| CanvasMapping.SphereSymmetric | DDES9902_Exercises-main_/Assets/CurvedUI/Core/CurvedUIRaycaster.cs:488-493 | the sphere mapping sends the centre to the canvas centre and is odd in both angles; a zero-width canvas maps every hit to x = 0 |
| CanvasMapping.RaycastToCanvas | DDES9902_Exercises-main_/Assets/CurvedUI/Core/CurvedUIRaycaster.cs:297-512 | a point is produced exactly when there is a hit and, with event data overridden, the hit collider is the canvas's own |
| CanvasMapping.Raycast | DDES9902_Exercises-main_/Assets/CurvedUI/Core/CurvedUIRaycaster.cs:177-293 | without settings data passes through; a non-interactable canvas or missing camera skips; a flat canvas passes through; a curved one skips without a hit and otherwise rewrites the position and reports pointing at the canvas |
| CanvasMapping.RaycastKeepsEarlierPress | DDES9902_Exercises-main_/Assets/CurvedUI/Core/CurvedUIRaycaster.cs:273-280 | the press position is moved with the pointer only when it equalled the position |
| GazeClick.SelectionDiffers | DDES9902_Exercises-main_/Assets/CurvedUI/Core/CurvedUIRaycaster.cs:142-156 | the selection changed exactly when the previous frame had nothing, the counts differ, or some element differs |
| GazeClick.Reset | DDES9902_Exercises-main_/Assets/CurvedUI/Core/CurvedUIRaycaster.cs:166-170 | a reset sets the change time to now and clears the executed flag, and touches nothing else |
| GazeClick.ProcessTimedClick | DDES9902_Exercises-main_/Assets/CurvedUI/Core/CurvedUIRaycaster.cs:134-164 | a changed selection resets; otherwise a click fires exactly when none was executed since the reset and now is past change time + timer + delay |
| GazeClick.Selectables | DDES9902_Exercises-main_/Assets/CurvedUI/Core/CurvedUIRaycaster.cs:101-104 | the gazed list holds exactly the interactable selectables under the pointer; an empty list gives an empty list, and a single object gives itself when accepted and nothing otherwise |
| GazeClick.SelectablesAppend | DDES9902_Exercises-main_/Assets/CurvedUI/Core/CurvedUIRaycaster.cs:101-104 | the filter distributes over concatenation, so it keeps the accepted objects in order and with their repetitions, which the position-by-position selection comparison depends on |
| GazeClick.Update | DDES9902_Exercises-main_/Assets/CurvedUI/Core/CurvedUIRaycaster.cs:81-128 | when timed click is off nothing happens; entering the canvas resets; leaving it resets; a click is only possible while pointing at the canvas |
| GazeClick.ProgressFill | DDES9902_Exercises-main_/Assets/CurvedUI/Core/CurvedUIRaycaster.cs:111-112 | the fill is within [0, 1]: 0 during the delay and 1 once timer and delay have elapsed |
| GazeClick.ClickAtMostOncePerReset | DDES9902_Exercises-main_/Assets/CurvedUI/Core/CurvedUIRaycaster.cs:134-170 | over any run of frames the clicks never exceed the resets plus one |
| Hierarchy.ChainLinks | DDES9902_Exercises-main_/Assets/CurvedUI/Core/CurvedUIRaycaster.cs:1027-1045 | the ancestor chain starts at the object and each next entry is the parent of the previous one |
| Hierarchy.NearestCommon | DDES9902_Exercises-main_/Assets/CurvedUI/Core/CurvedUIRaycaster.cs:1032-1044 | the result, when there is one, is in both chains and is the first entry of the first chain found in the second; none when they share nothing |
| Hierarchy.CommonRoot | DDES9902_Exercises-main_/Assets/CurvedUI/Core/CurvedUIRaycaster.cs:1027-1045 | null when either object is null; otherwise the nearest ancestor-or-self of the first that is an ancestor-or-self of the second |
| Hierarchy.FindCommonRoot | DDES9902_Exercises-main_/Assets/CurvedUI/Core/CurvedUIRaycaster.cs:1027-1045 | the nested loops return the common root |
| Hierarchy.NearestCommonIsFirst | DDES9902_Exercises-main_/Assets/CurvedUI/Core/CurvedUIRaycaster.cs:1032-1044 | the first entry of the first chain that occurs in the second is the one returned |
| InputModule.GetFramePressedState | DDES9902_Exercises-main_/Assets/CurvedUI/Core/CurvedUIInputModule.cs:108-113 | Pressed exactly on a down edge, Released exactly on an up edge, NotChanged otherwise; never both |
| InputModule.PressStatesAt | DDES9902_Exercises-main_/Assets/CurvedUI/Core/CurvedUIInputModule.cs:108-113 | over a run the state of each frame compares its button with the previous frame's |
| InputModule.HeldButton | DDES9902_Exercises-main_/Assets/CurvedUI/Core/CurvedUIInputModule.cs:108-113 | a button held from a released start gives one Pressed and then NotChanged |
| InputModule.PressedTwiceReleasedBetween | DDES9902_Exercises-main_/Assets/CurvedUI/Core/CurvedUIInputModule.cs:108-113 | between two Pressed frames there is a Released frame |
| InputModule.SetPointerPress | DDES9902_Exercises-main_/Assets/CurvedUI/Core/CurvedUIInputModule.cs:265 | setting a new press target remembers the old one as the last press |
| InputModule.Press | DDES9902_Exercises-main_/Assets/CurvedUI/Core/CurvedUIInputModule.cs:240-273 | on press the click count goes up when the target equals the last press within 0.28 s and is 1 otherwise; the click time becomes now; press, raw press, drag target and eligibility are set |
| InputModule.Release | DDES9902_Exercises-main_/Assets/CurvedUI/Core/CurvedUIInputModule.cs:276-296 | a click is sent exactly when the press target is the click handler and the pointer is still eligible; afterwards eligibility, press, raw press, dragging and the drag target are cleared |
| InputModule.ProcessButton | DDES9902_Exercises-main_/Assets/CurvedUI/Core/CurvedUIInputModule.cs:236-297 | Pressed runs the press branch, Released the release branch, anything else does nothing |
| InputModule.DoubleClick | DDES9902_Exercises-main_/Assets/CurvedUI/Core/CurvedUIInputModule.cs:256-260 | two presses on the same target within the window count 2 |
| InputModule.ShouldStartDrag | DDES9902_Exercises-main_/Assets/CurvedUI/Core/CurvedUIInputModule.cs:373-378 | without the threshold a drag always starts; with it, exactly when the squared distance from the press reaches the squared threshold, so always for threshold 0 |
| InputModule.ShouldStartDragLaws | DDES9902_Exercises-main_/Assets/CurvedUI/Core/CurvedUIInputModule.cs:373-378 | without a threshold, or with threshold 0, a drag starts; inside the threshold circle it does not |
| InputModule.ProcessDrag | DDES9902_Exercises-main_/Assets/CurvedUI/Core/CurvedUIInputModule.cs:299-328 | nothing without a drag target or movement; dragging starts by the threshold rule; while dragging a press target other than the drag target is released and loses eligibility |
| InputModule.ProcessMove | DDES9902_Exercises-main_/Assets/CurvedUI/Core/CurvedUIInputModule.cs:188-234 | a null target exits every hovered object and clears the hover; an unchanged target changes nothing; afterwards the pointer-enter object is the target |
| InputModule.MoveEntersChain | DDES9902_Exercises-main_/Assets/CurvedUI/Core/CurvedUIInputModule.cs:210-232 | entering a new target ends with the target's chain below the common root appended to the hovered list and entered, nearest first; coming from no object, everything hovered is exited first and the whole chain entered |
| InputModule.MoveBetween | DDES9902_Exercises-main_/Assets/CurvedUI/Core/CurvedUIInputModule.cs:210-232 | a move from one object to another exits the old chain below the common root, then enters the new chain below it; the exited objects leave the hovered list and the entered ones are appended |
| InputModule.MoveExitsChain | DDES9902_Exercises-main_/Assets/CurvedUI/Core/CurvedUIInputModule.cs:213-220 | the first events of such a move are the exits of the old object's chain below the common root, nearest first |
| InputModule.MoveSkipsCommonRoot | DDES9902_Exercises-main_/Assets/CurvedUI/Core/CurvedUIInputModule.cs:210-232 | the common root of the old and new object gets neither a pointer-exit nor a pointer-enter |
| InputModule.ProcessScroll | DDES9902_Exercises-main_/Assets/CurvedUI/Core/CurvedUIInputModule.cs:330-337 | a scroll event goes to the scroll handler exactly when the scroll delta is not approximately zero and a handler exists |
| InputModule.Approximately | DDES9902_Exercises-main_/Assets/CurvedUI/Core/CurvedUIInputModule.cs:333 | equal values are approximately equal, and so are values closer than 8 machine epsilons |
| InputModule.ApproximatelySymmetric | DDES9902_Exercises-main_/Assets/CurvedUI/Core/CurvedUIInputModule.cs:333 | approximate equality does not depend on the order of its arguments |
| InputModule.GetActiveControlMethodSettings | DDES9902_Exercises-main_/Assets/CurvedUI/Core/CurvedUIInputModule.cs:465-466 | a code in the dictionary gives its method; any other code falls back to the mouse |
| InputModule.ControlMethodLookupInvertsCode | DDES9902_Exercises-main_/Assets/CurvedUI/Core/CurvedUIInputModule.cs:41-50 | the dictionary maps each method's code back to that method |
| InputModule.GetEventRay | DDES9902_Exercises-main_/Assets/CurvedUI/Core/CurvedUIInputModule.cs:542-549 | a pointer override gives its own ray; otherwise the active control method's ray from the event camera, or from the main event camera when the event camera is missing |
| InputModule.MissingCameraIsMainCamera | DDES9902_Exercises-main_/Assets/CurvedUI/Core/CurvedUIInputModule.cs:542-549 | a missing event camera behaves exactly as if the main event camera had been given; a present one makes the main camera irrelevant |
| InputModule.GazeEventRay | DDES9902_Exercises-main_/Assets/CurvedUI/Core/CurvedUIInputModule.cs:542-549 | under gaze control the ray is the event camera's forward ray, else the main camera's, else the default ray |
| InputModule.Process | DDES9902_Exercises-main_/Assets/CurvedUI/Core/CurvedUIInputModule.cs:118-152 | each frame records the button as last frame's state, computes the frame state from the edge, raycasts and, on release, clears the press data |
| InputModule.GazeNeverPresses | DDES9902_Exercises-main_/Assets/CurvedUI/Core/CurvedUIInputModule.cs:118-152 | driven by the gaze method the module never sees a press |
| InputModule.RunIsPressStates | DDES9902_Exercises-main_/Assets/CurvedUI/Core/CurvedUIInputModule.cs:118-152 | over a run of frames the button states are exactly the edge states of the button sequence |
| TmpIntegration.CreateUIVertexList | DDES9902_Exercises-main_/Assets/CurvedUI/Core/Integrations/CurvedUITMP.cs:169-202 | the list ends as long as the mesh, entry i has mesh vertex i as position, kept entries keep their other attributes and new ones start from the default |
| TmpIntegration.FillVertices | DDES9902_Exercises-main_/Assets/CurvedUI/Core/Integrations/CurvedUITMP.cs:216-247 | 65536 or more entries refuse and leave the mesh alone; a list that fits writes its positions; a longer one runs past the array |
| TmpIntegration.FillMeshWithUIVertexList | DDES9902_Exercises-main_/Assets/CurvedUI/Core/Integrations/CurvedUITMP.cs:216-247 | the loop writes position i into slot i for every list entry and leaves later slots unchanged; past the array it stops with the slots written so far |
| TmpIntegration.ListRoundTrip | DDES9902_Exercises-main_/Assets/CurvedUI/Core/Integrations/CurvedUITMP.cs:169-247 | reading a mesh into the list and writing it back unchanged gives the mesh's vertices |
| TmpIntegration.ShouldTesselate | DDES9902_Exercises-main_/Assets/CurvedUI/Core/Integrations/CurvedUITMP.cs:276-298 | a cylinder moved only along its axis does not re-tessellate; any other shape does once the move is no longer almost equal |
| TmpIntegration.UnchangedDoesNotTesselate | DDES9902_Exercises-main_/Assets/CurvedUI/Core/Integrations/CurvedUITMP.cs:276-298 | an unchanged transform never asks for tessellation |
| TmpIntegration.TextChanged | DDES9902_Exercises-main_/Assets/CurvedUI/Core/Integrations/CurvedUITMP.cs:305-310 | only a change of the component's own text asks for tessellation |
| TmpIntegration.MaterialDirty | DDES9902_Exercises-main_/Assets/CurvedUI/Core/Integrations/CurvedUITMP.cs:312-316 | a dirty material asks for both tessellation and curving |
| TmpIntegration.FindSubmeshes | DDES9902_Exercises-main_/Assets/CurvedUI/Core/Integrations/CurvedUITMP.cs:266-274 | existing submeshes stay in order, every child is included, and nothing else is added |
| TmpIntegration.FindSubmeshesNoDuplicates | DDES9902_Exercises-main_/Assets/CurvedUI/Core/Integrations/CurvedUITMP.cs:266-274 | no submesh is added twice, and finding again adds nothing |
| TmpIntegration.LateUpdate | DDES9902_Exercises-main_/Assets/CurvedUI/Core/Integrations/CurvedUITMP.cs:99-161 | a rebuild happens exactly when forced, needed or curving outside play mode; after it all three flags are false and the transform is saved; empty text clears the renderer |
| TmpIntegration.RebuildSettles | DDES9902_Exercises-main_/Assets/CurvedUI/Core/Integrations/CurvedUITMP.cs:113-148 | in play mode and in edit mode, a rebuild is not repeated the next frame when nothing changed |
| TmpIntegration.FailedWriteBackRetries | DDES9902_Exercises-main_/Assets/CurvedUI/Core/Integrations/CurvedUITMP.cs:113-148 | when the write-back runs past the array the flags stay set, so the next frame rebuilds again |
| DefineSymbols.AddStep | DDES9902_Exercises-main_/Assets/CurvedUI/Core/Utilities/Editor/DefineSymbolUtility.cs:24 | a symbol is appended as ";" + symbol unless it is empty or already a substring |
| DefineSymbols.AddDefineSymbolIfMissing | DDES9902_Exercises-main_/Assets/CurvedUI/Core/Utilities/Editor/DefineSymbolUtility.cs:10-29 | the original string is a prefix of the result and every requested symbol occurs in it |
| DefineSymbols.AddKeepsPrefix | DDES9902_Exercises-main_/Assets/CurvedUI/Core/Utilities/Editor/DefineSymbolUtility.cs:19-28 | adding only appends |
| DefineSymbols.AddContainsAll | DDES9902_Exercises-main_/Assets/CurvedUI/Core/Utilities/Editor/DefineSymbolUtility.cs:21-25 | every requested symbol is a substring of the result |
| DefineSymbols.AddIdempotent | DDES9902_Exercises-main_/Assets/CurvedUI/Core/Utilities/Editor/DefineSymbolUtility.cs:21-25 | adding the same symbols again changes nothing |
| DefineSymbols.AddExamples | DDES9902_Exercises-main_/Assets/CurvedUI/Core/Utilities/Editor/DefineSymbolUtility.cs:24 | a symbol inside a longer one counts as present; a symbol requested twice is appended once |
| DefineSymbols.ContainsDefineSymbol | DDES9902_Exercises-main_/Assets/CurvedUI/Core/Utilities/Editor/DefineSymbolUtility.cs:31-35 | a raw substring test: true exactly when the symbol occurs anywhere in the string, so in particular for a leading symbol and for the empty symbol, and never when the symbol is longer than the string |
| DefineSymbols.ListedSymbolIsContained | DDES9902_Exercises-main_/Assets/CurvedUI/Core/Utilities/Editor/DefineSymbolUtility.cs:31-35 | every symbol of the list is found |
| DefineSymbols.InsideLongerSymbol | DDES9902_Exercises-main_/Assets/CurvedUI/Core/Utilities/Editor/DefineSymbolUtility.cs:34 | a symbol that only ends a longer listed symbol is reported present though it is not in the list |
| DefineSymbols.SpanningSeparator | DDES9902_Exercises-main_/Assets/CurvedUI/Core/Utilities/Editor/DefineSymbolUtility.cs:34 | text that spans a separator is reported present though it is not a symbol |
| DefineSymbols.ContainsDefineSymbolExample | DDES9902_Exercises-main_/Assets/CurvedUI/Core/Utilities/Editor/DefineSymbolUtility.cs:34 | "CURVEDUI" is found in "MY_CURVEDUI" |
| DefineSymbols.JoinSplit | DDES9902_Exercises-main_/Assets/CurvedUI/Core/Utilities/Editor/DefineSymbolUtility.cs:43-44 | joining the split pieces with ";" gives the string back |
| DefineSymbols.SplitJoin | DDES9902_Exercises-main_/Assets/CurvedUI/Core/Utilities/Editor/DefineSymbolUtility.cs:43-44 | splitting a join of separator-free pieces gives the pieces back |
| DefineSymbols.Candidates | DDES9902_Exercises-main_/Assets/CurvedUI/Core/Utilities/Editor/DefineSymbolUtility.cs:43-46 | the candidates are exactly the pieces that start with the prefix |
| DefineSymbols.Replace | DDES9902_Exercises-main_/Assets/CurvedUI/Core/Utilities/Editor/DefineSymbolUtility.cs:51-52 | an empty value to replace is an argument error; otherwise a string without it is unchanged and deleting never lengthens |
| DefineSymbols.RemoveEach | DDES9902_Exercises-main_/Assets/CurvedUI/Core/Utilities/Editor/DefineSymbolUtility.cs:48-53 | the loop fails exactly when some candidate is empty and never lengthens the string |
| DefineSymbols.RemoveDefineSymbolsStartingWith | DDES9902_Exercises-main_/Assets/CurvedUI/Core/Utilities/Editor/DefineSymbolUtility.cs:39-57 | removal fails only on an empty candidate, so never for a non-empty prefix |
| DefineSymbols.ClearCurvedUIDefineSymbols | DDES9902_Exercises-main_/Assets/CurvedUI/Core/Utilities/Editor/DefineSymbolUtility.cs:37 | clearing never lengthens the string, and a string in which "CURVEDUI" occurs nowhere is returned unchanged |
| DefineSymbols.ClearExample | DDES9902_Exercises-main_/Assets/CurvedUI/Core/Utilities/Editor/DefineSymbolUtility.cs:37 | clearing "CURVEDUI_TMP;UNITY_CCU" leaves ";UNITY_CCU" |
| DefineSymbols.RemovalEatsInsideOtherSymbols | DDES9902_Exercises-main_/Assets/CurvedUI/Core/Utilities/Editor/DefineSymbolUtility.cs:48-53 | as written, removing "CURVEDUI" from "CURVEDUI;MY_CURVEDUI" leaves ";MY_" |
| DefineSymbols.RemoveSymbolsKeepsOthers | DDES9902_Exercises-main_/Assets/CurvedUI/Core/Utilities/Editor/DefineSymbolUtility.cs:39-57 | removal by whole symbol keeps every other symbol intact and in order |
| LayerMaskField.NatToStringRoundTrip | DDES9902_Exercises-main_/Assets/CurvedUI/Core/Editor/LayerMaskField.cs:31 | the printed layer number reads back as the number |
| LayerMaskField.LayerListUnique | DDES9902_Exercises-main_/Assets/CurvedUI/Core/Editor/LayerMaskField.cs:24-45 | at most one list is index-aligned with the layer names, stops at the highest named layer and leaves nothing named above it |
| LayerMaskField.FillPending | DDES9902_Exercises-main_/Assets/CurvedUI/Core/Editor/LayerMaskField.cs:31 | once a named layer turns up, every unnamed layer below it since the last named one gets its "Layer i" name, so the list stays index-aligned up to that layer |
| LayerMaskField.CollectLayers | DDES9902_Exercises-main_/Assets/CurvedUI/Core/Editor/LayerMaskField.cs:24-38 | the loop over the 32 layers builds the one list that is index-aligned with the layer names and stops at the highest named layer |
| LayerMaskField.BuildLayerNames | DDES9902_Exercises-main_/Assets/CurvedUI/Core/Editor/LayerMaskField.cs:12-50 | at most 32 entries; entry i is the layer name or "Layer i"; the length is the highest named layer + 1, or 0; the result does not depend on the previous names |

## Left out

- Trigonometric curving of vertices and `AngleSigned`: float trigonometry. The curve is a function parameter and the hit angle an input.
- Vector magnitudes (a square root): edge lengths are inputs tied to the squared magnitudes.
- `Physics.Raycast`, transforms, `WorldToScreenPoint` and collider creation: engine physics and the scene graph. The hit is an input, and `CreateCollider` returns a plan of which collider to build.
- The convex cylinder collider's child boxes (`CreateConvexCyllinderCollider`): transform and trigonometry placement only.
- `GetScreenSpacePointByRay`, `UpdateSelectedObjects`, the raycaster's own `HandlePointerExitAndEnter` and the `Click` dispatch, including the slider branch: engine event dispatch and graphic lookup. Only the gaze decision to click is modelled.
- The legacy input path of the input module (`ProcessMouseEvent` and related methods): it duplicates the new-input logic on top of the standalone module.
- The singleton, camera discovery, the SDK control-method shims, editor inspectors and the input-field caret: global state, foreign SDKs and UI.
- Floating-point NaN, infinities and rounding: reals are exact. `Remap` requires distinct source ends, where the code would divide by zero.
- InputModule.Process: `pointerPressRaycast` and `pointerCurrentRaycast` details are not modelled. The scroll delta is never written by the module, so it is carried through unchanged.
- InputModule.Process: the object pointed at is the previous frame's raycast result, as written; the model keeps this one-frame lag.
- TmpIntegration.LateUpdate: TextMeshPro's own mesh generation and `ForceMeshUpdate` are inputs (the freshly generated flat mesh), and submesh updates are not modelled.
- LayerMaskField.BuildLayerNames: the `EditorGUILayout.MaskField` call that shows the list and edits the mask is not modelled.

## Findings

| source | as written | input that shows it | evidently intended | confidence | as-written member | corrected member |
|---|---|---|---|---|---|---|
| DDES9902_Exercises-main_/Assets/CurvedUI/Core/CurvedUIExtensionMethods.cs:41 | `CeilToInt` calls `FloorToInt` | 0.5 gives 0 | the ceiling, 1 | high, not executed | ExtensionMethods.CeilToIntIsNotCeiling | Tessellation.QuadCount |
| DDES9902_Exercises-main_/Assets/CurvedUI/Core/Utilities/Editor/DefineSymbolUtility.cs:48-53 | each candidate symbol is deleted as a substring of the whole string | "CURVEDUI;MY_CURVEDUI" with prefix "CURVEDUI" gives ";MY_" | only symbols that start with the prefix are removed; "MY_CURVEDUI" survives | medium, not executed | DefineSymbols.RemovalEatsInsideOtherSymbols | DefineSymbols.RemoveSymbolsKeepsOthers |

`Tessellation.QuadCount` uses the true ceiling, which is what `ModifyQuad` gets from `Mathf.CeilToInt`. `DefineSymbols.RemoveSymbolsStartingWith` removes whole `;`-separated symbols. It also drops the separator that the as-written removal leaves behind.
