/** The TextMeshPro integration: keeping a list of UI vertices in step with
    the text mesh, writing curved positions back, and deciding when the text
    must be rebuilt. Text generation, the curving effect and rendering are
    inputs. */
module TmpIntegration {
  import opened Unity
  import opened Wrappers
  import opened Settings
  import opened ExtensionMethods

  /** A UI vertex. Only the position is copied between the mesh and the list;
      the other attributes stay as they were. */
  datatype UIVertex = UIVertex(position: Vec3, color: int, uv0: Vec2, normal: Vec3)

  /** `new UIVertex()`: every field zero. */
  const DefaultVertex := UIVertex(Zero3, 0, Zero2, Zero3)

  // ---------------------------------------------------------------- vertex list

  /** The list `CreateUIVertexList` leaves: one entry per mesh vertex, holding
      that vertex's position; entries that already existed keep their other
      attributes, new ones start from the default vertex. */
  function UIVertexList(uiVerts: seq<UIVertex>, meshVertices: seq<Vec3>): (r: seq<UIVertex>)
    ensures |r| == |meshVertices|
  {
    seq(|meshVertices|, i requires 0 <= i < |meshVertices| =>
      (if i < |uiVerts| then uiVerts[i] else DefaultVertex).(position := meshVertices[i]))
  }

  /** `CreateUIVertexList`: trim the list to the mesh's vertex count, then
      overwrite or append each position. Also returns the cached copy of the
      mesh's vertex array. */
  method CreateUIVertexList(uiVerts: seq<UIVertex>, meshVertices: seq<Vec3>) returns (r: seq<UIVertex>, vertices: seq<Vec3>)
    ensures r == UIVertexList(uiVerts, meshVertices) && vertices == meshVertices
    ensures |r| == |meshVertices|
    ensures forall i :: 0 <= i < |r| ==> r[i].position == meshVertices[i]
    ensures forall i :: 0 <= i < |r| && i < |uiVerts| ==> r[i] == uiVerts[i].(position := meshVertices[i])
  {
    r := uiVerts;
    if |meshVertices| < |r| {
      r := r[..|meshVertices|];
    }
    vertices := meshVertices;
    var i := 0;
    while i < |meshVertices|
      invariant 0 <= i <= |meshVertices|
      invariant |r| == if i < |uiVerts| then (if |uiVerts| < |meshVertices| then |uiVerts| else |meshVertices|) else i
      invariant forall j :: 0 <= j < i ==> r[j] == UIVertexList(uiVerts, meshVertices)[j]
      invariant forall j :: i <= j < |r| ==> r[j] == uiVerts[j]
    {
      if |r| <= i {
        var v := DefaultVertex.(position := vertices[i]);
        r := r + [v];
      } else {
        var v := r[i].(position := vertices[i]);
        r := r[i := v];
      }
      i := i + 1;
    }
  }

  /** Unity meshes built by the UI hold fewer than 65536 vertices. */
  const MaxVertices: int := 65536

  /** Writing the list back: refused when the list is too long for a UI mesh
      (the mesh stays as it was); an index error when the cached vertex array
      is shorter than the list, after the positions that fit were written;
      otherwise the array with its first entries replaced. */
  datatype FillOutcome = Filled(vertices: seq<Vec3>) | TooManyVertices | IndexOutOfRange(partial: seq<Vec3>)

  function FillVertices(vertices: seq<Vec3>, list: seq<UIVertex>): (r: FillOutcome)
    ensures |list| >= MaxVertices ==> r == TooManyVertices
    ensures |list| < MaxVertices && |list| <= |vertices| ==> r.Filled? && |r.vertices| == |vertices|
    ensures |list| < MaxVertices && |list| > |vertices| ==> r.IndexOutOfRange? && |r.partial| == |vertices|
  {
    if |list| >= MaxVertices then TooManyVertices
    else
      var written := seq(|vertices|, i requires 0 <= i < |vertices| => if i < |list| then list[i].position else vertices[i]);
      if |list| <= |vertices| then Filled(written) else IndexOutOfRange(written)
  }

  /** `FillMeshWithUIVertexList`. */
  method FillMeshWithUIVertexList(vertices: seq<Vec3>, list: seq<UIVertex>) returns (r: FillOutcome)
    ensures r == FillVertices(vertices, list)
    ensures |list| >= MaxVertices ==> r == TooManyVertices
    ensures r.Filled? ==> (|r.vertices| == |vertices| &&
                           (forall i :: 0 <= i < |list| ==> r.vertices[i] == list[i].position) &&
                           (forall i :: |list| <= i < |vertices| ==> r.vertices[i] == vertices[i]))
    ensures r.IndexOutOfRange? ==> |list| > |vertices| && forall i :: 0 <= i < |vertices| ==> r.partial[i] == list[i].position
  {
    if |list| >= MaxVertices {
      return TooManyVertices;
    }
    var v := vertices;
    var i := 0;
    while i < |list|
      invariant 0 <= i <= |list| && |v| == |vertices| && i <= |v|
      invariant forall j :: 0 <= j < |v| ==> v[j] == if j < i then list[j].position else vertices[j]
    {
      if i >= |v| {
        assert forall j :: 0 <= j < |v| ==> v[j] == list[j].position;
        return IndexOutOfRange(v);
      }
      v := v[i := list[i].position];
      i := i + 1;
    }
    assert v == FillVertices(vertices, list).vertices;
    return Filled(v);
  }

  /** Reading a mesh into the list and writing the list back unchanged gives
      the mesh's own vertices. */
  lemma ListRoundTrip(uiVerts: seq<UIVertex>, meshVertices: seq<Vec3>)
    requires |meshVertices| < MaxVertices
    ensures FillVertices(meshVertices, UIVertexList(uiVerts, meshVertices)) == Filled(meshVertices)
  {
    var r := FillVertices(meshVertices, UIVertexList(uiVerts, meshVertices));
    assert r.vertices == meshVertices;
  }

  // ---------------------------------------------------------------- change detection

  /** The transform values compared between frames, in the settings' local
      space: rect size, local and global scale, up direction and position. */
  datatype TransformSample = TransformSample(size: Vec2, localScale: Vec3, globalScale: Vec3, up: Vec3, position: Vec3)

  function Square(x: real): (r: real)
    ensures r >= 0.0
  {
    SquareNonNeg(x);
    x * x
  }

  lemma SquareNonNeg(x: real)
    ensures x * x >= 0.0
  {
    if x < 0.0 {
      assert x * x == (-x) * (-x);
    }
  }

  /** `ShouldTesselate`: any change of size or scale (engine equality), a
      turned up vector, or a moved position. A cylinder does not re-tessellate
      for a move whose x and z offsets are both tiny, that is a move along its
      axis. */
  function ShouldTesselate(saved: TransformSample, current: TransformSample, shape: Shape): (r: bool)
    ensures r && VecEq2(saved.size, current.size) && VecEq3(saved.localScale, current.localScale) &&
            VecEq3(saved.globalScale, current.globalScale) && AlmostEqual(saved.up, current.up) ==>
              !AlmostEqual(saved.position, current.position)
    ensures shape != Cylinder && !AlmostEqual(saved.position, current.position) ==> r
    ensures (shape == Cylinder && VecEq2(saved.size, current.size) && VecEq3(saved.localScale, current.localScale) &&
             VecEq3(saved.globalScale, current.globalScale) && AlmostEqual(saved.up, current.up) &&
             Square(current.position.x - saved.position.x) <= 0.00001 &&
             Square(current.position.z - saved.position.z) <= 0.00001) ==> !r
  {
    if !VecEq2(saved.size, current.size) then true
    else if !VecEq3(saved.localScale, current.localScale) then true
    else if !VecEq3(saved.globalScale, current.globalScale) then true
    else if !AlmostEqual(saved.up, current.up) then true
    else if !AlmostEqual(saved.position, current.position) then
      shape != Cylinder ||
      Square(current.position.x - saved.position.x) > 0.00001 ||
      Square(current.position.z - saved.position.z) > 0.00001
    else false
  }

  lemma SameVectorIsEqual(v: Vec3)
    ensures VecEq3(v, v) && AlmostEqual(v, v)
  {
    assert Sub(v, v) == Vec3(0.0, 0.0, 0.0);
  }

  lemma SameVector2IsEqual(v: Vec2)
    ensures VecEq2(v, v)
  {
    assert Sub2(v, v) == Vec2(0.0, 0.0);
  }

  /** An unchanged transform never asks for tessellation. */
  lemma UnchangedDoesNotTesselate(t: TransformSample, shape: Shape)
    ensures !ShouldTesselate(t, t, shape)
  {
    SameVectorIsEqual(t.localScale);
    SameVectorIsEqual(t.globalScale);
    SameVectorIsEqual(t.up);
    SameVectorIsEqual(t.position);
    SameVector2IsEqual(t.size);
  }

  // ---------------------------------------------------------------- frame

  datatype Flags = Flags(dirty: bool, curvingRequired: bool, tesselationRequired: bool)

  /** The text-changed callback: only a change of this component's own text
      asks for tessellation. */
  function TextChanged(f: Flags, changed: Obj, ownText: Obj): (r: Flags)
    ensures changed == ownText ==> r == f.(tesselationRequired := true)
    ensures changed != ownText ==> r == f
  {
    if changed != ownText then f else f.(tesselationRequired := true)
  }

  /** The dirty-material callback: tessellate and curve again. */
  function MaterialDirty(f: Flags): (r: Flags)
    ensures r.tesselationRequired && r.curvingRequired && r.dirty == f.dirty
  {
    f.(tesselationRequired := true, curvingRequired := true)
  }

  /** `FindSubmeshes`: each child submesh added once. */
  function FindSubmeshes(subMeshes: seq<Obj>, children: seq<Obj>): (r: seq<Obj>)
    ensures |r| >= |subMeshes| && r[..|subMeshes|] == subMeshes
    ensures forall c :: c in children ==> c in r
    ensures forall x :: x in r ==> x in subMeshes || x in children
    decreases |children|
  {
    if |children| == 0 then subMeshes
    else
      var next := if children[0] in subMeshes then subMeshes else subMeshes + [children[0]];
      var r := FindSubmeshes(next, children[1..]);
      assert forall c :: c in children ==> c == children[0] || c in children[1..];
      assert r[..|subMeshes|] == next[..|subMeshes|];
      assert children[0] in next;
      assert r[..|next|] == next;
      assert forall x :: x in next ==> x in r[..|next|];
      r
  }

  predicate NoDuplicates(s: seq<Obj>)
  {
    forall i, j :: 0 <= i < j < |s| ==> s[i] != s[j]
  }

  /** A list without duplicates stays without duplicates, and finding the
      same children again adds nothing. */
  lemma {:induction false} FindSubmeshesNoDuplicates(subMeshes: seq<Obj>, children: seq<Obj>)
    requires NoDuplicates(subMeshes)
    ensures NoDuplicates(FindSubmeshes(subMeshes, children))
    ensures FindSubmeshes(FindSubmeshes(subMeshes, children), children) == FindSubmeshes(subMeshes, children)
    decreases |children|
  {
    if |children| > 0 {
      var next := if children[0] in subMeshes then subMeshes else subMeshes + [children[0]];
      FindSubmeshesNoDuplicates(next, children[1..]);
    }
    assert forall i :: 0 <= i < |children| ==> children[i] in children;
    AllPresentAddsNothing(FindSubmeshes(subMeshes, children), children);
  }

  lemma {:induction false} AllPresentAddsNothing(subMeshes: seq<Obj>, children: seq<Obj>)
    requires forall i :: 0 <= i < |children| ==> children[i] in subMeshes
    ensures FindSubmeshes(subMeshes, children) == subMeshes
    decreases |children|
  {
    if |children| > 0 {
      assert children[0] in subMeshes;
      AllPresentAddsNothing(subMeshes, children[1..]);
    }
  }

  /** What the component keeps between frames. */
  datatype TmpState = TmpState(
    flags: Flags,
    uiVerts: seq<UIVertex>,
    vertices: seq<Vec3>,
    saved: TransformSample,
    savedText: string,
    subMeshes: seq<Obj>)

  /** What the frame sees: whether the settings and the text component are
      there, whether the object is being destroyed, play mode, the shape, the
      current transform, the text, the freshly generated flat mesh and the
      child submeshes. */
  datatype TmpEnv = TmpEnv(
    hasSettings: bool,
    hasText: bool,
    quitting: bool,
    isPlaying: bool,
    shape: Shape,
    current: TransformSample,
    text: string,
    flatMesh: seq<Vec3>,
    childSubmeshes: seq<Obj>)

  datatype Upload = NoUpload | SetMesh(vertices: seq<Vec3>) | ClearRenderer

  /** One frame: the state after it, whether the mesh was rebuilt, whether the
      write-back threw (which ends the frame there), and what was uploaded. */
  datatype TmpFrame = TmpFrame(state: TmpState, rebuilt: bool, threw: bool, upload: Upload)

  /** Whether the frame runs at all: the settings and the text are there and
      the object is not being destroyed. */
  predicate Active(env: TmpEnv)
  {
    env.hasSettings && env.hasText && !env.quitting
  }

  /** Whether `LateUpdate` rebuilds: forced, tessellation needed (flagged or
      detected now), or curving needed outside play mode. */
  predicate Rebuilds(st: TmpState, env: TmpEnv)
  {
    Active(env) &&
    (st.flags.dirty || st.flags.tesselationRequired || ShouldTesselate(st.saved, env.current, env.shape) ||
     (st.flags.curvingRequired && !env.isPlaying))
  }

  /** `LateUpdate`. A rebuild reads the flat mesh into the list, lets the
      curving effect (`curve`) change it and writes it back into the cached
      vertex array; if that write runs past the array, the exception ends the
      frame with the flags still set. Otherwise the current transform and text
      are saved, all three flags cleared and the submesh list refreshed. The
      mesh is then uploaded, or the renderer cleared for empty text. */
  function LateUpdate(st: TmpState, env: TmpEnv, curve: seq<UIVertex> -> seq<UIVertex>): (r: TmpFrame)
    ensures r.rebuilt <==> Rebuilds(st, env)
    ensures r.threw ==> r.rebuilt && r.upload == NoUpload && r.state.saved == st.saved &&
                        r.state.flags == st.flags.(tesselationRequired := st.flags.tesselationRequired ||
                                                                          ShouldTesselate(st.saved, env.current, env.shape))
    ensures r.rebuilt && !r.threw ==> r.state.flags == Flags(false, false, false) && r.state.saved == env.current &&
                                      r.state.savedText == env.text
    ensures Active(env) && !r.rebuilt ==>
              r.state == st.(flags := st.flags.(tesselationRequired := st.flags.tesselationRequired ||
                                                                      ShouldTesselate(st.saved, env.current, env.shape)))
    ensures !Active(env) ==> r == TmpFrame(st, false, false, NoUpload)
    ensures r.upload.ClearRenderer? <==> Active(env) && !r.threw && |env.text| == 0
    ensures r.upload.SetMesh? && !r.rebuilt ==> r.upload.vertices == st.vertices
  {
    if !Active(env) then TmpFrame(st, false, false, NoUpload)
    else
      var tess := st.flags.tesselationRequired || ShouldTesselate(st.saved, env.current, env.shape);
      var st1 := st.(flags := st.flags.(tesselationRequired := tess));
      var rebuilt := st1.flags.dirty || tess || (st1.flags.curvingRequired && !env.isPlaying);
      if !rebuilt then
        TmpFrame(st1, false, false, if |env.text| > 0 then SetMesh(st1.vertices) else ClearRenderer)
      else
        var list := curve(UIVertexList(st1.uiVerts, env.flatMesh));
        var outcome := FillVertices(env.flatMesh, list);
        if outcome.IndexOutOfRange? then
          TmpFrame(st1.(uiVerts := list, vertices := outcome.partial), true, true, NoUpload)
        else
          var mesh := if outcome.Filled? then outcome.vertices else env.flatMesh;
          var st2 := TmpState(Flags(false, false, false), list, mesh, env.current, env.text,
                              FindSubmeshes(st1.subMeshes, env.childSubmeshes));
          TmpFrame(st2, true, false, if |env.text| > 0 then SetMesh(mesh) else ClearRenderer)
  }

  /** When the curved list does not fit the cached array, every later frame
      tries again. */
  lemma FailedWriteBackRetries(st: TmpState, env: TmpEnv, curve: seq<UIVertex> -> seq<UIVertex>)
    requires LateUpdate(st, env, curve).threw
    ensures LateUpdate(LateUpdate(st, env, curve).state, env, curve).rebuilt
  {
  }

  /** After a rebuild, a frame with the same transform and no callback in
      between does not rebuild again, in play mode and in edit mode alike. */
  lemma RebuildSettles(st: TmpState, env: TmpEnv, curve: seq<UIVertex> -> seq<UIVertex>)
    requires LateUpdate(st, env, curve).rebuilt && !LateUpdate(st, env, curve).threw
    ensures !LateUpdate(LateUpdate(st, env, curve).state, env, curve).rebuilt
  {
    UnchangedDoesNotTesselate(env.current, env.shape);
  }
}
