/** Mapping a physics hit on the curved collider back onto flat canvas
    coordinates, per shape, and the raycaster's use of that mapping. The
    angles between the hit direction and the canvas axes (`AngleSigned`), the
    hit point's distance from the centre, and the projection to screen space
    are inputs. */
module CanvasMapping {
  import opened Unity
  import opened Wrappers
  import opened Settings
  import opened ExtensionMethods

  /** A physics hit, in canvas-local space. `ownedByCanvas` says whether the
      collider hit is this canvas's own or one of its box-collider children;
      `angle` is the signed horizontal angle of the hit seen from the shape's
      centre (for the vertical cylinder, the vertical one), `verticalAngle` the
      sphere's vertical angle and `distance` the ring's distance from its centre. */
  datatype Hit = Hit(localPoint: Vec3, ownedByCanvas: bool, angle: real, verticalAngle: real, distance: real)

  // ---------------------------------------------------------------- arithmetic

  lemma DivAdd(x: real, y: real, z: real)
    requires z != 0.0
    ensures (x + y) / z == x / z + y / z
  {
    assert (x / z) * z == x && (y / z) * z == y;
    assert (x / z + y / z) * z == x + y;
  }

  lemma DivMulComm(x: real, w: real, z: real)
    requires z != 0.0
    ensures x / z * w == x * w / z
  {
    assert (x / z) * z == x;
    assert (x / z * w) * z == x * w;
  }

  // ---------------------------------------------------------------- per shape

  /** Cylinder: the angle spans [-Angle/2, Angle/2] across the canvas width;
      the height is the hit's own local y. */
  function CylinderPoint(angle: real, canvasAngle: int, size: Vec2, localHit: Vec3): (r: Vec2)
    requires canvasAngle != 0
    ensures r.x == angle * size.x / canvasAngle as real
    ensures r.y == localHit.y
  {
    CylinderProportionalX(angle, canvasAngle, size.x);
    Vec2(Remap(angle, -canvasAngle as real / 2.0, canvasAngle as real / 2.0, -size.x / 2.0, size.x / 2.0), localHit.y)
  }

  /** The cylinder remap, written out: x = angle * width / Angle. */
  lemma CylinderProportionalX(angle: real, canvasAngle: int, width: real)
    requires canvasAngle != 0
    ensures Remap(angle, -canvasAngle as real / 2.0, canvasAngle as real / 2.0, -width / 2.0, width / 2.0) ==
              angle * width / canvasAngle as real
  {
    var a := canvasAngle as real;
    assert a / 2.0 - -a / 2.0 == a;
    DivAdd(angle, a / 2.0, a);
    assert (a / 2.0) / a == 0.5;
    DivMulComm(angle, width, a);
    assert (angle / a + 0.5) * width - width / 2.0 == angle / a * width;
  }

  /** The horizontal cylinder mapping is proportional: x = angle * width / Angle,
      so the centre of the arc is the centre of the canvas and its ends are the
      canvas edges. */
  lemma CylinderProportional(angle: real, canvasAngle: int, size: Vec2, localHit: Vec3)
    requires canvasAngle != 0
    ensures CylinderPoint(angle, canvasAngle, size, localHit).x == angle * size.x / canvasAngle as real
    ensures CylinderPoint(0.0, canvasAngle, size, localHit).x == 0.0
    ensures CylinderPoint(canvasAngle as real / 2.0, canvasAngle, size, localHit).x == size.x / 2.0
    ensures CylinderPoint(-canvasAngle as real / 2.0, canvasAngle, size, localHit).x == -size.x / 2.0
  {
  }

  /** Vertical cylinder: the same mapping along the other axis. */
  function CylinderVerticalPoint(angle: real, canvasAngle: int, size: Vec2, localHit: Vec3): (r: Vec2)
    requires canvasAngle != 0
    ensures r.x == localHit.x
    ensures r.y == angle * size.y / canvasAngle as real
  {
    CylinderProportionalX(angle, canvasAngle, size.y);
    Vec2(localHit.x, Remap(angle, -canvasAngle as real / 2.0, canvasAngle as real / 2.0, -size.y / 2.0, size.y / 2.0))
  }

  /** The vertical cylinder is the horizontal one with the axes exchanged. */
  lemma VerticalMirrorsCylinder(angle: real, canvasAngle: int, size: Vec2, localHit: Vec3)
    requires canvasAngle != 0
    ensures CylinderVerticalPoint(angle, canvasAngle, size, localHit) ==
              Vec2(localHit.x, CylinderPoint(angle, canvasAngle, Vec2(size.y, size.x), localHit).x)
    ensures CylinderVerticalPoint(angle, canvasAngle, size, localHit).y == angle * size.y / canvasAngle as real
  {
    CylinderProportional(angle, canvasAngle, Vec2(size.y, size.x), localHit);
  }

  /** Ring, x: a negative angle runs over [0, -Angle]; otherwise the angle is
      read from 360 down, over [360, 360 - Angle]. */
  function RingX(angle: real, canvasAngle: int, width: real): (r: real)
    requires canvasAngle != 0
    ensures var a := if angle < 0.0 then angle else angle - 360.0;
            r == Remap(a, 0.0, -canvasAngle as real, -width / 2.0, width / 2.0)
  {
    RemapShift(angle, 360.0, 360.0 - canvasAngle as real, -width / 2.0, width / 2.0, 360.0);
    if angle < 0.0 then Remap(angle, 0.0, -canvasAngle as real, -width / 2.0, width / 2.0)
    else Remap(angle, 360.0, 360.0 - canvasAngle as real, -width / 2.0, width / 2.0)
  }

  /** Shifting the value and the source range by the same amount does not change a remap. */
  lemma RemapShift(v: real, a: real, b: real, c: real, d: real, k: real)
    requires a != b
    ensures Remap(v - k, a - k, b - k, c, d) == Remap(v, a, b, c, d)
  {
  }

  /** Both branches of the ring mapping are one linear map of the angle taken
      into (-360, 0): a non-negative angle counts as that angle minus 360. The
      ring starts (-width/2) at angle 0 and ends (width/2) at -Angle. */
  lemma RingXOneMap(angle: real, canvasAngle: int, width: real)
    requires canvasAngle != 0
    ensures var a := if angle < 0.0 then angle else angle - 360.0;
            RingX(angle, canvasAngle, width) == Remap(a, 0.0, -canvasAngle as real, -width / 2.0, width / 2.0)
    ensures RingX(360.0, canvasAngle, width) == -width / 2.0
    ensures canvasAngle > 0 ==> RingX(-canvasAngle as real, canvasAngle, width) == width / 2.0
    ensures canvasAngle <= 360 ==> RingX(360.0 - canvasAngle as real, canvasAngle, width) == width / 2.0
  {
    RemapShift(angle, 360.0, 360.0 - canvasAngle as real, -width / 2.0, width / 2.0, 360.0);
    RemapEndpoints(0.0, -canvasAngle as real, -width / 2.0, width / 2.0);
    RemapEndpoints(360.0, 360.0 - canvasAngle as real, -width / 2.0, width / 2.0);
  }

  /** Ring, y: the distance from the centre runs from the inner radius
      D/2 * (1 - fill) to the outer radius D/2, onto [-h/2, h/2], the other way
      round when the ring is flipped vertically. */
  function RingY(distance: real, externalDiameter: int, fill: real, flip: bool, height: real): (r: real)
    requires externalDiameter != 0 && fill != 0.0
    ensures distance == externalDiameter as real * 0.5 ==> r == (if flip then -height / 2.0 else height / 2.0)
    ensures distance == externalDiameter as real * 0.5 * (1.0 - fill) ==> r == (if flip then height / 2.0 else -height / 2.0)
  {
    var sign := if flip then -1.0 else 1.0;
    var d := externalDiameter as real;
    assert d * 0.5 * (1.0 - fill) != d * 0.5;
    Remap(distance, d * 0.5 * (1.0 - fill), d * 0.5, -height * 0.5 * sign, height * 0.5 * sign)
  }

  /** The inner edge of the ring maps to the bottom of the canvas and the outer
      edge to the top (the reverse when flipped); flipping negates every y. */
  lemma RingYEnds(distance: real, externalDiameter: int, fill: real, height: real)
    requires externalDiameter != 0 && fill != 0.0
    ensures var inner := externalDiameter as real * 0.5 * (1.0 - fill);
            RingY(inner, externalDiameter, fill, false, height) == -height / 2.0 &&
            RingY(inner, externalDiameter, fill, true, height) == height / 2.0
    ensures RingY(externalDiameter as real * 0.5, externalDiameter, fill, false, height) == height / 2.0
    ensures RingY(externalDiameter as real * 0.5, externalDiameter, fill, true, height) == -height / 2.0
    ensures RingY(distance, externalDiameter, fill, true, height) == -RingY(distance, externalDiameter, fill, false, height)
  {
    var d := externalDiameter as real;
    assert d * 0.5 * (1.0 - fill) != d * 0.5;
    RemapEndpoints(d * 0.5 * (1.0 - fill), d * 0.5, -height * 0.5, height * 0.5);
    RemapEndpoints(d * 0.5 * (1.0 - fill), d * 0.5, -height * 0.5 * -1.0, height * 0.5 * -1.0);
  }

  /** The sphere's vertical angular half-size: derived from the horizontal one
      and the aspect ratio when the aspect is preserved, half the vertical angle
      otherwise. */
  function SphereVerticalHalfAngle(canvasAngle: int, verticalAngle: int, preserveAspect: bool, size: Vec2): real
    requires preserveAspect ==> size.x != 0.0
  {
    var hAngularSize := Abs(canvasAngle as real) * 0.5;
    Abs(if preserveAspect then hAngularSize * size.y / size.x else verticalAngle as real * 0.5)
  }

  /** What the sphere mapping needs so that neither remap divides by zero: a
      non-zero angle, and a non-zero vertical extent, which with the aspect
      preserved is derived from the size (so both sides must be non-zero) and
      otherwise is the vertical angle. Without the aspect preserved the width
      is only a target range, so a zero width is allowed and maps to x = 0. */
  predicate SphereDefined(canvasAngle: int, verticalAngle: int, preserveAspect: bool, size: Vec2)
  {
    canvasAngle != 0 && (if preserveAspect then size.x != 0.0 && size.y != 0.0 else verticalAngle != 0)
  }

  lemma SphereHalfAnglePositive(canvasAngle: int, verticalAngle: int, preserveAspect: bool, size: Vec2)
    requires SphereDefined(canvasAngle, verticalAngle, preserveAspect, size)
    ensures SphereVerticalHalfAngle(canvasAngle, verticalAngle, preserveAspect, size) > 0.0
  {
    if preserveAspect {
      var h := Abs(canvasAngle as real) * 0.5;
      assert h > 0.0;
      assert h * size.y != 0.0;
    }
  }

  /** Sphere: horizontal angle over [-|Angle|/2, |Angle|/2] onto the width,
      vertical angle over the vertical half-size onto the height. */
  function SpherePoint(hAngle: real, vAngle: real, canvasAngle: int, verticalAngle: int, preserveAspect: bool, size: Vec2): (r: Vec2)
    requires SphereDefined(canvasAngle, verticalAngle, preserveAspect, size)
    ensures hAngle == 0.0 && vAngle == 0.0 ==> r == Zero2
    ensures hAngle == Abs(canvasAngle as real) * 0.5 ==> r.x == size.x * 0.5
    ensures hAngle == -Abs(canvasAngle as real) * 0.5 ==> r.x == -size.x * 0.5
    ensures size.x == 0.0 ==> r.x == 0.0
  {
    var hAngularSize := Abs(canvasAngle as real) * 0.5;
    var vAngularSize := SphereVerticalHalfAngle(canvasAngle, verticalAngle, preserveAspect, size);
    SphereHalfAnglePositive(canvasAngle, verticalAngle, preserveAspect, size);
    RemapSymmetricOdd(hAngle, hAngularSize, size.x * 0.5);
    RemapSymmetricOdd(vAngle, vAngularSize, size.y * 0.5);
    Vec2(Remap(hAngle, -hAngularSize, hAngularSize, -size.x * 0.5, size.x * 0.5),
         Remap(vAngle, -vAngularSize, vAngularSize, -size.y * 0.5, size.y * 0.5))
  }

  /** A symmetric range onto a symmetric range is an odd map. */
  lemma RemapSymmetricOdd(v: real, a: real, c: real)
    requires a != 0.0
    ensures Remap(-v, -a, a, -c, c) == -Remap(v, -a, a, -c, c)
    ensures Remap(0.0, -a, a, -c, c) == 0.0
  {
    assert a - -a == 2.0 * a;
    DivAdd(v, a, 2.0 * a);
    DivAdd(-v, a, 2.0 * a);
    assert a / (2.0 * a) == 0.5;
    assert -v / (2.0 * a) == -(v / (2.0 * a));
  }

  /** Looking straight at the sphere's centre hits the canvas centre, and the
      mapping is point-symmetric about it. */
  lemma SphereSymmetric(hAngle: real, vAngle: real, canvasAngle: int, verticalAngle: int, preserveAspect: bool, size: Vec2)
    requires SphereDefined(canvasAngle, verticalAngle, preserveAspect, size)
    ensures SpherePoint(0.0, 0.0, canvasAngle, verticalAngle, preserveAspect, size) == Zero2
    ensures SpherePoint(-hAngle, -vAngle, canvasAngle, verticalAngle, preserveAspect, size) ==
              var p := SpherePoint(hAngle, vAngle, canvasAngle, verticalAngle, preserveAspect, size); Vec2(-p.x, -p.y)
    ensures size.x == 0.0 ==> SpherePoint(hAngle, vAngle, canvasAngle, verticalAngle, preserveAspect, size).x == 0.0
  {
    var hs := Abs(canvasAngle as real) * 0.5;
    var vs := SphereVerticalHalfAngle(canvasAngle, verticalAngle, preserveAspect, size);
    SphereHalfAnglePositive(canvasAngle, verticalAngle, preserveAspect, size);
    RemapSymmetricOdd(hAngle, hs, size.x * 0.5);
    RemapSymmetricOdd(vAngle, vs, size.y * 0.5);
  }

  // ---------------------------------------------------------------- raycast

  /** What the per-shape mappings need so that none of their remaps divides by
      zero: a curved canvas, a ring of non-zero diameter and fill, and a sphere
      whose vertical extent is non-zero. */
  predicate MappingDefined(s: CanvasSettings, size: Vec2)
  {
    s.angle != 0 &&
    (s.shape == Ring ==> s.ringExternalDiameter != 0 && s.ringFill != 0.0) &&
    (s.shape == Sphere ==> SphereDefined(s.angle, s.verticalAngle, s.preserveAspect, size))
  }

  function CanvasPoint(s: CanvasSettings, size: Vec2, hit: Hit): Vec2
    requires MappingDefined(s, size)
  {
    match s.shape
    case Cylinder => CylinderPoint(hit.angle, s.angle, size, hit.localPoint)
    case CylinderVertical => CylinderVerticalPoint(hit.angle, s.angle, size, hit.localPoint)
    case Ring => Vec2(RingX(hit.angle, s.angle, size.x),
                      RingY(hit.distance, s.ringExternalDiameter, s.ringFill, s.ringFlipVertical, size.y))
    case Sphere => SpherePoint(hit.angle, hit.verticalAngle, s.angle, s.verticalAngle, s.preserveAspect, size)
  }

  /** `RaycastTo*Canvas` in canvas space: no point on a miss, nor when the
      event data is overridden and the collider hit belongs to another canvas. */
  function RaycastToCanvas(s: CanvasSettings, size: Vec2, overrideEventData: bool, hit: Option<Hit>): (r: Option<Vec2>)
    requires MappingDefined(s, size)
    ensures r.Some? <==> hit.Some? && (!overrideEventData || hit.value.ownedByCanvas)
    ensures r.Some? ==> r.value == CanvasPoint(s, size, hit.value)
  {
    match hit
    case None => None
    case Some(h) => if overrideEventData && !h.ownedByCanvas then None else Some(CanvasPoint(s, size, h))
  }

  /** The pointer positions the raycaster rewrites. */
  datatype PointerPositions = PointerPositions(position: Vec2, pressPosition: Vec2)

  /** The outcome of `Raycast`: either it returned before the graphic raycast,
      or it forwarded (possibly remapped) positions to it. */
  datatype RaycastStep = Skipped | Forwarded(data: PointerPositions, pointingAtCanvas: bool)

  /** `Raycast`. Without settings the base raycast runs on the data as given; a
      non-interactable canvas or one without an event camera is skipped. A flat
      or disabled canvas forwards the position unremapped. A curved canvas
      skips when its ray misses and otherwise replaces the position by the
      remapped point, and the press position too on the frame of the press
      (when it still equals the position). */
  function Raycast(settings: Option<CanvasSettings>, hasEventCamera: bool, overrideEventData: bool, size: Vec2,
                   data: PointerPositions, hit: Option<Hit>, toScreen: Vec2 -> Vec2): (r: RaycastStep)
    requires settings.Some? && Curved(settings.value) ==> MappingDefined(settings.value, size)
    ensures settings.None? ==> r == Forwarded(data, false)
    ensures settings.Some? && (!settings.value.interactable || !hasEventCamera) ==> r == Skipped
    ensures settings.Some? && !Curved(settings.value) && r.Forwarded? ==> r == Forwarded(data, false)
    ensures settings.Some? && Curved(settings.value) && settings.value.interactable && hasEventCamera ==>
              (r.Skipped? <==> RaycastToCanvas(settings.value, size, overrideEventData, hit).None?)
    ensures r.Forwarded? && r.pointingAtCanvas ==>
              settings.Some? && Curved(settings.value) &&
              var p := toScreen(RaycastToCanvas(settings.value, size, overrideEventData, hit).value);
              r.data.position == p &&
              r.data.pressPosition == (if VecEq2(data.pressPosition, data.position) then p else data.pressPosition)
    ensures r.Forwarded? && settings.Some? && Curved(settings.value) ==> r.pointingAtCanvas
  {
    match settings
    case None => Forwarded(data, false)
    case Some(s) =>
      if !s.interactable || !hasEventCamera then Skipped
      else if !Curved(s) then Forwarded(data, false)
      else match RaycastToCanvas(s, size, overrideEventData, hit)
        case None => Skipped
        case Some(point) =>
          var p := toScreen(point);
          var press := if VecEq2(data.pressPosition, data.position) then p else data.pressPosition;
          Forwarded(PointerPositions(p, press), true)
  }

  /** A press position that differs from the position is never rewritten, and
      a forwarded position on a curved canvas is always a point of the canvas. */
  lemma RaycastKeepsEarlierPress(s: CanvasSettings, overrideEventData: bool, size: Vec2,
                                 data: PointerPositions, hit: Option<Hit>, toScreen: Vec2 -> Vec2)
    requires Curved(s) && MappingDefined(s, size) && s.interactable
    requires !VecEq2(data.pressPosition, data.position)
    ensures var r := Raycast(Some(s), true, overrideEventData, size, data, hit, toScreen);
            r.Forwarded? ==> r.data.pressPosition == data.pressPosition &&
                             exists h :: hit == Some(h) && r.data.position == toScreen(CanvasPoint(s, size, h))
  {
    var r := Raycast(Some(s), true, overrideEventData, size, data, hit, toScreen);
    if r.Forwarded? {
      var h := hit.value;
      assert r.data.position == toScreen(CanvasPoint(s, size, h));
    }
  }
}
