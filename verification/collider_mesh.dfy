/** Vertex and triangle-index construction for the mesh colliders of
    cylinder and sphere canvases, and the choice of collider per shape.
    The trigonometric curving of each vertex is a parameter (`curve`). */
module ColliderMesh {
  import opened Unity
  import opened Settings
  import Tessellation

  /** The canvas corners in the engine's corner order (bottom-left, top-left,
      top-right, bottom-right), already in canvas-local space. */
  datatype Corners = Corners(c0: Vec3, c1: Vec3, c2: Vec3, c3: Vec3)

  /** The collider `CreateCollider` sets up. */
  datatype ColliderPlan =
    | NoCollider
    | ConvexCylinder(vertical: bool)
    | MeshCylinder(vertical: bool)
    | Box(size: Vec3)
    | SphereMesh

  /** `CreateCollider`: nothing when the canvas does not block raycasts or is a
      sphere with neither preserved aspect nor a vertical angle; box colliders
      for cylinders under a rigidbody or when mesh colliders are off; a flat box
      of the ring's diameter for rings; a mesh otherwise. */
  function CreateCollider(s: CanvasSettings, hasRigidbody: bool): (p: ColliderPlan)
    ensures !s.blocksRaycasts ==> p == NoCollider
    ensures p.NoCollider? <==>
              !s.blocksRaycasts || (s.shape == Sphere && !s.preserveAspect && s.verticalAngle == 0)
    ensures p.ConvexCylinder? || p.MeshCylinder? ==>
              (s.shape == Cylinder || s.shape == CylinderVertical) && p.vertical == (s.shape == CylinderVertical)
    ensures p.ConvexCylinder? <==>
              s.blocksRaycasts && (s.shape == Cylinder || s.shape == CylinderVertical) && (!s.useMeshCollider || hasRigidbody)
    ensures p.Box? <==> s.blocksRaycasts && s.shape == Ring
    ensures p.Box? ==> p.size == Vec3(s.ringExternalDiameter as real, s.ringExternalDiameter as real, 1.0)
    ensures p.SphereMesh? ==> s.shape == Sphere
  {
    if !s.blocksRaycasts then NoCollider
    else if s.shape == Sphere && !s.preserveAspect && s.verticalAngle == 0 then NoCollider
    else match s.shape
      case Cylinder => if !s.useMeshCollider || hasRigidbody then ConvexCylinder(false) else MeshCylinder(false)
      case CylinderVertical => if !s.useMeshCollider || hasRigidbody then ConvexCylinder(true) else MeshCylinder(true)
      case Ring => Box(Vec3(s.ringExternalDiameter as real, s.ringExternalDiameter as real, 1.0))
      case Sphere => SphereMesh
  }

  // ---------------------------------------------------------------- cylinder

  /** The corners rearranged for interpolation: the strip runs from v0/v1 to
      v2/v3 along the bent axis. */
  function Rearrange(c: Corners, vertical: bool): (r: Corners)
    ensures multiset{r.c0, r.c1, r.c2, r.c3} == multiset{c.c0, c.c1, c.c2, c.c3}
    ensures r.c0 == c.c1 && r.c3 == c.c3
    ensures !vertical ==> {r.c0, r.c1} == {c.c0, c.c1} && {r.c2, r.c3} == {c.c2, c.c3}
    ensures vertical ==> {r.c0, r.c1} == {c.c1, c.c2} && {r.c2, r.c3} == {c.c0, c.c3}
  {
    if vertical then Corners(c.c1, c.c2, c.c0, c.c3) else Corners(c.c1, c.c0, c.c2, c.c3)
  }

  /** Number of vertex pairs along the bend: `BaseCircleSegments` scaled by the
      share of the full circle the canvas covers, rounded, and at least 8. */
  function SegmentCount(baseCircleSegments: int, angle: int): (n: int)
    ensures n >= 8
    ensures n == 8 || n == RoundToInt(baseCircleSegments as real * Abs(angle as real) / 360.0)
    ensures n >= RoundToInt(baseCircleSegments as real * Abs(angle as real) / 360.0)
  {
    MaxInt(8, RoundToInt(baseCircleSegments as real * Abs(angle as real) / 360.0))
  }

  /** Vertex k of the flat strip: pairs (Lerp(v0, v2, t), Lerp(v1, v3, t)) with
      t = i / (n - 1) for pair i. */
  function StripVertex(v: Corners, n: int, k: int): (r: Vec3)
    requires n >= 2
    ensures k == 0 ==> r == v.c0
    ensures k == 1 ==> r == v.c1
    ensures k == 2 * n - 2 ==> r == v.c2
    ensures k == 2 * n - 1 ==> r == v.c3
  {
    var t := (k / 2) as real / (n - 1) as real;
    StripParameterEnds(n, k);
    if k % 2 == 0 then Lerp(v.c0, v.c2, t) else Lerp(v.c1, v.c3, t)
  }

  /** The interpolation parameter is 0 on the first pair and 1 on the last. */
  lemma StripParameterEnds(n: int, k: int)
    requires n >= 2
    ensures k == 0 || k == 1 ==> (k / 2) as real / (n - 1) as real == 0.0
    ensures k == 2 * n - 2 || k == 2 * n - 1 ==> (k / 2) as real / (n - 1) as real == 1.0
  {
    if k == 2 * n - 2 || k == 2 * n - 1 {
      assert k / 2 == n - 1;
    }
  }

  function FlatStrip(v: Corners, n: int): (r: seq<Vec3>)
    requires n >= 2
    ensures |r| == 2 * n
  {
    seq(2 * n, k requires 0 <= k < 2 * n => StripVertex(v, n, k))
  }

  /** The strip starts on the first edge (v0, v1) and ends on the last (v2, v3). */
  lemma FlatStripEnds(v: Corners, n: int)
    requires n >= 2
    ensures FlatStrip(v, n)[0] == v.c0 && FlatStrip(v, n)[1] == v.c1
    ensures FlatStrip(v, n)[2 * n - 2] == v.c2 && FlatStrip(v, n)[2 * n - 1] == v.c3
  {
    assert (2 * n - 2) / 2 == n - 1 && (2 * n - 1) / 2 == n - 1;
    assert (n - 1) as real / (n - 1) as real == 1.0;
  }

  /** The curving pass: every vertex is moved when the angle is non-zero and
      left as it is otherwise. */
  function CurveAll(verts: seq<Vec3>, angle: int, curve: Vec3 -> Vec3): (r: seq<Vec3>)
    ensures |r| == |verts|
    ensures angle == 0 ==> r == verts
    ensures angle != 0 ==> forall i :: 0 <= i < |verts| ==> r[i] == curve(verts[i])
  {
    if angle == 0 then verts else seq(|verts|, i requires 0 <= i < |verts| => curve(verts[i]))
  }

  /** The six indices of strip segment i: two triangles over vertices 2i..2i+3,
      wound the other way round for the vertical cylinder. */
  function SegmentTriangles(i: int, vertical: bool): (r: seq<int>)
    ensures |r| == 6
    ensures forall j :: 0 <= j < 6 ==> 2 * i <= r[j] <= 2 * i + 3
  {
    if vertical then [2 * i, 2 * i + 1, 2 * i + 2, 2 * i + 1, 2 * i + 3, 2 * i + 2]
    else [2 * i + 2, 2 * i + 1, 2 * i, 2 * i + 2, 2 * i + 3, 2 * i + 1]
  }

  /** The vertical cylinder's triangles are the horizontal one's with each
      triangle's vertex order reversed, so they face the other way. */
  lemma WindingReversed(i: int)
    ensures forall j :: 0 <= j < 6 ==>
              SegmentTriangles(i, true)[j] == SegmentTriangles(i, false)[3 * (j / 3) + 2 - j % 3]
  {
  }

  /** Either way the two triangles of a segment cover its four vertices and
      share the diagonal from 2i + 1 to 2i + 2. */
  lemma SegmentSharesDiagonal(i: int, vertical: bool)
    ensures multiset(SegmentTriangles(i, vertical)) ==
              multiset{2 * i, 2 * i + 1, 2 * i + 1, 2 * i + 2, 2 * i + 2, 2 * i + 3}
  {
  }

  function StripTriangles(segments: nat, vertical: bool): (r: seq<int>)
    ensures |r| == 6 * segments
  {
    if segments == 0 then [] else StripTriangles(segments - 1, vertical) + SegmentTriangles(segments - 1, vertical)
  }

  /** Every index of the first `segments` segments is a vertex of the first
      `segments + 1` pairs. */
  lemma {:induction false} StripTrianglesInRange(segments: nat, vertical: bool)
    ensures forall k :: 0 <= k < |StripTriangles(segments, vertical)| ==>
              0 <= StripTriangles(segments, vertical)[k] < 2 * segments + 2
  {
    if segments > 0 {
      StripTrianglesInRange(segments - 1, vertical);
      var front := StripTriangles(segments - 1, vertical);
      var last := SegmentTriangles(segments - 1, vertical);
      assert StripTriangles(segments, vertical) == front + last;
      forall k | 0 <= k < |front + last|
        ensures 0 <= (front + last)[k] < 2 * segments + 2
      {
        if k >= |front| {
          assert (front + last)[k] == last[k - |front|];
        }
      }
    }
  }

  /** The triangle loop of `CreateCyllinderColliderMesh`, over a vertex list of
      `vertexCount` entries (one segment per pair after the first). */
  method CylinderTriangles(vertexCount: int, vertical: bool) returns (tris: seq<int>)
    ensures tris == StripTriangles(if vertexCount / 2 - 1 > 0 then vertexCount / 2 - 1 else 0, vertical)
  {
    tris := [];
    var i := 0;
    while i < vertexCount / 2 - 1
      invariant 0 <= i && (i <= vertexCount / 2 - 1 || i == 0)
      invariant tris == StripTriangles(i, vertical)
    {
      if vertical {
        tris := tris + [i * 2 + 0, i * 2 + 1, i * 2 + 2];
        tris := tris + [i * 2 + 1, i * 2 + 3, i * 2 + 2];
      } else {
        tris := tris + [i * 2 + 2, i * 2 + 1, i * 2 + 0];
        tris := tris + [i * 2 + 2, i * 2 + 3, i * 2 + 1];
      }
      i := i + 1;
    }
  }

  /** `CreateCyllinderColliderMesh`: at least 8 vertex pairs, 2n vertices,
      6(n - 1) triangle indices that all address a vertex; the vertices are
      curved only when the angle is non-zero. */
  method CylinderColliderMesh(corners: Corners, baseCircleSegments: int, angle: int, vertical: bool, curve: Vec3 -> Vec3)
    returns (verts: seq<Vec3>, tris: seq<int>)
    ensures |verts| == 2 * SegmentCount(baseCircleSegments, angle) && |verts| >= 16
    ensures |tris| == 6 * (SegmentCount(baseCircleSegments, angle) - 1)
    ensures forall k :: 0 <= k < |tris| ==> 0 <= tris[k] < |verts|
    ensures verts == CurveAll(FlatStrip(Rearrange(corners, vertical), SegmentCount(baseCircleSegments, angle)), angle, curve)
    ensures angle == 0 ==> verts[0] == Rearrange(corners, vertical).c0 && verts[|verts| - 1] == Rearrange(corners, vertical).c3
  {
    var v := Rearrange(corners, vertical);
    var n := SegmentCount(baseCircleSegments, angle);
    var flat := FlatStrip(v, n);
    FlatStripEnds(v, n);
    verts := CurveAll(flat, angle, curve);
    tris := CylinderTriangles(|verts|, vertical);
    assert |verts| / 2 - 1 == n - 1;
    StripTrianglesInRange(n - 1, vertical);
  }

  // ---------------------------------------------------------------- sphere

  /** Two triangles per quad of four consecutive vertices. */
  function QuadTriangles(quads: nat): (r: seq<int>)
    ensures |r| == 6 * quads
  {
    if quads == 0 then []
    else var i := 4 * (quads - 1); QuadTriangles(quads - 1) + [i + 0, i + 1, i + 2, i + 3, i + 0, i + 2]
  }

  lemma {:induction false} QuadTrianglesInRange(quads: nat)
    ensures forall k :: 0 <= k < |QuadTriangles(quads)| ==> 0 <= QuadTriangles(quads)[k] < 4 * quads
  {
    if quads > 0 {
      QuadTrianglesInRange(quads - 1);
      var front := QuadTriangles(quads - 1);
      var i := 4 * (quads - 1);
      var last := [i + 0, i + 1, i + 2, i + 3, i + 0, i + 2];
      assert QuadTriangles(quads) == front + last;
      forall k | 0 <= k < |front + last|
        ensures 0 <= (front + last)[k] < 4 * quads
      {
        if k >= |front| {
          assert (front + last)[k] == last[k - |front|];
        }
      }
    }
  }

  /** The triangle loop of `CreateSphereColliderMesh`: one pass per started
      group of four vertices. */
  method SphereTriangles(vertexCount: nat) returns (tris: seq<int>)
    ensures tris == QuadTriangles((vertexCount + 3) / 4)
    ensures vertexCount % 4 == 0 ==> |tris| == 6 * (vertexCount / 4)
    ensures vertexCount % 4 == 0 ==> forall k :: 0 <= k < |tris| ==> 0 <= tris[k] < vertexCount
  {
    tris := [];
    var i := 0;
    while i < vertexCount
      invariant i % 4 == 0 && 0 <= i <= vertexCount + 3
      invariant tris == QuadTriangles(i / 4)
    {
      tris := tris + [i + 0, i + 1, i + 2];
      tris := tris + [i + 3, i + 0, i + 2];
      i := i + 4;
    }
    assert i / 4 == (vertexCount + 3) / 4;
    QuadTrianglesInRange((vertexCount + 3) / 4);
  }

  lemma GridWholeQuads(quad: Tessellation.Quad, hq: int, vq: int)
    requires hq >= 0 && vq >= 0
    ensures |Tessellation.Grid(quad, hq, vq)| % 4 == 0
  {
    Tessellation.GridLength(quad, hq, vq);
    var cells := hq * vq;
    assert 4 * hq * vq == 4 * cells;
  }

  /** `CreateSphereColliderMesh`. With a zero angle the four corners are kept
      flat. Otherwise the corner quad is tessellated, the four original corners
      are removed, and every remaining vertex is curved: the vertex count is a
      multiple of four, and there are six in-range indices per quad. The edge
      lengths of the corner quad are passed in. */
  method SphereColliderMesh(corners: Corners, angle: int, hLen: real, vLen: real, tessellationSize: Vec2, curve: Vec3 -> Vec3)
    returns (verts: seq<Vec3>, tris: seq<int>)
    requires hLen >= 0.0 && hLen * hLen == SqrMagnitude(Sub(corners.c2, corners.c1))
    requires vLen >= 0.0 && vLen * vLen == SqrMagnitude(Sub(corners.c1, corners.c0))
    ensures angle == 0 ==> verts == [corners.c0, corners.c1, corners.c2, corners.c3] && tris == [0, 1, 2, 3, 0, 2]
    ensures angle != 0 ==>
              var grid := Tessellation.Grid(Tessellation.Quad(corners.c0, corners.c1, corners.c2, corners.c3),
                                            Tessellation.QuadCount(hLen, tessellationSize.x),
                                            Tessellation.QuadCount(vLen, tessellationSize.y));
              |verts| == |grid| && forall k :: 0 <= k < |verts| ==> verts[k] == curve(grid[k])
    ensures |verts| % 4 == 0
    ensures |tris| == 6 * (|verts| / 4)
    ensures forall k :: 0 <= k < |tris| ==> 0 <= tris[k] < |verts|
  {
    verts := [corners.c0, corners.c1, corners.c2, corners.c3];
    if angle != 0 {
      var startingVertexCount := |verts|;
      var withGrid, hq, vq := Tessellation.ModifyQuad(verts, 0, hLen, vLen, tessellationSize);
      var grid := withGrid[startingVertexCount..];
      assert grid == Tessellation.Grid(Tessellation.QuadAt(verts, 0), hq, vq);
      GridWholeQuads(Tessellation.QuadAt(verts, 0), hq, vq);
      verts := CurveAll(grid, angle, curve);
    }
    tris := SphereTriangles(|verts|);
  }
}
