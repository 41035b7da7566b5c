/** Subdivision of a flat quad into a grid of smaller quads, by bilinear
    interpolation of its four corners. */
module Tessellation {
  import opened Unity

  /** Four corners in the order the raycaster keeps them: q0 and q1 span the
      vertical edge, q1 and q2 the horizontal one. */
  datatype Quad = Quad(q0: Vec3, q1: Vec3, q2: Vec3, q3: Vec3)

  /** The weights of q0..q3 at the fractional position (x, y). */
  datatype Weights = Weights(w0: real, w1: real, w2: real, w3: real)

  function QuadWeights(x: real, y: real): Weights
  {
    Weights((1.0 - x) * (1.0 - y), (1.0 - x) * y, x * y, x * (1.0 - y))
  }

  /** `TesselateQuad`: the weighted sum of the corners, accumulated from zero. */
  function TesselateQuad(quad: Quad, x: real, y: real): (r: Vec3)
    ensures x == 0.0 && y == 0.0 ==> r == quad.q0
    ensures x == 0.0 && y == 1.0 ==> r == quad.q1
    ensures x == 1.0 && y == 1.0 ==> r == quad.q2
    ensures x == 1.0 && y == 0.0 ==> r == quad.q3
    ensures quad.q0 == quad.q1 == quad.q2 == quad.q3 ==> r == quad.q0
  {
    var w := QuadWeights(x, y);
    var r := Add(Add(Add(Add(Zero3, Scale(quad.q0, w.w0)), Scale(quad.q1, w.w1)), Scale(quad.q2, w.w2)), Scale(quad.q3, w.w3));
    assert quad.q0 == quad.q1 == quad.q2 == quad.q3 ==> r == quad.q0 by {
      if quad.q0 == quad.q1 == quad.q2 == quad.q3 {
        WeightsConvex(x, y);
        ConstantCorners(quad.q0, w);
      }
    }
    r
  }

  /** Weights summing to one leave a single point where it is. */
  lemma ConstantCorners(c: Vec3, w: Weights)
    requires w.w0 + w.w1 + w.w2 + w.w3 == 1.0
    ensures Add(Add(Add(Add(Zero3, Scale(c, w.w0)), Scale(c, w.w1)), Scale(c, w.w2)), Scale(c, w.w3)) == c
  {
    Distribute(c.x, w);
    Distribute(c.y, w);
    Distribute(c.z, w);
  }

  lemma Distribute(a: real, w: Weights)
    requires w.w0 + w.w1 + w.w2 + w.w3 == 1.0
    ensures 0.0 + a * w.w0 + a * w.w1 + a * w.w2 + a * w.w3 == a
  {
    assert a * w.w0 + a * w.w1 + a * w.w2 + a * w.w3 == a * (w.w0 + w.w1 + w.w2 + w.w3);
  }

  /** The weights always sum to one and are non-negative inside the unit square,
      so every tessellated vertex is a convex combination of the corners. */
  lemma WeightsConvex(x: real, y: real)
    ensures QuadWeights(x, y).w0 + QuadWeights(x, y).w1 + QuadWeights(x, y).w2 + QuadWeights(x, y).w3 == 1.0
    ensures 0.0 <= x <= 1.0 && 0.0 <= y <= 1.0 ==>
              QuadWeights(x, y).w0 >= 0.0 && QuadWeights(x, y).w1 >= 0.0 &&
              QuadWeights(x, y).w2 >= 0.0 && QuadWeights(x, y).w3 >= 0.0
  {
    var a, b := 1.0 - x, 1.0 - y;
    assert a * b + a * y + x * y + x * b == (a + x) * (b + y);
    if 0.0 <= x <= 1.0 && 0.0 <= y <= 1.0 {
      MulNonNeg(a, b);
      MulNonNeg(a, y);
      MulNonNeg(x, y);
      MulNonNeg(x, b);
    }
  }

  lemma MulNonNeg(a: real, b: real)
    requires a >= 0.0 && b >= 0.0
    ensures a * b >= 0.0
  {
  }

  /** The four unit-square corners give back the four quad corners. */
  lemma TesselateCorners(quad: Quad)
    ensures TesselateQuad(quad, 0.0, 0.0) == quad.q0
    ensures TesselateQuad(quad, 0.0, 1.0) == quad.q1
    ensures TesselateQuad(quad, 1.0, 1.0) == quad.q2
    ensures TesselateQuad(quad, 1.0, 0.0) == quad.q3
  {
  }

  /** How many sub-quads one edge of length `len` needs: the ceiling of
      `len / max(1, required)`. */
  function QuadCount(len: real, required: real): (n: int)
    requires len >= 0.0
    ensures n >= 0
    ensures n as real >= len / Max(1.0, required)
    ensures (n - 1) as real < len / Max(1.0, required)
  {
    Ceil(len * (1.0 / Max(1.0, required)))
  }

  /** The fraction k/n at which sub-quad boundary k lies. */
  function Frac(k: int, n: int): real
    requires n > 0
  {
    k as real / n as real
  }

  /** The vertex at grid boundary (i, j) of an hq-by-vq subdivision: the
      quad interpolated at fractions (i/hq, j/vq). */
  function BoundaryVertex(quad: Quad, hq: int, vq: int): (int, int) -> Vec3
    requires hq > 0 && vq > 0
  {
    (i: int, j: int) => TesselateQuad(quad, Frac(i, hq), Frac(j, vq))
  }

  /** The four vertices of sub-quad (x, y), in the order
      (start,start), (start,end), (end,end), (end,start). */
  function Cell(corner: (int, int) -> Vec3, x: int, y: int): seq<Vec3>
  {
    [corner(x, y), corner(x, y + 1), corner(x + 1, y + 1), corner(x + 1, y)]
  }

  /** The first `x` cells of row `y`. */
  function RowPrefix(corner: (int, int) -> Vec3, y: int, x: nat): (r: seq<Vec3>)
    ensures |r| == 4 * x
  {
    if x == 0 then [] else RowPrefix(corner, y, x - 1) + Cell(corner, x - 1, y)
  }

  /** The first `y` complete rows of `hq` cells each. */
  function GridPrefix(corner: (int, int) -> Vec3, hq: nat, y: nat): seq<Vec3>
  {
    if y == 0 then [] else GridPrefix(corner, hq, y - 1) + RowPrefix(corner, y - 1, hq)
  }

  /** The vertices `ModifyQuad` appends: an hq-by-vq grid, empty when either
      count is zero. */
  function Grid(quad: Quad, hq: int, vq: int): seq<Vec3>
  {
    if hq > 0 && vq > 0 then GridPrefix(BoundaryVertex(quad, hq, vq), hq, vq) else []
  }

  lemma MulSucc(a: int, b: int)
    ensures a * (b + 1) == a * b + a
  {
  }

  lemma MulMono(a: int, b: int, c: int)
    requires a >= 0 && b <= c
    ensures a * b <= a * c
  {
    assert a * c - a * b == a * (c - b);
  }

  lemma {:induction false} GridPrefixLength(corner: (int, int) -> Vec3, hq: nat, y: nat)
    ensures |GridPrefix(corner, hq, y)| == 4 * hq * y
  {
    if y > 0 {
      GridPrefixLength(corner, hq, y - 1);
      MulSucc(4 * hq, y - 1);
    }
  }

  /** The grid holds exactly four vertices per sub-quad. */
  lemma GridLength(quad: Quad, hq: int, vq: int)
    requires hq >= 0 && vq >= 0
    ensures |Grid(quad, hq, vq)| == 4 * hq * vq
  {
    if hq > 0 && vq > 0 {
      GridPrefixLength(BoundaryVertex(quad, hq, vq), hq, vq);
    }
  }

  lemma {:induction false} RowPrefixIsPrefix(corner: (int, int) -> Vec3, y: int, x1: nat, x2: nat)
    requires x1 <= x2
    ensures RowPrefix(corner, y, x1) <= RowPrefix(corner, y, x2)
  {
    if x1 < x2 {
      RowPrefixIsPrefix(corner, y, x1, x2 - 1);
    }
  }

  lemma {:induction false} GridPrefixIsPrefix(corner: (int, int) -> Vec3, hq: nat, y1: nat, y2: nat)
    requires y1 <= y2
    ensures GridPrefix(corner, hq, y1) <= GridPrefix(corner, hq, y2)
  {
    if y1 < y2 {
      GridPrefixIsPrefix(corner, hq, y1, y2 - 1);
    }
  }

  lemma IndexArith(hq: int, vq: int, x: int, y: int, c: int)
    requires 0 <= x < hq && 0 <= y < vq && 0 <= c < 4
    ensures 4 * (y * hq + x) + c == 4 * hq * y + 4 * x + c
    ensures 4 * hq * (y + 1) <= 4 * hq * vq
  {
    MulSucc(4 * hq, y);
    MulMono(4 * hq, y + 1, vq);
  }

  /** Cell (x, y) of a grid of `hq`-cell rows starts at index 4 * (y * hq + x). */
  lemma {:induction false} GridPrefixIndex(corner: (int, int) -> Vec3, hq: nat, rows: nat, x: int, y: int, c: int)
    requires 0 <= x < hq && 0 <= y < rows && 0 <= c < 4
    ensures 4 * (y * hq + x) + c < |GridPrefix(corner, hq, rows)|
    ensures GridPrefix(corner, hq, rows)[4 * (y * hq + x) + c] == Cell(corner, x, y)[c]
  {
    IndexArith(hq, rows, x, y, c);
    var k := 4 * (y * hq + x) + c;
    GridPrefixIsPrefix(corner, hq, y + 1, rows);
    GridPrefixLength(corner, hq, y);
    GridPrefixLength(corner, hq, rows);
    var before := GridPrefix(corner, hq, y);
    var row := RowPrefix(corner, y, hq);
    RowPrefixIsPrefix(corner, y, x + 1, hq);
    var cells := RowPrefix(corner, y, x + 1);
    assert cells == RowPrefix(corner, y, x) + Cell(corner, x, y);
    assert row[4 * x + c] == cells[4 * x + c] == Cell(corner, x, y)[c];
    var upTo := GridPrefix(corner, hq, y + 1);
    assert upTo == before + row;
    assert upTo[k] == row[4 * x + c];
  }

  /** Vertex c of sub-quad (x, y) sits at index 4 * (y * hq + x) + c of the
      appended grid (rows bottom to top, cells left to right), and is the
      quad interpolated at the sub-quad's corner fractions. */
  lemma GridIndex(quad: Quad, hq: int, vq: int, x: int, y: int, c: int)
    requires 0 <= x < hq && 0 <= y < vq && 0 <= c < 4
    ensures 4 * (y * hq + x) + 3 < |Grid(quad, hq, vq)|
    ensures Grid(quad, hq, vq)[4 * (y * hq + x) + c] == Cell(BoundaryVertex(quad, hq, vq), x, y)[c]
    ensures Grid(quad, hq, vq)[4 * (y * hq + x)] == TesselateQuad(quad, Frac(x, hq), Frac(y, vq))
    ensures Grid(quad, hq, vq)[4 * (y * hq + x) + 2] == TesselateQuad(quad, Frac(x + 1, hq), Frac(y + 1, vq))
  {
    var f := BoundaryVertex(quad, hq, vq);
    GridPrefixIndex(f, hq, vq, x, y, c);
    GridPrefixIndex(f, hq, vq, x, y, 0);
    GridPrefixIndex(f, hq, vq, x, y, 2);
    GridPrefixIndex(f, hq, vq, x, y, 3);
  }

  lemma LastCellArith(hq: int, vq: int)
    requires hq > 0 && vq > 0
    ensures 4 * ((vq - 1) * hq + (hq - 1)) + 2 == 4 * hq * vq - 2
  {
    MulSucc(hq, vq - 1);
    assert (vq - 1) * hq == hq * (vq - 1);
    assert 4 * hq * vq == 4 * (hq * vq);
  }

  lemma FracEnds(n: int)
    requires n > 0
    ensures Frac(0, n) == 0.0 && Frac(n, n) == 1.0
  {
  }

  lemma GridFirst(quad: Quad, hq: int, vq: int)
    requires hq > 0 && vq > 0
    ensures |Grid(quad, hq, vq)| >= 4
    ensures Grid(quad, hq, vq)[0] == quad.q0
  {
    GridIndex(quad, hq, vq, 0, 0, 0);
    var a := Grid(quad, hq, vq)[0];
    assert a == TesselateQuad(quad, Frac(0, hq), Frac(0, vq));
    FracEnds(hq);
    FracEnds(vq);
    assert a == TesselateQuad(quad, 0.0, 0.0);
    TesselateCorners(quad);
  }

  lemma GridLast(quad: Quad, hq: int, vq: int)
    requires hq > 0 && vq > 0
    ensures |Grid(quad, hq, vq)| >= 4
    ensures Grid(quad, hq, vq)[|Grid(quad, hq, vq)| - 2] == quad.q2
  {
    GridIndex(quad, hq, vq, 0, 0, 0);
    GridIndex(quad, hq, vq, hq - 1, vq - 1, 2);
    LastCellArith(hq, vq);
    GridLength(quad, hq, vq);
    var k := 4 * ((vq - 1) * hq + (hq - 1)) + 2;
    var a := Grid(quad, hq, vq)[k];
    assert a == TesselateQuad(quad, Frac(hq, hq), Frac(vq, vq));
    FracEnds(hq);
    FracEnds(vq);
    assert a == TesselateQuad(quad, 1.0, 1.0);
    TesselateCorners(quad);
  }

  /** The grid starts at the quad's first corner and its last sub-quad ends at
      the opposite corner: fractions start at 0 and the last one ends at 1. */
  lemma GridSpansQuad(quad: Quad, hq: int, vq: int)
    requires hq > 0 && vq > 0
    ensures Frac(0, hq) == 0.0 && Frac(hq, hq) == 1.0
    ensures |Grid(quad, hq, vq)| >= 4
    ensures Grid(quad, hq, vq)[0] == quad.q0
    ensures Grid(quad, hq, vq)[|Grid(quad, hq, vq)| - 2] == quad.q2
  {
    FracEnds(hq);
    GridFirst(quad, hq, vq);
    GridLast(quad, hq, vq);
  }

  function QuadAt(verts: seq<Vec3>, i: int): Quad
    requires 0 <= i && i + 4 <= |verts|
  {
    Quad(verts[i], verts[i + 1], verts[i + 2], verts[i + 3])
  }

  /** The loops of `ModifyQuad`: rows bottom to top, in each row the cells
      left to right, four vertices per cell. */
  method AppendGrid(verts: seq<Vec3>, corner: (int, int) -> Vec3, hq: nat, vq: nat) returns (r: seq<Vec3>)
    ensures r == verts + GridPrefix(corner, hq, vq)
  {
    r := verts;
    var y := 0;
    while y < vq
      invariant 0 <= y <= vq
      invariant r == verts + GridPrefix(corner, hq, y)
    {
      var x := 0;
      while x < hq
        invariant 0 <= x <= hq
        invariant r == verts + GridPrefix(corner, hq, y) + RowPrefix(corner, y, x)
      {
        r := r + [corner(x, y), corner(x, y + 1), corner(x + 1, y + 1), corner(x + 1, y)];
        x := x + 1;
      }
      y := y + 1;
    }
  }

  /** `ModifyQuad`: reads the quad at `vertexIndex` and appends the vertices of
      its hq-by-vq sub-quads, leaving the existing list as a prefix. The edge
      lengths `hLen = |q2 - q1|` and `vLen = |q1 - q0|` are passed in (the
      source takes a square root). */
  method ModifyQuad(verts: seq<Vec3>, vertexIndex: int, hLen: real, vLen: real, requiredSize: Vec2)
    returns (r: seq<Vec3>, hq: int, vq: int)
    requires 0 <= vertexIndex && vertexIndex + 4 <= |verts|
    requires hLen >= 0.0 && hLen * hLen == SqrMagnitude(Sub(verts[vertexIndex + 2], verts[vertexIndex + 1]))
    requires vLen >= 0.0 && vLen * vLen == SqrMagnitude(Sub(verts[vertexIndex + 1], verts[vertexIndex]))
    ensures hq == QuadCount(hLen, requiredSize.x) && vq == QuadCount(vLen, requiredSize.y)
    ensures r == verts + Grid(QuadAt(verts, vertexIndex), hq, vq)
    ensures |r| == |verts| + 4 * hq * vq
    ensures r[..|verts|] == verts
  {
    var quad := QuadAt(verts, vertexIndex);
    hq := QuadCount(hLen, requiredSize.x);
    vq := QuadCount(vLen, requiredSize.y);
    GridLength(quad, hq, vq);
    if hq > 0 && vq > 0 {
      r := AppendGrid(verts, BoundaryVertex(quad, hq, vq), hq, vq);
    } else {
      r := verts;
    }
  }
}
