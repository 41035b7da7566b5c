/** The parts of the host engine's value types and `Mathf` that the modelled
    code relies on, over unbounded reals and integers. */
module Unity {

  /** A scene object (GameObject, component or transform), identified by its instance ID. */
  type Obj = int

  datatype Vec2 = Vec2(x: real, y: real)
  datatype Vec3 = Vec3(x: real, y: real, z: real)

  const Zero2 := Vec2(0.0, 0.0)
  const Zero3 := Vec3(0.0, 0.0, 0.0)

  function Add(a: Vec3, b: Vec3): Vec3 { Vec3(a.x + b.x, a.y + b.y, a.z + b.z) }
  function Sub(a: Vec3, b: Vec3): Vec3 { Vec3(a.x - b.x, a.y - b.y, a.z - b.z) }
  function Scale(a: Vec3, k: real): Vec3 { Vec3(a.x * k, a.y * k, a.z * k) }

  function SqrMagnitude(v: Vec3): real { v.x * v.x + v.y * v.y + v.z * v.z }
  function SqrMagnitude2(v: Vec2): real { v.x * v.x + v.y * v.y }
  function Sub2(a: Vec2, b: Vec2): Vec2 { Vec2(a.x - b.x, a.y - b.y) }

  /** The engine's `==` on vectors is approximate: the squared distance is
      compared with kEpsilon squared (1e-5 * 1e-5). */
  predicate VecEq3(a: Vec3, b: Vec3) { SqrMagnitude(Sub(a, b)) < 0.0000000001 }
  predicate VecEq2(a: Vec2, b: Vec2) { SqrMagnitude2(Sub2(a, b)) < 0.0000000001 }

  /** A ray: origin and direction. */
  datatype Ray = Ray(origin: Vec3, direction: Vec3)

  /** `new Ray()`: both vectors zero. */
  const DefaultRay := Ray(Zero3, Zero3)

  /** A camera, reduced to its identity and the ray along its transform's forward axis. */
  datatype Camera = Camera(id: Obj, forwardRay: Ray)

  /** A transform, reduced to its position and forward direction. */
  datatype Pose = Pose(position: Vec3, forward: Vec3)

  function Max(a: real, b: real): (r: real)
    ensures r >= a && r >= b && (r == a || r == b)
  {
    if a >= b then a else b
  }

  function MaxInt(a: int, b: int): (r: int)
    ensures r >= a && r >= b && (r == a || r == b)
  {
    if a >= b then a else b
  }

  function Abs(a: real): (r: real)
    ensures r >= 0.0 && (r == a || r == -a)
  {
    if a < 0.0 then -a else a
  }

  /** `Mathf.Clamp`: the lower bound is tested first. */
  function Clamp(v: real, min: real, max: real): (r: real)
    ensures min <= max ==> min <= r <= max
    ensures min <= v <= max ==> r == v
    ensures v < min ==> r == min
    ensures min <= v && max < v ==> r == max
  {
    if v < min then min else if v > max then max else v
  }

  /** `Mathf.FloorToInt`. */
  function Floor(r: real): (n: int)
    ensures n as real <= r < n as real + 1.0
  {
    r.Floor
  }

  /** `Mathf.CeilToInt`. */
  function Ceil(r: real): (n: int)
    ensures r <= n as real < r + 1.0
  {
    -((-r).Floor)
  }

  /** `Mathf.RoundToInt`: round to nearest, a tie goes to the even neighbour. */
  function RoundToInt(r: real): (n: int)
    ensures r - 0.5 <= n as real <= r + 0.5
    ensures n as real - r == 0.5 || r - n as real == 0.5 ==> n % 2 == 0
  {
    var f := r.Floor;
    var d := r - f as real;
    if d < 0.5 then f
    else if d > 0.5 then f + 1
    else if f % 2 == 0 then f else f + 1
  }

  /** `Vector3.Lerp`: the parameter is clamped to [0, 1]. */
  function Lerp(a: Vec3, b: Vec3, t: real): (r: Vec3)
    ensures t <= 0.0 ==> r == a
    ensures t >= 1.0 ==> r == b
  {
    var c := Clamp(t, 0.0, 1.0);
    Vec3(a.x + (b.x - a.x) * c, a.y + (b.y - a.y) * c, a.z + (b.z - a.z) * c)
  }
}
