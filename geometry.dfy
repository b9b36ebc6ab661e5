/** Three-dimensional vectors and 3x3 matrices over the reals, with the
    element-wise operations the bounding-box aggregator applies: vector
    addition (`operator.add` mapped over two lists), absolute value and
    maximum (`abs` and `max` mapped over lists), doubling, and the
    row-vector-times-matrix product `point @ rotation`. Coordinates are
    reals; floating-point rounding is not modelled. */
module Geometry {

  /** An axis index: 0 is x, 1 is y, 2 is z. */
  type Axis = i: int | 0 <= i < 3

  datatype Vec3 = Vec3(x: real, y: real, z: real) {
    /** The coordinate on axis `i`. */
    function At(i: Axis): real {
      if i == 0 then x else if i == 1 then y else z
    }
  }

  /** A 3x3 matrix stored by rows: `Mat3(r0, r1, r2)` has entry (i, j) at row i, column j. */
  datatype Mat3 = Mat3(r0: Vec3, r1: Vec3, r2: Vec3) {
    function Row(i: Axis): Vec3 {
      if i == 0 then r0 else if i == 1 then r1 else r2
    }
    function Entry(i: Axis, j: Axis): real {
      Row(i).At(j)
    }
  }

  const Zero: Vec3 := Vec3(0.0, 0.0, 0.0)

  const Identity: Mat3 := Mat3(Vec3(1.0, 0.0, 0.0), Vec3(0.0, 1.0, 0.0), Vec3(0.0, 0.0, 1.0))

  /** Two vectors are equal exactly when they agree on every axis. */
  lemma VecExt(u: Vec3, v: Vec3)
    requires forall i: Axis :: u.At(i) == v.At(i)
    ensures u == v
  {
    assert u.At(0) == v.At(0) && u.At(1) == v.At(1) && u.At(2) == v.At(2);
  }

  function Abs(a: real): (r: real)
    ensures r >= 0.0 && (r == a || r == -a)
  {
    if a < 0.0 then -a else a
  }

  function Max(a: real, b: real): (r: real)
    ensures r >= a && r >= b && (r == a || r == b)
  {
    if a < b then b else a
  }

  /** Element-wise sum: the translation step `map(add, point, translation)`. */
  function Add(p: Vec3, t: Vec3): Vec3 {
    Vec3(p.x + t.x, p.y + t.y, p.z + t.z)
  }

  /** Element-wise absolute value: `map(abs, point)`. */
  function AbsV(p: Vec3): (r: Vec3)
    ensures forall i: Axis :: r.At(i) == Abs(p.At(i))
  {
    Vec3(Abs(p.x), Abs(p.y), Abs(p.z))
  }

  /** Element-wise maximum: `map(max, acc, point)`. */
  function MaxV(a: Vec3, b: Vec3): (r: Vec3)
    ensures forall i: Axis :: r.At(i) == Max(a.At(i), b.At(i))
  {
    Vec3(Max(a.x, b.x), Max(a.y, b.y), Max(a.z, b.z))
  }

  /** Element-wise doubling: `map(lambda x: x * 2, v)`. */
  function Double(v: Vec3): (r: Vec3)
    ensures forall i: Axis :: r.At(i) == 2.0 * v.At(i)
  {
    Vec3(2.0 * v.x, 2.0 * v.y, 2.0 * v.z)
  }

  /** Componentwise order on vectors. */
  predicate LessEq(u: Vec3, v: Vec3) {
    forall i: Axis :: u.At(i) <= v.At(i)
  }

  lemma LessEqAntisymmetric(u: Vec3, v: Vec3)
    requires LessEq(u, v) && LessEq(v, u)
    ensures u == v
  {
    VecExt(u, v);
  }

  /** `p @ m` with `p` a row vector: coordinate j is the sum over i of p_i * m[i][j]. */
  function RowMul(p: Vec3, m: Mat3): Vec3 {
    Vec3(p.x * m.r0.x + p.y * m.r1.x + p.z * m.r2.x,
         p.x * m.r0.y + p.y * m.r1.y + p.z * m.r2.y,
         p.x * m.r0.z + p.y * m.r1.z + p.z * m.r2.z)
  }

  /** The usual column-vector product `m p`, used only to relate `p @ m` to it. */
  function Apply(m: Mat3, p: Vec3): Vec3 {
    Vec3(m.r0.x * p.x + m.r0.y * p.y + m.r0.z * p.z,
         m.r1.x * p.x + m.r1.y * p.y + m.r1.z * p.z,
         m.r2.x * p.x + m.r2.y * p.y + m.r2.z * p.z)
  }

  function Transpose(m: Mat3): (t: Mat3)
    ensures forall i: Axis, j: Axis :: t.Entry(i, j) == m.Entry(j, i)
  {
    Mat3(Vec3(m.r0.x, m.r1.x, m.r2.x),
         Vec3(m.r0.y, m.r1.y, m.r2.y),
         Vec3(m.r0.z, m.r1.z, m.r2.z))
  }

  function Dot(u: Vec3, v: Vec3): real {
    u.x * v.x + u.y * v.y + u.z * v.z
  }

  /** A rotation without shear or scale: its rows are orthogonal unit vectors. */
  predicate Orthonormal(m: Mat3) {
    Dot(m.r0, m.r0) == 1.0 && Dot(m.r1, m.r1) == 1.0 && Dot(m.r2, m.r2) == 1.0 &&
    Dot(m.r0, m.r1) == 0.0 && Dot(m.r0, m.r2) == 0.0 && Dot(m.r1, m.r2) == 0.0
  }

  /** The row-vector product is the column-vector product with the transposed
      matrix: `p @ m` equals `transpose(m) p`, so each coordinate j of the
      result is the sum over i of p_i times entry (i, j) of m. */
  lemma RowMulIsTransposedApply(p: Vec3, m: Mat3)
    ensures RowMul(p, m) == Apply(Transpose(m), p)
    ensures forall j: Axis ::
      RowMul(p, m).At(j) == p.x * m.Entry(0, j) + p.y * m.Entry(1, j) + p.z * m.Entry(2, j)
  {
  }

  /** The row-vector product is linear, so it distributes over the translation. */
  lemma RowMulDistributes(p: Vec3, t: Vec3, m: Mat3)
    ensures RowMul(Add(p, t), m) == Add(RowMul(p, m), RowMul(t, m))
  {
  }
}
