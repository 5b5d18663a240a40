/** Vector arithmetic over exact reals: the primitives of lib/vec-math.ts other than the vertex key. */
module VecMath {
  import opened Common

  /** A position or direction in space. */
  datatype Vec3 = Vec3(x: real, y: real, z: real)

  const Zero: Vec3 := Vec3(0.0, 0.0, 0.0)

  /** The +Z axis that `normalize` answers for a vector of length zero. */
  const DefaultAxis: Vec3 := Vec3(0.0, 0.0, 1.0)

  function Add(a: Vec3, b: Vec3): Vec3 {
    Vec3(a.x + b.x, a.y + b.y, a.z + b.z)
  }

  function Scale(v: Vec3, k: real): Vec3 {
    Vec3(v.x * k, v.y * k, v.z * k)
  }

  /** `subtract(a, b)`: the vector that leads from `b` to `a`. */
  function Subtract(a: Vec3, b: Vec3): (r: Vec3)
    ensures Add(b, r) == a
    ensures a == b ==> r == Zero
  {
    Vec3(a.x - b.x, a.y - b.y, a.z - b.z)
  }

  /** `dot`, imported by the converter but not defined in lib/vec-math.ts: the standard dot product. */
  function Dot(a: Vec3, b: Vec3): real {
    a.x * b.x + a.y * b.y + a.z * b.z
  }

  /** `lengthSq`, also imported but not defined there: the squared Euclidean length. */
  function LengthSq(v: Vec3): (r: real)
    ensures r >= 0.0
    ensures r == Dot(v, v)
    ensures v == Zero ==> r == 0.0
  {
    v.x * v.x + v.y * v.y + v.z * v.z
  }

  /** `cross(a, b)`: a vector perpendicular to both arguments. */
  function Cross(a: Vec3, b: Vec3): (r: Vec3)
    ensures Dot(r, a) == 0.0 && Dot(r, b) == 0.0
    ensures a == b ==> r == Zero
  {
    Vec3(a.y * b.z - a.z * b.y, a.z * b.x - a.x * b.z, a.x * b.y - a.y * b.x)
  }

  /** `length` is what `Math.hypot` returns for `v`, read over the reals. */
  ghost predicate IsHypot(length: real, v: Vec3) {
    length >= 0.0 && length * length == LengthSq(v)
  }

  /**
   * `normalize(v)`, given the length `Math.hypot` computed for `v`: a zero length answers the
   * fixed +Z axis without dividing; otherwise every coordinate is divided by the length.
   */
  function Normalize(v: Vec3, length: real): (r: Vec3)
    ensures length == 0.0 ==> r == DefaultAxis
    ensures length != 0.0 ==> Scale(r, length) == v
  {
    if length == 0.0 then DefaultAxis else Scale(v, 1.0 / length)
  }

  lemma ScaleLengthSq(v: Vec3, k: real)
    ensures LengthSq(Scale(v, k)) == k * k * LengthSq(v)
  {
  }

  /** A non-zero vector normalised by its true length has unit length. */
  lemma NormalizeIsUnit(v: Vec3, length: real)
    requires IsHypot(length, v) && length != 0.0
    ensures LengthSq(Normalize(v, length)) == 1.0
  {
    ScaleLengthSq(v, 1.0 / length);
  }

  /** Normalising keeps the direction: any vector orthogonal to `v` is orthogonal to the result. */
  lemma NormalizeKeepsOrthogonality(v: Vec3, length: real, u: Vec3)
    requires length != 0.0 && Dot(v, u) == 0.0
    ensures Dot(Normalize(v, length), u) == 0.0
  {
    var k := 1.0 / length;
    assert Dot(Scale(v, k), u) == k * Dot(v, u);
  }

  /** Entry `i` of the homogeneous product of a column-major 4x4 matrix with (v, 1). */
  function Row(m: seq<real>, i: nat, v: Vec3): real
    requires |m| == 16 && i < 4
  {
    m[i] * v.x + m[4 + i] * v.y + m[8 + i] * v.z + m[12 + i]
  }

  /**
   * `applyTransform(v, matrix)`: an absent matrix, or one whose length is not 16, leaves `v`
   * unchanged; otherwise the result is the Cartesian point of the homogeneous product
   * (x, y, z, w), divided by w only when w is neither 0 nor 1.
   */
  function ApplyTransform(v: Vec3, matrix: Option<seq<real>>): (r: Vec3)
    ensures matrix.None? || |matrix.value| != 16 ==> r == v
    ensures matrix.Some? && |matrix.value| == 16 ==>
              var m := matrix.value;
              var affine := Vec3(Row(m, 0, v), Row(m, 1, v), Row(m, 2, v));
              (Row(m, 3, v) == 0.0 ==> r == affine) &&
              (Row(m, 3, v) != 0.0 ==> Scale(r, Row(m, 3, v)) == affine)
  {
    if matrix.None? || |matrix.value| != 16 then v
    else
      var m := matrix.value;
      var nx := m[0] * v.x + m[4] * v.y + m[8] * v.z + m[12];
      var ny := m[1] * v.x + m[5] * v.y + m[9] * v.z + m[13];
      var nz := m[2] * v.x + m[6] * v.y + m[10] * v.z + m[14];
      var w := m[3] * v.x + m[7] * v.y + m[11] * v.z + m[15];
      if w != 0.0 && w != 1.0 then Vec3(nx / w, ny / w, nz / w) else Vec3(nx, ny, nz)
  }

  /** The column-major matrix of a pure translation by `t`. */
  function Translation(t: Vec3): (m: seq<real>)
    ensures |m| == 16
  {
    [1.0, 0.0, 0.0, 0.0,
     0.0, 1.0, 0.0, 0.0,
     0.0, 0.0, 1.0, 0.0,
     t.x, t.y, t.z, 1.0]
  }

  /** A pure translation moves every point by exactly the translation vector. */
  lemma TranslationAddsOffset(v: Vec3, t: Vec3)
    ensures ApplyTransform(v, Some(Translation(t))) == Add(v, t)
  {
    var m := Translation(t);
    assert Row(m, 3, v) == 1.0;
  }
}
