/**
 Quaternions, and what turning by a unit quaternion does to a point, for the rotations of the nodes of a glTF file.
 */
module Rotation {
  datatype Point = Point(x: real, y: real, z: real)

  datatype Quaternion = Quaternion(x: real, y: real, z: real, w: real)

  function Product(p: Quaternion, q: Quaternion): Quaternion {
    Quaternion(p.w * q.x + p.x * q.w + p.y * q.z - p.z * q.y,
               p.w * q.y + p.y * q.w + p.z * q.x - p.x * q.z,
               p.w * q.z + p.z * q.w + p.x * q.y - p.y * q.x,
               p.w * q.w - p.x * q.x - p.y * q.y - p.z * q.z)
  }

  function Conjugate(q: Quaternion): Quaternion { Quaternion(-q.x, -q.y, -q.z, q.w) }

  function Pure(p: Point): Quaternion { Quaternion(p.x, p.y, p.z, 0.0) }

  predicate IsUnit(q: Quaternion) { q.x * q.x + q.y * q.y + q.z * q.z + q.w * q.w == 1.0 }

  lemma ConjugateInverts(q: Quaternion)
    requires IsUnit(q)
    ensures Product(q, Conjugate(q)) == Quaternion(0.0, 0.0, 0.0, 1.0)
  {
  }

  /** The point that turning by a unit quaternion gives. */
  function Turned(q: Quaternion, p: Point): Point {
    var r := Product(Product(q, Pure(p)), Conjugate(q));
    Point(r.x, r.y, r.z)
  }

  /** The entries of the rotation matrix of a unit quaternion, by the axes they belong to, and the matrix at work. */
  function XX(y: real, z: real): real { 1.0 - 2.0 * y * y - 2.0 * z * z }

  function XY(x: real, y: real, z: real, w: real): real { 2.0 * x * y - 2.0 * z * w }

  function XZ(x: real, y: real, z: real, w: real): real { 2.0 * x * z + 2.0 * y * w }

  function RowOf(x: real, y: real, z: real, w: real, a: real, b: real, c: real): real {
    XX(y, z) * a + XY(x, y, z, w) * b + XZ(x, y, z, w) * c
  }

  function Rows(q: Quaternion, v: Point): Point {
    Point(RowOf(q.x, q.y, q.z, q.w, v.x, v.y, v.z), RowOf(q.y, q.z, q.x, q.w, v.y, v.z, v.x), RowOf(q.z, q.x, q.y, q.w, v.z, v.x, v.y))
  }

  lemma TurnedIsRows(q: Quaternion, v: Point)
    requires IsUnit(q)
    ensures Turned(q, v) == Rows(q, v) && Product(Product(q, Pure(v)), Conjugate(q)).w == 0.0
  {
    TurnedX(q, v);
    TurnedY(q, v);
    TurnedZ(q, v);
    RealPart(q, v);
  }

  lemma TurnedX(q: Quaternion, v: Point)
    requires IsUnit(q)
    ensures Turned(q, v).x == RowOf(q.x, q.y, q.z, q.w, v.x, v.y, v.z)
  {
    var r := Product(q, Pure(v));
    Inner(q, v);
    Outer(r, q);
    Sandwich(q.x, q.y, q.z, q.w, v.x, v.y, v.z, r.x, r.y, r.z, r.w);
  }

  lemma TurnedY(q: Quaternion, v: Point)
    requires IsUnit(q)
    ensures Turned(q, v).y == RowOf(q.y, q.z, q.x, q.w, v.y, v.z, v.x)
  {
    var r := Product(q, Pure(v));
    Inner(q, v);
    Outer(r, q);
    Sandwich(q.y, q.z, q.x, q.w, v.y, v.z, v.x, r.y, r.z, r.x, r.w);
  }

  lemma TurnedZ(q: Quaternion, v: Point)
    requires IsUnit(q)
    ensures Turned(q, v).z == RowOf(q.z, q.x, q.y, q.w, v.z, v.x, v.y)
  {
    var r := Product(q, Pure(v));
    Inner(q, v);
    Outer(r, q);
    Sandwich(q.z, q.x, q.y, q.w, v.z, v.x, v.y, r.z, r.x, r.y, r.w);
  }

  lemma RealPart(q: Quaternion, v: Point)
    ensures Product(Product(q, Pure(v)), Conjugate(q)).w == 0.0
  {
    var r := Product(q, Pure(v));
    Inner(q, v);
    Outer(r, q);
    NoRealPart(q.x, q.y, q.z, q.w, v.x, v.y, v.z, r.x, r.y, r.z, r.w);
  }

  lemma Inner(q: Quaternion, v: Point)
    ensures var r := Product(q, Pure(v));
            && r.x == q.w * v.x + q.y * v.z - q.z * v.y
            && r.y == q.w * v.y + q.z * v.x - q.x * v.z
            && r.z == q.w * v.z + q.x * v.y - q.y * v.x
            && r.w == -(q.x * v.x) - q.y * v.y - q.z * v.z
  {
  }

  lemma Outer(r: Quaternion, q: Quaternion)
    ensures var t := Product(r, Conjugate(q));
            && t.x == r.x * q.w - r.w * q.x - r.y * q.z + r.z * q.y
            && t.y == r.y * q.w - r.w * q.y - r.z * q.x + r.x * q.z
            && t.z == r.z * q.w - r.w * q.z - r.x * q.y + r.y * q.x
            && t.w == r.w * q.w + r.x * q.x + r.y * q.y + r.z * q.z
  {
  }

  /** One coordinate of `q p q^-1`; the others are the same with the axes turned round. */
  lemma Sandwich(x: real, y: real, z: real, w: real, a: real, b: real, c: real, rx: real, ry: real, rz: real, rw: real)
    requires rx == w * a + y * c - z * b && ry == w * b + z * a - x * c && rz == w * c + x * b - y * a && rw == -(x * a) - y * b - z * c
    requires x * x + y * y + z * z + w * w == 1.0
    ensures rx * w - rw * x - ry * z + rz * y == RowOf(x, y, z, w, a, b, c)
  {
    Expand(rx, w, a, y, c, z, b, w);
    ExpandReal(rw, x, a, y, b, z, c, x);
    Expand(ry, w, b, z, a, x, c, z);
    Expand(rz, w, c, x, b, y, a, y);
    Collect(x, y, z, w, a, b, c);
    UnitRow(x, y, z, w);
  }

  lemma Expand(r: real, u: real, a: real, v: real, b: real, t: real, c: real, k: real)
    requires r == u * a + v * b - t * c
    ensures r * k == (u * k) * a + (v * k) * b - (t * k) * c
  {
    assert (u * a + v * b - t * c) * k == (u * k) * a + (v * k) * b - (t * k) * c;
  }

  lemma ExpandReal(r: real, u: real, a: real, v: real, b: real, t: real, c: real, k: real)
    requires r == -(u * a) - v * b - t * c
    ensures r * k == -((u * k) * a) - (v * k) * b - (t * k) * c
  {
    assert (-(u * a) - v * b - t * c) * k == -((u * k) * a) - (v * k) * b - (t * k) * c;
  }

  lemma Collect(x: real, y: real, z: real, w: real, a: real, b: real, c: real)
    ensures ((w * w) * a + (y * w) * c - (z * w) * b) - (-((x * x) * a) - (y * x) * b - (z * x) * c)
            - ((w * z) * b + (z * z) * a - (x * z) * c) + ((w * y) * c + (x * y) * b - (y * y) * a)
         == (w * w + x * x - y * y - z * z) * a + XY(x, y, z, w) * b + XZ(x, y, z, w) * c
  {
  }

  lemma UnitRow(x: real, y: real, z: real, w: real)
    requires x * x + y * y + z * z + w * w == 1.0
    ensures w * w + x * x - y * y - z * z == XX(y, z)
  {
  }

  lemma NoRealPart(x: real, y: real, z: real, w: real, a: real, b: real, c: real, rx: real, ry: real, rz: real, rw: real)
    requires rx == w * a + y * c - z * b && ry == w * b + z * a - x * c && rz == w * c + x * b - y * a && rw == -(x * a) - y * b - z * c
    ensures rw * w + rx * x + ry * y + rz * z == 0.0
  {
    ExpandReal(rw, x, a, y, b, z, c, w);
    Expand(rx, w, a, y, c, z, b, x);
    Expand(ry, w, b, z, a, x, c, y);
    Expand(rz, w, c, x, b, y, a, z);
  }
}
