/**
 * The vector helpers of slices.py (add, subtract, scalarMult, dotProduct,
 * crossProduct) over exact real coordinates, and the triangle-area function,
 * which the model keeps abstract because the source computes it with a
 * square root.
 */
module Geometry {
  /** A coordinate triple [x, y, z]. */
  datatype Point = Point(x: real, y: real, z: real)

  const Origin := Point(0.0, 0.0, 0.0)

  /** Addition is undone by subtracting the second operand. */
  function Add(v0: Point, v1: Point): (r: Point)
    ensures Subtract(r, v1) == v0
  {
    Point(v0.x + v1.x, v0.y + v1.y, v0.z + v1.z)
  }

  /** The difference is the origin exactly when the operands are equal. */
  function Subtract(v0: Point, v1: Point): (r: Point)
    ensures r == Origin <==> v0 == v1
  {
    Point(v0.x - v1.x, v0.y - v1.y, v0.z - v1.z)
  }

  /** A scaled vector is parallel to the original: their cross product is zero. */
  function ScalarMult(k: real, v: Point): (r: Point)
    ensures CrossProduct(v, r) == Origin
  {
    var r := Point(k * v.x, k * v.y, k * v.z);
    assert v.y * r.z - v.z * r.y == k * (v.y * v.z - v.z * v.y);
    assert v.z * r.x - v.x * r.z == k * (v.z * v.x - v.x * v.z);
    assert v.x * r.y - v.y * r.x == k * (v.x * v.y - v.y * v.x);
    r
  }

  /** The dot product of a vector with itself is never negative. */
  function DotProduct(v0: Point, v1: Point): (r: real)
    ensures v0 == v1 ==> r >= 0.0
  {
    v0.x * v1.x + v0.y * v1.y + v0.z * v1.z
  }

  /** The cross product is orthogonal to both operands. */
  function CrossProduct(v0: Point, v1: Point): (r: Point)
    ensures DotProduct(r, v0) == 0.0 && DotProduct(r, v1) == 0.0
  {
    Point(v0.y * v1.z - v0.z * v1.y, v0.z * v1.x - v0.x * v1.z, v0.x * v1.y - v0.y * v1.x)
  }

  /** The squared distance the anchor search computes: the dot product of the difference with itself. */
  function SquaredDistance(p: Point, q: Point): (r: real)
    ensures r >= 0.0
  {
    var diff := Subtract(p, q);
    DotProduct(diff, diff)
  }

  /** The squared distance bounds the squared gap along x from above. */
  lemma SquaredDistanceBoundsGap(p: Point, q: Point)
    ensures SquaredDistance(p, q) >= (p.x - q.x) * (p.x - q.x)
  {
    var diff := Subtract(p, q);
    assert diff.y * diff.y >= 0.0 && diff.z * diff.z >= 0.0;
  }

  /**
   * triangleArea(v0, v1, v2) is half the length of the cross product of the
   * two edges leaving v0. The model takes the area as a parameter of this type.
   */
  type Area = (Point, Point, Point) -> real

  ghost predicate NonNegativeArea(area: Area)
  {
    forall a, b, c :: area(a, b, c) >= 0.0
  }

  /**
   * The area function the source computes, described without a square root:
   * a non-negative value whose square is a quarter of the squared length of
   * the cross product of the two edges leaving the first corner, and which
   * is zero exactly when that cross product is (a length is zero only for
   * the zero vector).
   */
  ghost predicate IsTriangleArea(area: Area)
  {
    forall a, b, c ::
      var n := CrossProduct(Subtract(b, a), Subtract(c, a));
      && area(a, b, c) >= 0.0
      && 4.0 * area(a, b, c) * area(a, b, c) == DotProduct(n, n)
      && (area(a, b, c) == 0.0 <==> n == Origin)
  }

  /**
   * A triangle with a repeated first corner, or whose third corner lies on
   * the line through its first two, has zero area.
   */
  lemma DegenerateTriangleArea(area: Area, a: Point, b: Point, t: real)
    requires IsTriangleArea(area)
    ensures area(a, a, b) == 0.0
    ensures area(a, b, Add(a, ScalarMult(t, Subtract(b, a)))) == 0.0
  {
    var d := Subtract(b, a);
    CrossFromOrigin(a, d);
    ZeroCrossZeroArea(area, a, a, b);
    var e := Add(a, ScalarMult(t, d));
    SubtractAdd(a, ScalarMult(t, d));
    ZeroCrossZeroArea(area, a, b, e);
  }

  lemma CrossFromOrigin(a: Point, d: Point)
    ensures CrossProduct(Subtract(a, a), d) == Origin
  {
  }

  lemma SubtractAdd(a: Point, u: Point)
    ensures Subtract(Add(a, u), a) == u
  {
  }

  lemma ZeroCrossZeroArea(area: Area, a: Point, b: Point, c: Point)
    requires IsTriangleArea(area)
    requires CrossProduct(Subtract(b, a), Subtract(c, a)) == Origin
    ensures area(a, b, c) == 0.0
  {
  }
}
