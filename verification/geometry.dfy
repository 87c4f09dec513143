/**
  Planar points and the geometric predicates of the triangulation.

  Coordinates are exact integers: the single-precision rounding of the
  original `float2` arithmetic is not modelled, so every predicate below
  decides the exact sign of its determinant.
 */
module Geometry {

  /** A point of the plane (`float2`, with exact coordinates). */
  datatype Point = Point(x: int, y: int)

  /** Coordinate-wise equality of two points (`float2::operator==`). */
  function SamePoint(a: Point, b: Point): (r: bool)
    ensures r <==> a == b
  {
    a.x == b.x && a.y == b.y
  }

  /** Coordinate-wise difference `a - b` (`operator-`). */
  function Sub(a: Point, b: Point): (v: Point)
    ensures v.x + b.x == a.x && v.y + b.y == a.y
  {
    Point(a.x - b.x, a.y - b.y)
  }

  /** The squared Euclidean distance between `a` and `b` (`lenghtSquared`). */
  function LengthSquared(a: Point, b: Point): (r: int)
    ensures r >= 0
    ensures r == 0 <==> a == b
  {
    var v := Sub(a, b);
    v.x * v.x + v.y * v.y
  }

  /** The squared distance does not depend on the order of its arguments. */
  lemma LengthSquaredSymmetric(a: Point, b: Point)
    ensures LengthSquared(a, b) == LengthSquared(b, a)
  {
  }

  /** Twice the signed area of the triangle (a, b, c) (`computeArea`), from
      the two edge vectors leaving `a`.  It agrees with the shoelace sum over
      the three sides. */
  function Area(a: Point, b: Point, c: Point): (r: int)
    ensures r == (a.x * b.y - b.x * a.y) + (b.x * c.y - c.x * b.y) + (c.x * a.y - a.x * c.y)
  {
    (b.x - a.x) * (c.y - a.y) - (b.y - a.y) * (c.x - a.x)
  }

  /** Swapping the last two vertices negates the signed area. */
  lemma AreaAntisymmetric(a: Point, b: Point, c: Point)
    ensures Area(a, b, c) == -Area(a, c, b)
  {
  }

  /** The signed area is invariant under cyclic rotation of the vertices. */
  lemma AreaCyclic(a: Point, b: Point, c: Point)
    ensures Area(a, b, c) == Area(b, c, a)
  {
  }

  /** Moving all three vertices by the same vector keeps the signed area. */
  lemma AreaTranslate(a: Point, b: Point, c: Point, d: Point)
    ensures Area(Point(a.x + d.x, a.y + d.y), Point(b.x + d.x, b.y + d.y), Point(c.x + d.x, c.y + d.y))
            == Area(a, b, c)
  {
  }

  /** A triangle with a repeated vertex has zero area. */
  lemma AreaDegenerate(a: Point, b: Point)
    ensures Area(a, b, a) == 0 && Area(a, a, b) == 0 && Area(b, a, a) == 0
  {
  }

  /** True when a, b, c turn counterclockwise (`ccw`); such a triple is
      made of three distinct points. */
  predicate Ccw(a: Point, b: Point, c: Point): (r: bool)
    ensures r ==> a != b && b != c && c != a
  {
    AreaDegenerate(a, b);
    AreaDegenerate(b, c);
    AreaDegenerate(c, a);
    Area(a, b, c) > 0
  }

  /** `ccw(a, b, c)` and `ccw(a, c, b)` never hold together, and
      orientation is preserved by cyclic rotation of the vertices. */
  lemma CcwLaws(a: Point, b: Point, c: Point)
    ensures !(Ccw(a, b, c) && Ccw(a, c, b))
    ensures Ccw(a, b, c) <==> Ccw(b, c, a)
  {
    AreaAntisymmetric(a, b, c);
    AreaCyclic(a, b, c);
  }

  /** Three points are collinear exactly when neither orientation is counterclockwise. */
  lemma CollinearIffNoTurn(a: Point, b: Point, c: Point)
    ensures (!Ccw(a, b, c) && !Ccw(a, c, b)) <==> Area(a, b, c) == 0
  {
    AreaAntisymmetric(a, b, c);
  }

  /** The squared norm of a point seen as a vector. */
  function Norm2(p: Point): int
  {
    p.x * p.x + p.y * p.y
  }

  /** The lifted 4x4 determinant of Guibas and Stolfi (1985), p. 107,
      expanded along the lifted column. */
  function InCircleDet(a: Point, b: Point, c: Point, d: Point): int
  {
    Norm2(a) * Area(b, c, d) - Norm2(b) * Area(a, c, d)
      + Norm2(c) * Area(a, b, d) - Norm2(d) * Area(a, b, c)
  }

  /** `insideCircle(a, b, c, d)`: `d` strictly inside the circle through a, b, c
      (when a, b, c turn counterclockwise).  The three points of the triple
      lie on their circle, so none of them is ever strictly inside. */
  predicate InsideCircle(a: Point, b: Point, c: Point, d: Point): (r: bool)
    ensures r ==> d != a && d != b && d != c
  {
    OnCircleFirst(a, b, c);
    OnCircleSecond(a, b, c);
    OnCircleThird(a, b, c);
    InCircleDet(a, b, c, d) > 0
  }

  /** The determinant vanishes when `d` is `a`. */
  lemma OnCircleFirst(a: Point, b: Point, c: Point)
    ensures InCircleDet(a, b, c, a) == 0
  {
    AreaCyclic(a, b, c);
    AreaDegenerate(a, c);
    AreaDegenerate(a, b);
    Cancel(Norm2(a), Norm2(b), Norm2(c), Area(b, c, a), Area(a, c, a), Area(a, b, a), Area(a, b, c));
  }

  /** The determinant vanishes when `d` is `b`. */
  lemma OnCircleSecond(a: Point, b: Point, c: Point)
    ensures InCircleDet(a, b, c, b) == 0
  {
    AreaCyclic(a, c, b);
    AreaAntisymmetric(a, b, c);
    AreaDegenerate(b, c);
    AreaDegenerate(b, a);
    Cancel(Norm2(b), Norm2(a), Norm2(c), Area(a, c, b), Area(b, c, b), Area(a, b, b), -Area(a, b, c));
  }

  /** The determinant vanishes when `d` is `c`. */
  lemma OnCircleThird(a: Point, b: Point, c: Point)
    ensures InCircleDet(a, b, c, c) == 0
  {
    AreaDegenerate(c, b);
    AreaDegenerate(c, a);
    Cancel(Norm2(c), Norm2(a), Norm2(b), Area(a, b, c), Area(b, c, c), Area(a, c, c), Area(a, b, c));
  }

  /** The arithmetic step behind the `InsideCircle` postcondition: two of the four minors vanish
      and the other two cancel. */
  lemma Cancel(n: int, m: int, k: int, s: int, zero1: int, zero2: int, t: int)
    requires s == t && zero1 == 0 && zero2 == 0
    ensures n * s - m * zero1 + k * zero2 - n * t == 0
    ensures -(m * zero1) + n * s - n * t + k * zero2 == 0
  {
  }

  /** The cross product of two vectors. */
  function Cross(u: Point, v: Point): int
  {
    u.x * v.y - u.y * v.x
  }

  /** The dot product of two vectors. */
  function Dot(u: Point, v: Point): int
  {
    u.x * v.x + u.y * v.y
  }

  /** The textbook 3x3 form of the in-circle determinant, with `d` moved to the origin. */
  function InCircleTranslated(a: Point, b: Point, c: Point, d: Point): int
  {
    var u := Sub(a, d);
    var v := Sub(b, d);
    var w := Sub(c, d);
    Norm2(u) * Cross(v, w) - Norm2(v) * Cross(u, w) + Norm2(w) * Cross(u, v)
  }

  /** Translating a point by `d` changes its squared norm by a linear term. */
  lemma Norm2Translate(u: Point, d: Point)
    ensures Norm2(Point(u.x + d.x, u.y + d.y)) == Norm2(u) + 2 * Dot(u, d) + Norm2(d)
  {
  }

  /** Three plane vectors are linearly dependent. */
  lemma PlaneDependence(u: Point, v: Point, w: Point, d: Point)
    ensures Dot(u, d) * Cross(v, w) - Dot(v, d) * Cross(u, w) + Dot(w, d) * Cross(u, v) == 0
  {
  }

  /** The linear-algebra step behind `InCircleDetIsTranslated`: substitute the
      translated norms and areas and drop the dependent middle terms. */
  lemma LiftedExpansion(na: int, nb: int, nc: int, nd: int, x1: int, x2: int, x3: int, x4: int,
                        nu: int, nv: int, nw: int, du: int, dv: int, dw: int,
                        cvw: int, cuw: int, cuv: int)
    requires na == nu + 2 * du + nd && nb == nv + 2 * dv + nd && nc == nw + 2 * dw + nd
    requires x1 == cvw && x2 == cuw && x3 == cuv && x4 == cvw - cuw + cuv
    requires du * cvw - dv * cuw + dw * cuv == 0
    ensures na * x1 - nb * x2 + nc * x3 - nd * x4 == nu * cvw - nv * cuw + nw * cuv
  {
  }

  /** Areas of triangles expressed in coordinates relative to `d`. */
  lemma AreasTranslated(a: Point, b: Point, c: Point, d: Point)
    ensures Area(b, c, d) == Cross(Sub(b, d), Sub(c, d))
    ensures Area(a, c, d) == Cross(Sub(a, d), Sub(c, d))
    ensures Area(a, b, d) == Cross(Sub(a, d), Sub(b, d))
    ensures Area(a, b, c) == Cross(Sub(b, d), Sub(c, d)) - Cross(Sub(a, d), Sub(c, d))
                             + Cross(Sub(a, d), Sub(b, d))
  {
  }

  /** The expanded determinant agrees with the translated 3x3 form, so
      `InsideCircle` is the standard in-circle test. */
  lemma InCircleDetIsTranslated(a: Point, b: Point, c: Point, d: Point)
    ensures InCircleDet(a, b, c, d) == InCircleTranslated(a, b, c, d)
  {
    var u, v, w := Sub(a, d), Sub(b, d), Sub(c, d);
    Norm2Translate(u, d);
    Norm2Translate(v, d);
    Norm2Translate(w, d);
    assert Point(u.x + d.x, u.y + d.y) == a;
    assert Point(v.x + d.x, v.y + d.y) == b;
    assert Point(w.x + d.x, w.y + d.y) == c;
    AreasTranslated(a, b, c, d);
    PlaneDependence(u, v, w, d);
    LiftedExpansion(Norm2(a), Norm2(b), Norm2(c), Norm2(d),
                    Area(b, c, d), Area(a, c, d), Area(a, b, d), Area(a, b, c),
                    Norm2(u), Norm2(v), Norm2(w), Dot(u, d), Dot(v, d), Dot(w, d),
                    Cross(v, w), Cross(u, w), Cross(u, v));
  }
}
