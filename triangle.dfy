/**
 * The triangle helpers of src/triangle.ts: barycentric weights of a point,
 * the inside test built on them, and the vertex ordering that starts the
 * scan-line sweep.
 */
module Triangle {
  import LA = LinearAlgebra

  datatype Point = Point(x: real, y: real)

  /** The weights `[w0, w1, w2]` of the three vertices. */
  datatype Weights = Weights(w0: real, w1: real, w2: real)

  /** What `barycentric` returns for a triangle whose vertices are collinear. */
  const Sentinel := Weights(-1.0, 1.0, 1.0)

  /**
   * Twice the signed area of the triangle; zero exactly when its vertices
   * are collinear.
   */
  function Area2(p0: Point, p1: Point, p2: Point): real
  {
    (p1.x - p0.x) * (p2.y - p0.y) - (p2.x - p0.x) * (p1.y - p0.y)
  }

  predicate Degenerate(p0: Point, p1: Point, p2: Point)
  {
    Area2(p0, p1, p2) == 0.0
  }

  /** The cross product `[u, v, 1]`, up to a common factor, of `barycentric`. */
  function Homogeneous(p0: Point, p1: Point, p2: Point, p: Point): (hc: seq<real>)
    ensures |hc| == 3
  {
    LA.Cross([p1.x - p0.x, p2.x - p0.x, p0.x - p.x], [p1.y - p0.y, p2.y - p0.y, p0.y - p.y])
  }

  /**
   * `barycentric`: the sentinel when the third homogeneous coordinate is
   * zero, otherwise `[1 - u - v, u, v]` after dividing by it.
   */
  function Barycentric(p0: Point, p1: Point, p2: Point, p: Point): (w: Weights)
    ensures Degenerate(p0, p1, p2) ==> w == Sentinel
    ensures w.w0 + w.w1 + w.w2 == 1.0
  {
    var hc := Homogeneous(p0, p1, p2, p);
    ThirdIsArea(p0, p1, p2, p);
    if hc[2] == 0.0 then
      Sentinel
    else
      var u := hc[0] / hc[2];
      var v := hc[1] / hc[2];
      Weights(1.0 - u - v, u, v)
  }

  /** The third homogeneous coordinate is the doubled area, whatever the point. */
  lemma ThirdIsArea(p0: Point, p1: Point, p2: Point, p: Point)
    ensures Homogeneous(p0, p1, p2, p)[2] == Area2(p0, p1, p2)
  {
    var a := [p1.x - p0.x, p2.x - p0.x, p0.x - p.x];
    var b := [p1.y - p0.y, p2.y - p0.y, p0.y - p.y];
    assert a[0] == p1.x - p0.x && a[1] == p2.x - p0.x;
    assert b[0] == p1.y - p0.y && b[1] == p2.y - p0.y;
  }

  /**
   * For a triangle with non-collinear vertices the weights are the
   * coordinates of the point: their combination of the vertices is the point.
   */
  lemma BarycentricReconstructs(p0: Point, p1: Point, p2: Point, p: Point)
    requires !Degenerate(p0, p1, p2)
    ensures var w := Barycentric(p0, p1, p2, p);
      w.w0 * p0.x + w.w1 * p1.x + w.w2 * p2.x == p.x &&
      w.w0 * p0.y + w.w1 * p1.y + w.w2 * p2.y == p.y
  {
    var a := [p1.x - p0.x, p2.x - p0.x, p0.x - p.x];
    var b := [p1.y - p0.y, p2.y - p0.y, p0.y - p.y];
    var hc := LA.Cross(a, b);
    ThirdIsArea(p0, p1, p2, p);
    LA.CrossTriples(a, b);
    var u, v := hc[0] / hc[2], hc[1] / hc[2];
    RatioCombination(hc[0], hc[1], hc[2], a[0], a[1], a[2], u, v);
    RatioCombination(hc[0], hc[1], hc[2], b[0], b[1], b[2], u, v);
    AffineCombination(p0.x, p1.x, p2.x, p.x, u, v);
    AffineCombination(p0.y, p1.y, p2.y, p.y, u, v);
  }

  /** Dividing `c0 a0 + c1 a1 + c2 a2 = 0` by a non-zero `c2`. */
  lemma RatioCombination(c0: real, c1: real, c2: real, a0: real, a1: real, a2: real, u: real, v: real)
    requires c2 != 0.0 && u == c0 / c2 && v == c1 / c2
    requires c0 * a0 + c1 * a1 + c2 * a2 == 0.0
    ensures u * a0 + v * a1 + a2 == 0.0
  {
    assert u * c2 == c0 && v * c2 == c1;
    assert (u * a0 + v * a1 + a2) * c2 == c0 * a0 + c1 * a1 + c2 * a2;
  }

  /** `u (q1 - q0) + v (q2 - q0) + (q0 - q) = 0` makes `q` the combination with weights `1 - u - v, u, v`. */
  lemma AffineCombination(q0: real, q1: real, q2: real, q: real, u: real, v: real)
    requires u * (q1 - q0) + v * (q2 - q0) + (q0 - q) == 0.0
    ensures (1.0 - u - v) * q0 + u * q1 + v * q2 == q
  {
  }

  /** `isInside`: every weight is non-negative. */
  predicate IsInside(p0: Point, p1: Point, p2: Point, p: Point)
  {
    var w := Barycentric(p0, p1, p2, p);
    w.w0 >= 0.0 && w.w1 >= 0.0 && w.w2 >= 0.0
  }

  /**
   * A point is inside only when the triangle has non-collinear vertices,
   * and then it is a convex combination of them.
   */
  lemma InsideIsConvexCombination(p0: Point, p1: Point, p2: Point, p: Point)
    ensures IsInside(p0, p1, p2, p) ==> !Degenerate(p0, p1, p2)
    ensures IsInside(p0, p1, p2, p) ==>
      var w := Barycentric(p0, p1, p2, p);
      0.0 <= w.w0 <= 1.0 && 0.0 <= w.w1 <= 1.0 && 0.0 <= w.w2 <= 1.0 &&
      w.w0 * p0.x + w.w1 * p1.x + w.w2 * p2.x == p.x &&
      w.w0 * p0.y + w.w1 * p1.y + w.w2 * p2.y == p.y
  {
    if !Degenerate(p0, p1, p2) {
      BarycentricReconstructs(p0, p1, p2, p);
    }
  }

  /**
   * The three compare-and-swap steps at the start of `sweepLine`: the
   * vertices come out in non-decreasing `y`, as a rearrangement of the input.
   */
  method SortByY(v0: Point, v1: Point, v2: Point) returns (a: Point, b: Point, c: Point)
    ensures a.y <= b.y <= c.y
    ensures multiset{a, b, c} == multiset{v0, v1, v2}
  {
    a, b, c := v0, v1, v2;
    if a.y > b.y {
      a, b := b, a;
    }
    if a.y > c.y {
      a, c := c, a;
    }
    if b.y > c.y {
      b, c := c, b;
    }
  }
}
