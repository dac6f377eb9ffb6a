/**
 * The software rasteriser of src/tiny-renderer.ts: an RGBA byte surface and a
 * depth buffer, a pixel write, Bresenham's line and a bounding-box triangle
 * fill with a depth test.
 *
 * Each drawing method is proved against a function of the surface before the
 * call (`Paint` for lines, `FillBox` for triangles); the properties of the
 * drawing are lemmas about those functions.
 */
module TinyRenderer {
  import opened Bytes
  import opened Image
  import T = Triangle

  // ---------------------------------------------------------------------------
  // Depths

  /** A depth-buffer cell: `-Infinity` or a finite depth. */
  datatype Depth = NegInfinity | Finite(z: real)

  /** `z > d`: every finite depth is above `-Infinity`. */
  predicate Above(z: real, d: Depth)
  {
    d.NegInfinity? || z > d.z
  }

  /** `d'` is at least as high as `d`. */
  predicate NotBelow(d': Depth, d: Depth)
  {
    d.NegInfinity? || (d'.Finite? && d'.z >= d.z)
  }

  // ---------------------------------------------------------------------------
  // Lines

  function Abs(n: int): nat
  {
    if n < 0 then -n else n
  }

  function Max(a: int, b: int): int
  {
    if a >= b then a else b
  }

  function Min(a: int, b: int): int
  {
    if a <= b then a else b
  }

  /** A point as plotted: transposed back when the line was drawn along y. */
  function Plot(steep: bool, p: (int, int)): (int, int)
  {
    if steep then (p.1, p.0) else p
  }

  function PlotAll(steep: bool, ps: seq<(int, int)>): (r: seq<(int, int)>)
    ensures |r| == |ps|
    ensures forall i :: 0 <= i < |ps| ==> r[i] == Plot(steep, ps[i])
  {
    seq(|ps|, i requires 0 <= i < |ps| => Plot(steep, ps[i]))
  }

  /** The endpoints after the steep swap and the reordering of `drawLine`. */
  datatype Orientation = Orientation(steep: bool, x0: int, y0: int, x1: int, y1: int)

  /**
   * Swaps x and y when the line is steeper than 45 degrees, then orders the
   * endpoints by the dominant coordinate.
   */
  function Orient(x0: int, y0: int, x1: int, y1: int): Orientation
  {
    var steep := Abs(y1 - y0) > Abs(x1 - x0);
    var a0, b0, a1, b1 := if steep then y0 else x0, if steep then x0 else y0,
                          if steep then y1 else x1, if steep then x1 else y1;
    if a0 > a1 then Orientation(steep, a1, b1, a0, b0) else Orientation(steep, a0, b0, a1, b1)
  }

  /**
   * The reordered line runs left to right along its dominant axis, at most
   * one minor step per major step, steep exactly when |dy| > |dx|, and its
   * endpoints transpose back to the original ones in one order or the other.
   */
  lemma OrientSpec(x0: int, y0: int, x1: int, y1: int)
    ensures var o := Orient(x0, y0, x1, y1);
      o.x0 <= o.x1 &&
      Abs(o.y1 - o.y0) <= o.x1 - o.x0 &&
      o.x1 - o.x0 == Max(Abs(x1 - x0), Abs(y1 - y0)) &&
      (o.steep <==> Abs(y1 - y0) > Abs(x1 - x0)) &&
      ((Plot(o.steep, (o.x0, o.y0)) == (x0, y0) && Plot(o.steep, (o.x1, o.y1)) == (x1, y1)) ||
       (Plot(o.steep, (o.x0, o.y0)) == (x1, y1) && Plot(o.steep, (o.x1, o.y1)) == (x0, y0)))
  {
  }

  /** The step of the minor coordinate: `dy > 0 ? 1 : -1`. */
  function Sign(dy: int): int
  {
    if dy > 0 then 1 else -1
  }

  /** How far `d` goes in the direction of `dy`. */
  function Along(dy: int, d: int): int
  {
    if dy > 0 then d else -d
  }

  /**
   * The points the loop of `drawLine` plots from dominant coordinate `x` to
   * `x1`, starting at minor coordinate `y` with error `carry`: each round
   * plots, adds `2|dy|` to the carry and, once it exceeds `dx`, steps the
   * minor coordinate and takes `2 dx` off.
   */
  function Walk(x: int, y: int, carry: int, x1: int, dx: int, dy: int): (r: seq<(int, int)>)
    requires x <= x1 + 1
    decreases x1 - x + 1
    ensures |r| == x1 - x + 1
    ensures |r| > 0 ==> r[0] == (x, y)
  {
    if x > x1 then
      []
    else
      var c := carry + Abs(dy) * 2;
      if c > dx then
        [(x, y)] + Walk(x + 1, y + Sign(dy), c - dx * 2, x1, dx, dy)
      else
        [(x, y)] + Walk(x + 1, y, c, x1, dx, dy)
  }

  /**
   * One round of the error term: once `|dy| <= dx`, a carry within
   * `[-dx, dx]` stays within it after `2|dy|` is added and, when it exceeds
   * `dx`, `2 dx` is taken off.
   */
  lemma CarryBounded(carry: int, dx: int, dy: int)
    requires Abs(dy) <= dx && -dx <= carry <= dx
    ensures var c := carry + Abs(dy) * 2;
      -dx <= (if c > dx then c - dx * 2 else c) <= dx
  {
  }

  /** The walk advances the dominant coordinate by one at every point. */
  lemma {:induction false} WalkColumns(x: int, y: int, carry: int, x1: int, dx: int, dy: int)
    requires x <= x1 + 1
    decreases x1 - x + 1
    ensures forall i :: 0 <= i <= x1 - x ==> Walk(x, y, carry, x1, dx, dy)[i].0 == x + i
  {
    if x <= x1 {
      var c := carry + Abs(dy) * 2;
      var y', c' := if c > dx then y + Sign(dy) else y, if c > dx then c - dx * 2 else c;
      WalkColumns(x + 1, y', c', x1, dx, dy);
      var r, r' := Walk(x, y, carry, x1, dx, dy), Walk(x + 1, y', c', x1, dx, dy);
      assert r == [(x, y)] + r';
      forall i | 0 < i <= x1 - x
        ensures r[i].0 == x + i
      {
        assert r[i] == r'[i - 1];
      }
    }
  }

  lemma AppendAssociative<X>(a: seq<X>, b: seq<X>, c: seq<X>)
    ensures (a + b) + c == a + (b + c)
  {
  }

  /** The last point of a walk is in column `x1`. */
  lemma WalkLast(x: int, y: int, carry: int, x1: int, dx: int, dy: int)
    requires x <= x1
    ensures Walk(x, y, carry, x1, dx, dy)[x1 - x].0 == x1
  {
    WalkColumns(x, y, carry, x1, dx, dy);
  }

  /** One round of the loop: the walk is its first point followed by the walk from the next state. */
  lemma WalkNext(x: int, y: int, carry: int, x1: int, dx: int, dy: int, y': int, carry': int)
    requires x <= x1
    requires carry + Abs(dy) * 2 > dx ==> y' == y + Sign(dy) && carry' == carry + Abs(dy) * 2 - dx * 2
    requires carry + Abs(dy) * 2 <= dx ==> y' == y && carry' == carry + Abs(dy) * 2
    ensures Walk(x, y, carry, x1, dx, dy) == [(x, y)] + Walk(x + 1, y', carry', x1, dx, dy)
  {
  }

  /** The points plotted so far and the rest of the walk still make up the whole walk after one more round. */
  lemma WalkAdvance(done: seq<(int, int)>, p: (int, int), carry: int, x1: int, dx: int, dy: int, y': int, carry': int, walk: seq<(int, int)>)
    requires p.0 <= x1 && done + Walk(p.0, p.1, carry, x1, dx, dy) == walk
    requires carry + Abs(dy) * 2 > dx ==> y' == p.1 + Sign(dy) && carry' == carry + Abs(dy) * 2 - dx * 2
    requires carry + Abs(dy) * 2 <= dx ==> y' == p.1 && carry' == carry + Abs(dy) * 2
    ensures (done + [p]) + Walk(p.0 + 1, y', carry', x1, dx, dy) == walk
  {
    WalkNext(p.0, p.1, carry, x1, dx, dy, y', carry');
    AppendAssociative(done, [p], Walk(p.0 + 1, y', carry', x1, dx, dy));
  }

  /** The pixels `drawLine` plots, in order, for integer endpoints. */
  function LinePixels(x0: int, y0: int, x1: int, y1: int): (r: seq<(int, int)>)
    ensures |r| == Max(Abs(x1 - x0), Abs(y1 - y0)) + 1
  {
    var o := Orient(x0, y0, x1, y1);
    PlotAll(o.steep, Walk(o.x0, o.y0, 0, o.x1, o.x1 - o.x0, o.y1 - o.y0))
  }

  /** Painting a line is painting its reordered walk, transposed back. */
  lemma PaintLine(data: seq<Byte>, width: int, color: Color, x0: int, y0: int, x1: int, y1: int,
                  steep: bool, a0: int, b0: int, a1: int, b1: int, dx: int, dy: int)
    requires Orient(x0, y0, x1, y1) == Orientation(steep, a0, b0, a1, b1)
    requires a0 <= a1 && dx == a1 - a0 && dy == b1 - b0
    ensures Paint(data, width, LinePixels(x0, y0, x1, y1), color) == Paint(data, width, PlotAll(steep, Walk(a0, b0, 0, a1, dx, dy)), color)
  {
    var o := Orient(x0, y0, x1, y1);
    assert o.steep == steep && o.x0 == a0 && o.y0 == b0 && o.x1 == a1 && o.y1 - o.y0 == dy;
    assert LinePixels(x0, y0, x1, y1) == PlotAll(steep, Walk(a0, b0, 0, a1, dx, dy));
  }

  /** The balance of the error term over the walk from `x` to `x1`. */
  predicate Balanced(x: int, y: int, carry: int, x1: int, dx: int, dy: int)
    requires x <= x1
  {
    var r := Walk(x, y, carry, x1, dx, dy);
    var e := Along(dy, r[|r| - 1].1 - y);
    e >= 0 && -dx <= carry + Times(x1 - x, 2 * Abs(dy)) - Times(e, 2 * dx) <= dx
  }

  /**
   * The error term balances the progress along both axes: after the plots
   * from `x` to `x1`, `carry + 2 |dy| (x1 - x) - 2 dx (steps taken)` stays in
   * `[-dx, dx]`, the steps taken counted in the direction of `dy`.
   */
  lemma {:induction false} WalkBalance(x: int, y: int, carry: int, x1: int, dx: int, dy: int)
    requires x <= x1 && Abs(dy) <= dx && -dx <= carry <= dx
    decreases x1 - x
    ensures Balanced(x, y, carry, x1, dx, dy)
  {
    if x < x1 {
      var c := carry + Abs(dy) * 2;
      if c > dx {
        WalkBalance(x + 1, y + Sign(dy), c - dx * 2, x1, dx, dy);
        BalanceUp(x, y, carry, x1, dx, dy);
      } else {
        WalkBalance(x + 1, y, c, x1, dx, dy);
        BalanceFlat(x, y, carry, x1, dx, dy);
      }
    }
  }

  lemma BalanceUp(x: int, y: int, carry: int, x1: int, dx: int, dy: int)
    requires x < x1 && carry + Abs(dy) * 2 > dx
    requires Balanced(x + 1, y + Sign(dy), carry + Abs(dy) * 2 - dx * 2, x1, dx, dy)
    ensures Balanced(x, y, carry, x1, dx, dy)
  {
    var a, n := Abs(dy), x1 - x;
    var r := Walk(x, y, carry, x1, dx, dy);
    var e := Along(dy, r[|r| - 1].1 - y);
    var y' := y + Sign(dy);
    var r' := Walk(x + 1, y', carry + a * 2 - dx * 2, x1, dx, dy);
    var e' := Along(dy, r'[|r'| - 1].1 - y');
    assert e == e' + 1;
    Shift(carry, carry + a * 2 - dx * 2, 2 * a, 2 * dx, Times(n, 2 * a), Times(n - 1, 2 * a), Times(e, 2 * dx), Times(e', 2 * dx), dx);
  }

  lemma BalanceFlat(x: int, y: int, carry: int, x1: int, dx: int, dy: int)
    requires x < x1 && carry + Abs(dy) * 2 <= dx
    requires Balanced(x + 1, y, carry + Abs(dy) * 2, x1, dx, dy)
    ensures Balanced(x, y, carry, x1, dx, dy)
  {
    var a, n := Abs(dy), x1 - x;
    var r := Walk(x, y, carry, x1, dx, dy);
    var e := Along(dy, r[|r| - 1].1 - y);
    Shift(carry, carry + a * 2, 2 * a, 0, Times(n, 2 * a), Times(n - 1, 2 * a), Times(e, 2 * dx), Times(e, 2 * dx), dx);
  }

  lemma Shift(carry: int, c': int, a2: int, d2: int, t: int, t': int, s: int, s': int, dx: int)
    requires t == t' + a2 && s == s' + d2 && c' == carry + a2 - d2
    requires -dx <= c' + t' - s' <= dx
    ensures -dx <= carry + t - s <= dx
  {
  }

  /** `2 dx t` within `[-dx, dx]` for a positive `dx` forces `t == 0`. */
  lemma OnlyZeroFits(dx: int, t: int, p: int)
    requires dx > 0 && p == t * (2 * dx) && -dx <= p <= dx
    ensures t == 0
  {
    if t >= 1 {
      MulAtLeast(t, 2 * dx, p);
    } else if t <= -1 {
      MulAtLeast(-t, 2 * dx, -p);
    }
  }

  lemma MulAtLeast(t: int, d: int, p: int)
    requires t >= 1 && d >= 0 && p == t * d
    ensures p >= d
  {
  }

  /** `dx (2a) - e (2dx)` is `(a - e) (2dx)`. */
  lemma Factor(dx: int, a: int, e: int, p: int, q: int)
    requires p == dx * (2 * a) && q == e * (2 * dx)
    ensures p - q == (a - e) * (2 * dx)
  {
  }

  /** From a reordered start, the walk ends exactly at the reordered end point. */
  lemma WalkEnds(x0: int, y0: int, x1: int, y1: int)
    requires x0 <= x1 && Abs(y1 - y0) <= x1 - x0
    ensures var r := Walk(x0, y0, 0, x1, x1 - x0, y1 - y0);
      r[0] == (x0, y0) && r[|r| - 1] == (x1, y1)
  {
    var dx, dy := x1 - x0, y1 - y0;
    WalkLast(x0, y0, 0, x1, dx, dy);
    WalkBalance(x0, y0, 0, x1, dx, dy);
    if dx > 0 {
      BalancedEnd(x0, y0, x1, dx, dy);
    } else {
      assert Walk(x0, y0, 0, x1, dx, dy) == [(x0, y0)];
    }
  }

  /** A balanced walk from carry 0 over `dx > 0` columns ends `dy` away from where it started. */
  lemma BalancedEnd(x: int, y: int, x1: int, dx: int, dy: int)
    requires x <= x1 && dx == x1 - x && dx > 0
    requires Balanced(x, y, 0, x1, dx, dy)
    ensures Walk(x, y, 0, x1, dx, dy)[x1 - x].1 == y + dy
  {
    var r := Walk(x, y, 0, x1, dx, dy);
    var e := Along(dy, r[x1 - x].1 - y);
    BalanceForcesEnd(dx, Abs(dy), e);
    AlongBack(dy, r[x1 - x].1 - y);
  }

  /** Having gone `|dy|` in the direction of `dy` is having gone `dy`. */
  lemma AlongBack(dy: int, d: int)
    requires Along(dy, d) == Abs(dy)
    ensures d == dy
  {
  }

  /** With `dx > 0`, `2 dx a - 2 dx e` within `[-dx, dx]` makes `e` equal to `a`. */
  lemma BalanceForcesEnd(dx: int, a: int, e: nat)
    requires dx > 0 && -dx <= Times(dx, 2 * a) - Times(e, 2 * dx) <= dx
    ensures e == a
  {
    TimesIsProduct(dx, 2 * a);
    TimesIsProduct(e, 2 * dx);
    Factor(dx, a, e, dx * (2 * a), e * (2 * dx));
    OnlyZeroFits(dx, a - e, (a - e) * (2 * dx));
  }

  /** Between consecutive points the minor coordinate stays or moves one step towards `dy`. */
  predicate Stepped(dy: int, p: (int, int), q: (int, int))
  {
    q.0 == p.0 + 1 && (q.1 == p.1 || q.1 == p.1 + Sign(dy))
  }

  lemma {:induction false} WalkSteps(x: int, y: int, carry: int, x1: int, dx: int, dy: int)
    requires x <= x1
    decreases x1 - x
    ensures forall i :: 0 <= i < x1 - x ==>
      Stepped(dy, Walk(x, y, carry, x1, dx, dy)[i], Walk(x, y, carry, x1, dx, dy)[i + 1])
  {
    if x < x1 {
      var r := Walk(x, y, carry, x1, dx, dy);
      var c := carry + Abs(dy) * 2;
      var y', c' := if c > dx then y + Sign(dy) else y, if c > dx then c - dx * 2 else c;
      WalkSteps(x + 1, y', c', x1, dx, dy);
      var r' := Walk(x + 1, y', c', x1, dx, dy);
      assert r == [(x, y)] + r';
      forall i | 0 <= i < |r| - 1
        ensures Stepped(dy, r[i], r[i + 1])
      {
        assert r[i + 1] == r'[i];
        if i > 0 {
          assert r[i] == r'[i - 1];
        }
      }
    }
  }

  lemma {:induction false} WalkMonotone(x: int, y: int, carry: int, x1: int, dx: int, dy: int)
    requires x <= x1
    decreases x1 - x
    ensures forall i :: 0 <= i <= x1 - x ==>
      0 <= Along(dy, Walk(x, y, carry, x1, dx, dy)[i].1 - y) <= Along(dy, Walk(x, y, carry, x1, dx, dy)[x1 - x].1 - y)
  {
    if x < x1 {
      var r := Walk(x, y, carry, x1, dx, dy);
      var c := carry + Abs(dy) * 2;
      var y', c' := if c > dx then y + Sign(dy) else y, if c > dx then c - dx * 2 else c;
      WalkMonotone(x + 1, y', c', x1, dx, dy);
      var r' := Walk(x + 1, y', c', x1, dx, dy);
      assert r == [(x, y)] + r';
      assert 0 <= Along(dy, y' - y);
      var last := r'[|r'| - 1];
      assert r[|r| - 1] == last;
      assert 0 <= Along(dy, last.1 - y') <= Along(dy, last.1 - y');
      assert Along(dy, last.1 - y) == Along(dy, last.1 - y') + Along(dy, y' - y);
      forall i | 0 <= i < |r|
        ensures 0 <= Along(dy, r[i].1 - y) <= Along(dy, last.1 - y)
      {
        if i > 0 {
          var p := r'[i - 1];
          assert r[i] == p;
          assert 0 <= Along(dy, p.1 - y') <= Along(dy, last.1 - y');
          assert Along(dy, p.1 - y) == Along(dy, p.1 - y') + Along(dy, y' - y);
        }
      }
    }
  }

  /** The first and last pixels of a line are its two endpoints. */
  lemma LineEnds(x0: int, y0: int, x1: int, y1: int)
    ensures var r := LinePixels(x0, y0, x1, y1);
      (r[0] == (x0, y0) && r[|r| - 1] == (x1, y1)) ||
      (r[0] == (x1, y1) && r[|r| - 1] == (x0, y0))
  {
    var o := Orient(x0, y0, x1, y1);
    OrientSpec(x0, y0, x1, y1);
    WalkEnds(o.x0, o.y0, o.x1, o.y1);
    var w := Walk(o.x0, o.y0, 0, o.x1, o.x1 - o.x0, o.y1 - o.y0);
    var r := LinePixels(x0, y0, x1, y1);
    assert r[0] == Plot(o.steep, w[0]) && r[|r| - 1] == Plot(o.steep, w[|w| - 1]);
  }

  /** Consecutive pixels are adjacent: one differs from the next by one or both coordinates. */
  predicate Adjacent(p: (int, int), q: (int, int))
  {
    p != q && Abs(q.0 - p.0) <= 1 && Abs(q.1 - p.1) <= 1
  }

  /**
   * Consecutive pixels of a line are distinct neighbours: the dominant
   * coordinate moves by one and the other by at most one.
   */
  lemma LineConnected(x0: int, y0: int, x1: int, y1: int)
    ensures forall i :: 0 <= i < |LinePixels(x0, y0, x1, y1)| - 1 ==>
      Adjacent(LinePixels(x0, y0, x1, y1)[i], LinePixels(x0, y0, x1, y1)[i + 1])
  {
    var o := Orient(x0, y0, x1, y1);
    var w := Walk(o.x0, o.y0, 0, o.x1, o.x1 - o.x0, o.y1 - o.y0);
    WalkSteps(o.x0, o.y0, 0, o.x1, o.x1 - o.x0, o.y1 - o.y0);
    var r := LinePixels(x0, y0, x1, y1);
    forall i | 0 <= i < |r| - 1
      ensures Adjacent(r[i], r[i + 1])
    {
      assert Stepped(o.y1 - o.y0, w[i], w[i + 1]);
    }
  }

  /** Every point of a walk lies in the rectangle spanned by its two ends. */
  lemma WalkInRect(x0: int, y0: int, x1: int, y1: int, dx: int, dy: int)
    requires dx == x1 - x0 && dy == y1 - y0 && 0 <= dx && Abs(dy) <= dx
    ensures forall i :: 0 <= i <= dx ==> InRect(Walk(x0, y0, 0, x1, dx, dy)[i], x0, y0, x1, y1)
  {
    var w := Walk(x0, y0, 0, x1, dx, dy);
    WalkEnds(x0, y0, x1, y1);
    WalkColumns(x0, y0, 0, x1, dx, dy);
    WalkMonotone(x0, y0, 0, x1, dx, dy);
    forall i | 0 <= i <= dx
      ensures InRect(w[i], x0, y0, x1, y1)
    {
      assert 0 <= Along(dy, w[i].1 - y0) <= Along(dy, w[dx].1 - y0);
    }
  }

  /** Transposing back a point of the reordered rectangle lands in the original one. */
  lemma PlotInRect(x0: int, y0: int, x1: int, y1: int, p: (int, int))
    requires var o := Orient(x0, y0, x1, y1); InRect(p, o.x0, o.y0, o.x1, o.y1)
    ensures InRect(Plot(Orient(x0, y0, x1, y1).steep, p), x0, y0, x1, y1)
  {
  }

  /** Every pixel of a line lies in the rectangle spanned by its endpoints. */
  lemma LineInBox(x0: int, y0: int, x1: int, y1: int)
    ensures forall i :: 0 <= i < |LinePixels(x0, y0, x1, y1)| ==>
      InRect(LinePixels(x0, y0, x1, y1)[i], x0, y0, x1, y1)
  {
    var o := Orient(x0, y0, x1, y1);
    var w := Walk(o.x0, o.y0, 0, o.x1, o.x1 - o.x0, o.y1 - o.y0);
    WalkInRect(o.x0, o.y0, o.x1, o.y1, o.x1 - o.x0, o.y1 - o.y0);
    var r := LinePixels(x0, y0, x1, y1);
    forall i | 0 <= i < |r|
      ensures InRect(r[i], x0, y0, x1, y1)
    {
      PlotInRect(x0, y0, x1, y1, w[i]);
    }
  }

  /** The point lies in the rectangle with corners (x0, y0) and (x1, y1). */
  predicate InRect(p: (int, int), x0: int, y0: int, x1: int, y1: int)
  {
    Min(x0, x1) <= p.0 <= Max(x0, x1) && Min(y0, y1) <= p.1 <= Max(y0, y1)
  }

  /** The surface after plotting each point in turn with `color`. */
  function Paint(data: seq<Byte>, width: int, ps: seq<(int, int)>, color: Color): (r: seq<Byte>)
    ensures |r| == |data|
    decreases |ps|
  {
    if |ps| == 0 then
      data
    else
      var last := ps[|ps| - 1];
      WritePixel(Paint(data, width, ps[..|ps| - 1], color), PixelOffset(width, last.0 as real, last.1 as real), color)
  }

  /** Plotting one more point of a walk is one more pixel write. */
  lemma PaintPlotStep(data: seq<Byte>, width: int, steep: bool, ps: seq<(int, int)>, p: (int, int), color: Color)
    ensures Paint(data, width, PlotAll(steep, ps + [p]), color) ==
      WritePixel(Paint(data, width, PlotAll(steep, ps), color), PixelOffset(width, Plot(steep, p).0 as real, Plot(steep, p).1 as real), color)
  {
    assert PlotAll(steep, ps + [p])[..|ps|] == PlotAll(steep, ps);
  }

  /** Painting one more point of a sequence is one more pixel write. */
  lemma PaintStep(data: seq<Byte>, width: int, ps: seq<(int, int)>, k: int, color: Color)
    requires 0 <= k < |ps|
    ensures Paint(data, width, ps[..k + 1], color) ==
      WritePixel(Paint(data, width, ps[..k], color), PixelOffset(width, ps[k].0 as real, ps[k].1 as real), color)
  {
    assert ps[..k + 1][..k] == ps[..k];
  }

  /**
   * After painting, a pixel of the surface has the colour when its cell was
   * painted and is unchanged otherwise.
   */
  lemma {:induction false} PaintEffect(data: seq<Byte>, width: int, ps: seq<(int, int)>, color: Color, x: int, y: int)
    requires forall i :: 0 <= i < |ps| ==> 0 <= ps[i].0 < width
    requires 0 <= x < width && PixelInside(data, PixelOffset(width, x as real, y as real))
    ensures GetPixel(Paint(data, width, ps, color), width, x as real, y as real) ==
      if (x, y) in ps then color else GetPixel(data, width, x as real, y as real)
    decreases |ps|
  {
    if |ps| > 0 {
      var front, last := ps[..|ps| - 1], ps[|ps| - 1];
      PaintEffect(data, width, front, color, x, y);
      var before := Paint(data, width, front, color);
      TruncInt(x);
      TruncInt(y);
      TruncInt(last.0);
      TruncInt(last.1);
      if (x, y) == last {
        GetAfterWrite(before, width, x as real, y as real, color);
      } else {
        GetAfterWriteElsewhere(before, width, x as real, y as real, last.0 as real, last.1 as real, color);
      }
      assert ps == front + [last];
    }
  }

  /**
   * Drawing a line between two cells of a `width` by `height` surface gives
   * the colour to exactly the cells of the line and leaves every other cell
   * as it was.
   */
  lemma LineEffect(data: seq<Byte>, width: int, height: int, x0: int, y0: int, x1: int, y1: int, color: Color, x: int, y: int)
    requires |data| == width * height * BytesPerPixel
    requires 0 <= x0 < width && 0 <= y0 < height && 0 <= x1 < width && 0 <= y1 < height
    requires 0 <= x < width && 0 <= y < height
    ensures PixelInside(data, PixelOffset(width, x as real, y as real))
    ensures GetPixel(Paint(data, width, LinePixels(x0, y0, x1, y1), color), width, x as real, y as real) ==
      if (x, y) in LinePixels(x0, y0, x1, y1) then color else GetPixel(data, width, x as real, y as real)
  {
    LineInBox(x0, y0, x1, y1);
    CellInRange(width, height, x, y, width * height);
    TruncInt(x);
    TruncInt(y);
    PaintEffect(data, width, LinePixels(x0, y0, x1, y1), color, x, y);
  }

  // ---------------------------------------------------------------------------
  // Triangles

  /** A `Vector3` vertex: screen position and depth. */
  datatype Vertex = Vertex(x: real, y: real, z: real)

  datatype Face = Face(v0: Vertex, v1: Vertex, v2: Vertex)

  function Flat(v: Vertex): T.Point
  {
    T.Point(v.x, v.y)
  }

  /** The barycentric weights of the cell at (x, y). */
  function WeightsAt(f: Face, x: int, y: int): T.Weights
  {
    T.Barycentric(Flat(f.v0), Flat(f.v1), Flat(f.v2), T.Point(x as real, y as real))
  }

  /** `v0[2] * bc[0] + v1[2] * bc[1] + v2[2] * bc[2]`. */
  function Interpolate(f: Face, w: T.Weights): real
  {
    f.v0.z * w.w0 + f.v1.z * w.w1 + f.v2.z * w.w2
  }

  function Min3(a: real, b: real, c: real): (m: real)
    ensures m <= a && m <= b && m <= c
    ensures m == a || m == b || m == c
  {
    if a <= b && a <= c then a else if b <= c then b else c
  }

  function Max3(a: real, b: real, c: real): (m: real)
    ensures m >= a && m >= b && m >= c
    ensures m == a || m == b || m == c
  {
    if a >= b && a >= c then a else if b >= c then b else c
  }

  /** Truncation keeps the order of its arguments. */
  lemma TruncMonotone(a: real, b: real)
    requires a <= b
    ensures Trunc(a) <= Trunc(b)
  {
  }

  /** `[trunc(min x), trunc(max x)] x [trunc(min y), trunc(max y)]`. */
  datatype Box = Box(xmin: int, xmax: int, ymin: int, ymax: int)

  function BoundingBox(f: Face): (b: Box)
    ensures b.xmin <= b.xmax && b.ymin <= b.ymax
  {
    var xmin, xmax := Min3(f.v0.x, f.v1.x, f.v2.x), Max3(f.v0.x, f.v1.x, f.v2.x);
    var ymin, ymax := Min3(f.v0.y, f.v1.y, f.v2.y), Max3(f.v0.y, f.v1.y, f.v2.y);
    TruncMonotone(xmin, xmax);
    TruncMonotone(ymin, ymax);
    Box(Trunc(xmin), Trunc(xmax), Trunc(ymin), Trunc(ymax))
  }

  /** The colour bytes and the depth buffer. */
  datatype Canvas = Canvas(data: seq<Byte>, depth: seq<Depth>)

  /** A surface `width` wide and `height` high. */
  predicate Fits(s: Canvas, width: int, height: int)
  {
    0 <= width && 0 <= height && |s.depth| == width * height && |s.data| == |s.depth| * BytesPerPixel
  }

  /** The depth and the pixel of the cell (x, y). */
  function View(s: Canvas, width: int, height: int, x: int, y: int): (Depth, Color)
    requires Fits(s, width, height) && 0 <= x < width && 0 <= y < height
  {
    CellInRange(width, height, x, y, |s.depth|);
    TruncInt(x);
    TruncInt(y);
    (s.depth[Cell(width, x, y)], GetPixel(s.data, width, x as real, y as real))
  }

  /** All three weights are non-negative and the depth is strictly above the stored one. */
  predicate Passes(f: Face, x: int, y: int, d: Depth)
  {
    var w := WeightsAt(f, x, y);
    w.w0 >= 0.0 && w.w1 >= 0.0 && w.w2 >= 0.0 && Above(Interpolate(f, w), d)
  }

  /** What the depth test makes of one cell: the new depth and the colour if it passes. */
  function Shaded(f: Face, x: int, y: int, v: (Depth, Color), color: Color): (Depth, Color)
  {
    if Passes(f, x, y, v.0) then (Finite(Interpolate(f, WeightsAt(f, x, y))), color) else v
  }

  /**
   * The body of the inner loop of `drawTriangle` for the cell (x, y): a
   * passing cell gets the new depth and the colour, any other is left alone.
   */
  function Shade(s: Canvas, width: int, height: int, f: Face, color: Color, x: int, y: int): (r: Canvas)
    requires Fits(s, width, height) && 0 <= x < width && 0 <= y < height
    ensures Fits(r, width, height)
  {
    CellInRange(width, height, x, y, |s.depth|);
    var i := Cell(width, x, y);
    if Passes(f, x, y, s.depth[i]) then
      var z := Interpolate(f, WeightsAt(f, x, y));
      Canvas(WritePixel(s.data, PixelOffset(width, x as real, y as real), color), s.depth[i := Finite(z)])
    else
      s
  }

  /** The cells (x, ymin) .. (x, y - 1) shaded in turn. */
  function FillColumn(s: Canvas, width: int, height: int, f: Face, color: Color, x: int, ymin: int, y: int): (r: Canvas)
    requires Fits(s, width, height) && 0 <= x < width && 0 <= ymin && y <= height
    ensures Fits(r, width, height)
    decreases y - ymin
  {
    if y <= ymin then s else Shade(FillColumn(s, width, height, f, color, x, ymin, y - 1), width, height, f, color, x, y - 1)
  }

  /** The columns xmin .. x - 1 of rows ymin .. ymax shaded in turn. */
  function FillBox(s: Canvas, width: int, height: int, f: Face, color: Color, xmin: int, x: int, ymin: int, ymax: int): (r: Canvas)
    requires Fits(s, width, height) && 0 <= xmin && x <= width && 0 <= ymin && ymax < height
    ensures Fits(r, width, height)
    decreases x - xmin
  {
    if x <= xmin then s
    else FillColumn(FillBox(s, width, height, f, color, xmin, x - 1, ymin, ymax), width, height, f, color, x - 1, ymin, ymax + 1)
  }

  /** Shading one cell changes that cell as the depth test says and no other. */
  lemma ShadeAt(s: Canvas, width: int, height: int, f: Face, color: Color, x: int, y: int, cx: int, cy: int)
    requires Fits(s, width, height) && 0 <= x < width && 0 <= y < height
    requires 0 <= cx < width && 0 <= cy < height
    ensures View(Shade(s, width, height, f, color, x, y), width, height, cx, cy) ==
      if cx == x && cy == y then Shaded(f, x, y, View(s, width, height, cx, cy), color) else View(s, width, height, cx, cy)
  {
    CellInRange(width, height, x, y, |s.depth|);
    CellInRange(width, height, cx, cy, |s.depth|);
    TruncInt(x);
    TruncInt(y);
    TruncInt(cx);
    TruncInt(cy);
    var i := Cell(width, x, y);
    if Passes(f, x, y, s.depth[i]) {
      if cx == x && cy == y {
        GetAfterWrite(s.data, width, x as real, y as real, color);
      } else {
        if Cell(width, cx, cy) == i {
          CellInjective(width, cx, cy, x, y);
        }
        GetAfterWriteElsewhere(s.data, width, cx as real, cy as real, x as real, y as real, color);
      }
    }
  }

  /** Shading a column applies the depth test once to each of its cells and leaves every other cell alone. */
  lemma {:induction false} FillColumnAt(s: Canvas, width: int, height: int, f: Face, color: Color, x: int, ymin: int, y: int, cx: int, cy: int)
    requires Fits(s, width, height) && 0 <= x < width && 0 <= ymin && y <= height
    requires 0 <= cx < width && 0 <= cy < height
    ensures View(FillColumn(s, width, height, f, color, x, ymin, y), width, height, cx, cy) ==
      if cx == x && ymin <= cy < y then Shaded(f, cx, cy, View(s, width, height, cx, cy), color)
      else View(s, width, height, cx, cy)
    decreases y - ymin
  {
    if y > ymin {
      FillColumnAt(s, width, height, f, color, x, ymin, y - 1, cx, cy);
      ShadeAt(FillColumn(s, width, height, f, color, x, ymin, y - 1), width, height, f, color, x, y - 1, cx, cy);
    }
  }

  /**
   * Shading a box applies the depth test once to each of its cells and leaves
   * every other cell alone: the outcome does not depend on the scan order.
   */
  lemma {:induction false} FillBoxAt(s: Canvas, width: int, height: int, f: Face, color: Color, xmin: int, x: int, ymin: int, ymax: int, cx: int, cy: int)
    requires Fits(s, width, height) && 0 <= xmin && x <= width && 0 <= ymin && ymax < height
    requires 0 <= cx < width && 0 <= cy < height
    ensures View(FillBox(s, width, height, f, color, xmin, x, ymin, ymax), width, height, cx, cy) ==
      if xmin <= cx < x && ymin <= cy <= ymax then Shaded(f, cx, cy, View(s, width, height, cx, cy), color)
      else View(s, width, height, cx, cy)
    decreases x - xmin
  {
    if x > xmin {
      FillBoxAt(s, width, height, f, color, xmin, x - 1, ymin, ymax, cx, cy);
      FillColumnAt(FillBox(s, width, height, f, color, xmin, x - 1, ymin, ymax), width, height, f, color, x - 1, ymin, ymax + 1, cx, cy);
    }
  }

  /** Two surfaces of the same size that agree on every cell are equal. */
  lemma SameViews(r: Canvas, s: Canvas, width: int, height: int)
    requires Fits(r, width, height) && Fits(s, width, height)
    requires forall x, y :: 0 <= x < width && 0 <= y < height ==> View(r, width, height, x, y) == View(s, width, height, x, y)
    ensures r == s
  {
    forall i | 0 <= i < |s.depth|
      ensures r.depth[i] == s.depth[i] && r.data[i * 4..i * 4 + 4] == s.data[i * 4..i * 4 + 4]
    {
      SameCell(r, s, width, height, i);
    }
    SameBytes(r.data, s.data, |s.depth|);
  }

  /** Equal views of the cell with index `i` make its depth and its four bytes equal. */
  lemma SameCell(r: Canvas, s: Canvas, width: int, height: int, i: int)
    requires Fits(r, width, height) && Fits(s, width, height) && 0 <= i < |s.depth|
    requires forall x, y :: 0 <= x < width && 0 <= y < height ==> View(r, width, height, x, y) == View(s, width, height, x, y)
    ensures r.depth[i] == s.depth[i] && r.data[i * 4..i * 4 + 4] == s.data[i * 4..i * 4 + 4]
  {
    var x, y := CellOf(width, height, i);
    assert View(r, width, height, x, y) == View(s, width, height, x, y);
    TruncInt(x);
    TruncInt(y);
  }

  /** Two byte sequences of `n` pixels that agree pixel by pixel are equal. */
  lemma SameBytes(a: seq<Byte>, b: seq<Byte>, n: int)
    requires |a| == |b| == n * 4
    requires forall i :: 0 <= i < n ==> a[i * 4..i * 4 + 4] == b[i * 4..i * 4 + 4]
    ensures a == b
  {
    forall j | 0 <= j < |b|
      ensures a[j] == b[j]
    {
      var i := j / 4;
      assert a[i * 4..i * 4 + 4][j - i * 4] == a[j];
    }
  }

  /**
   * Drawing the same triangle a second time changes nothing: every cell it
   * covers now holds a depth its own depth is not strictly above.
   */
  lemma DrawTwiceSameAsOnce(s: Canvas, width: int, height: int, f: Face, color: Color, b: Box)
    requires Fits(s, width, height) && 0 <= b.xmin && b.xmax < width && 0 <= b.ymin && b.ymax < height
    ensures var once := FillBox(s, width, height, f, color, b.xmin, b.xmax + 1, b.ymin, b.ymax);
      FillBox(once, width, height, f, color, b.xmin, b.xmax + 1, b.ymin, b.ymax) == once
  {
    var once := FillBox(s, width, height, f, color, b.xmin, b.xmax + 1, b.ymin, b.ymax);
    var twice := FillBox(once, width, height, f, color, b.xmin, b.xmax + 1, b.ymin, b.ymax);
    forall x, y | 0 <= x < width && 0 <= y < height
      ensures View(twice, width, height, x, y) == View(once, width, height, x, y)
    {
      FillBoxAt(s, width, height, f, color, b.xmin, b.xmax + 1, b.ymin, b.ymax, x, y);
      FillBoxAt(once, width, height, f, color, b.xmin, b.xmax + 1, b.ymin, b.ymax, x, y);
    }
    SameViews(twice, once, width, height);
  }

  /** A triangle with collinear vertices draws nothing. */
  lemma DegenerateDrawsNothing(s: Canvas, width: int, height: int, f: Face, color: Color, b: Box)
    requires Fits(s, width, height) && 0 <= b.xmin && b.xmax < width && 0 <= b.ymin && b.ymax < height
    requires T.Degenerate(Flat(f.v0), Flat(f.v1), Flat(f.v2))
    ensures FillBox(s, width, height, f, color, b.xmin, b.xmax + 1, b.ymin, b.ymax) == s
  {
    var r := FillBox(s, width, height, f, color, b.xmin, b.xmax + 1, b.ymin, b.ymax);
    forall x, y | 0 <= x < width && 0 <= y < height
      ensures View(r, width, height, x, y) == View(s, width, height, x, y)
    {
      FillBoxAt(s, width, height, f, color, b.xmin, b.xmax + 1, b.ymin, b.ymax, x, y);
    }
    SameViews(r, s, width, height);
  }

  /**
   * Over a triangle every depth stays or rises, and a cell changes only when
   * it is in the box, inside the triangle and strictly nearer than before.
   */
  lemma DrawRaisesDepth(s: Canvas, width: int, height: int, f: Face, color: Color, b: Box, x: int, y: int)
    requires Fits(s, width, height) && 0 <= b.xmin && b.xmax < width && 0 <= b.ymin && b.ymax < height
    requires 0 <= x < width && 0 <= y < height
    ensures var after := View(FillBox(s, width, height, f, color, b.xmin, b.xmax + 1, b.ymin, b.ymax), width, height, x, y);
      var before := View(s, width, height, x, y);
      NotBelow(after.0, before.0) &&
      (after != before ==> b.xmin <= x <= b.xmax && b.ymin <= y <= b.ymax && Passes(f, x, y, before.0) && after.1 == color)
  {
    FillBoxAt(s, width, height, f, color, b.xmin, b.xmax + 1, b.ymin, b.ymax, x, y);
  }

  // ---------------------------------------------------------------------------
  // The renderer

  /** Byte `i` of an opaque black surface: every fourth byte, the alpha, is 255. */
  function BlackByte(i: int): Byte
  {
    if i % 4 == 3 then 255 else 0
  }

  lemma BlackPixel(k: int)
    ensures BlackByte(4 * k) == 0 && BlackByte(4 * k + 1) == 0 && BlackByte(4 * k + 2) == 0
    ensures BlackByte(4 * k + 3) == 255
  {
  }

  class Renderer {
    const width: int
    const height: int
    /** `#imageData.data`: four bytes per pixel, row after row. */
    const data: array<Byte>
    /** `#zBuffer`: one depth per pixel. */
    const zBuffer: array<Depth>

    ghost predicate Valid()
      reads this
    {
      0 <= width && 0 <= height &&
      zBuffer.Length == width * height && data.Length == zBuffer.Length * BytesPerPixel
    }

    /** The canvas as the drawing functions see it. */
    ghost function Surface(): Canvas
      reads this, data, zBuffer
    {
      Canvas(data[..], zBuffer[..])
    }

    /** Every pixel opaque black, every depth `-Infinity`. */
    constructor(width: nat, height: nat)
      ensures Valid() && this.width == width && this.height == height
      ensures fresh(data) && fresh(zBuffer)
      ensures forall i :: 0 <= i < data.Length ==> data[i] == BlackByte(i)
      ensures forall i :: 0 <= i < zBuffer.Length ==> zBuffer[i] == NegInfinity
    {
      this.width := width;
      this.height := height;
      var cells := width * height;
      var d := new Byte[cells * BytesPerPixel];
      FillBlack(d, cells);
      data := d;
      zBuffer := new Depth[cells](_ => NegInfinity);
    }

    /** The loop of the constructor: every pixel of `d` made opaque black. */
    static method FillBlack(d: array<Byte>, cells: nat)
      requires d.Length == cells * 4
      modifies d
      ensures forall j :: 0 <= j < d.Length ==> d[j] == BlackByte(j)
    {
      var i := 0;
      ghost var k := 0;
      while i < d.Length
        invariant 0 <= k <= cells && i == 4 * k
        invariant forall j :: 0 <= j < i ==> d[j] == BlackByte(j)
      {
        BlackPixel(k);
        d[i + 0] := 0;
        d[i + 1] := 0;
        d[i + 2] := 0;
        d[i + 3] := 255;
        i, k := i + 4, k + 1;
      }
    }

    /**
     * `setPixel`: the four colour bytes go to the pixel under the point; a
     * byte that would land outside the buffer is dropped, as a typed array
     * drops it.
     */
    method SetPixel(x: real, y: real, color: Color)
      modifies data
      ensures data[..] == WritePixel(old(data[..]), PixelOffset(width, x, y), color)
    {
      var offset := PixelOffset(width, x, y);
      for i := 0 to BytesPerPixel
        invariant forall j :: 0 <= j < data.Length ==>
          data[j] == if offset <= j < offset + i then Channel(color, j - offset) else old(data[j])
      {
        if 0 <= offset + i < data.Length {
          data[offset + i] := Channel(color, i);
        }
      }
      assert data[..] == WritePixel(old(data[..]), offset, color);
    }

    /** `drawLine` (Bresenham) between two integer endpoints. */
    method DrawLine(x0: int, y0: int, x1: int, y1: int, color: Color)
      modifies data
      ensures data[..] == Paint(old(data[..]), width, LinePixels(x0, y0, x1, y1), color)
    {
      var ax0, ay0, ax1, ay1 := x0, y0, x1, y1;
      var steep := false;
      if Abs(ay1 - ay0) > Abs(ax1 - ax0) {
        steep := true;
        ax0, ay0, ax1, ay1 := ay0, ax0, ay1, ax1;
      }
      if ax0 > ax1 {
        ax0, ax1, ay0, ay1 := ax1, ax0, ay1, ay0;
      }
      assert Orient(x0, y0, x1, y1) == Orientation(steep, ax0, ay0, ax1, ay1);
      OrientSpec(x0, y0, x1, y1);
      var dx := ax1 - ax0;
      var dy := ay1 - ay0;
      PlotLoop(steep, ax0, ay0, ax1, dx, dy, color);
      PaintLine(old(data[..]), width, color, x0, y0, x1, y1, steep, ax0, ay0, ax1, ay1, dx, dy);
    }

    /**
     * The loop of `drawLine` over the reordered line: plots each point of the
     * walk, transposed back when the line is steep.
     */
    method PlotLoop(steep: bool, ax0: int, ay0: int, ax1: int, dx: int, dy: int, color: Color)
      requires ax0 <= ax1 && Abs(dy) <= dx
      modifies data
      ensures data[..] == Paint(old(data[..]), width, PlotAll(steep, Walk(ax0, ay0, 0, ax1, dx, dy)), color)
    {
      var sy := Abs(dy) * 2;
      var carry := 0;
      var y := ay0;
      ghost var walk := Walk(ax0, ay0, 0, ax1, dx, dy);
      var x := ax0;
      ghost var done: seq<(int, int)> := [];
      while x <= ax1
        invariant ax0 <= x <= ax1 + 1
        invariant done + Walk(x, y, carry, ax1, dx, dy) == walk
        invariant data[..] == Paint(old(data[..]), width, PlotAll(steep, done), color)
        invariant -dx <= carry <= dx
      {
        ghost var p, c0, done0 := (x, y), carry, done;
        y, carry := PlotStep(steep, x, y, carry, sy, dx, dy, color);
        PaintPlotStep(old(data[..]), width, steep, done, p, color);
        done := done + [p];
        x := x + 1;
        WalkAdvance(done0, p, c0, ax1, dx, dy, y, carry, walk);
      }
      assert Walk(x, y, carry, ax1, dx, dy) == [];
      assert done + [] == walk;
      assert done == walk;
    }

    /**
     * One round of the loop of `drawLine`: plots `(x, y)`, transposed back
     * when steep, then adds `sy` to the error term and steps `y` once it
     * exceeds `dx`; the error term stays within `[-dx, dx]`.
     */
    method PlotStep(steep: bool, x: int, y: int, carry: int, sy: int, dx: int, dy: int, color: Color)
      returns (y': int, carry': int)
      requires sy == Abs(dy) * 2 && Abs(dy) <= dx && -dx <= carry <= dx
      modifies data
      ensures data[..] == WritePixel(old(data[..]), PixelOffset(width, Plot(steep, (x, y)).0 as real, Plot(steep, (x, y)).1 as real), color)
      ensures carry + sy > dx ==> y' == y + Sign(dy) && carry' == carry + sy - dx * 2
      ensures carry + sy <= dx ==> y' == y && carry' == carry + sy
      ensures -dx <= carry' <= dx
    {
      var px, py := if steep then y else x, if steep then x else y;
      SetPixel(px as real, py as real, color);
      y', carry' := y, carry + sy;
      if carry' > dx {
        y' := y + (if dy > 0 then 1 else -1);
        carry' := carry' - dx * 2;
      }
      CarryBounded(carry, dx, dy);
    }

    /** `drawTriangle`: the bounding-box scan with the inside and depth tests. */
    method DrawTriangle(v0: Vertex, v1: Vertex, v2: Vertex, color: Color)
      requires Valid()
      requires var b := BoundingBox(Face(v0, v1, v2));
        0 <= b.xmin && b.xmax < width && 0 <= b.ymin && b.ymax < height
      modifies data, zBuffer
      ensures var b := BoundingBox(Face(v0, v1, v2));
        Surface() == FillBox(old(Surface()), width, height, Face(v0, v1, v2), color, b.xmin, b.xmax + 1, b.ymin, b.ymax)
    {
      var f := Face(v0, v1, v2);
      ghost var start := Surface();
      var xmin := Trunc(Min3(v0.x, v1.x, v2.x));
      var xmax := Trunc(Max3(v0.x, v1.x, v2.x));
      var ymin := Trunc(Min3(v0.y, v1.y, v2.y));
      var ymax := Trunc(Max3(v0.y, v1.y, v2.y));
      var x := xmin;
      while x <= xmax
        invariant xmin <= x <= xmax + 1
        invariant Surface() == FillBox(start, width, height, f, color, xmin, x, ymin, ymax)
      {
        ShadeColumn(f, color, x, ymin, ymax);
        x := x + 1;
      }
    }

    /** The inner loop of `drawTriangle`: the cells of column `x` from `ymin` to `ymax`, in turn. */
    method ShadeColumn(f: Face, color: Color, x: int, ymin: int, ymax: int)
      requires Valid() && 0 <= x < width && 0 <= ymin <= ymax < height
      modifies data, zBuffer
      ensures Surface() == FillColumn(old(Surface()), width, height, f, color, x, ymin, ymax + 1)
    {
      ghost var column := Surface();
      var y := ymin;
      while y <= ymax
        invariant ymin <= y <= ymax + 1
        invariant Surface() == FillColumn(column, width, height, f, color, x, ymin, y)
      {
        ShadeCell(f, color, x, y);
        y := y + 1;
      }
    }

    /** The body of the inner loop of `drawTriangle`: the inside and depth tests for the cell (x, y). */
    method ShadeCell(f: Face, color: Color, x: int, y: int)
      requires Valid() && 0 <= x < width && 0 <= y < height
      modifies data, zBuffer
      ensures Surface() == Shade(old(Surface()), width, height, f, color, x, y)
    {
      var bc := T.Barycentric(Flat(f.v0), Flat(f.v1), Flat(f.v2), T.Point(x as real, y as real));
      var z := Interpolate(f, bc);
      CellInRange(width, height, x, y, zBuffer.Length);
      var i := Cell(width, x, y);
      if bc.w0 >= 0.0 && bc.w1 >= 0.0 && bc.w2 >= 0.0 && Above(z, zBuffer[i]) {
        zBuffer[i] := Finite(z);
        SetPixel(x as real, y as real, color);
      }
    }
  }

  /** A pixel set and then read back has the colour written. */
  method SetThenGet(r: Renderer, x: real, y: real, color: Color) returns (c: Color)
    requires r.Valid() && PixelInside(r.data[..], PixelOffset(r.width, x, y))
    modifies r.data
    ensures c == color
  {
    r.SetPixel(x, y, color);
    GetAfterWrite(old(r.data[..]), r.width, x, y, color);
    c := GetPixel(r.data[..], r.width, x, y);
  }
}
