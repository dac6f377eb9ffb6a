/**
 * Value-level vector and matrix operations of src/linear-algebra.ts, over
 * exact reals. Every operation returns a new sequence; nothing is mutated.
 */
module LinearAlgebra {
  import opened Wrappers

  type Vector = seq<real>
  type Matrix = seq<Vector>

  /** `multiply` throws when the vector does not match the matrix width; reading
    * `m[0].length` of a matrix without rows throws a TypeError. */
  datatype MathError = LengthMismatch | NoRows

  function Add(v: Vector, w: Vector): (r: Vector)
    requires |v| == |w|
    ensures |r| == |v|
    ensures forall i :: 0 <= i < |r| ==> r[i] == v[i] + w[i]
  {
    seq(|v|, i requires 0 <= i < |v| => v[i] + w[i])
  }

  function Subtract(v: Vector, w: Vector): (r: Vector)
    requires |v| == |w|
    ensures |r| == |v|
    ensures forall i :: 0 <= i < |r| ==> r[i] == v[i] - w[i]
  {
    seq(|v|, i requires 0 <= i < |v| => v[i] - w[i])
  }

  function Scale(v: Vector, n: real): (r: Vector)
    ensures |r| == |v|
    ensures forall i :: 0 <= i < |r| ==> r[i] == v[i] * n
  {
    seq(|v|, i requires 0 <= i < |v| => v[i] * n)
  }

  /**
   * `v.reduce((sum, x, i) => sum + x * w[i], 0)`: a left fold from 0 over the
   * components of `v`, each multiplied by the component of `w` at its index.
   * `w` may be longer than `v`; its extra components are never read.
   */
  function Dot(v: Vector, w: Vector): real
    requires |v| <= |w|
    decreases |v|
  {
    if |v| == 0 then 0.0 else Dot(v[..|v| - 1], w) + v[|v| - 1] * w[|v| - 1]
  }

  function Cross(v: Vector, w: Vector): (r: Vector)
    requires |v| == 3 && |w| == 3
    ensures |r| == 3
  {
    [v[1] * w[2] - v[2] * w[1],
     v[2] * w[0] - v[0] * w[2],
     v[0] * w[1] - v[1] * w[0]]
  }

  /**
   * Once `multiply` gets past its width check, no row is longer than `v`: a
   * longer row would read components past the end of `v`, which are
   * `undefined` and make that entry NaN. A shorter row is fine: `dot` reduces
   * over the row.
   */
  predicate MultiplyDefined(m: Matrix, v: Vector)
  {
    |m| > 0 && |v| == |m[0]| ==> forall i :: 0 <= i < |m| ==> |m[i]| <= |v|
  }

  function Multiply(m: Matrix, v: Vector): (r: Result<Vector, MathError>)
    requires MultiplyDefined(m, v)
    ensures |m| == 0 ==> r == Failure(NoRows)
    ensures |m| > 0 ==> (r.Success? <==> |v| == |m[0]|)
    ensures |m| > 0 && r.Failure? ==> r.error == LengthMismatch
    ensures r.Success? ==> |r.value| == |m|
    ensures r.Success? ==> forall i :: 0 <= i < |m| ==> r.value[i] == Dot(m[i], v)
  {
    if |m| == 0 then Failure(NoRows)
    else if |v| != |m[0]| then Failure(LengthMismatch)
    else Success(seq(|m|, i requires 0 <= i < |m| => Dot(m[i], v)))
  }

  /** The homogeneous coordinate `transform` divides by, `dot(last row, v ++ [1])`. */
  function HomogeneousDivisor(m: Matrix, v: Vector): real
    requires |m| > 0 && |v| == |m[0]| - 1 && MultiplyDefined(m, v + [1.0])
  {
    Dot(m[|m| - 1], v + [1.0])
  }

  /** The perspective divide is defined: exact arithmetic has no Infinity or NaN. */
  predicate DivisorNonZero(m: Matrix, v: Vector)
    requires MultiplyDefined(m, v + [1.0])
  {
    |m| > 0 && |v| == |m[0]| - 1 ==> HomogeneousDivisor(m, v) != 0.0
  }

  /**
   * A vector one shorter than the matrix width is homogenised (1 appended),
   * multiplied, divided by its last component and cut back to its own length;
   * any other vector is multiplied as it is.
   */
  function Transform(m: Matrix, v: Vector): (r: Result<Vector, MathError>)
    requires MultiplyDefined(m, v) && MultiplyDefined(m, v + [1.0])
    requires DivisorNonZero(m, v)
    ensures |m| == 0 ==> r == Failure(NoRows)
    ensures |m| > 0 && |v| != |m[0]| - 1 ==> r == Multiply(m, v)
    ensures |m| > 0 && |v| == |m[0]| - 1 ==>
      r.Success? && |r.value| == Min(|v|, |m|) &&
      forall i :: 0 <= i < |r.value| ==>
        r.value[i] * HomogeneousDivisor(m, v) == Dot(m[i], v + [1.0])
  {
    if |m| == 0 then Failure(NoRows)
    else if |v| == |m[0]| - 1 then Success(TransformHomogeneous(m, v))
    else Multiply(m, v)
  }

  /** The homogeneous branch of `transform`. */
  function TransformHomogeneous(m: Matrix, v: Vector): (r: Vector)
    requires |m| > 0 && |v| == |m[0]| - 1 && MultiplyDefined(m, v + [1.0])
    requires HomogeneousDivisor(m, v) != 0.0
    ensures |r| == Min(|v|, |m|)
    ensures forall i :: 0 <= i < |r| ==> r[i] * HomogeneousDivisor(m, v) == Dot(m[i], v + [1.0])
  {
    var u := v + [1.0];
    var w := Multiply(m, u).value;
    var d := w[|w| - 1];
    var scaled := Scale(w, 1.0 / d);
    var r := scaled[..Min(|v|, |scaled|)];
    assert d == HomogeneousDivisor(m, v);
    forall i | 0 <= i < |r|
      ensures r[i] * d == Dot(m[i], u)
    {
      DivideBack(w[i], d);
    }
    r
  }

  /** Multiplying by `1 / d` and then by `d` gives the number back. */
  lemma DivideBack(x: real, d: real)
    requires d != 0.0
    ensures (x * (1.0 / d)) * d == x
  {
  }

  function Min(a: int, b: int): int
  {
    if a <= b then a else b
  }

  function Identity(n: nat): (m: Matrix)
    ensures |m| == n
    ensures forall i :: 0 <= i < n ==> |m[i]| == n
  {
    seq(n, i requires 0 <= i < n => seq(n, j requires 0 <= j < n => if i == j then 1.0 else 0.0))
  }

  // ---------------------------------------------------------------------------
  // Properties

  /** Subtracting w undoes adding w. */
  lemma SubtractUndoesAdd(v: Vector, w: Vector)
    requires |v| == |w|
    ensures Subtract(Add(v, w), w) == v
  {
  }

  /** Only the first `|v|` components of `w` are read. */
  lemma {:induction false} DotPrefix(v: Vector, w: Vector, k: int)
    requires |v| <= k <= |w|
    ensures Dot(v, w) == Dot(v, w[..k])
    decreases |v|
  {
    if |v| > 0 {
      DotPrefix(v[..|v| - 1], w, k);
    }
  }

  lemma {:induction false} DotSymmetric(v: Vector, w: Vector)
    requires |v| == |w|
    ensures Dot(v, w) == Dot(w, v)
    decreases |v|
  {
    if |v| > 0 {
      var n := |v| - 1;
      DotSymmetric(v[..n], w[..n]);
      DotPrefix(v[..n], w, n);
      DotPrefix(w[..n], v, n);
    }
  }

  /** Dot distributes over element-wise addition in its first argument. */
  lemma {:induction false} DotAddLeft(u: Vector, v: Vector, w: Vector)
    requires |u| == |v| <= |w|
    ensures Dot(Add(u, v), w) == Dot(u, w) + Dot(v, w)
    decreases |u|
  {
    if |u| > 0 {
      var n := |u| - 1;
      assert Add(u, v)[..n] == Add(u[..n], v[..n]);
      DotAddLeft(u[..n], v[..n], w);
    }
  }

  /** Dot is homogeneous in its first argument. */
  lemma {:induction false} DotScaleLeft(v: Vector, a: real, w: Vector)
    requires |v| <= |w|
    ensures Dot(Scale(v, a), w) == a * Dot(v, w)
    decreases |v|
  {
    if |v| > 0 {
      var n := |v| - 1;
      ScalePrefix(v, a, n);
      DotScaleLeft(v[..n], a, w);
      ScaleStep(a, Dot(v[..n], w), v[n], w[n]);
    }
  }

  lemma ScalePrefix(v: Vector, a: real, n: int)
    requires 0 <= n < |v|
    ensures Scale(v, a)[..n] == Scale(v[..n], a) && Scale(v, a)[n] == v[n] * a
  {
    assert forall i :: 0 <= i < n ==> Scale(v, a)[..n][i] == Scale(v[..n], a)[i];
  }

  lemma ScaleStep(a: real, d: real, x: real, y: real)
    ensures a * d + (x * a) * y == a * (d + x * y)
  {
  }

  /** Scaling a vector by `k` scales its squared length by `k * k`. */
  lemma DotScaleBoth(v: Vector, k: real)
    ensures Dot(Scale(v, k), Scale(v, k)) == k * (k * Dot(v, v))
  {
    DotScaleLeft(v, k, Scale(v, k));
    DotSymmetric(v, Scale(v, k));
    DotScaleLeft(v, k, v);
  }

  /** Dividing a vector of squared length `s * s` by `s` leaves squared length one. */
  lemma InverseSquare(s: real, d: real, k: real, r: real)
    requires s > 0.0 && d == s * s && k == 1.0 / s && r == k * (k * d)
    ensures r == 1.0
  {
  }

  /** The squared length is never negative and vanishes exactly on the zero vector. */
  lemma {:induction false} DotSelfZero(v: Vector)
    ensures Dot(v, v) >= 0.0
    ensures Dot(v, v) == 0.0 <==> forall i :: 0 <= i < |v| ==> v[i] == 0.0
    decreases |v|
  {
    if |v| > 0 {
      var n := |v| - 1;
      DotSelfZero(v[..n]);
      DotPrefix(v[..n], v, n);
      SumWithSquare(Dot(v[..n], v[..n]), v[n], v[n] * v[n]);
      assert forall i :: 0 <= i < n ==> v[..n][i] == v[i];
    }
  }

  /** A non-negative number plus a square is non-negative, and zero only when both are. */
  lemma SumWithSquare(a: real, x: real, s: real)
    requires a >= 0.0 && s == x * x
    ensures a + s >= 0.0
    ensures a + s == 0.0 <==> a == 0.0 && x == 0.0
  {
    if x != 0.0 {
      SquarePositive(x, s);
    }
  }

  /** The square `s` of a non-zero number is positive. */
  lemma SquarePositive(x: real, s: real)
    requires s == x * x && x != 0.0
    ensures s > 0.0
  {
    if x > 0.0 {
      PositiveProduct(x, x, s);
    } else {
      NegativeFactors(x, x, s);
    }
  }

  lemma PositiveProduct(x: real, y: real, p: real)
    requires x > 0.0 && y > 0.0 && p == x * y
    ensures p > 0.0
  {
  }

  lemma NegativeFactors(x: real, y: real, p: real)
    requires x < 0.0 && y < 0.0 && p == x * y
    ensures p > 0.0
  {
  }

  lemma Dot3(v: Vector, w: Vector)
    requires |v| == 3 && |w| == 3
    ensures Dot(v, w) == v[0] * w[0] + v[1] * w[1] + v[2] * w[2]
  {
    assert v[..2][..1] == v[..1] && v[..1][..0] == [];
    assert Dot(v[..1], w) == v[0] * w[0];
    assert Dot(v[..2], w) == Dot(v[..1], w) + v[1] * w[1];
  }

  /** The cross product is orthogonal to both of its arguments. */
  lemma CrossOrthogonal(v: Vector, w: Vector)
    requires |v| == 3 && |w| == 3
    ensures Dot(Cross(v, w), v) == 0.0
    ensures Dot(Cross(v, w), w) == 0.0
  {
    var c0, c1, c2 := v[1] * w[2] - v[2] * w[1], v[2] * w[0] - v[0] * w[2], v[0] * w[1] - v[1] * w[0];
    CrossIs(v, w, c0, c1, c2);
    OrthogonalComponents(c0, c1, c2, v, w);
  }

  /** The vector of the three cross-product components is orthogonal to `v` and `w`. */
  lemma OrthogonalComponents(c0: real, c1: real, c2: real, v: Vector, w: Vector)
    requires |v| == 3 && |w| == 3
    requires c0 == v[1] * w[2] - v[2] * w[1] && c1 == v[2] * w[0] - v[0] * w[2] && c2 == v[0] * w[1] - v[1] * w[0]
    ensures Dot([c0, c1, c2], v) == 0.0 && Dot([c0, c1, c2], w) == 0.0
  {
    TripleProductZero(v[0], v[1], v[2], w[0], w[1], w[2], c0, c1, c2);
    DotZero([c0, c1, c2], v);
    DotZero([c0, c1, c2], w);
  }

  lemma DotZero(v: Vector, w: Vector)
    requires |v| == 3 && |w| == 3
    requires v[0] * w[0] + v[1] * w[1] + v[2] * w[2] == 0.0
    ensures Dot(v, w) == 0.0
  {
    Dot3(v, w);
  }

  lemma CrossTriples(v: Vector, w: Vector)
    requires |v| == 3 && |w| == 3
    ensures var c := Cross(v, w);
      c[0] * v[0] + c[1] * v[1] + c[2] * v[2] == 0.0 &&
      c[0] * w[0] + c[1] * w[1] + c[2] * w[2] == 0.0
  {
    var c := Cross(v, w);
    TripleProductZero(v[0], v[1], v[2], w[0], w[1], w[2], c[0], c[1], c[2]);
  }

  /** Both triple products of a, b and a x b that repeat a factor vanish. */
  lemma TripleProductZero(a0: real, a1: real, a2: real, b0: real, b1: real, b2: real,
                          c0: real, c1: real, c2: real)
    requires c0 == a1 * b2 - a2 * b1 && c1 == a2 * b0 - a0 * b2 && c2 == a0 * b1 - a1 * b0
    ensures c0 * a0 + c1 * a1 + c2 * a2 == 0.0
    ensures c0 * b0 + c1 * b1 + c2 * b2 == 0.0
  {
    assert (a1 * b2 - a2 * b1) * a0 + (a2 * b0 - a0 * b2) * a1 + (a0 * b1 - a1 * b0) * a2 == 0.0;
    assert (a1 * b2 - a2 * b1) * b0 + (a2 * b0 - a0 * b2) * b1 + (a0 * b1 - a1 * b0) * b2 == 0.0;
  }

  /** Three numbers that are the components of `v x w` make up `Cross(v, w)`. */
  lemma CrossIs(v: Vector, w: Vector, c0: real, c1: real, c2: real)
    requires |v| == 3 && |w| == 3
    requires c0 == v[1] * w[2] - v[2] * w[1]
    requires c1 == v[2] * w[0] - v[0] * w[2]
    requires c2 == v[0] * w[1] - v[1] * w[0]
    ensures Cross(v, w) == [c0, c1, c2]
  {
  }

  /** Crossing a vector with itself gives the zero vector. */
  lemma CrossSelfZero(v: Vector)
    requires |v| == 3
    ensures Cross(v, v) == [0.0, 0.0, 0.0]
  {
  }

  lemma {:induction false} DotUnitPrefix(n: nat, i: nat, u: Vector, k: nat)
    requires i < n && |u| == n && k <= n
    ensures Dot(Identity(n)[i][..k], u) == if i < k then u[i] else 0.0
    decreases k
  {
    if k > 0 {
      assert Identity(n)[i][..k][..k - 1] == Identity(n)[i][..k - 1];
      DotUnitPrefix(n, i, u, k - 1);
    }
  }

  /** Multiplying by the identity returns the vector. */
  lemma IdentityMultiply(n: nat, u: Vector)
    requires n > 0 && |u| == n
    ensures Multiply(Identity(n), u) == Success(u)
  {
    var r := Multiply(Identity(n), u).value;
    forall i | 0 <= i < n
      ensures r[i] == u[i]
    {
      DotUnitPrefix(n, i, u, n);
      assert Identity(n)[i][..n] == Identity(n)[i];
    }
    assert r == u;
  }

  /** A homogeneous transform by the identity leaves the vector unchanged. */
  lemma TransformIdentity(v: Vector)
    ensures DivisorNonZero(Identity(|v| + 1), v)
    ensures Transform(Identity(|v| + 1), v) == Success(v)
  {
    var n := |v| + 1;
    var u := v + [1.0];
    IdentityMultiply(n, u);
    DotUnitPrefix(n, n - 1, u, n);
    assert Identity(n)[n - 1][..n] == Identity(n)[n - 1];
    var scaled := Scale(u, 1.0 / u[n - 1]);
    assert scaled[..|v|] == v;
  }
}
