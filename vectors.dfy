/**
 * The mutable vectors of src/vector.ts. `Vector2`, `Vector3` and `Vector4`
 * differ only in how many components their constructors fill in and in
 * which of them may be crossed, so one class with a dimension of 2 to 4
 * stands for all three. Every arithmetic method updates the receiver's
 * components in place and returns the receiver, as the source does.
 */
module Vectors {
  import opened Wrappers
  import LA = LinearAlgebra

  datatype VectorError =
    | TooFewDimensions  // the constructor was given fewer than two numbers
    | ZeroVector        // `normalize` was asked to divide by a zero length

  /** The constructor stores `args[k] || 0`: a missing argument becomes 0. */
  function Arg(args: seq<real>, k: nat): real
  {
    if k < |args| then args[k] else 0.0
  }

  class Vector {
    var elems: seq<real>

    /** `Vector2`, `Vector3` and `Vector4` have two to four components. */
    ghost predicate Valid()
      reads this
    {
      2 <= |elems| <= 4
    }

    constructor Of(components: seq<real>)
      requires 2 <= |components| <= 4
      ensures Valid()
      ensures elems == components
    {
      elems := components;
    }

    /**
     * `new Vector2(...args)`, `new Vector3(...args)` or `new Vector4(...args)`
     * for `dim` 2, 3 or 4: the base constructor rejects fewer than two
     * arguments and fills the first two components, each subclass one more.
     */
    static method New(dim: nat, args: seq<real>) returns (r: Result<Vector, VectorError>)
      requires 2 <= dim <= 4
      ensures r.Failure? <==> |args| < 2
      ensures r.Failure? ==> r.error == TooFewDimensions
      ensures r.Success? ==> fresh(r.value) && r.value.Valid() && |r.value.elems| == dim
      ensures r.Success? ==> forall k :: 0 <= k < dim ==> r.value.elems[k] == Arg(args, k)
    {
      if |args| < 2 {
        return Failure(TooFewDimensions);
      }
      var components := [Arg(args, 0), Arg(args, 1)];
      if dim >= 3 {
        components := components + [Arg(args, 2)];
      }
      if dim >= 4 {
        components := components + [Arg(args, 3)];
      }
      var v := new Vector.Of(components);
      return Success(v);
    }

    /** `clone`: a new vector of the same kind with the same components. */
    method Clone() returns (c: Vector)
      requires Valid()
      ensures fresh(c) && c.Valid()
      ensures c.elems == elems
    {
      var r := New(|elems|, elems);
      c := r.value;
    }

    /** `add`: component-wise `+=`; `v` may be the receiver itself. */
    method Add(v: Vector) returns (r: Vector)
      requires Valid() && v.Valid() && |v.elems| == |elems|
      modifies this
      ensures Valid()
      ensures r == this
      ensures elems == LA.Add(old(elems), old(v.elems))
    {
      ghost var a, b := elems, v.elems;
      for i := 0 to |elems|
        invariant |elems| == |a|
        invariant v == this ==> a == b
        invariant v.elems == if v == this then elems else b
        invariant forall k :: 0 <= k < i ==> elems[k] == a[k] + b[k]
        invariant forall k :: i <= k < |a| ==> elems[k] == a[k]
      {
        elems := elems[i := elems[i] + v.elems[i]];
      }
      r := this;
    }

    /** `substract`: component-wise `-=`; `v` may be the receiver itself. */
    method Substract(v: Vector) returns (r: Vector)
      requires Valid() && v.Valid() && |v.elems| == |elems|
      modifies this
      ensures Valid()
      ensures r == this
      ensures elems == LA.Subtract(old(elems), old(v.elems))
    {
      ghost var a, b := elems, v.elems;
      for i := 0 to |elems|
        invariant |elems| == |a|
        invariant v == this ==> a == b
        invariant v.elems == if v == this then elems else b
        invariant forall k :: 0 <= k < i ==> elems[k] == a[k] - b[k]
        invariant forall k :: i <= k < |a| ==> elems[k] == a[k]
      {
        elems := elems[i := elems[i] - v.elems[i]];
      }
      r := this;
    }

    /** `scale`: component-wise `*= n`. */
    method Scale(n: real) returns (r: Vector)
      requires Valid()
      modifies this
      ensures Valid()
      ensures r == this
      ensures elems == LA.Scale(old(elems), n)
    {
      ghost var a := elems;
      for i := 0 to |elems|
        invariant |elems| == |a|
        invariant forall k :: 0 <= k < i ==> elems[k] == a[k] * n
        invariant forall k :: i <= k < |a| ==> elems[k] == a[k]
      {
        elems := elems[i := elems[i] * n];
      }
      forall k | 0 <= k < |a|
        ensures elems[k] == LA.Scale(a, n)[k]
      {
      }
      assert elems == LA.Scale(a, n);
      r := this;
    }

    /** `dot`: the left fold `acc + n * v[i]` from 0, leaving both vectors alone. */
    method Dot(v: Vector) returns (r: real)
      requires Valid() && v.Valid() && |v.elems| == |elems|
      ensures r == LA.Dot(elems, v.elems)
    {
      r := 0.0;
      for i := 0 to |elems|
        invariant r == LA.Dot(elems[..i], v.elems)
      {
        assert elems[..i + 1][..i] == elems[..i];
        r := r + elems[i] * v.elems[i];
      }
      assert elems[..|elems|] == elems;
    }

    /**
     * `normalize`, given the length `size` that `Math.hypot` computes: a zero
     * length is refused, any other divides every component by it and leaves
     * a vector of length one.
     */
    method Normalize(size: real) returns (r: Result<Vector, VectorError>)
      requires Valid()
      requires size >= 0.0 && size * size == LA.Dot(elems, elems)
      modifies this
      ensures Valid()
      ensures r.Failure? <==> forall k :: 0 <= k < |old(elems)| ==> old(elems)[k] == 0.0
      ensures r.Failure? ==> r.error == ZeroVector && elems == old(elems)
      ensures r.Success? ==> size > 0.0 && r.value == this && elems == LA.Scale(old(elems), 1.0 / size)
      ensures r.Success? ==> LA.Dot(elems, elems) == 1.0
    {
      ghost var a := elems;
      LA.DotSelfZero(a);
      if size == 0.0 {
        return Failure(ZeroVector);
      }
      LA.SquarePositive(size, LA.Dot(a, a));
      var s := Scale(1.0 / size);
      LA.DotScaleBoth(a, 1.0 / size);
      LA.InverseSquare(size, LA.Dot(a, a), 1.0 / size, LA.Dot(elems, elems));
      return Success(s);
    }

    /**
     * `cross` (on a `Vector3` or `Vector4`): all six inputs are read before the
     * first write, so `v` may be the receiver; a fourth component stays.
     */
    method Cross(v: Vector) returns (r: Vector)
      requires Valid() && v.Valid() && |elems| >= 3 && |v.elems| >= 3
      modifies this
      ensures Valid()
      ensures r == this
      ensures elems == LA.Cross(old(elems[..3]), old(v.elems[..3])) + old(elems[3..])
    {
      ghost var p, q, rest := elems[..3], v.elems[..3], elems[3..];
      var x0, y0, z0 := elems[0], elems[1], elems[2];
      var x1, y1, z1 := v.elems[0], v.elems[1], v.elems[2];
      elems := elems[0 := y0 * z1 - z0 * y1];
      elems := elems[1 := z0 * x1 - x0 * z1];
      elems := elems[2 := x0 * y1 - y0 * x1];
      LA.CrossIs(p, q, elems[0], elems[1], elems[2]);
      assert elems == elems[..3] + rest;
      r := this;
    }
  }

  /** Adding then subtracting the same vector restores the receiver. */
  method AddThenSubstract(u: Vector, v: Vector)
    requires u.Valid() && v.Valid() && |u.elems| == |v.elems| && u != v
    modifies u
    ensures u.elems == old(u.elems)
  {
    var _ := u.Add(v);
    var _ := u.Substract(v);
    LA.SubtractUndoesAdd(old(u.elems), v.elems);
  }

  /** Crossing a vector with itself zeroes its first three components. */
  method CrossWithItself(u: Vector)
    requires u.Valid() && |u.elems| >= 3
    modifies u
    ensures |u.elems| == |old(u.elems)|
    ensures u.elems[..3] == [0.0, 0.0, 0.0]
    ensures u.elems[3..] == old(u.elems[3..])
  {
    var _ := u.Cross(u);
    LA.CrossSelfZero(old(u.elems[..3]));
  }
}
