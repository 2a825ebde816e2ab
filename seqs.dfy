/** Sequence helpers shared by the model: the `Array.prototype.filter` of JavaScript and
    the wrapping of list entries that may be null. */
module Seqs {
  import opened Wrappers

  /** The elements of `xs` that satisfy `p`, in their original order. */
  function Filter<T(!new)>(xs: seq<T>, p: T -> bool): (r: seq<T>)
    ensures |r| <= |xs|
    ensures forall x :: x in r <==> x in xs && p(x)
  {
    if xs == [] then []
    else
      var init := Filter(xs[..|xs| - 1], p);
      assert xs == xs[..|xs| - 1] + [xs[|xs| - 1]];
      if p(xs[|xs| - 1]) then init + [xs[|xs| - 1]] else init
  }

  /** `r` is the subsequence of `xs` at the strictly increasing positions `idx`, and those
      positions are exactly the ones whose element satisfies `p`. */
  ghost predicate SelectsExactly<T(!new)>(xs: seq<T>, p: T -> bool, r: seq<T>, idx: seq<nat>)
  {
    && |idx| == |r|
    && (forall k :: 0 <= k < |idx| ==> idx[k] < |xs| && xs[idx[k]] == r[k])
    && (forall k, l :: 0 <= k < l < |idx| ==> idx[k] < idx[l])
    && (forall i :: 0 <= i < |xs| ==> (p(xs[i]) <==> i in idx))
  }

  /** The positions of the elements of `xs` that satisfy `p`, in ascending order. */
  function Positions<T>(xs: seq<T>, p: T -> bool): (idx: seq<nat>)
    ensures forall k :: 0 <= k < |idx| ==> idx[k] < |xs|
  {
    if xs == [] then []
    else Positions(xs[..|xs| - 1], p) + (if p(xs[|xs| - 1]) then [|xs| - 1] else [])
  }

  /** The filter's elements are the elements at those positions. */
  lemma {:induction false} PositionsSelect<T(!new)>(xs: seq<T>, p: T -> bool)
    ensures |Positions(xs, p)| == |Filter(xs, p)|
    ensures forall k :: 0 <= k < |Positions(xs, p)| ==> xs[Positions(xs, p)[k]] == Filter(xs, p)[k]
  {
    if xs != [] {
      var n := |xs| - 1;
      PositionsSelect(xs[..n], p);
      assert forall i :: 0 <= i < n ==> xs[i] == xs[..n][i];
    }
  }

  /** The positions strictly increase. */
  lemma {:induction false} PositionsIncrease<T>(xs: seq<T>, p: T -> bool)
    ensures forall k, l :: 0 <= k < l < |Positions(xs, p)| ==> Positions(xs, p)[k] < Positions(xs, p)[l]
  {
    if xs != [] {
      var n := |xs| - 1;
      PositionsIncrease(xs[..n], p);
      var idx0 := Positions(xs[..n], p);
      var idx := Positions(xs, p);
      assert idx == idx0 + (if p(xs[n]) then [n] else []);
      forall k, l | 0 <= k < l < |idx|
        ensures idx[k] < idx[l]
      {
        assert idx[k] == idx0[k] && idx0[k] < n;
        if l < |idx0| {
          assert idx[l] == idx0[l];
        } else {
          assert idx[l] == n;
        }
      }
    }
  }

  /** A position is listed exactly when its element satisfies `p`. */
  lemma {:induction false} PositionsComplete<T>(xs: seq<T>, p: T -> bool)
    ensures forall i :: 0 <= i < |xs| ==> (p(xs[i]) <==> i in Positions(xs, p))
  {
    if xs != [] {
      var n := |xs| - 1;
      var idx0 := Positions(xs[..n], p);
      PositionsComplete(xs[..n], p);
      assert forall i :: 0 <= i < n ==> xs[i] == xs[..n][i];
      assert n !in idx0;
      assert forall i :: i in Positions(xs, p) <==> i in idx0 || (i == n && p(xs[n]));
    }
  }

  /** Filtering keeps exactly the satisfying elements, as an order-preserving subsequence. */
  lemma FilterIndices<T(!new)>(xs: seq<T>, p: T -> bool) returns (idx: seq<nat>)
    ensures SelectsExactly(xs, p, Filter(xs, p), idx)
  {
    idx := Positions(xs, p);
    PositionsSelect(xs, p);
    PositionsIncrease(xs, p);
    PositionsComplete(xs, p);
  }

  /** Filtering a sequence with a new first element filters that element, then the rest. */
  lemma {:induction false} FilterCons<T(!new)>(a: T, rest: seq<T>, p: T -> bool)
    ensures Filter([a] + rest, p) == (if p(a) then [a] else []) + Filter(rest, p)
  {
    if rest != [] {
      var n := |rest| - 1;
      FilterCons(a, rest[..n], p);
      assert ([a] + rest)[..|[a] + rest| - 1] == [a] + rest[..n];
      assert ([a] + rest)[|[a] + rest| - 1] == rest[n];
    }
  }

  /** A filter that every element passes returns its input unchanged. */
  lemma {:induction false} FilterAllPass<T(!new)>(xs: seq<T>, p: T -> bool)
    requires forall i :: 0 <= i < |xs| ==> p(xs[i])
    ensures Filter(xs, p) == xs
  {
    if xs != [] {
      var n := |xs| - 1;
      FilterAllPass(xs[..n], p);
      assert xs == xs[..n] + [xs[n]];
    }
  }

  /** A filter that no element passes returns the empty sequence. */
  lemma {:induction false} FilterNonePass<T(!new)>(xs: seq<T>, p: T -> bool)
    requires forall i :: 0 <= i < |xs| ==> !p(xs[i])
    ensures Filter(xs, p) == []
  {
    if xs != [] {
      FilterNonePass(xs[..|xs| - 1], p);
    }
  }

  /** Predicates that agree on every element select the same elements. */
  lemma {:induction false} FilterCongruent<T(!new)>(xs: seq<T>, p: T -> bool, q: T -> bool)
    requires forall i :: 0 <= i < |xs| ==> p(xs[i]) == q(xs[i])
    ensures Filter(xs, p) == Filter(xs, q)
  {
    if xs != [] {
      FilterCongruent(xs[..|xs| - 1], p, q);
    }
  }

  /** Filtering twice with the same predicate is filtering once. */
  lemma FilterIdempotent<T(!new)>(xs: seq<T>, p: T -> bool)
    ensures Filter(Filter(xs, p), p) == Filter(xs, p)
  {
    var r := Filter(xs, p);
    forall i | 0 <= i < |r|
      ensures p(r[i])
    {
      assert r[i] in r;
    }
    FilterAllPass(r, p);
  }

  /** When `p` and `q` disagree on every element, the two filters split `xs` between them. */
  lemma {:induction false} FilterComplementSizes<T(!new)>(xs: seq<T>, p: T -> bool, q: T -> bool)
    requires forall i :: 0 <= i < |xs| ==> p(xs[i]) != q(xs[i])
    ensures |Filter(xs, p)| + |Filter(xs, q)| == |xs|
  {
    if xs != [] {
      FilterComplementSizes(xs[..|xs| - 1], p, q);
    }
  }

  /** Every element wrapped as present (a JavaScript array of non-null objects). */
  function Lift<T>(xs: seq<T>): (r: seq<Option<T>>)
    ensures |r| == |xs|
    ensures forall i :: 0 <= i < |xs| ==> r[i] == Some(xs[i])
  {
    seq(|xs|, i requires 0 <= i < |xs| => Some(xs[i]))
  }

  /** The values of a sequence whose entries are all present. */
  function Unwrap<T>(xs: seq<Option<T>>): (r: seq<T>)
    requires forall i :: 0 <= i < |xs| ==> xs[i].Some?
    ensures |r| == |xs|
    ensures forall i :: 0 <= i < |xs| ==> xs[i] == Some(r[i])
  {
    seq(|xs|, i requires 0 <= i < |xs| => xs[i].value)
  }

  /** Unwrapping what a filter keeps, when the filter only keeps present entries. */
  function FilterPresent<T(!new)>(xs: seq<Option<T>>, p: Option<T> -> bool): (r: seq<T>)
    requires forall x :: p(x) ==> x.Some?
    ensures forall x :: x in r <==> Some(x) in xs && p(Some(x))
  {
    var kept := Filter(xs, p);
    assert forall i :: 0 <= i < |kept| ==> kept[i] in kept;
    var r := Unwrap(kept);
    assert forall x :: x in r ==> Some(x) in kept;
    assert forall x :: Some(x) in kept ==> x in r by {
      forall x | Some(x) in kept ensures x in r {
        var i :| 0 <= i < |kept| && kept[i] == Some(x);
        assert r[i] == x;
      }
    }
    r
  }

  /** Filtering a lifted list of present entries agrees with filtering the plain list. */
  lemma {:induction false} FilterPresentLift<T(!new)>(xs: seq<T>, p: Option<T> -> bool, q: T -> bool)
    requires forall x :: p(x) ==> x.Some?
    requires forall i :: 0 <= i < |xs| ==> p(Some(xs[i])) == q(xs[i])
    ensures FilterPresent(Lift(xs), p) == Filter(xs, q)
  {
    if xs != [] {
      var n := |xs| - 1;
      FilterPresentLift(xs[..n], p, q);
      assert Lift(xs)[..n] == Lift(xs[..n]);
    }
  }
}
