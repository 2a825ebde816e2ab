/** The stable sort the model uses for JavaScript's `Array.prototype.sort` with a comparator
    that subtracts two dates, and the ordering it produces. */
module Sorting {
  import opened Wrappers
  import opened Seqs

  /** The order of sort keys. A missing key (an unparseable date) sorts before every other. */
  predicate KeyLe(a: Option<int>, b: Option<int>)
  {
    a.None? || (b.Some? && a.value <= b.value)
  }

  /** Ascending by `key`. */
  ghost predicate SortedBy<T(!new)>(xs: seq<T>, key: T -> Option<int>)
  {
    forall i, j :: 0 <= i < j < |xs| ==> KeyLe(key(xs[i]), key(xs[j]))
  }

  /** The tail of a sorted sequence is sorted, and its head's key is at most every key in it. */
  lemma SortedTail<T(!new)>(ys: seq<T>, key: T -> Option<int>)
    requires ys != []
    ensures SortedBy(ys, key) ==> SortedBy(ys[1..], key)
    ensures SortedBy(ys, key) ==> forall z :: z in ys[1..] ==> KeyLe(key(ys[0]), key(z))
  {
    if SortedBy(ys, key) {
      forall i, j | 0 <= i < j < |ys[1..]|
        ensures KeyLe(key(ys[1..][i]), key(ys[1..][j]))
      {
        assert ys[1..][i] == ys[i + 1] && ys[1..][j] == ys[j + 1];
      }
      forall z | z in ys[1..]
        ensures KeyLe(key(ys[0]), key(z))
      {
        var k :| 0 <= k < |ys[1..]| && ys[1..][k] == z;
        assert ys[k + 1] == z;
      }
    }
  }

  /** A head whose key is at most every key of a sorted tail gives a sorted sequence. */
  lemma SortedCons<T(!new)>(h: T, rest: seq<T>, key: T -> Option<int>)
    requires SortedBy(rest, key)
    requires forall z :: z in rest ==> KeyLe(key(h), key(z))
    ensures SortedBy([h] + rest, key)
  {
    var r := [h] + rest;
    forall i, j | 0 <= i < j < |r|
      ensures KeyLe(key(r[i]), key(r[j]))
    {
      assert r[j] == rest[j - 1] && rest[j - 1] in rest;
      if i > 0 {
        assert r[i] == rest[i - 1];
      }
    }
  }

  /** Inserts `x` after every element of `ys` whose key is not above its own, so that
      elements with equal keys keep their order. */
  function Insert<T(!new)>(x: T, ys: seq<T>, key: T -> Option<int>): (r: seq<T>)
    ensures |r| == |ys| + 1
    ensures multiset(r) == multiset(ys) + multiset{x}
    ensures forall z :: z in r <==> z in ys || z == x
    ensures SortedBy(ys, key) ==> SortedBy(r, key)
  {
    if ys == [] then [x]
    else if !KeyLe(key(ys[0]), key(x)) then
      assert ys == [ys[0]] + ys[1..];
      [x] + ys
    else
      var rest := Insert(x, ys[1..], key);
      assert ys == [ys[0]] + ys[1..];
      SortedTail(ys, key);
      assert SortedBy(ys, key) ==> SortedBy([ys[0]] + rest, key) by {
        if SortedBy(ys, key) {
          SortedCons(ys[0], rest, key);
        }
      }
      [ys[0]] + rest
  }

  /** The stable sort: inserts each element, in input order, into the sorted prefix. */
  function SortByKey<T(!new)>(xs: seq<T>, key: T -> Option<int>): (r: seq<T>)
    ensures |r| == |xs|
    ensures multiset(r) == multiset(xs)
    ensures SortedBy(r, key)
  {
    if xs == [] then []
    else
      var n := |xs| - 1;
      assert xs == xs[..n] + [xs[n]];
      Insert(xs[n], SortByKey(xs[..n], key), key)
  }

  /** Whether an element has the sort key `k`. */
  function HasKey<T>(key: T -> Option<int>, k: Option<int>): T -> bool
  {
    (x: T) => key(x) == k
  }

  /** In a sorted sequence whose first key is above `key(x)`, no element has `x`'s key. */
  lemma NoEqualKeyAfterGreaterHead<T(!new)>(x: T, ys: seq<T>, key: T -> Option<int>)
    requires SortedBy(ys, key) && ys != [] && !KeyLe(key(ys[0]), key(x))
    ensures Filter(ys, HasKey(key, key(x))) == []
  {
    forall i | 0 <= i < |ys|
      ensures !HasKey(key, key(x))(ys[i])
    {
      if i > 0 {
        assert KeyLe(key(ys[0]), key(ys[i]));
      }
    }
    FilterNonePass(ys, HasKey(key, key(x)));
  }

  /** The case where `x` goes in front. */
  lemma InsertFrontKeepsKeyOrder<T(!new)>(x: T, ys: seq<T>, key: T -> Option<int>, k: Option<int>)
    requires SortedBy(ys, key) && ys != [] && !KeyLe(key(ys[0]), key(x))
    ensures Filter(Insert(x, ys, key), HasKey(key, k))
         == Filter(ys, HasKey(key, k)) + (if key(x) == k then [x] else [])
  {
    assert Insert(x, ys, key) == [x] + ys;
    FilterCons(x, ys, HasKey(key, k));
    if key(x) == k {
      NoEqualKeyAfterGreaterHead(x, ys, key);
    }
  }

  /** An element whose key is not below the first key is inserted into the tail. */
  lemma InsertPast<T(!new)>(x: T, ys: seq<T>, key: T -> Option<int>)
    requires ys != [] && KeyLe(key(ys[0]), key(x))
    ensures Insert(x, ys, key) == [ys[0]] + Insert(x, ys[1..], key)
  {
  }

  /** Regrouping a concatenation: from `fr == ft + last`, `head + fr == (head + ft) + last`. */
  lemma AppendRegroup<T>(head: seq<T>, fr: seq<T>, ft: seq<T>, last: seq<T>, a: seq<T>, b: seq<T>)
    requires fr == ft + last && a == head + fr && b == head + ft
    ensures a == b + last
  {
  }

  /** Putting the same element in front of two sequences keeps a relation between their filters. */
  lemma ConsKeepsFilterSuffix<T(!new)>(h: T, rest: seq<T>, tail: seq<T>, p: T -> bool, last: seq<T>,
                                       whole: seq<T>, full: seq<T>)
    requires Filter(rest, p) == Filter(tail, p) + last
    requires whole == [h] + rest && full == [h] + tail
    ensures Filter(whole, p) == Filter(full, p) + last
  {
    FilterCons(h, rest, p);
    FilterCons(h, tail, p);
    AppendRegroup(if p(h) then [h] else [], Filter(rest, p), Filter(tail, p), last,
                  Filter([h] + rest, p), Filter([h] + tail, p));
  }

  /** A non-empty sequence is its first element followed by the rest. */
  lemma HeadTail<T>(ys: seq<T>)
    requires ys != []
    ensures ys == [ys[0]] + ys[1..]
  {
  }

  /** The case where `x` goes past the first element. */
  lemma InsertPastKeepsKeyOrder<T(!new)>(x: T, ys: seq<T>, key: T -> Option<int>, k: Option<int>)
    requires ys != [] && KeyLe(key(ys[0]), key(x))
    requires Filter(Insert(x, ys[1..], key), HasKey(key, k))
          == Filter(ys[1..], HasKey(key, k)) + (if key(x) == k then [x] else [])
    ensures Filter(Insert(x, ys, key), HasKey(key, k))
         == Filter(ys, HasKey(key, k)) + (if key(x) == k then [x] else [])
  {
    InsertPast(x, ys, key);
    HeadTail(ys);
    ConsKeepsFilterSuffix(ys[0], Insert(x, ys[1..], key), ys[1..], HasKey(key, k),
                          if key(x) == k then [x] else [], Insert(x, ys, key), ys);
  }

  /** Inserting into a sorted sequence puts `x` after every element with the same key. */
  lemma {:induction false} InsertAfterEqualKeys<T(!new)>(x: T, ys: seq<T>, key: T -> Option<int>, k: Option<int>)
    requires SortedBy(ys, key)
    ensures Filter(Insert(x, ys, key), HasKey(key, k))
         == Filter(ys, HasKey(key, k)) + (if key(x) == k then [x] else [])
  {
    if ys == [] {
      assert Insert(x, ys, key) == [x];
      assert [x][..0] == [];
    } else if !KeyLe(key(ys[0]), key(x)) {
      InsertFrontKeepsKeyOrder(x, ys, key, k);
    } else {
      SortedTail(ys, key);
      InsertAfterEqualKeys(x, ys[1..], key, k);
      InsertPastKeepsKeyOrder(x, ys, key, k);
    }
  }

  /** The sort is stable: the elements with any one key keep their input order. */
  lemma {:induction false} SortStable<T(!new)>(xs: seq<T>, key: T -> Option<int>, k: Option<int>)
    ensures Filter(SortByKey(xs, key), HasKey(key, k)) == Filter(xs, HasKey(key, k))
  {
    if xs != [] {
      var n := |xs| - 1;
      SortStable(xs[..n], key, k);
      InsertAfterEqualKeys(xs[n], SortByKey(xs[..n], key), key, k);
    }
  }

  /** Inserting an element whose key is at least every other key appends it. */
  lemma {:induction false} InsertLast<T(!new)>(x: T, ys: seq<T>, key: T -> Option<int>)
    requires forall i :: 0 <= i < |ys| ==> KeyLe(key(ys[i]), key(x))
    ensures Insert(x, ys, key) == ys + [x]
  {
    if ys != [] {
      InsertLast(x, ys[1..], key);
      assert ys == [ys[0]] + ys[1..];
    }
  }

  /** Without its last element a sorted sequence stays sorted, and every key in it is at most
      the last one's. */
  lemma SortedSnoc<T(!new)>(init: seq<T>, last: T, key: T -> Option<int>)
    requires SortedBy(init + [last], key)
    ensures SortedBy(init, key)
    ensures forall i :: 0 <= i < |init| ==> KeyLe(key(init[i]), key(last))
  {
    var xs := init + [last];
    forall i, j | 0 <= i < j < |init|
      ensures KeyLe(key(init[i]), key(init[j]))
    {
      assert xs[i] == init[i] && xs[j] == init[j];
    }
    forall i | 0 <= i < |init|
      ensures KeyLe(key(init[i]), key(last))
    {
      assert xs[i] == init[i] && xs[|init|] == last;
    }
  }

  /** Sorting a sequence that is already in order leaves it as it is. */
  lemma {:induction false} SortSortedIsIdentity<T(!new)>(xs: seq<T>, key: T -> Option<int>)
    requires SortedBy(xs, key)
    ensures SortByKey(xs, key) == xs
  {
    if xs != [] {
      var n := |xs| - 1;
      var init := xs[..n];
      assert xs == init + [xs[n]];
      SortedSnoc(init, xs[n], key);
      SortSortedIsIdentity(init, key);
      InsertLast(xs[n], init, key);
    }
  }

  /** Every sequence is a permutation of its sorted form, so a property of all elements carries over. */
  lemma SortKeepsElements<T(!new)>(xs: seq<T>, key: T -> Option<int>)
    ensures forall z :: z in SortByKey(xs, key) <==> z in xs
  {
    var r := SortByKey(xs, key);
    forall z
      ensures z in r <==> z in xs
    {
      assert z in r <==> multiset(r)[z] > 0;
      assert z in xs <==> multiset(xs)[z] > 0;
    }
  }

  /** A filter keeps a sorted sequence sorted. */
  lemma FilterKeepsSorted<T(!new)>(xs: seq<T>, p: T -> bool, key: T -> Option<int>)
    requires SortedBy(xs, key)
    ensures SortedBy(Filter(xs, p), key)
  {
    var idx := FilterIndices(xs, p);
  }
}
