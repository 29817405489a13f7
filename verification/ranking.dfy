/** Ordering helpers shared by the store's queries: a stable descending sort
    on a real-valued key (both `ORDER BY ... DESC` and Python's
    `sorted(..., reverse=True)`), ascending row ids, and the two ways a
    result list is cut to a limit. */
module Ranking {

  ghost predicate SortedDesc<T>(xs: seq<T>, key: T -> real) {
    forall i, j :: 0 <= i < j < |xs| ==> key(xs[i]) >= key(xs[j])
  }

  ghost predicate Distinct<T>(xs: seq<T>) {
    forall i, j :: 0 <= i < j < |xs| ==> xs[i] != xs[j]
  }

  lemma SortedCons<T>(h: T, rest: seq<T>, key: T -> real)
    requires SortedDesc(rest, key)
    requires forall y :: y in rest ==> key(h) >= key(y)
    ensures SortedDesc([h] + rest, key)
  {
    var r := [h] + rest;
    forall i, j | 0 <= i < j < |r|
      ensures key(r[i]) >= key(r[j])
    {
      if i == 0 {
        assert r[j] == rest[j - 1];
      } else {
        assert r[i] == rest[i - 1] && r[j] == rest[j - 1];
      }
    }
  }

  lemma DistinctCons<T>(h: T, rest: seq<T>)
    ensures Distinct(rest) && h !in rest ==> Distinct([h] + rest)
  {
    if Distinct(rest) && h !in rest {
      var r := [h] + rest;
      forall i, j | 0 <= i < j < |r|
        ensures r[i] != r[j]
      {
        assert r[j] == rest[j - 1];
        if i > 0 {
          assert r[i] == rest[i - 1];
        }
      }
    }
  }

  lemma HeadDominates<T>(h: T, tail: seq<T>, key: T -> real)
    requires SortedDesc([h] + tail, key)
    ensures forall y :: y in tail ==> key(h) >= key(y)
  {
    var xs := [h] + tail;
    forall y | y in tail
      ensures key(h) >= key(y)
    {
      var k :| 0 <= k < |tail| && tail[k] == y;
      assert xs[0] == h && xs[k + 1] == y;
    }
  }

  lemma DistinctTail<T>(h: T, tail: seq<T>)
    requires Distinct([h] + tail)
    ensures Distinct(tail) && h !in tail
  {
    var xs := [h] + tail;
    forall i, j | 0 <= i < j < |tail|
      ensures tail[i] != tail[j]
    {
      assert tail[i] == xs[i + 1] && tail[j] == xs[j + 1];
    }
    forall k | 0 <= k < |tail|
      ensures tail[k] != h
    {
      assert tail[k] == xs[k + 1] && h == xs[0];
    }
  }

  /** The recursive step of `InsertDesc`: putting the old head back in
      front of the insertion into the tail. */
  lemma InsertStep<T>(h: T, tail: seq<T>, x: T, rest: seq<T>, key: T -> real)
    requires SortedDesc([h] + tail, key) && key(h) >= key(x)
    requires SortedDesc(rest, key)
    requires multiset(rest) == multiset(tail) + multiset{x}
    requires x !in tail && Distinct(tail) ==> Distinct(rest)
    ensures SortedDesc([h] + rest, key)
    ensures multiset([h] + rest) == multiset([h] + tail) + multiset{x}
    ensures x !in [h] + tail && Distinct([h] + tail) ==> Distinct([h] + rest)
  {
    HeadDominates(h, tail, key);
    AddedElement(rest, tail, x);
    SortedCons(h, rest, key);
    if x !in [h] + tail && Distinct([h] + tail) {
      DistinctTail(h, tail);
      DistinctCons(h, rest);
    }
  }

  /** Places `x` after every element whose key is at least its own. */
  function InsertDesc<T(==)>(x: T, xs: seq<T>, key: T -> real): (r: seq<T>)
    requires SortedDesc(xs, key)
    ensures SortedDesc(r, key)
    ensures multiset(r) == multiset(xs) + multiset{x}
    ensures x !in xs && Distinct(xs) ==> Distinct(r)
    decreases |xs|
  {
    if |xs| == 0 || key(x) > key(xs[0]) then
      SortedCons(x, xs, key);
      DistinctCons(x, xs);
      [x] + xs
    else
      var h, tail := xs[0], xs[1..];
      assert xs == [h] + tail;
      var rest := InsertDesc(x, tail, key);
      InsertStep(h, tail, x, rest, key);
      [h] + rest
  }

  /** A stable sort into non-increasing key order. Elements with equal keys
      keep their input order, as Python's `list.sort` guarantees. */
  function SortDesc<T(==)>(xs: seq<T>, key: T -> real): (r: seq<T>)
    ensures SortedDesc(r, key)
    ensures multiset(r) == multiset(xs)
    ensures |r| == |xs|
    ensures Distinct(xs) ==> Distinct(r)
    decreases |xs|
  {
    if |xs| == 0 then []
    else
      var init := xs[..|xs| - 1];
      var last := xs[|xs| - 1];
      assert xs == init + [last];
      var sorted := SortDesc(init, key);
      SameElements(init, sorted);
      var r := InsertDesc(last, sorted, key);
      assert |r| == |multiset(r)|;
      r
  }

  lemma AddedElement<T>(ys: seq<T>, xs: seq<T>, x: T)
    requires multiset(ys) == multiset(xs) + multiset{x}
    ensures forall y :: y in ys ==> y == x || y in xs
  {
    forall y | y in ys
      ensures y == x || y in xs
    {
      assert y in multiset(ys);
    }
  }

  /** Elements of a permutation are the elements of the original. */
  lemma SameElements<T>(xs: seq<T>, ys: seq<T>)
    requires multiset(xs) == multiset(ys)
    ensures forall y :: y in ys <==> y in xs
  {
    forall y
      ensures y in ys <==> y in xs
    {
      assert y in ys <==> y in multiset(ys);
      assert y in xs <==> y in multiset(xs);
    }
  }

  /** A sequence and a set with the same elements agree on each one. */
  lemma SameMember<T>(x: T, xs: seq<T>, s: set<T>)
    requires forall y :: y in xs <==> y in s
    ensures x in xs <==> x in s
  {
  }

  /** Every element of `chosen` ranks at least as high as every element of
      `pool` that was left out. */
  ghost predicate Outranks<T>(chosen: seq<T>, pool: seq<T>, key: T -> real) {
    forall i, y :: 0 <= i < |chosen| && y in pool && y !in chosen ==> key(chosen[i]) >= key(y)
  }

  /** Cutting a sorted permutation of `pool` after `n` elements keeps the
      `n` highest-ranked. */
  lemma PrefixOutranks<T>(pool: seq<T>, sorted: seq<T>, key: T -> real, n: nat)
    requires SortedDesc(sorted, key) && multiset(sorted) == multiset(pool) && n <= |sorted|
    ensures Outranks(sorted[..n], pool, key)
  {
    SameElements(pool, sorted);
    var r := sorted[..n];
    assert forall k :: 0 <= k < n ==> sorted[k] in r;
    forall i, y | 0 <= i < |r| && y in pool && y !in r
      ensures key(r[i]) >= key(y)
    {
      var j :| 0 <= j < |sorted| && sorted[j] == y;
      assert sorted[i] == r[i];
    }
  }

  /** A prefix of a sorted sequence is sorted, and distinct when the whole is. */
  lemma PrefixKeeps<T>(xs: seq<T>, key: T -> real, n: nat)
    requires SortedDesc(xs, key) && n <= |xs|
    ensures SortedDesc(xs[..n], key)
    ensures Distinct(xs) ==> Distinct(xs[..n])
    ensures forall x :: x in xs[..n] ==> x in xs
  {
  }

  lemma TopNFacts<T>(pool: seq<T>, sorted: seq<T>, key: T -> real, n: nat)
    requires SortedDesc(sorted, key) && multiset(sorted) == multiset(pool) && n <= |sorted|
    requires Distinct(pool) ==> Distinct(sorted)
    ensures SortedDesc(sorted[..n], key)
    ensures forall i :: 0 <= i < n ==> sorted[i] in pool
    ensures Distinct(pool) ==> Distinct(sorted[..n])
    ensures Outranks(sorted[..n], pool, key)
    ensures n == |pool| ==> forall x :: x in pool ==> x in sorted[..n]
  {
    SameElements(pool, sorted);
    if n == |pool| {
      assert |sorted| == |multiset(sorted)| == |multiset(pool)| == |pool|;
      assert sorted[..n] == sorted;
    }
    PrefixOutranks(pool, sorted, key, n);
    PrefixKeeps(sorted, key, n);
  }

  /** The first `n` elements of `pool` in non-increasing key order: what an
      ordered query keeps after its cut. */
  function TopN<T(==)>(pool: seq<T>, key: T -> real, n: nat): (r: seq<T>)
    requires n <= |pool|
    ensures |r| == n
    ensures SortedDesc(r, key)
    ensures forall i :: 0 <= i < n ==> r[i] in pool
    ensures Distinct(pool) ==> Distinct(r)
    ensures Outranks(r, pool, key)
    ensures n == |pool| ==> forall x :: x in pool ==> x in r
  {
    var sorted := SortDesc(pool, key);
    TopNFacts(pool, sorted, key, n);
    sorted[..n]
  }

  /** What `TopN` keeps is part of its pool, duplicates counted. */
  lemma TopNSubMultiset<T>(pool: seq<T>, key: T -> real, n: nat)
    requires n <= |pool|
    ensures multiset(TopN(pool, key, n)) <= multiset(pool)
  {
    var sorted := SortDesc(pool, key);
    assert sorted == sorted[..n] + sorted[n..];
  }

  lemma HasElement(s: set<int>)
    requires s != {}
    ensures exists y :: y in s
  {
    assert (forall y :: y !in s) ==> s == {};
  }

  lemma {:induction false} MaxExists(s: set<int>)
    requires s != {}
    ensures exists m :: m in s && forall x :: x in s ==> x <= m
    decreases s
  {
    HasElement(s);
    var y :| y in s;
    if s == {y} {
      assert forall x :: x in s ==> x <= y;
    } else {
      var s' := s - {y};
      MaxExists(s');
      var m :| m in s' && forall x :: x in s' ==> x <= m;
      var top := if y > m then y else m;
      forall x | x in s
        ensures x <= top
      {
        if x != y {
          assert x in s';
        }
      }
      assert top in s;
    }
  }

  function MaxOf(s: set<int>): (m: int)
    requires s != {}
    ensures m in s && forall x :: x in s ==> x <= m
  {
    MaxExists(s);
    var m :| m in s && forall x :: x in s ==> x <= m;
    m
  }

  /** The ids of `s` in ascending order. */
  function Ascending(s: set<int>): (r: seq<int>)
    ensures forall i, j :: 0 <= i < j < |r| ==> r[i] < r[j]
    ensures forall x :: x in r <==> x in s
    ensures |r| == |s|
    decreases s
  {
    if s == {} then []
    else
      var m := MaxOf(s);
      Ascending(s - {m}) + [m]
  }

  lemma AscendingIsDistinct(s: set<int>)
    ensures Distinct(Ascending(s))
  {
  }

  /** A sequence without repeats has as many elements as its set. */
  lemma {:induction false} DistinctCard<T>(xs: seq<T>)
    requires Distinct(xs)
    ensures |set x | x in xs| == |xs|
  {
    if |xs| > 0 {
      var t := xs[1..];
      assert xs == [xs[0]] + t;
      DistinctTail(xs[0], t);
      DistinctCard(t);
      assert (set x | x in xs) == (set x | x in t) + {xs[0]};
    }
  }

  /** The `n` members of `s` ranking highest by `key`, in non-increasing
      key order, ties in increasing order of the members. */
  function TopOf(s: set<int>, key: int -> real, n: nat): (r: seq<int>)
    requires n <= |s|
    ensures |r| == n
    ensures forall i :: 0 <= i < |r| ==> r[i] in s
    ensures Distinct(r)
    ensures forall i, j :: 0 <= i < j < |r| ==> key(r[i]) >= key(r[j])
    ensures forall i, m :: 0 <= i < |r| && m in s && m !in r ==> key(r[i]) >= key(m)
    ensures n == |s| ==> forall m :: m in s ==> m in r
  {
    var pool := Ascending(s);
    AscendingIsDistinct(s);
    var r := TopN(pool, key, n);
    forall i | 0 <= i < |r|
      ensures r[i] in s
    {
      var x := r[i];
      assert x in pool;
    }
    forall i, m | 0 <= i < |r| && m in s && m !in r
      ensures key(r[i]) >= key(m)
    {
      assert m in pool;
    }
    if n == |s| then
      DistinctCovers(r, s);
      r
    else r
  }

  /** A distinct sequence drawn from a set, as long as the set, holds all of it. */
  lemma DistinctCovers<T>(xs: seq<T>, s: set<T>)
    requires Distinct(xs) && |xs| == |s|
    requires forall i :: 0 <= i < |xs| ==> xs[i] in s
    ensures forall m :: m in s ==> m in xs
  {
    DistinctCard(xs);
    var seen := set x | x in xs;
    var rest := s - seen;
    assert s == seen + rest && seen * rest == {};
    assert |rest| == 0;
    assert rest == {};
  }

  /** Number of rows an SQL `LIMIT limit` keeps out of `n`: a negative limit
      means no bound. */
  function SqlLimit(n: nat, limit: int): (k: nat)
    ensures k <= n
    ensures limit < 0 ==> k == n
    ensures 0 <= limit ==> k == if limit < n then limit else n
  {
    if limit < 0 then n else if limit < n then limit else n
  }

  /** Length of the Python slice `xs[:limit]` of a list of length `n`: a
      negative limit drops that many elements from the end. */
  function SliceLen(n: nat, limit: int): (k: nat)
    ensures k <= n
    ensures 0 <= limit ==> k == if limit < n then limit else n
    ensures limit < 0 ==> k == if n + limit < 0 then 0 else n + limit
  {
    if 0 <= limit then (if limit < n then limit else n)
    else if n + limit < 0 then 0
    else n + limit
  }

  /** The elements of a set of scene names, in some order, each once. */
  method Elements(s: set<string>) returns (xs: seq<string>)
    ensures Distinct(xs)
    ensures forall x :: x in xs <==> x in s
    ensures |xs| == |s|
  {
    xs := [];
    var rest := s;
    while rest != {}
      invariant rest <= s
      invariant forall x :: x in xs <==> x in s && x !in rest
      invariant Distinct(xs)
      invariant |xs| + |rest| == |s|
      decreases rest
    {
      var x :| x in rest;
      xs := xs + [x];
      rest := rest - {x};
    }
  }
}
