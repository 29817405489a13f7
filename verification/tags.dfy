/** Tag normalisation and the merge `tag_cell` performs: the stored tags and
    the normalised new ones are united, then sorted and deduplicated. */
module Tags {
  import opened Text

  /** `t.lower().strip()`. */
  function Normalize(t: string): (r: string)
    ensures |r| <= |t|
    ensures r == [] || (!IsSpace(r[0]) && !IsSpace(r[|r| - 1]))
    ensures forall k :: 0 <= k < |r| ==> !('A' <= r[k] <= 'Z')
  {
    Strip(Lower(t))
  }

  function NormalizeAll(ts: seq<string>): (r: seq<string>)
    ensures |r| == |ts|
    ensures forall i :: 0 <= i < |ts| ==> r[i] == Normalize(ts[i])
  {
    seq(|ts|, i requires 0 <= i < |ts| => Normalize(ts[i]))
  }

  /** Strictly increasing in Python's string order: sorted and free of
      duplicates. */
  ghost predicate StrictlySorted(xs: seq<string>) {
    forall i, j :: 0 <= i < j < |xs| ==> Less(xs[i], xs[j])
  }

  lemma SortedTail(xs: seq<string>)
    requires |xs| > 0 && StrictlySorted(xs)
    ensures StrictlySorted(xs[1..])
    ensures forall y :: y in xs[1..] ==> Less(xs[0], y)
  {
    forall y | y in xs[1..]
      ensures Less(xs[0], y)
    {
      var k :| 0 <= k < |xs[1..]| && xs[1..][k] == y;
      assert xs[k + 1] == y;
    }
  }

  lemma SortedConsString(h: string, rest: seq<string>)
    requires StrictlySorted(rest)
    requires forall y :: y in rest ==> Less(h, y)
    ensures StrictlySorted([h] + rest)
  {
    var r := [h] + rest;
    forall i, j | 0 <= i < j < |r|
      ensures Less(r[i], r[j])
    {
      assert r[j] == rest[j - 1];
      if i > 0 {
        assert r[i] == rest[i - 1];
      }
    }
  }

  function SortedInsert(x: string, xs: seq<string>): (r: seq<string>)
    requires StrictlySorted(xs)
    ensures StrictlySorted(r)
    ensures forall y :: y in r <==> y == x || y in xs
    decreases |xs|
  {
    if |xs| == 0 then [x]
    else if x == xs[0] then xs
    else if Less(x, xs[0]) then
      SortedTail(xs);
      forall y | y in xs[1..]
        ensures Less(x, y)
      {
        LessTransitive(x, xs[0], y);
      }
      assert xs == [xs[0]] + xs[1..];
      SortedConsString(x, xs);
      [x] + xs
    else
      SortedTail(xs);
      LessTotal(x, xs[0]);
      var rest := SortedInsert(x, xs[1..]);
      assert xs == [xs[0]] + xs[1..];
      SortedConsString(xs[0], rest);
      [xs[0]] + rest
  }

  /** `sorted(set(l))`. */
  function SortedSet(l: seq<string>): (r: seq<string>)
    ensures StrictlySorted(r)
    ensures forall y :: y in r <==> y in l
    decreases |l|
  {
    if |l| == 0 then []
    else
      var init := l[..|l| - 1];
      assert l == init + [l[|l| - 1]];
      SortedInsert(l[|l| - 1], SortedSet(init))
  }

  /** The tag list `tag_cell` writes back: the stored tags as they are,
      together with the new tags lowercased and stripped, sorted and
      deduplicated. */
  function Merge(existing: seq<string>, added: seq<string>): (r: seq<string>)
    ensures StrictlySorted(r)
    ensures forall y :: y in r <==> y in existing || y in NormalizeAll(added)
  {
    SortedSet(existing + NormalizeAll(added))
  }

  lemma HeadIsElement(xs: seq<string>)
    ensures |xs| > 0 ==> xs[0] in xs
  {
  }

  /** A strictly sorted list is determined by its elements. */
  lemma {:induction false} StrictlySortedUnique(a: seq<string>, b: seq<string>)
    requires StrictlySorted(a) && StrictlySorted(b)
    requires forall y :: y in a <==> y in b
    ensures a == b
    decreases |a|
  {
    if |a| == 0 || |b| == 0 {
      HeadIsElement(a);
      HeadIsElement(b);
    } else {
      SortedTail(a);
      SortedTail(b);
      assert a[0] in b && b[0] in a;
      assert a[0] == b[0] || Less(b[0], a[0]);
      assert b[0] == a[0] || Less(a[0], b[0]);
      LessAsymmetric(a[0], b[0]);
      forall y | y in a[1..]
        ensures y in b[1..]
      {
        LessIrreflexive(y);
        assert y in b && y != b[0];
        assert y in b[1..] by {
          assert b == [b[0]] + b[1..];
        }
      }
      forall y | y in b[1..]
        ensures y in a[1..]
      {
        LessIrreflexive(y);
        assert y in a && y != a[0];
        assert y in a[1..] by {
          assert a == [a[0]] + a[1..];
        }
      }
      StrictlySortedUnique(a[1..], b[1..]);
      assert a == [a[0]] + a[1..] && b == [b[0]] + b[1..];
    }
  }

  /** Merging the same tags a second time changes nothing. */
  lemma MergeIdempotent(existing: seq<string>, added: seq<string>)
    ensures Merge(Merge(existing, added), added) == Merge(existing, added)
  {
    StrictlySortedUnique(Merge(Merge(existing, added), added), Merge(existing, added));
  }
}
