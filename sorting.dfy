/**
 * `Vec::sort_by` on relative paths compared byte-wise (`OsStr::cmp`),
 * specified by its result: sorted and a permutation. Because the order is
 * total and antisymmetric, that result is unique.
 */
module Sorting {
  import opened Bytes

  predicate Sorted(s: seq<seq<Byte>>) {
    forall i, j | 0 <= i < j < |s| :: LexLe(s[i], s[j])
  }

  function Insert(x: seq<Byte>, s: seq<seq<Byte>>): (r: seq<seq<Byte>>)
    requires Sorted(s)
    ensures Sorted(r)
    ensures multiset(r) == multiset(s) + multiset{x}
    decreases |s|
  {
    if s == [] then [x]
    else if LexLe(x, s[0]) then
      InsertFront(x, s);
      [x] + s
    else
      LexLeTotal(x, s[0]);
      var rest := Insert(x, s[1..]);
      assert s == [s[0]] + s[1..];
      InsertBehind(s[0], x, s[1..], rest);
      [s[0]] + rest
  }

  lemma InsertFront(x: seq<Byte>, s: seq<seq<Byte>>)
    requires Sorted(s) && s != [] && LexLe(x, s[0])
    ensures Sorted([x] + s)
  {
    forall j | 0 <= j < |s| ensures LexLe(x, s[j]) {
      if j > 0 { LexLeTransitive(x, s[0], s[j]); }
    }
  }

  lemma InsertBehind(h: seq<Byte>, x: seq<Byte>, t: seq<seq<Byte>>, rest: seq<seq<Byte>>)
    requires Sorted([h] + t) && Sorted(rest) && LexLe(h, x)
    requires multiset(rest) == multiset(t) + multiset{x}
    ensures Sorted([h] + rest)
  {
    forall j | 0 <= j < |rest| ensures LexLe(h, rest[j]) {
      assert rest[j] in multiset(rest);
      if rest[j] != x {
        assert rest[j] in multiset(t);
        var k :| 0 <= k < |t| && t[k] == rest[j];
        assert ([h] + t)[0] == h && ([h] + t)[k + 1] == t[k];
      }
    }
    var s := [h] + rest;
    forall i, j | 0 <= i < j < |s| ensures LexLe(s[i], s[j]) {
      if i > 0 { assert s[i] == rest[i - 1] && s[j] == rest[j - 1]; }
    }
  }

  /** The sort the program applies: sorted, and the same paths with the same multiplicities. */
  function SortPaths(s: seq<seq<Byte>>): (r: seq<seq<Byte>>)
    ensures Sorted(r) && multiset(r) == multiset(s)
    decreases |s|
  {
    if s == [] then []
    else
      assert s == [s[0]] + s[1..];
      Insert(s[0], SortPaths(s[1..]))
  }

  lemma SortedHeadIsLeast(a: seq<seq<Byte>>, x: seq<Byte>)
    requires Sorted(a) && x in multiset(a)
    ensures LexLe(a[0], x)
  {
    var i :| 0 <= i < |a| && a[i] == x;
    if i == 0 { LexLeTotal(x, x); }
  }

  lemma SameHeadSameTail(a: seq<seq<Byte>>, b: seq<seq<Byte>>)
    requires a != [] && b != [] && a[0] == b[0] && multiset(a) == multiset(b)
    ensures multiset(a[1..]) == multiset(b[1..])
  {
    assert a == [a[0]] + a[1..] && b == [b[0]] + b[1..];
    calc {
      multiset(a[1..]);
      multiset(a) - multiset{a[0]};
      multiset(b) - multiset{b[0]};
      multiset(b[1..]);
    }
  }

  /** Two sorted arrangements of the same paths are equal: the order of discovery cannot show in the result. */
  lemma {:induction false} SortedUnique(a: seq<seq<Byte>>, b: seq<seq<Byte>>)
    requires Sorted(a) && Sorted(b) && multiset(a) == multiset(b)
    ensures a == b
    decreases |a|
  {
    assert |a| == |multiset(a)| == |multiset(b)| == |b|;
    if a != [] {
      assert a[0] in multiset(a) && b[0] in multiset(b);
      SortedHeadIsLeast(a, b[0]);
      SortedHeadIsLeast(b, a[0]);
      LexLeAntisymmetric(a[0], b[0]);
      SameHeadSameTail(a, b);
      SortedUnique(a[1..], b[1..]);
      assert a == [a[0]] + a[1..] && b == [b[0]] + b[1..];
    }
  }

  /** Sorting is independent of the order the paths were found in. */
  lemma SortIgnoresOrder(s: seq<seq<Byte>>, t: seq<seq<Byte>>)
    requires multiset(s) == multiset(t)
    ensures SortPaths(s) == SortPaths(t)
  {
    SortedUnique(SortPaths(s), SortPaths(t));
  }
}
