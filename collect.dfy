/**
 * `collect_files_sorted`: walk the tree without following links, prune
 * entries before descending, keep the files that are not skipped, strip the
 * root prefix, and sort the relative paths byte-wise.
 */
module Collect {
  import opened Bytes
  import opened Paths
  import opened Filter
  import opened Sorting

  /** The directory tree under the root, as the walker would see it (the root is a node too). */
  datatype Node = File(name: seq<Byte>) | Dir(name: seq<Byte>, children: seq<Node>)

  /** One entry the walker yields: its path components below the root, its name and its kind. */
  datatype Entry = Entry(comps: seq<seq<Byte>>, name: seq<Byte>, isDir: bool)

  /**
   * Pre-order walk with the pruning hook applied to every entry, the root
   * included: a pruned entry is not yielded and, for a directory, neither is
   * anything below it. The order of `children` stands for the order the
   * operating system lists them in.
   */
  function Walk(n: Node, comps: seq<seq<Byte>>, includeHidden: bool): seq<Entry>
    decreases n, 1
  {
    if ShouldPruneWalkEntry(n.name, n.Dir?, includeHidden) then []
    else
      var below := if n.Dir? then WalkChildren(n.children, comps, includeHidden) else [];
      [Entry(comps, n.name, n.Dir?)] + below
  }

  function WalkChildren(cs: seq<Node>, comps: seq<seq<Byte>>, includeHidden: bool): seq<Entry>
    decreases cs, 0
  {
    if cs == [] then []
    else Walk(cs[0], comps + [cs[0].name], includeHidden) + WalkChildren(cs[1..], comps, includeHidden)
  }

  /** The entries the walk of the whole tree yields. */
  function WalkTree(root: Node, includeHidden: bool): seq<Entry> {
    Walk(root, [], includeHidden)
  }

  /** A walked entry that the loop keeps: not a directory and not skipped. */
  predicate Kept(e: Entry, includeHidden: bool) {
    !e.isDir && !ShouldSkipFile(e.name, includeHidden)
  }

  /** The relative paths the collecting loop pushes, in walk order. */
  function Eligible(es: seq<Entry>, includeHidden: bool): seq<Path>
    decreases |es|
  {
    if es == [] then []
    else
      var e := es[|es| - 1];
      Eligible(es[..|es| - 1], includeHidden) + (if Kept(e, includeHidden) then [Join(e.comps)] else [])
  }

  /** What `collect_files_sorted` returns. */
  function Collected(root: Node, includeHidden: bool): seq<Path> {
    SortPaths(Eligible(WalkTree(root, includeHidden), includeHidden))
  }

  method CollectFilesSorted(root: Node, includeHidden: bool) returns (files: seq<Path>)
    ensures files == Collected(root, includeHidden)
    ensures Sorted(files)
    ensures multiset(files) == multiset(Eligible(WalkTree(root, includeHidden), includeHidden))
  {
    var entries := WalkTree(root, includeHidden);
    var acc: seq<Path> := [];
    var i := 0;
    while i < |entries|
      invariant 0 <= i <= |entries|
      invariant acc == Eligible(entries[..i], includeHidden)
    {
      var e := entries[i];
      EligibleStep(entries, i, includeHidden);
      if !e.isDir && !ShouldSkipFile(e.name, includeHidden) {
        acc := acc + [Join(e.comps)];
      }
      i := i + 1;
    }
    assert entries[..|entries|] == entries;
    files := SortPaths(acc);
  }

  /** One more entry of the walk adds its path exactly when it is kept. */
  lemma EligibleStep(es: seq<Entry>, i: nat, includeHidden: bool)
    requires i < |es|
    ensures Eligible(es[..i + 1], includeHidden)
         == Eligible(es[..i], includeHidden) + (if Kept(es[i], includeHidden) then [Join(es[i].comps)] else [])
  {
    assert es[..i + 1][..i] == es[..i];
  }

  lemma {:induction false} EligibleConcat(a: seq<Entry>, b: seq<Entry>, includeHidden: bool)
    ensures Eligible(a + b, includeHidden) == Eligible(a, includeHidden) + Eligible(b, includeHidden)
    decreases |b|
  {
    if b != [] {
      var b' := b[..|b| - 1];
      assert (a + b)[..|a + b| - 1] == a + b';
      EligibleConcat(a, b', includeHidden);
    } else {
      assert a + b == a;
    }
  }

  lemma {:induction false} EligibleMembers(es: seq<Entry>, includeHidden: bool, p: Path)
    ensures p in Eligible(es, includeHidden)
        <==> exists e | e in es :: Kept(e, includeHidden) && Join(e.comps) == p
    decreases |es|
  {
    if es != [] {
      var init := es[..|es| - 1];
      EligibleMembers(init, includeHidden, p);
      assert es == init + [es[|es| - 1]];
      assert forall e :: e in es <==> e in init || e == es[|es| - 1];
    }
  }

  /** A path is collected exactly when the walk yielded a kept file at that path. */
  lemma CollectedMembers(root: Node, includeHidden: bool, p: Path)
    ensures p in Collected(root, includeHidden)
        <==> exists e | e in WalkTree(root, includeHidden) :: Kept(e, includeHidden) && Join(e.comps) == p
  {
    var el := Eligible(WalkTree(root, includeHidden), includeHidden);
    assert p in Collected(root, includeHidden) <==> p in multiset(el);
    EligibleMembers(WalkTree(root, includeHidden), includeHidden, p);
  }

  lemma EligibleRemoveOne(t: seq<Entry>, k: nat, includeHidden: bool)
    requires k < |t|
    ensures multiset(t[..k] + t[k + 1..]) == multiset(t) - multiset{t[k]}
    ensures multiset(Eligible(t, includeHidden))
         == multiset(Eligible(t[..k] + t[k + 1..], includeHidden)) + multiset(Eligible([t[k]], includeHidden))
  {
    assert t == t[..k] + [t[k]] + t[k + 1..];
    EligibleConcat(t[..k], [t[k]], includeHidden);
    EligibleConcat(t[..k] + [t[k]], t[k + 1..], includeHidden);
    EligibleConcat(t[..k], t[k + 1..], includeHidden);
  }

  lemma {:induction false} EligiblePermutation(s: seq<Entry>, t: seq<Entry>, includeHidden: bool)
    requires multiset(s) == multiset(t)
    ensures multiset(Eligible(s, includeHidden)) == multiset(Eligible(t, includeHidden))
    decreases |s|
  {
    if s == [] {
      assert |t| == |multiset(t)| == 0;
    } else {
      var x := s[|s| - 1];
      var s' := s[..|s| - 1];
      assert s == s' + [x];
      assert multiset(s') == multiset(s) - multiset{x};
      assert x in multiset(t);
      var k :| 0 <= k < |t| && t[k] == x;
      EligibleRemoveOne(t, k, includeHidden);
      EligiblePermutation(s', t[..k] + t[k + 1..], includeHidden);
      EligibleConcat(s', [x], includeHidden);
    }
  }

  /** Any traversal order that visits the same entries gives the same sorted list. */
  lemma CollectedIgnoresWalkOrder(root: Node, includeHidden: bool, es: seq<Entry>)
    requires multiset(es) == multiset(WalkTree(root, includeHidden))
    ensures SortPaths(Eligible(es, includeHidden)) == Collected(root, includeHidden)
  {
    EligiblePermutation(es, WalkTree(root, includeHidden), includeHidden);
    SortIgnoresOrder(Eligible(es, includeHidden), Eligible(WalkTree(root, includeHidden), includeHidden));
  }

  /** Every directory above the entry was let through, and so was the entry itself. */
  predicate Clean(e: Entry, includeHidden: bool) {
    && (forall j | 0 <= j < |e.comps| - 1 :: !ShouldPruneWalkEntry(e.comps[j], true, includeHidden))
    && !ShouldPruneWalkEntry(e.name, e.isDir, includeHidden)
    && (e.comps != [] ==> e.name == e.comps[|e.comps| - 1])
  }

  lemma {:induction false} WalkClean(n: Node, comps: seq<seq<Byte>>, includeHidden: bool)
    requires forall j | 0 <= j < |comps| - 1 :: !ShouldPruneWalkEntry(comps[j], true, includeHidden)
    requires comps != [] ==> comps[|comps| - 1] == n.name
    ensures forall e | e in Walk(n, comps, includeHidden) :: Clean(e, includeHidden)
    decreases n, 1
  {
    if !ShouldPruneWalkEntry(n.name, n.Dir?, includeHidden) && n.Dir? {
      WalkChildrenClean(n.children, comps, n.name, includeHidden);
    }
  }

  lemma {:induction false} WalkChildrenClean(cs: seq<Node>, comps: seq<seq<Byte>>, parent: seq<Byte>, includeHidden: bool)
    requires forall j | 0 <= j < |comps| - 1 :: !ShouldPruneWalkEntry(comps[j], true, includeHidden)
    requires comps != [] ==> comps[|comps| - 1] == parent && !ShouldPruneWalkEntry(parent, true, includeHidden)
    ensures forall e | e in WalkChildren(cs, comps, includeHidden) :: Clean(e, includeHidden)
    decreases cs, 0
  {
    if cs != [] {
      var c := comps + [cs[0].name];
      assert forall j | 0 <= j < |c| - 1 :: c[j] == comps[j];
      WalkClean(cs[0], c, includeHidden);
      WalkChildrenClean(cs[1..], comps, parent, includeHidden);
    }
  }

  /** With hidden entries excluded, no walked entry has a hidden component in its path. */
  lemma NoHiddenComponents(root: Node, e: Entry, j: nat)
    requires e in WalkTree(root, false) && j < |e.comps|
    ensures !IsHidden(e.comps[j])
  {
    WalkClean(root, [], false);
    if j < |e.comps| - 1 {
      PruneOnRawName(e.comps[j], true, false);
    } else {
      PruneOnRawName(e.name, e.isDir, false);
    }
  }

  /** Nothing is ever collected from inside a `.git`, `target` or `node_modules` directory. */
  lemma NeverBelowPrunedDir(root: Node, includeHidden: bool, e: Entry, j: nat)
    requires e in WalkTree(root, includeHidden) && j < |e.comps| - 1
    ensures e.comps[j] !in PRUNED_DIRS
  {
    WalkClean(root, [], includeHidden);
    PruneOnRawName(e.comps[j], true, includeHidden);
  }

  /** The pruning hook sees the root too: a pruned root (a hidden name without the flag) collects nothing. */
  lemma PrunedRootCollectsNothing(root: Node, includeHidden: bool)
    requires ShouldPruneWalkEntry(root.name, root.Dir?, includeHidden)
    ensures Collected(root, includeHidden) == []
  {
  }

  /** `idx` picks a child at every step down from `n`. */
  predicate ValidIndex(n: Node, idx: seq<nat>)
    decreases |idx|
  {
    idx == [] || (n.Dir? && idx[0] < |n.children| && ValidIndex(n.children[idx[0]], idx[1..]))
  }

  /** The node `idx` leads to. */
  function NodeAt(n: Node, idx: seq<nat>): Node
    requires ValidIndex(n, idx)
    decreases |idx|
  {
    if idx == [] then n else NodeAt(n.children[idx[0]], idx[1..])
  }

  /** The names of the nodes below `n` on the way to `NodeAt(n, idx)`: its components below `n`. */
  function NamesTo(n: Node, idx: seq<nat>): seq<seq<Byte>>
    requires ValidIndex(n, idx)
    decreases |idx|
  {
    if idx == [] then [] else [n.children[idx[0]].name] + NamesTo(n.children[idx[0]], idx[1..])
  }

  /** Every directory on the way down, `n` included and the target excluded, passes the pruning hook. */
  predicate OpenTo(n: Node, idx: seq<nat>, includeHidden: bool)
    requires ValidIndex(n, idx)
    decreases |idx|
  {
    idx == [] || (!ShouldPruneWalkEntry(n.name, true, includeHidden) && OpenTo(n.children[idx[0]], idx[1..], includeHidden))
  }

  lemma {:induction false} WalkChildrenHas(cs: seq<Node>, comps: seq<seq<Byte>>, k: nat, includeHidden: bool, e: Entry)
    requires k < |cs| && e in Walk(cs[k], comps + [cs[k].name], includeHidden)
    ensures e in WalkChildren(cs, comps, includeHidden)
    decreases k
  {
    if k > 0 {
      WalkChildrenHas(cs[1..], comps, k - 1, includeHidden, e);
    }
  }

  /** The converse of `WalkClean`: a node reached through directories the hook lets through, and let through itself, is walked. */
  lemma {:induction false} WalkReaches(n: Node, comps: seq<seq<Byte>>, idx: seq<nat>, includeHidden: bool)
    requires ValidIndex(n, idx) && OpenTo(n, idx, includeHidden)
    requires !ShouldPruneWalkEntry(NodeAt(n, idx).name, NodeAt(n, idx).Dir?, includeHidden)
    ensures Entry(comps + NamesTo(n, idx), NodeAt(n, idx).name, NodeAt(n, idx).Dir?) in Walk(n, comps, includeHidden)
    decreases |idx|
  {
    if idx == [] {
      assert comps + [] == comps;
    } else {
      var c := n.children[idx[0]];
      WalkReaches(c, comps + [c.name], idx[1..], includeHidden);
      assert comps + [c.name] + NamesTo(c, idx[1..]) == comps + NamesTo(n, idx);
      WalkChildrenHas(n.children, comps, idx[0], includeHidden, Entry(comps + NamesTo(n, idx), NodeAt(n, idx).name, NodeAt(n, idx).Dir?));
    }
  }

  /** A file reached through directories the hook lets through, neither pruned nor skipped itself, is collected. */
  lemma CollectedReaches(root: Node, idx: seq<nat>, includeHidden: bool)
    requires ValidIndex(root, idx) && OpenTo(root, idx, includeHidden)
    requires NodeAt(root, idx).File?
    requires !ShouldPruneWalkEntry(NodeAt(root, idx).name, false, includeHidden)
    requires !ShouldSkipFile(NodeAt(root, idx).name, includeHidden)
    ensures Join(NamesTo(root, idx)) in Collected(root, includeHidden)
  {
    WalkReaches(root, [], idx, includeHidden);
    assert [] + NamesTo(root, idx) == NamesTo(root, idx);
    var e := Entry(NamesTo(root, idx), NodeAt(root, idx).name, false);
    assert e in WalkTree(root, includeHidden) && Kept(e, includeHidden);
    CollectedMembers(root, includeHidden, Join(NamesTo(root, idx)));
  }
}
