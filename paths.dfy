/**
 * The parts of Rust's `Path` the program relies on, for relative paths
 * written with `/` separators: `file_name`, `extension`, and the join that
 * `strip_prefix` undoes.
 */
module Paths {
  import opened Wrappers
  import opened Bytes

  type Path = seq<Byte>

  /** The parent-directory name `..`. */
  const PARENT: seq<Byte> := [DOT, DOT]

  /** Index of the last occurrence of `b` in `s`, if any. */
  function LastIndexOf(s: seq<Byte>, b: Byte): (r: Option<nat>)
    ensures r.Some? ==> r.value < |s| && s[r.value] == b
    ensures r.Some? ==> forall j | r.value < j < |s| :: s[j] != b
    ensures r.None? ==> forall j | 0 <= j < |s| :: s[j] != b
    decreases |s|
  {
    if s == [] then None
    else if s[|s| - 1] == b then Some(|s| - 1)
    else LastIndexOf(s[..|s| - 1], b)
  }

  /** `Path::file_name` of a relative path made of normal components: the text after the last `/`. */
  function FileName(p: Path): (r: seq<Byte>)
    ensures NoSlash(r)
    ensures |r| <= |p| && r == p[|p| - |r|..]
    ensures |r| == |p| || p[|p| - |r| - 1] == SLASH
  {
    match LastIndexOf(p, SLASH)
    case None => p
    case Some(i) => p[i + 1..]
  }

  /**
   * `Path::extension` of a file name: the text after the last `.`, except
   * that `..`, a name without a dot and a name whose last dot is its first
   * byte have none.
   */
  function Extension(name: seq<Byte>): (r: Option<seq<Byte>>)
    ensures r.Some? <==> name != PARENT && exists i | 0 < i < |name| :: name[i] == DOT
    ensures r.Some? ==> exists i | 0 < i < |name| :: name[i] == DOT && r.value == name[i + 1..]
                          && forall j | i < j < |name| :: name[j] != DOT
  {
    if name == PARENT then None
    else match LastIndexOf(name, DOT)
      case None => None
      case Some(i) => if i == 0 then None else Some(name[i + 1..])
  }

  /** A name whose only dot is its leading one (`.pem`, `.env`) has no extension. */
  lemma LeadingDotOnlyHasNoExtension(name: seq<Byte>)
    requires |name| > 0 && name[0] == DOT
    requires forall j | 0 < j < |name| :: name[j] != DOT
    ensures Extension(name) == None
  {
  }

  /** The relative path of an entry, from its components below the root (what `strip_prefix(root)` leaves). */
  function Join(comps: seq<seq<Byte>>): Path
    decreases |comps|
  {
    if |comps| == 0 then []
    else if |comps| == 1 then comps[0]
    else Join(comps[..|comps| - 1]) + [SLASH] + comps[|comps| - 1]
  }

  /** A single path component: no `/` inside. */
  predicate NoSlash(s: seq<Byte>) {
    forall j | 0 <= j < |s| :: s[j] != SLASH
  }

  /** The file name of a joined path is its last component, when that has no `/`. */
  lemma FileNameOfJoin(comps: seq<seq<Byte>>)
    requires |comps| > 0 && NoSlash(comps[|comps| - 1])
    ensures FileName(Join(comps)) == comps[|comps| - 1]
  {
    var last := comps[|comps| - 1];
    var p := Join(comps);
    if |comps| > 1 {
      var k := |Join(comps[..|comps| - 1])|;
      assert p[k] == SLASH;
      assert p[k + 1..] == last;
      var r := LastIndexOf(p, SLASH);
      assert r.Some? && r.value == k;
    } else {
      assert LastIndexOf(p, SLASH).None?;
    }
  }

  /** The path the walker yields for an entry at `rel` below `root`; the root itself when `rel` is empty. */
  function Under(root: Path, rel: Path): (p: Path)
    ensures rel != [] ==> |p| > |rel| && p[|p| - |rel|..] == rel
  {
    if rel == [] then root else root + [SLASH] + rel
  }

  /** The last `b` of `pre + s` lies in `s` when `s` has one, else in `pre`. */
  lemma {:induction false} LastIndexOfConcat(pre: seq<Byte>, s: seq<Byte>, b: Byte)
    ensures LastIndexOf(s, b).Some? ==> LastIndexOf(pre + s, b) == Some(|pre| + LastIndexOf(s, b).value)
    ensures LastIndexOf(s, b).None? ==> LastIndexOf(pre + s, b) == LastIndexOf(pre, b)
    decreases |s|
  {
    if s == [] {
      assert pre + s == pre;
    } else if s[|s| - 1] != b {
      assert (pre + s)[..|pre + s| - 1] == pre + s[..|s| - 1];
      LastIndexOfConcat(pre, s[..|s| - 1], b);
    }
  }

  /** Below the root, the full path and the relative path name the same file. */
  lemma UnderKeepsFileName(root: Path, rel: Path)
    requires rel != []
    ensures FileName(Under(root, rel)) == FileName(rel)
  {
    var pre := root + [SLASH];
    assert Under(root, rel) == pre + rel;
    FileNameOfConcat(pre, rel);
  }

  /** A prefix ending in `/` leaves the file name of what follows it unchanged. */
  lemma FileNameOfConcat(pre: seq<Byte>, rel: Path)
    requires |pre| > 0 && pre[|pre| - 1] == SLASH
    ensures FileName(pre + rel) == FileName(rel)
  {
    LastIndexOfConcat(pre, rel, SLASH);
    var k := LastIndexOf(rel, SLASH);
    if k.Some? {
      TailAfter(pre, rel, k.value + 1);
    } else {
      assert LastIndexOf(pre, SLASH) == Some(|pre| - 1);
      TailAfter(pre, rel, 0);
    }
  }

  lemma TailAfter(pre: seq<Byte>, rel: seq<Byte>, i: nat)
    requires i <= |rel|
    ensures (pre + rel)[|pre| + i..] == rel[i..]
  {
  }
}
