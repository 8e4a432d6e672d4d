/**
 * `Selector`: optional include and exclude glob sets over slash-separated
 * relative paths. Glob compilation, set building and matching belong to the
 * `globset` library and are parameters here.
 */
module Selector {
  import opened Wrappers

  type Pattern = string

  /** What the glob library decides: which patterns compile, which sets build, what a pattern matches. */
  datatype Globs = Globs(compiles: Pattern -> bool, builds: seq<Pattern> -> bool, isMatch: (Pattern, string) -> bool)

  /** A built glob set: the patterns added to the builder, in order. */
  datatype GlobSet = GlobSet(patterns: seq<Pattern>)

  /** `None` includes everything, or excludes nothing. */
  datatype Selector = Selector(includeSet: Option<GlobSet>, excludeSet: Option<GlobSet>)

  /** The two error contexts of `build_globset`. */
  datatype Error = InvalidGlob(flag: string, pattern: Pattern) | BuildFailed(flag: string)

  const INCLUDE_FLAG: string := "--include"
  const EXCLUDE_FLAG: string := "--exclude"

  /** `GlobSet::is_match`: some pattern of the set matches the path. */
  predicate IsMatch(gs: GlobSet, g: Globs, path: string) {
    exists i | 0 <= i < |gs.patterns| :: g.isMatch(gs.patterns[i], path)
  }

  /** Index of the first pattern that does not compile, if any. */
  function FirstInvalid(ps: seq<Pattern>, g: Globs): (r: Option<nat>)
    ensures r.Some? ==> r.value < |ps| && !g.compiles(ps[r.value])
    ensures r.Some? ==> forall j | 0 <= j < r.value :: g.compiles(ps[j])
    ensures r.None? <==> forall j | 0 <= j < |ps| :: g.compiles(ps[j])
    decreases |ps|
  {
    if ps == [] then None
    else if !g.compiles(ps[0]) then Some(0)
    else match FirstInvalid(ps[1..], g)
      case None => None
      case Some(k) => Some(k + 1)
  }

  /** `build_globset`: fail on the first pattern that does not compile, else build from all of them. */
  function GlobSetOf(flag: string, ps: seq<Pattern>, g: Globs): (r: Result<GlobSet, Error>)
    ensures r.Ok? <==> (forall j | 0 <= j < |ps| :: g.compiles(ps[j])) && g.builds(ps)
    ensures r.Ok? ==> r.value.patterns == ps
    ensures r.Err? ==> r.error.flag == flag
  {
    match FirstInvalid(ps, g)
    case Some(k) => Err(InvalidGlob(flag, ps[k]))
    case None => if g.builds(ps) then Ok(GlobSet(ps)) else Err(BuildFailed(flag))
  }

  /** The builder loop of `build_globset`. */
  method BuildGlobSet(flag: string, ps: seq<Pattern>, g: Globs) returns (r: Result<GlobSet, Error>)
    ensures r == GlobSetOf(flag, ps, g)
  {
    var builder: seq<Pattern> := [];
    var i := 0;
    while i < |ps|
      invariant 0 <= i <= |ps|
      invariant builder == ps[..i]
      invariant forall j | 0 <= j < i :: g.compiles(ps[j])
    {
      if !g.compiles(ps[i]) {
        FirstInvalidIsFirst(ps, g, i);
        return Err(InvalidGlob(flag, ps[i]));
      }
      builder := builder + [ps[i]];
      i := i + 1;
    }
    assert builder == ps;
    if !g.builds(builder) {
      return Err(BuildFailed(flag));
    }
    r := Ok(GlobSet(builder));
  }

  /** The first pattern that does not compile is the one `FirstInvalid` names. */
  lemma {:induction false} FirstInvalidIsFirst(ps: seq<Pattern>, g: Globs, k: nat)
    requires k < |ps| && !g.compiles(ps[k])
    requires forall j | 0 <= j < k :: g.compiles(ps[j])
    ensures FirstInvalid(ps, g) == Some(k)
    decreases k
  {
    if k > 0 {
      FirstInvalidIsFirst(ps[1..], g, k - 1);
    }
  }

  /** The optional set for one flag: an empty list gives `None`. */
  function OptionalSet(flag: string, ps: seq<Pattern>, g: Globs): (r: Result<Option<GlobSet>, Error>)
    ensures ps == [] ==> r == Ok(None)
    ensures ps != [] && r.Ok? ==> r.value == Some(GlobSet(ps))
    ensures r.Err? <==> ps != [] && GlobSetOf(flag, ps, g).Err?
  {
    if ps == [] then Ok(None)
    else match GlobSetOf(flag, ps, g)
      case Ok(gs) => Ok(Some(gs))
      case Err(e) => Err(e)
  }

  /** `Selector::new`: the include set, then the exclude set; the first error wins. */
  function New(includes: seq<Pattern>, excludes: seq<Pattern>, g: Globs): (r: Result<Selector, Error>)
    ensures r.Ok? ==> (r.value.includeSet.None? <==> includes == []) && (r.value.excludeSet.None? <==> excludes == [])
    ensures r.Err? && r.error.flag == EXCLUDE_FLAG ==> OptionalSet(INCLUDE_FLAG, includes, g).Ok?
  {
    match OptionalSet(INCLUDE_FLAG, includes, g)
    case Err(e) => Err(e)
    case Ok(includeSet) =>
      match OptionalSet(EXCLUDE_FLAG, excludes, g)
      case Err(e) => Err(e)
      case Ok(excludeSet) => Ok(Selector(includeSet, excludeSet))
  }

  /** `Selector::matches`: included (or no include set) and not excluded (or no exclude set). */
  predicate Matches(sel: Selector, g: Globs, path: string) {
    (sel.includeSet.None? || IsMatch(sel.includeSet.value, g, path))
    && (sel.excludeSet.None? || !IsMatch(sel.excludeSet.value, g, path))
  }

  /** An include pattern that does not compile fails `new`, naming `--include` and the first such pattern. */
  lemma NewFails(includes: seq<Pattern>, excludes: seq<Pattern>, g: Globs, k: nat)
    requires k < |includes| && !g.compiles(includes[k])
    requires forall j | 0 <= j < k :: g.compiles(includes[j])
    ensures New(includes, excludes, g) == Err(InvalidGlob(INCLUDE_FLAG, includes[k]))
  {
    FirstInvalidIsFirst(includes, g, k);
  }

  /** An invalid exclude pattern is reported under `--exclude` once the include list is fine. */
  lemma NewFailsOnExclude(includes: seq<Pattern>, excludes: seq<Pattern>, g: Globs, k: nat)
    requires OptionalSet(INCLUDE_FLAG, includes, g).Ok?
    requires k < |excludes| && !g.compiles(excludes[k])
    requires forall j | 0 <= j < k :: g.compiles(excludes[j])
    ensures New(includes, excludes, g) == Err(InvalidGlob(EXCLUDE_FLAG, excludes[k]))
  {
    FirstInvalidIsFirst(excludes, g, k);
  }

  /** A selector built from two lists accepts a path exactly as the lists say. */
  lemma MatchesBuilt(includes: seq<Pattern>, excludes: seq<Pattern>, g: Globs, path: string)
    requires New(includes, excludes, g).Ok?
    ensures Matches(New(includes, excludes, g).value, g, path)
        <==> (includes == [] || exists i | 0 <= i < |includes| :: g.isMatch(includes[i], path))
             && (excludes == [] || forall i | 0 <= i < |excludes| :: !g.isMatch(excludes[i], path))
  {
  }

  /** With both lists empty, every path matches. */
  lemma EmptyListsMatchAll(g: Globs, path: string)
    ensures New([], [], g) == Ok(Selector(None, None))
    ensures Matches(Selector(None, None), g, path)
  {
  }

  /** A path matched by an exclude pattern is rejected, whatever the include patterns say. */
  lemma ExcludeWins(includes: seq<Pattern>, excludes: seq<Pattern>, g: Globs, path: string, k: nat)
    requires New(includes, excludes, g).Ok?
    requires k < |excludes| && g.isMatch(excludes[k], path)
    ensures !Matches(New(includes, excludes, g).value, g, path)
  {
    MatchesBuilt(includes, excludes, g, path);
  }
}
