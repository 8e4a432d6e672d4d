/**
 * `build_dump_bytes`: the header lines, then every collected file as a
 * block, within a total budget that keeps back room for the truncation
 * footer. The file system is a map from full path (the root joined with
 * the relative path) to contents; a path missing from it is a file that
 * cannot be read.
 */
module Dump {
  import opened Wrappers
  import opened Bytes
  import opened Utf8
  import opened Paths
  import opened Sink
  import opened Render
  import Collect

  /** The file system as seen by `fs::read`, by full path: a path with no entry fails to read. */
  type FileSystem = map<Path, seq<Byte>>

  const TRUNCATION_FOOTER: seq<Byte> := Str("\n... (truncated: max_total_bytes reached)\n")
  const TITLE: seq<Byte> := Str("# dumpo pack")
  const ROOT_PREFIX: seq<Byte> := Str("- root: ")

  /** `- root: <root>`, the root as `Path::display` shows it. */
  function RootLine(root: Path): seq<Byte> {
    ROOT_PREFIX + Lossy(root)
  }

  /** The three header lines: the title, the root line, a blank line. */
  function Header(rootLine: seq<Byte>): seq<Byte> {
    TITLE + [NEWLINE] + rootLine + [NEWLINE] + [NEWLINE]
  }

  /** `max_total_bytes.saturating_sub(TRUNCATION_FOOTER.len())`. */
  function Budget(maxTotalBytes: nat): (b: nat)
    ensures b + |TRUNCATION_FOOTER| <= maxTotalBytes || b == 0
    ensures b <= maxTotalBytes
  {
    if maxTotalBytes >= |TRUNCATION_FOOTER| then maxTotalBytes - |TRUNCATION_FOOTER| else 0
  }

  /** `looks_binary`: the contents hold a NUL byte. */
  predicate LooksBinary(bytes: seq<Byte>) {
    0 in bytes
  }

  /** A file the loop prints: it can be read and does not look binary. */
  predicate Printable(path: Path, fs: FileSystem) {
    path in fs && !LooksBinary(fs[path])
  }

  /** The three `write_line` calls of the header, each failing the whole dump when refused. */
  function WriteHeader(max: nat, rootLine: seq<Byte>): (r: Result<seq<Byte>, Error>)
    ensures r.Ok? <==> |Header(rootLine)| <= max
    ensures r.Ok? ==> r.value == Header(rootLine)
    ensures r.Err? ==> r.error == MaxTotalBytesReached
  {
    var h1 := AppendLine([], max, TITLE);
    if h1.status == TotalLimitReached then Err(MaxTotalBytesReached)
    else
      var h2 := AppendLine(h1.buf, max, rootLine);
      if h2.status == TotalLimitReached then Err(MaxTotalBytesReached)
      else
        var h3 := AppendLine(h2.buf, max, []);
        if h3.status == TotalLimitReached then Err(MaxTotalBytesReached)
        else Ok(h3.buf)
  }

  /** The file loop's outcome: whether a file hit the total limit, and the buffer. */
  datatype Rendered = Rendered(hit: bool, buf: seq<Byte>)

  /**
   * The file loop over `files`: unreadable and binary files are passed over,
   * every other file is printed, and the first file that signals the total
   * limit ends the loop.
   */
  function RenderFiles(buf: seq<Byte>, max: nat, root: Path, files: seq<Path>, fs: FileSystem, maxFileBytes: nat): (r: Rendered)
    requires |buf| <= max
    ensures |r.buf| <= max && buf <= r.buf
    decreases |files|
  {
    if files == [] then Rendered(false, buf)
    else
      var path := Under(root, files[0]);
      if !Printable(path, fs) then RenderFiles(buf, max, root, files[1..], fs, maxFileBytes)
      else
        var p := PrintFileSpec(buf, max, files[0], path, fs[path], maxFileBytes);
        if p.status == TotalLimitReached then Rendered(true, p.buf)
        else RenderFiles(p.buf, max, root, files[1..], fs, maxFileBytes)
  }

  /** The buffer handed back once the loop ends, with the footer when a file hit the limit. */
  function Finish(rd: Rendered): seq<Byte> {
    if rd.hit then rd.buf + TRUNCATION_FOOTER else rd.buf
  }

  /** `build_dump_bytes` for a root shown as `root`, whose tree is `tree`. */
  function BuildDump(root: Path, tree: Collect.Node, fs: FileSystem, maxFileBytes: nat, maxTotalBytes: nat, includeHidden: bool)
    : (r: Result<seq<Byte>, Error>)
    ensures r.Err? <==> |Header(RootLine(root))| > Budget(maxTotalBytes)
    ensures r.Ok? ==> Header(RootLine(root)) <= r.value
  {
    var budget := Budget(maxTotalBytes);
    var head := WriteHeader(budget, RootLine(root));
    if head.Err? then Err(head.error)
    else
      var rd := RenderFiles(head.value, budget, root, Collect.Collected(tree, includeHidden), fs, maxFileBytes);
      Ok(Finish(rd))
  }

  method BuildDumpBytes(root: Path, tree: Collect.Node, fs: FileSystem, maxFileBytes: nat, maxTotalBytes: nat, includeHidden: bool)
    returns (r: Result<seq<Byte>, Error>)
    ensures r == BuildDump(root, tree, fs, maxFileBytes, maxTotalBytes, includeHidden)
  {
    var budget := Budget(maxTotalBytes);
    var out := new Out(budget);
    var head := WriteHeaderInto(out, RootLine(root));
    if head.Err? {
      return Err(head.error);
    }
    var files := Collect.CollectFilesSorted(tree, includeHidden);
    var hitTotalLimit := PrintFiles(out, root, files, fs, maxFileBytes);
    var buf := out.IntoInner();
    if hitTotalLimit {
      buf := buf + TRUNCATION_FOOTER;
    }
    r := Ok(buf);
  }

  /** The header's `write_line` calls on a fresh sink. */
  method WriteHeaderInto(out: Out, rootLine: seq<Byte>) returns (r: Result<(), Error>)
    requires out.Valid() && out.buf == []
    modifies out
    ensures out.Valid()
    ensures var h := WriteHeader(out.max, rootLine);
            (r.Ok? <==> h.Ok?) && (r.Err? ==> r.error == h.error) && (r.Ok? ==> out.buf == h.value)
  {
    r := out.WriteLine(TITLE);
    if r.Err? { return; }
    r := out.WriteLine(rootLine);
    if r.Err? { return; }
    r := out.WriteLine([]);
  }

  /** The file loop: read, pass over unreadable and binary files, print, stop at the total limit. */
  method PrintFiles(out: Out, root: Path, files: seq<Path>, fs: FileSystem, maxFileBytes: nat) returns (hitTotalLimit: bool)
    requires out.Valid()
    modifies out
    ensures out.Valid()
    ensures Rendered(hitTotalLimit, out.buf) == RenderFiles(old(out.buf), out.max, root, files, fs, maxFileBytes)
  {
    ghost var target := RenderFiles(out.buf, out.max, root, files, fs, maxFileBytes);
    hitTotalLimit := false;
    var i := 0;
    while i < |files|
      invariant 0 <= i <= |files|
      invariant out.Valid()
      invariant !hitTotalLimit
      invariant RenderFiles(out.buf, out.max, root, files[i..], fs, maxFileBytes) == target
    {
      var rel := files[i];
      var path := Under(root, rel);
      assert files[i..][1..] == files[i + 1..];
      if path !in fs {
        i := i + 1;
        continue;
      }
      var bytes := fs[path];
      if LooksBinary(bytes) {
        i := i + 1;
        continue;
      }
      var st := PrintFile(out, rel, path, bytes, maxFileBytes);
      if st == TotalLimitReached {
        hitTotalLimit := true;
        return;
      }
      i := i + 1;
    }
  }

  /** The headline bound: a dump that is produced never exceeds `max_total_bytes`. */
  lemma DumpWithinBudget(root: Path, tree: Collect.Node, fs: FileSystem, maxFileBytes: nat, maxTotalBytes: nat, includeHidden: bool)
    ensures var r := BuildDump(root, tree, fs, maxFileBytes, maxTotalBytes, includeHidden);
            r.Ok? ==> |r.value| <= maxTotalBytes
  {
    var budget := Budget(maxTotalBytes);
    if |Header(RootLine(root))| <= budget {
      assert |Header(RootLine(root))| > 0;
      assert budget + |TRUNCATION_FOOTER| <= maxTotalBytes;
    }
  }

  /** Once a file hits the total limit, the files after it change nothing: they are not attempted. */
  lemma {:induction false} StopsAtFirstLimit(buf: seq<Byte>, max: nat, root: Path, files: seq<Path>, more: seq<Path>, fs: FileSystem, maxFileBytes: nat)
    requires |buf| <= max
    requires RenderFiles(buf, max, root, files, fs, maxFileBytes).hit
    ensures RenderFiles(buf, max, root, files + more, fs, maxFileBytes) == RenderFiles(buf, max, root, files, fs, maxFileBytes)
    decreases |files|
  {
    assert (files + more)[0] == files[0];
    assert (files + more)[1..] == files[1..] + more;
    var path := Under(root, files[0]);
    if Printable(path, fs) {
      var p := PrintFileSpec(buf, max, files[0], path, fs[path], maxFileBytes);
      if p.status == Written {
        StopsAtFirstLimit(p.buf, max, root, files[1..], more, fs, maxFileBytes);
      }
    } else {
      StopsAtFirstLimit(buf, max, root, files[1..], more, fs, maxFileBytes);
    }
  }

  /** Files that all complete leave a buffer the following files continue from. */
  lemma {:induction false} RenderFilesCompose(buf: seq<Byte>, max: nat, root: Path, files: seq<Path>, more: seq<Path>, fs: FileSystem, maxFileBytes: nat)
    requires |buf| <= max
    requires !RenderFiles(buf, max, root, files, fs, maxFileBytes).hit
    ensures var mid := RenderFiles(buf, max, root, files, fs, maxFileBytes).buf;
            RenderFiles(buf, max, root, files + more, fs, maxFileBytes) == RenderFiles(mid, max, root, more, fs, maxFileBytes)
    decreases |files|
  {
    if files == [] {
      assert files + more == more;
    } else {
      assert (files + more)[0] == files[0];
      assert (files + more)[1..] == files[1..] + more;
      var path := Under(root, files[0]);
      if Printable(path, fs) {
        var p := PrintFileSpec(buf, max, files[0], path, fs[path], maxFileBytes);
        RenderFilesCompose(p.buf, max, root, files[1..], more, fs, maxFileBytes);
      } else {
        RenderFilesCompose(buf, max, root, files[1..], more, fs, maxFileBytes);
      }
    }
  }

  /** The collected files that are actually printed, in order. */
  function PrintableFiles(root: Path, files: seq<Path>, fs: FileSystem): (r: seq<Path>)
    ensures forall rel :: rel in r <==> rel in files && Printable(Under(root, rel), fs)
    decreases |files|
  {
    if files == [] then []
    else if Printable(Under(root, files[0]), fs) then [files[0]] + PrintableFiles(root, files[1..], fs)
    else PrintableFiles(root, files[1..], fs)
  }

  /** Unreadable and binary files contribute nothing: the loop over the printable files alone is the same. */
  lemma {:induction false} SkippedFilesContributeNothing(buf: seq<Byte>, max: nat, root: Path, files: seq<Path>, fs: FileSystem, maxFileBytes: nat)
    requires |buf| <= max
    ensures RenderFiles(buf, max, root, files, fs, maxFileBytes) == RenderFiles(buf, max, root, PrintableFiles(root, files, fs), fs, maxFileBytes)
    decreases |files|
  {
    if files != [] {
      var path := Under(root, files[0]);
      if Printable(path, fs) {
        var p := PrintFileSpec(buf, max, files[0], path, fs[path], maxFileBytes);
        var q := PrintableFiles(root, files, fs);
        assert q[0] == files[0] && q[1..] == PrintableFiles(root, files[1..], fs);
        if p.status == Written {
          SkippedFilesContributeNothing(p.buf, max, root, files[1..], fs, maxFileBytes);
        }
      } else {
        SkippedFilesContributeNothing(buf, max, root, files[1..], fs, maxFileBytes);
      }
    }
  }

  /**
   * The footer is appended exactly when a file hit the total limit, right
   * after the bytes the loop left; otherwise the loop's bytes are the dump.
   */
  lemma FooterExactlyOnLimit(root: Path, tree: Collect.Node, fs: FileSystem, maxFileBytes: nat, maxTotalBytes: nat, includeHidden: bool)
    requires |Header(RootLine(root))| <= Budget(maxTotalBytes)
    ensures var budget := Budget(maxTotalBytes);
            var rd := RenderFiles(Header(RootLine(root)), budget, root, Collect.Collected(tree, includeHidden), fs, maxFileBytes);
            var r := BuildDump(root, tree, fs, maxFileBytes, maxTotalBytes, includeHidden);
            && r.Ok?
            && (rd.hit ==> r.value == rd.buf + TRUNCATION_FOOTER && |rd.buf| <= budget)
            && (!rd.hit ==> r.value == rd.buf && |r.value| <= budget)
  {
  }

  /** With no file to print, the dump is the header alone and carries no footer. */
  lemma NothingToPrint(root: Path, tree: Collect.Node, fs: FileSystem, maxFileBytes: nat, maxTotalBytes: nat, includeHidden: bool)
    requires |Header(RootLine(root))| <= Budget(maxTotalBytes)
    requires forall rel | rel in Collect.Collected(tree, includeHidden) :: !Printable(Under(root, rel), fs)
    ensures BuildDump(root, tree, fs, maxFileBytes, maxTotalBytes, includeHidden) == Ok(Header(RootLine(root)))
  {
    var files := Collect.Collected(tree, includeHidden);
    var budget := Budget(maxTotalBytes);
    SkippedFilesContributeNothing(Header(RootLine(root)), budget, root, files, fs, maxFileBytes);
    assert PrintableFiles(root, files, fs) == [];
  }
}
