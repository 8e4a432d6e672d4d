/**
 * The fixed exclusion tables and the name predicates that decide which
 * walked entries are pruned (with their whole subtree) and which files are
 * skipped. They look only at an entry's own name and kind.
 */
module Filter {
  import opened Wrappers
  import opened Bytes
  import opened Utf8
  import opened Paths

  const PRUNED_DIRS: seq<seq<Byte>> := [Str(".git"), Str("target"), Str("node_modules")]
  const EXCLUDED_FILENAMES: seq<seq<Byte>> :=
    [Str("LICENSE"), Str("Makefile"), Str("Cargo.lock"), Str(".dumpo.debug.md")]
  const SECRET_FILENAMES: seq<seq<Byte>> := [Str(".env")]
  const SECRET_PREFIXES: seq<seq<Byte>> := [Str(".env.")]
  const SECRET_EXTS: seq<seq<Byte>> := [Str("pem"), Str("key"), Str("p12"), Str("pfx")]
  const EXCLUDED_EXTS: seq<seq<Byte>> := [
    Str("png"), Str("jpg"), Str("jpeg"), Str("gif"), Str("webp"), Str("pdf"), Str("zip"),
    Str("gz"), Str("bz2"), Str("xz"), Str("7z"), Str("woff"), Str("woff2"), Str("ttf"),
    Str("otf"), Str("mp4"), Str("mov"), Str("mp3"), Str("wav"), Str("bin"), Str("exe"),
    Str("dll"), Str("so"), Str("dylib")
  ]

  /** Starts with `.` and is not `.` itself. */
  predicate IsHidden(name: seq<Byte>) {
    |name| > 0 && name[0] == DOT && name != Str(".")
  }

  predicate IsSecretName(name: seq<Byte>) {
    name in SECRET_FILENAMES || exists i | 0 <= i < |SECRET_PREFIXES| :: SECRET_PREFIXES[i] <= name
  }

  /** The name has an extension, valid as text, equal to a table entry up to ASCII case. */
  predicate HasExtensionIn(name: seq<Byte>, exts: seq<seq<Byte>>) {
    match Extension(name)
    case None => false
    case Some(e) => IsUtf8(e) && exists i | 0 <= i < |exts| :: EqIgnoreAsciiCase(e, exts[i])
  }

  /**
   * `should_prune_walk_entry`: the entry's name is read lossily; a directory
   * in the pruned table goes, and so does every hidden entry unless hidden
   * entries are included.
   */
  predicate ShouldPruneWalkEntry(name: seq<Byte>, isDir: bool, includeHidden: bool) {
    var shown := Lossy(name);
    (isDir && shown in PRUNED_DIRS) || (!includeHidden && IsHidden(shown))
  }

  /** `should_skip_file`, given the file name of the entry's path. */
  predicate ShouldSkipFile(name: seq<Byte>, includeHidden: bool) {
    if !IsUtf8(name) then true
    else if IsSecretName(name) then true
    else if name in EXCLUDED_FILENAMES then true
    else if !includeHidden && IsHidden(name) then true
    else if HasExtensionIn(name, EXCLUDED_EXTS) then true
    else HasExtensionIn(name, SECRET_EXTS)
  }

  lemma AllAsciiTable(t: seq<seq<Byte>>, x: seq<Byte>)
    requires t == PRUNED_DIRS || t == SECRET_EXTS || t == EXCLUDED_EXTS
    requires x in t
    ensures IsAscii(x)
  {
  }

  /** Reading the name lossily changes nothing: pruning is decided by the raw bytes. */
  lemma PruneOnRawName(name: seq<Byte>, isDir: bool, includeHidden: bool)
    ensures ShouldPruneWalkEntry(name, isDir, includeHidden)
        <==> (isDir && name in PRUNED_DIRS) || (!includeHidden && IsHidden(name))
  {
    var shown := Lossy(name);
    if shown in PRUNED_DIRS {
      AllAsciiTable(PRUNED_DIRS, shown);
      LossyAsciiOnlyFromAscii(name);
    }
    if name in PRUNED_DIRS {
      AllAsciiTable(PRUNED_DIRS, name);
      AsciiLossy(name);
    }
    LossyKeepsLeadingDot(name);
    if shown == Str(".") {
      LossyAsciiOnlyFromAscii(name);
    }
    if name == Str(".") {
      AsciiLossy(name);
    }
  }

  /** `.git`, `target` and `node_modules` directories are pruned whatever the flag; files of those names are not pruned for their name. */
  lemma PrunedDirectoryNames(name: seq<Byte>, includeHidden: bool)
    requires name in PRUNED_DIRS
    ensures ShouldPruneWalkEntry(name, true, includeHidden)
    ensures ShouldPruneWalkEntry(name, false, includeHidden) <==> !includeHidden && IsHidden(name)
  {
    PruneOnRawName(name, true, includeHidden);
    PruneOnRawName(name, false, includeHidden);
  }

  /** Any hidden entry, file or directory, is pruned exactly when hidden entries are not included (outside the pruned-directory table). */
  lemma HiddenPruning(name: seq<Byte>, isDir: bool, includeHidden: bool)
    requires IsHidden(name)
    requires !(isDir && name in PRUNED_DIRS)
    ensures ShouldPruneWalkEntry(name, isDir, includeHidden) <==> !includeHidden
  {
    PruneOnRawName(name, isDir, includeHidden);
  }

  /** An extension that matches an ASCII table entry up to case is itself ASCII. */
  lemma {:induction false} CaseMatchIsAscii(e: seq<Byte>, x: seq<Byte>)
    requires IsAscii(x) && EqIgnoreAsciiCase(e, x)
    ensures IsAscii(e)
  {
    forall i | 0 <= i < |e| ensures e[i] < 0x80 {
      assert ToAsciiLower(e[i]) == ToAsciiLower(x[i]);
    }
  }

  /** A file whose name is not valid UTF-8 is always skipped. */
  lemma InvalidNameSkipped(name: seq<Byte>, includeHidden: bool)
    requires !IsUtf8(name)
    ensures ShouldSkipFile(name, includeHidden)
  {
  }

  /** `.env` and every `.env.*` name is skipped, whatever the flag. */
  lemma SecretNamesSkipped(name: seq<Byte>, includeHidden: bool)
    requires name == Str(".env") || Str(".env.") <= name
    ensures ShouldSkipFile(name, includeHidden)
  {
    if name == Str(".env") {
      assert SECRET_FILENAMES[0] == name;
    } else {
      assert SECRET_PREFIXES[0] <= name;
    }
  }

  /** The license, build file, lock file and debug dump are skipped, whatever the flag. */
  lemma ExcludedNamesSkipped(name: seq<Byte>, includeHidden: bool)
    requires name in EXCLUDED_FILENAMES
    ensures ShouldSkipFile(name, includeHidden)
  {
  }

  /** An extension in the secret or the excluded table, in any ASCII case, is skipped whatever the flag. */
  lemma ExtensionTablesSkipped(name: seq<Byte>, includeHidden: bool, e: seq<Byte>, x: seq<Byte>)
    requires Extension(name) == Some(e)
    requires x in SECRET_EXTS || x in EXCLUDED_EXTS
    requires EqIgnoreAsciiCase(e, x)
    ensures ShouldSkipFile(name, includeHidden)
  {
    if x in SECRET_EXTS {
      AllAsciiTable(SECRET_EXTS, x);
    } else {
      AllAsciiTable(EXCLUDED_EXTS, x);
    }
    CaseMatchIsAscii(e, x);
    AsciiIsUtf8(e);
    var t := if x in SECRET_EXTS then SECRET_EXTS else EXCLUDED_EXTS;
    var k :| 0 <= k < |t| && t[k] == x;
    assert HasExtensionIn(name, t);
  }

  /** For a name no table rejects, the hidden rule alone decides. */
  lemma HiddenRuleDecides(name: seq<Byte>, includeHidden: bool)
    requires IsUtf8(name) && !IsSecretName(name) && name !in EXCLUDED_FILENAMES
    requires !HasExtensionIn(name, EXCLUDED_EXTS) && !HasExtensionIn(name, SECRET_EXTS)
    ensures ShouldSkipFile(name, includeHidden) <==> !includeHidden && IsHidden(name)
  {
  }

  /** Including hidden files never skips more: skipped with the flag set implies skipped without. */
  lemma SkipMonotone(name: seq<Byte>)
    ensures ShouldSkipFile(name, true) ==> ShouldSkipFile(name, false)
  {
  }

  /** `.pem` has no extension: only the hidden rule can reject it. */
  lemma LeadingDotPem()
    ensures Extension(Str(".pem")) == None
    ensures !ShouldSkipFile(Str(".pem"), true)
    ensures ShouldSkipFile(Str(".pem"), false)
  {
    var n := Str(".pem");
    LeadingDotOnlyHasNoExtension(n);
    assert IsAscii(n);
    AsciiIsUtf8(n);
    assert !IsSecretName(n) by {
      assert !(Str(".env.") <= n) by { assert n[1] != Str(".env.")[1]; }
    }
  }
}
