/**
 * The string builders and constants of `src/format.rs`. Its extension table
 * is written out again as a `match`; the lemmas here show that it and its
 * strings agree with what the dump engine writes.
 */
module Format {
  import opened Wrappers
  import opened Bytes
  import opened Utf8
  import opened Paths
  import Render
  import Dump

  const DUMP_TITLE: seq<Byte> := Str("# dumpo pack")
  const CODEBLOCK_CLOSE: seq<Byte> := Str("```\n\n")
  const TRUNCATION_FOOTER: seq<Byte> := Str("\n... (truncated: max_total_bytes reached)\n")
  const FILE_TRUNCATED_MARKER: seq<Byte> := Str("(file truncated)\n\n")
  const FENCE_PREFIX: seq<Byte> := Str("```")
  const HEADING_PREFIX: seq<Byte> := Str("## ")
  const ROOT_PREFIX: seq<Byte> := Str("- root: ")

  const EXT_RS: seq<Byte> := Str("rs")
  const EXT_TOML: seq<Byte> := Str("toml")
  const EXT_MD: seq<Byte> := Str("md")
  const EXT_YML: seq<Byte> := Str("yml")
  const EXT_YAML: seq<Byte> := Str("yaml")
  const EXT_JSON: seq<Byte> := Str("json")
  const EXT_PY: seq<Byte> := Str("py")
  const EXT_SH: seq<Byte> := Str("sh")

  const HINT_RUST: seq<Byte> := Str("rust")
  const HINT_TOML: seq<Byte> := Str("toml")
  const HINT_MARKDOWN: seq<Byte> := Str("markdown")
  const HINT_YAML: seq<Byte> := Str("yaml")
  const HINT_JSON: seq<Byte> := Str("json")
  const HINT_PYTHON: seq<Byte> := Str("python")
  const HINT_BASH: seq<Byte> := Str("bash")

  /** `language_hint` of `src/format.rs`: a case-sensitive match on the extension text. */
  function LanguageHint(path: Path): (r: seq<Byte>)
    ensures r == Render.LanguageHint(path)
  {
    HintFor(Render.ExtText(path))
  }

  /** The `match` arms of `language_hint`; it agrees with the table of `src/dump.rs` on every extension text. */
  function HintFor(e: seq<Byte>): (r: seq<Byte>)
    ensures r == Render.Lookup(Render.HINTS, e)
  {
    HintsAgree(e);
    if e == EXT_RS then HINT_RUST
    else if e == EXT_TOML then HINT_TOML
    else if e == EXT_MD then HINT_MARKDOWN
    else if e == EXT_YML || e == EXT_YAML then HINT_YAML
    else if e == EXT_JSON then HINT_JSON
    else if e == EXT_PY then HINT_PYTHON
    else if e == EXT_SH then HINT_BASH
    else []
  }

  lemma HintsAgree(e: seq<Byte>)
    ensures Render.Lookup(Render.HINTS, e)
         == if e == EXT_RS then HINT_RUST
            else if e == EXT_TOML then HINT_TOML
            else if e == EXT_MD then HINT_MARKDOWN
            else if e == EXT_YML || e == EXT_YAML then HINT_YAML
            else if e == EXT_JSON then HINT_JSON
            else if e == EXT_PY then HINT_PYTHON
            else if e == EXT_SH then HINT_BASH
            else []
  {
    var t := Render.HINTS;
    assert t[0] == (EXT_RS, HINT_RUST) && t[1] == (EXT_TOML, HINT_TOML);
    assert t[2] == (EXT_MD, HINT_MARKDOWN) && t[3] == (EXT_YML, HINT_YAML);
    assert t[4] == (EXT_YAML, HINT_YAML) && t[5] == (EXT_JSON, HINT_JSON);
    assert t[6] == (EXT_PY, HINT_PYTHON) && t[7] == (EXT_SH, HINT_BASH);
    LookupEight(t, e);
  }

  /** A lookup in an eight-row table is the chain of its rows, first match first. */
  lemma LookupEight(t: seq<(seq<Byte>, seq<Byte>)>, e: seq<Byte>)
    requires |t| == 8
    ensures Render.Lookup(t, e)
         == if t[0].0 == e then t[0].1 else if t[1].0 == e then t[1].1
            else if t[2].0 == e then t[2].1 else if t[3].0 == e then t[3].1
            else if t[4].0 == e then t[4].1 else if t[5].0 == e then t[5].1
            else if t[6].0 == e then t[6].1 else if t[7].0 == e then t[7].1
            else []
  {
    assert Render.Lookup(t[8..], e) == [] by { assert t[8..] == []; }
    LookupStep(t, 7, e);
    LookupStep(t, 6, e);
    LookupStep(t, 5, e);
    LookupStep(t, 4, e);
    LookupStep(t, 3, e);
    LookupStep(t, 2, e);
    LookupStep(t, 1, e);
    LookupStep(t, 0, e);
    assert t[0..] == t;
  }

  /** The lookup from row `k` on: row `k` if its key matches, else the rows after it. */
  lemma LookupStep(t: seq<(seq<Byte>, seq<Byte>)>, k: nat, e: seq<Byte>)
    requires k < |t|
    ensures Render.Lookup(t[k..], e) == if t[k].0 == e then t[k].1 else Render.Lookup(t[k + 1..], e)
  {
    assert t[k..][0] == t[k] && t[k..][1..] == t[k + 1..];
  }

  /** `code_fence_open`: the fence tagged with the language hint, the same line the dump opens a block with. */
  function CodeFenceOpen(path: Path): (r: seq<Byte>)
    ensures r == Render.FenceOpen(path)
    ensures r[..3] == FENCE_PREFIX && r[3..] == LanguageHint(path)
  {
    assert FENCE_PREFIX == Render.FENCE;
    FENCE_PREFIX + LanguageHint(path)
  }

  /** `file_heading`: `## ` and the path as displayed, the same line the dump heads a block with. */
  function FileHeading(rel: Path): (r: seq<Byte>)
    ensures r == Render.Heading(rel)
    ensures r[..3] == HEADING_PREFIX && r[3..] == Lossy(rel)
  {
    assert HEADING_PREFIX == Render.HEADING_PREFIX;
    HEADING_PREFIX + Lossy(rel)
  }

  /** `root_line`: `- root: ` and the root as displayed, the same line the dump's header carries. */
  function RootLine(root: Path): (r: seq<Byte>)
    ensures r == Dump.RootLine(root)
    ensures r[..8] == ROOT_PREFIX && r[8..] == Lossy(root)
  {
    assert ROOT_PREFIX == Dump.ROOT_PREFIX;
    ROOT_PREFIX + Lossy(root)
  }

  /** The constants agree byte for byte with the ones the dump engine writes. */
  lemma ConstantsAgree()
    ensures TRUNCATION_FOOTER == Dump.TRUNCATION_FOOTER && |TRUNCATION_FOOTER| == 42
    ensures DUMP_TITLE == Dump.TITLE
    ensures FILE_TRUNCATED_MARKER == Render.TRUNCATED + [NEWLINE, NEWLINE]
    ensures CODEBLOCK_CLOSE == Render.FENCE + [NEWLINE, NEWLINE]
    ensures |[NEWLINE] + CODEBLOCK_CLOSE| == Render.CLOSING_RESERVE
  {
  }

  /** The closing lines of a block end with `CODEBLOCK_CLOSE`, after at most one newline. */
  lemma BlockCloseIsCodeblockClose(text: seq<Byte>)
    ensures Render.BlockClose(text) == CODEBLOCK_CLOSE
         || Render.BlockClose(text) == [NEWLINE] + CODEBLOCK_CLOSE
  {
    ConstantsAgree();
  }

  /** Headings of well-formed paths tell the paths apart. */
  lemma FileHeadingInjective(a: Path, b: Path)
    requires IsUtf8(a) && IsUtf8(b)
    requires FileHeading(a) == FileHeading(b)
    ensures a == b
  {
    LossyOfValid(a);
    LossyOfValid(b);
    assert Lossy(a) == FileHeading(a)[3..];
  }

  /** Two ill-formed paths can share a heading: each one-byte name displays as U+FFFD. */
  lemma FileHeadingLossyCollision()
    ensures FileHeading([0xC3]) == FileHeading([0xFF])
  {
    var a: seq<Byte> := [0xC3];
    var b: seq<Byte> := [0xFF];
    assert a[1..] == [] && b[1..] == [];
  }

  /** Both YAML spellings share one hint. */
  lemma YamlSpellings()
    ensures HintFor(EXT_YML) == HintFor(EXT_YAML) == HINT_YAML
  {
  }

  /** The match is case-sensitive: `RS` and a missing extension get no hint. */
  lemma UnknownExtensions()
    ensures HintFor([0x52, 0x53]) == []
    ensures HintFor([]) == []
  {
    var rs: seq<Byte> := [0x52, 0x53];
    assert rs != EXT_RS && rs != EXT_MD && rs != EXT_PY && rs != EXT_SH by {
      assert EXT_RS[0] == 0x72 && EXT_MD[0] == 0x6D && EXT_PY[0] == 0x70 && EXT_SH[0] == 0x73;
    }
  }

  /** The path `a.rs`, as bytes. */
  const A_RS: seq<Byte> := [0x61, 0x2E, 0x72, 0x73]

  lemma RustFileExtension()
    ensures FileName(A_RS) == A_RS && Extension(A_RS) == Some(EXT_RS)
  {
    assert LastIndexOf(A_RS, SLASH) == None;
    assert LastIndexOf(A_RS, DOT) == Some(1);
    assert A_RS[2..] == EXT_RS;
  }

  /** Any path whose file name has the extension `rs` opens a `rust` block. */
  lemma RustFileHint(p: Path)
    requires Extension(FileName(p)) == Some(EXT_RS)
    ensures LanguageHint(p) == HINT_RUST
  {
    AsciiIsUtf8(EXT_RS);
    assert Render.ExtText(p) == EXT_RS;
  }

  /** `a.rs` is such a path. */
  lemma RustFileExample()
    ensures LanguageHint(A_RS) == HINT_RUST
  {
    RustFileExtension();
    RustFileHint(A_RS);
  }
}
