/**
 * `print_file`: one file as a fenced block written into the sink. The
 * content cap keeps back the six bytes of the closing fence; a file longer
 * than the cap gets a best-effort `(file truncated)` marker.
 */
module Render {
  import opened Wrappers
  import opened Bytes
  import opened Utf8
  import opened Paths
  import opened Sink

  const FENCE: seq<Byte> := Str("```")
  /** `"\n```\n\n".len()`: an optional newline, the fence and its newline, a blank line. */
  const CLOSING_RESERVE: nat := 6
  const TRUNCATED: seq<Byte> := Str("(file truncated)")
  const HEADING_PREFIX: seq<Byte> := Str("## ")

  function Min(a: nat, b: nat): nat {
    if a <= b then a else b
  }

  /** The extension as text, or empty (`extension().and_then(to_str).unwrap_or("")`). */
  function ExtText(path: Path): seq<Byte> {
    match Extension(FileName(path))
    case Some(e) => if IsUtf8(e) then e else []
    case None => []
  }

  /** The extension-to-language table of `language_hint` in `src/dump.rs`, in match order. */
  const HINTS: seq<(seq<Byte>, seq<Byte>)> := [
    (Str("rs"), Str("rust")), (Str("toml"), Str("toml")), (Str("md"), Str("markdown")),
    (Str("yml"), Str("yaml")), (Str("yaml"), Str("yaml")), (Str("json"), Str("json")),
    (Str("py"), Str("python")), (Str("sh"), Str("bash"))
  ]

  /** The value of the first row whose key is `key`, or empty. */
  function Lookup(table: seq<(seq<Byte>, seq<Byte>)>, key: seq<Byte>): (r: seq<Byte>)
    ensures r != [] ==> exists i | 0 <= i < |table| :: table[i] == (key, r)
    ensures (forall i | 0 <= i < |table| :: table[i].0 != key) ==> r == []
    decreases |table|
  {
    if table == [] then []
    else if table[0].0 == key then table[0].1
    else Lookup(table[1..], key)
  }

  /** `language_hint` of `src/dump.rs`: a case-sensitive match on the extension, empty when unknown. */
  function LanguageHint(path: Path): seq<Byte> {
    Lookup(HINTS, ExtText(path))
  }

  /** Below the root, the hint taken from the full path is the one of the relative path. */
  lemma HintOfFullPath(root: Path, rel: Path)
    requires rel != []
    ensures LanguageHint(Under(root, rel)) == LanguageHint(rel)
  {
    UnderKeepsFileName(root, rel);
  }

  predicate EndsWithNewline(text: seq<Byte>) {
    |text| > 0 && text[|text| - 1] == NEWLINE
  }

  /** `## <rel>`: the relative path as `Path::display` shows it. */
  function Heading(rel: Path): seq<Byte> {
    HEADING_PREFIX + Lossy(rel)
  }

  /** The opening fence, tagged with the language hint. */
  function FenceOpen(path: Path): seq<Byte> {
    FENCE + LanguageHint(path)
  }

  /** The heading line, the blank line and the opening fence line, as bytes. */
  function BlockHead(heading: seq<Byte>, open: seq<Byte>): seq<Byte> {
    heading + [NEWLINE] + [NEWLINE] + open + [NEWLINE]
  }

  /** What follows the content: a newline if it lacks one, the closing fence, a blank line. */
  function BlockClose(text: seq<Byte>): (r: seq<Byte>)
    ensures |r| <= CLOSING_RESERVE
  {
    (if EndsWithNewline(text) then [] else [NEWLINE]) + FENCE + [NEWLINE] + [NEWLINE]
  }

  /** The three heading writes. */
  function WriteHead(buf: seq<Byte>, max: nat, heading: seq<Byte>, open: seq<Byte>): (r: Step)
    requires |buf| <= max
    ensures |r.buf| <= max && buf <= r.buf
    ensures r.status == Written <==> |buf| + |BlockHead(heading, open)| <= max
    ensures r.status == Written ==> r.buf == buf + BlockHead(heading, open)
  {
    var h1 := AppendLine(buf, max, heading);
    if h1.status == TotalLimitReached then h1
    else
      var h2 := AppendLine(h1.buf, max, []);
      if h2.status == TotalLimitReached then h2
      else
        var h3 := AppendLine(h2.buf, max, open);
        assert h3.status == Written ==> h3.buf == buf + BlockHead(heading, open);
        h3
  }

  /** The closing writes after the content. */
  function WriteClose(buf: seq<Byte>, max: nat, text: seq<Byte>): (r: Step)
    requires |buf| <= max
    ensures |r.buf| <= max && buf <= r.buf
    ensures r.status == Written <==> |buf| + |BlockClose(text)| <= max
    ensures r.status == Written ==> r.buf == buf + BlockClose(text)
  {
    var n := if EndsWithNewline(text) then Step(Written, buf) else AppendLine(buf, max, []);
    if n.status == TotalLimitReached then n
    else
      var f1 := AppendLine(n.buf, max, FENCE);
      if f1.status == TotalLimitReached then f1
      else
        var f2 := AppendLine(f1.buf, max, []);
        assert f2.status == Written ==> f2.buf == buf + BlockClose(text);
        f2
  }

  /** A refused closing write leaves a prefix of the closing lines. */
  lemma WriteClosePrefix(buf: seq<Byte>, max: nat, text: seq<Byte>)
    requires |buf| <= max
    ensures WriteClose(buf, max, text).buf <= buf + BlockClose(text)
  {
    var nl: seq<Byte> := if EndsWithNewline(text) then [] else [NEWLINE];
    var close := BlockClose(text);
    assert close == nl + FENCE + [NEWLINE] + [NEWLINE];
    var n := if EndsWithNewline(text) then Step(Written, buf) else AppendLine(buf, max, []);
    if n.status == Written {
      assert n.buf == buf + nl;
      var f1 := AppendLine(n.buf, max, FENCE);
      assert f1.buf <= buf + nl + FENCE + [NEWLINE];
      assert buf + nl + FENCE + [NEWLINE] <= buf + close;
    }
  }

  /** The tails the two ignored marker writes can leave. */
  predicate MarkerTail(m: seq<Byte>) {
    LineTail(m, TRUNCATED)
  }

  /** What a line `s` and a blank line can leave when either write may be refused. */
  predicate LineTail(m: seq<Byte>, s: seq<Byte>) {
    m == s + [NEWLINE, NEWLINE] || m == s + [NEWLINE] || m == s || m == [NEWLINE] || m == []
  }

  /** The marker writes, whose refusals are ignored. */
  function WriteMarker(buf: seq<Byte>, max: nat): (r: Step)
    requires |buf| <= max
    ensures |r.buf| <= max && r.status == Written
    ensures |r.buf| >= |buf| && r.buf[..|buf|] == buf && MarkerTail(r.buf[|buf|..])
    ensures |buf| + |TRUNCATED| + 2 <= max ==> r.buf == buf + TRUNCATED + [NEWLINE, NEWLINE]
  {
    var m1 := AppendLine(buf, max, TRUNCATED);
    var m2 := AppendLine(m1.buf, max, []);
    LineThenBlank(buf, max, TRUNCATED);
    Step(Written, m2.buf)
  }

  /** With one byte of room the marker line is refused, but the blank line after it is still written. */
  lemma MarkerLoneNewline(buf: seq<Byte>)
    ensures WriteMarker(buf, |buf| + 1).buf == buf + [NEWLINE]
  {
    assert AppendLine(buf, |buf| + 1, TRUNCATED).buf == buf;
  }

  lemma LineThenBlank(buf: seq<Byte>, max: nat, s: seq<Byte>)
    requires |buf| <= max
    ensures var m2 := AppendLine(AppendLine(buf, max, s).buf, max, []).buf;
            && |m2| <= max && |m2| >= |buf| && m2[..|buf|] == buf && LineTail(m2[|buf|..], s)
            && (|buf| + |s| + 2 <= max ==> m2 == buf + s + [NEWLINE, NEWLINE])
  {
    var m1 := AppendLine(buf, max, s).buf;
    var m2 := AppendLine(m1, max, []).buf;
    var t1 := m1[|buf|..];
    assert m1 == buf + t1;
    assert t1 == [] || t1 == s || t1 == s + [NEWLINE];
    var t2 := m2[|buf|..];
    assert m2 == buf + t2 && m2[..|buf|] == buf;
    assert t2 == t1 || t2 == t1 + [NEWLINE];
    assert s + [NEWLINE] + [NEWLINE] == s + [NEWLINE, NEWLINE];
  }

  /** The content cap: the per-file limit, or what remains after keeping back the closing bytes. */
  function Cap(room: nat, maxFileBytes: nat): nat
    requires room > CLOSING_RESERVE
  {
    Min(maxFileBytes, room - CLOSING_RESERVE)
  }

  /** The text written for the content: the lossy decoding of at most `cap` leading bytes. */
  function Content(bytes: seq<Byte>, cap: nat): seq<Byte> {
    Lossy(bytes[..Min(|bytes|, cap)])
  }

  /**
   * `print_file` on a buffer `buf` of capacity `max`: the heading shows the
   * relative path, the language hint comes from the full path.
   */
  function PrintFileSpec(buf: seq<Byte>, max: nat, rel: Path, path: Path, bytes: seq<Byte>, maxFileBytes: nat): (r: Step)
    requires |buf| <= max
    ensures |r.buf| <= max && buf <= r.buf
  {
    PrintBlock(buf, max, Heading(rel), FenceOpen(path), bytes, maxFileBytes)
  }

  /** `print_file` once the heading and the opening fence of the file are known. */
  function PrintBlock(buf: seq<Byte>, max: nat, heading: seq<Byte>, open: seq<Byte>, bytes: seq<Byte>, maxFileBytes: nat): (r: Step)
    requires |buf| <= max
    ensures |r.buf| <= max && buf <= r.buf
  {
    var h := WriteHead(buf, max, heading, open);
    if h.status == TotalLimitReached then h
    else if max - |h.buf| <= CLOSING_RESERVE then Step(TotalLimitReached, h.buf)
    else WriteBody(h.buf, max, bytes, Cap(max - |h.buf|, maxFileBytes))
  }

  /** The part of `print_file` after the cap is known: content, closing lines, marker. */
  function WriteBody(buf: seq<Byte>, max: nat, bytes: seq<Byte>, cap: nat): (r: Step)
    requires |buf| <= max
    ensures |r.buf| <= max && buf <= r.buf
  {
    var text := Content(bytes, cap);
    var t := Append(buf, max, text);
    if t.status == TotalLimitReached then t
    else
      var c := WriteClose(t.buf, max, text);
      if c.status == TotalLimitReached then c
      else if |bytes| > cap then WriteMarker(c.buf, max)
      else c
  }

  method PrintFile(out: Out, rel: Path, path: Path, bytes: seq<Byte>, maxFileBytes: nat) returns (st: Status)
    requires out.Valid()
    modifies out
    ensures out.Valid()
    ensures Step(st, out.buf) == PrintFileSpec(old(out.buf), out.max, rel, path, bytes, maxFileBytes)
  {
    st := PrintBlockInto(out, Heading(rel), FenceOpen(path), bytes, maxFileBytes);
  }

  /** The writes of `print_file`, once the heading and the opening fence are known. */
  method PrintBlockInto(out: Out, heading: seq<Byte>, open: seq<Byte>, bytes: seq<Byte>, maxFileBytes: nat)
    returns (st: Status)
    requires out.Valid()
    modifies out
    ensures out.Valid()
    ensures Step(st, out.buf) == PrintBlock(old(out.buf), out.max, heading, open, bytes, maxFileBytes)
  {
    st := out.TryWriteLine(heading);
    if st == TotalLimitReached { return; }
    st := out.TryWriteLine([]);
    if st == TotalLimitReached { return; }
    st := out.TryWriteLine(open);
    if st == TotalLimitReached { return; }

    var room := out.Remaining();
    var remainingForContent := if room >= CLOSING_RESERVE then room - CLOSING_RESERVE else 0;
    if remainingForContent == 0 {
      return TotalLimitReached;
    }
    var cap := Min(maxFileBytes, remainingForContent);
    st := WriteBodyInto(out, bytes, cap);
  }

  /** The content, closing and marker writes of `print_file`. */
  method WriteBodyInto(out: Out, bytes: seq<Byte>, cap: nat) returns (st: Status)
    requires out.Valid()
    modifies out
    ensures out.Valid()
    ensures Step(st, out.buf) == WriteBody(old(out.buf), out.max, bytes, cap)
  {
    var text := Lossy(bytes[..Min(|bytes|, cap)]);
    st := out.TryWrite(text);
    if st == TotalLimitReached { return; }

    if !EndsWithNewline(text) {
      st := out.TryWriteLine([]);
      if st == TotalLimitReached { return; }
    }
    st := out.TryWriteLine(FENCE);
    if st == TotalLimitReached { return; }
    st := out.TryWriteLine([]);
    if st == TotalLimitReached { return; }

    if |bytes| > cap {
      var _ := out.TryWriteLine(TRUNCATED);
      var _ := out.TryWriteLine([]);
    }
    st := Written;
  }

  /** A complete block: heading lines, content, closing lines. */
  function Block(heading: seq<Byte>, open: seq<Byte>, text: seq<Byte>): seq<Byte> {
    BlockHead(heading, open) + text + BlockClose(text)
  }

  lemma BlockAfter(buf: seq<Byte>, heading: seq<Byte>, open: seq<Byte>, text: seq<Byte>)
    ensures buf + BlockHead(heading, open) + text + BlockClose(text) == buf + Block(heading, open, text)
  {
  }

  /** Room left once the heading lines are written. */
  function RoomAfterHead(buf: seq<Byte>, max: nat, heading: seq<Byte>, open: seq<Byte>): int {
    max - |buf| - |BlockHead(heading, open)|
  }

  /** With six bytes or fewer left after the opening fence, the file signals the total limit; its heading lines stay. */
  lemma PrintBlockNoRoom(buf: seq<Byte>, max: nat, heading: seq<Byte>, open: seq<Byte>, bytes: seq<Byte>, maxFileBytes: nat)
    requires |buf| <= max
    requires 0 <= RoomAfterHead(buf, max, heading, open) <= CLOSING_RESERVE
    ensures PrintBlock(buf, max, heading, open, bytes, maxFileBytes)
         == Step(TotalLimitReached, buf + BlockHead(heading, open))
  {
  }

  /** When even the heading lines do not fit, the file signals the total limit and adds no more than those lines. */
  lemma PrintBlockNoHead(buf: seq<Byte>, max: nat, heading: seq<Byte>, open: seq<Byte>, bytes: seq<Byte>, maxFileBytes: nat)
    requires |buf| <= max
    requires RoomAfterHead(buf, max, heading, open) < 0
    ensures var r := PrintBlock(buf, max, heading, open, bytes, maxFileBytes);
            r.status == TotalLimitReached && r.buf <= buf + BlockHead(heading, open)
  {
    var h1 := AppendLine(buf, max, heading);
    var h2 := AppendLine(h1.buf, max, []);
    var h3 := AppendLine(h2.buf, max, open);
    assert BlockHead(heading, open) == heading + [NEWLINE] + [NEWLINE] + open + [NEWLINE];
  }

  /** When the content and its closing lines fit, both are written whole; the marker writes follow beyond the cap. */
  lemma WriteBodyFits(buf: seq<Byte>, max: nat, bytes: seq<Byte>, cap: nat)
    requires |buf + Content(bytes, cap) + BlockClose(Content(bytes, cap))| <= max
    ensures var text := Content(bytes, cap);
            var block := buf + text + BlockClose(text);
            WriteBody(buf, max, bytes, cap)
            == if |bytes| > cap then WriteMarker(block, max) else Step(Written, block)
  {
  }

  /**
   * Once there is room for content, a block that fits is written whole,
   * followed by the marker writes when the file is longer than the cap.
   */
  lemma PrintBlockUnfolds(buf: seq<Byte>, max: nat, heading: seq<Byte>, open: seq<Byte>, bytes: seq<Byte>, maxFileBytes: nat)
    requires |buf| <= max
    requires RoomAfterHead(buf, max, heading, open) > CLOSING_RESERVE
    requires var cap := Cap(RoomAfterHead(buf, max, heading, open), maxFileBytes);
             |buf + Block(heading, open, Content(bytes, cap))| <= max
    ensures var cap := Cap(RoomAfterHead(buf, max, heading, open), maxFileBytes);
            var block := buf + Block(heading, open, Content(bytes, cap));
            PrintBlock(buf, max, heading, open, bytes, maxFileBytes)
            == if |bytes| > cap then WriteMarker(block, max) else Step(Written, block)
  {
    var h := WriteHead(buf, max, heading, open);
    var head := BlockHead(heading, open);
    assert h.status == Written && h.buf == buf + head;
    var cap := Cap(max - |h.buf|, maxFileBytes);
    var text := Content(bytes, cap);
    BlockAfter(buf, heading, open, text);
    WriteBodyFits(h.buf, max, bytes, cap);
    assert PrintBlock(buf, max, heading, open, bytes, maxFileBytes) == WriteBody(h.buf, max, bytes, cap);
  }

  /**
   * Once there is room for content, a block that fits completes the file:
   * the block is written whole, and only a file longer than the cap is
   * followed by (what fits of) the marker.
   */
  lemma PrintBlockCompletes(buf: seq<Byte>, max: nat, heading: seq<Byte>, open: seq<Byte>, bytes: seq<Byte>, maxFileBytes: nat)
    requires |buf| <= max
    requires RoomAfterHead(buf, max, heading, open) > CLOSING_RESERVE
    requires var cap := Cap(RoomAfterHead(buf, max, heading, open), maxFileBytes);
             |buf + Block(heading, open, Content(bytes, cap))| <= max
    ensures var cap := Cap(RoomAfterHead(buf, max, heading, open), maxFileBytes);
            var block := buf + Block(heading, open, Content(bytes, cap));
            var r := PrintBlock(buf, max, heading, open, bytes, maxFileBytes);
            && r.status == Written
            && |block| <= |r.buf| && r.buf[..|block|] == block
            && (|bytes| <= cap ==> r.buf == block)
            && (|bytes| > cap ==> MarkerTail(r.buf[|block|..]))
            && (|bytes| > cap && |block| + |TRUNCATED| + 2 <= max ==> r.buf == block + TRUNCATED + [NEWLINE, NEWLINE])
  {
    PrintBlockUnfolds(buf, max, heading, open, bytes, maxFileBytes);
  }

  /**
   * Once there is room for content, a block that does not fit makes the file
   * signal the total limit; what it leaves is a prefix of the block, from the
   * heading lines on.
   */
  lemma PrintBlockOverruns(buf: seq<Byte>, max: nat, heading: seq<Byte>, open: seq<Byte>, bytes: seq<Byte>, maxFileBytes: nat)
    requires |buf| <= max
    requires RoomAfterHead(buf, max, heading, open) > CLOSING_RESERVE
    requires var cap := Cap(RoomAfterHead(buf, max, heading, open), maxFileBytes);
             |buf + Block(heading, open, Content(bytes, cap))| > max
    ensures var cap := Cap(RoomAfterHead(buf, max, heading, open), maxFileBytes);
            var r := PrintBlock(buf, max, heading, open, bytes, maxFileBytes);
            && r.status == TotalLimitReached
            && buf + BlockHead(heading, open) <= r.buf
            && r.buf <= buf + Block(heading, open, Content(bytes, cap))
  {
    var h := WriteHead(buf, max, heading, open);
    assert h.status == Written && h.buf == buf + BlockHead(heading, open);
    var cap := Cap(max - |h.buf|, maxFileBytes);
    BlockAfter(buf, heading, open, Content(bytes, cap));
    WriteBodyOverruns(h.buf, max, bytes, cap);
    assert PrintBlock(buf, max, heading, open, bytes, maxFileBytes) == WriteBody(h.buf, max, bytes, cap);
  }

  /** Content and closing lines that do not fit together make the body signal the total limit, leaving a prefix of them. */
  lemma WriteBodyOverruns(buf: seq<Byte>, max: nat, bytes: seq<Byte>, cap: nat)
    requires |buf| <= max
    requires |buf + Content(bytes, cap) + BlockClose(Content(bytes, cap))| > max
    ensures var r := WriteBody(buf, max, bytes, cap);
            r.status == TotalLimitReached && r.buf <= buf + Content(bytes, cap) + BlockClose(Content(bytes, cap))
  {
    var text := Content(bytes, cap);
    var t := Append(buf, max, text);
    if t.status == Written {
      assert |t.buf| + |BlockClose(text)| > max;
      WriteClosePrefix(t.buf, max, text);
      assert t.buf + BlockClose(text) == buf + text + BlockClose(text);
    } else {
      assert t.buf == buf;
    }
  }

  /** Decoded content no longer than the cap always fits, with the six reserved bytes for its closing lines. */
  lemma ShortContentFits(buf: seq<Byte>, max: nat, heading: seq<Byte>, open: seq<Byte>, bytes: seq<Byte>, maxFileBytes: nat)
    requires RoomAfterHead(buf, max, heading, open) > CLOSING_RESERVE
    requires |Content(bytes, Cap(RoomAfterHead(buf, max, heading, open), maxFileBytes))|
          <= Cap(RoomAfterHead(buf, max, heading, open), maxFileBytes)
    ensures |buf + Block(heading, open, Content(bytes, Cap(RoomAfterHead(buf, max, heading, open), maxFileBytes)))| <= max
  {
    var text := Content(bytes, Cap(RoomAfterHead(buf, max, heading, open), maxFileBytes));
    assert |Block(heading, open, text)| == |BlockHead(heading, open)| + |text| + |BlockClose(text)|;
  }

  /** Content that is valid UTF-8 up to the cap always lets the file complete. */
  lemma PrintFileValidTextCompletes(buf: seq<Byte>, max: nat, rel: Path, path: Path, bytes: seq<Byte>, maxFileBytes: nat)
    requires |buf| <= max
    requires RoomAfterHead(buf, max, Heading(rel), FenceOpen(path)) > CLOSING_RESERVE
    requires IsUtf8(bytes[..Min(|bytes|, Cap(RoomAfterHead(buf, max, Heading(rel), FenceOpen(path)), maxFileBytes))])
    ensures PrintFileSpec(buf, max, rel, path, bytes, maxFileBytes).status == Written
  {
    var heading, open := Heading(rel), FenceOpen(path);
    var cap := Cap(RoomAfterHead(buf, max, heading, open), maxFileBytes);
    LossyOfValid(bytes[..Min(|bytes|, cap)]);
    ShortContentFits(buf, max, heading, open, bytes, maxFileBytes);
    PrintBlockCompletes(buf, max, heading, open, bytes, maxFileBytes);
  }

  /**
   * The cap is not moved back to a character boundary: cutting `é` after its
   * first byte decodes to a three-byte U+FFFD, which eats the bytes kept for
   * the closing fence. The file signals the total limit after writing the
   * newline and the closing fence, whose own newline is refused.
   */
  lemma SplitCharOverrunsReserve()
    ensures RoomAfterHead([], 17, Heading(Str("a")), FenceOpen(Str("a"))) == 7
    ensures Content([0xC3, 0xA9], Cap(7, 100)) == REPLACEMENT
    ensures var r := PrintFileSpec([], 17, Str("a"), Str("a"), [0xC3, 0xA9], 100);
            && r.status == TotalLimitReached
            && r.buf == BlockHead(Heading(Str("a")), FenceOpen(Str("a"))) + REPLACEMENT + [NEWLINE] + FENCE
  {
    var a := Str("a");
    OneLetterHead(a);
    SplitCharBlock(Heading(a), FenceOpen(a));
  }

  /**
   * Nothing needs to be cut for the block to overrun: each of two stray
   * bytes within the cap decodes to U+FFFD, and the closing fence is refused.
   */
  lemma StrayBytesOverrunReserve()
    ensures Content([0xFF, 0xFF], Cap(8, 100)) == REPLACEMENT + REPLACEMENT
    ensures var r := PrintFileSpec([], 18, Str("a"), Str("a"), [0xFF, 0xFF], 100);
            && r.status == TotalLimitReached
            && r.buf == BlockHead(Heading(Str("a")), FenceOpen(Str("a"))) + REPLACEMENT + REPLACEMENT + [NEWLINE]
  {
    var a := Str("a");
    OneLetterHead(a);
    StrayBytesBlock(Heading(a), FenceOpen(a));
  }

  /** The heading lines of a file named `a` take ten bytes. */
  lemma OneLetterHead(a: Path)
    requires a == Str("a")
    ensures |BlockHead(Heading(a), FenceOpen(a))| == 10
  {
    assert Lossy(a) == a by { AsciiLossy(a); }
    assert |Heading(a)| == 4;
    assert FileName(a) == a by { assert LastIndexOf(a, SLASH) == None; }
    assert Extension(a) == None by { assert LastIndexOf(a, DOT) == None; }
    assert ExtText(a) == [];
    NoHintWithoutExtension();
    assert |FenceOpen(a)| == 3;
  }

  /** No row of the table has an empty key. */
  lemma NoHintWithoutExtension()
    ensures Lookup(HINTS, []) == []
  {
    assert forall i | 0 <= i < |HINTS| :: |HINTS[i].0| >= 2;
  }

  /** Ten bytes of heading lines in a 17-byte sink leave room 7 and cap 1, and `é` then overruns the reserve. */
  lemma SplitCharBlock(heading: seq<Byte>, open: seq<Byte>)
    requires |BlockHead(heading, open)| == 10
    ensures Content([0xC3, 0xA9], Cap(7, 100)) == REPLACEMENT
    ensures var r := PrintBlock([], 17, heading, open, [0xC3, 0xA9], 100);
            r.status == TotalLimitReached && r.buf == BlockHead(heading, open) + REPLACEMENT + [NEWLINE] + FENCE
  {
    var c: seq<Byte> := [0xC3, 0xA9];
    assert c[..1] == [0xC3];
    SplitCharGrows();
    var h := WriteHead([], 17, heading, open);
    assert h.buf == BlockHead(heading, open);
    var text := Content(c, 1);
    assert !EndsWithNewline(text);
    var t := Append(h.buf, 17, text);
    assert t.buf == h.buf + REPLACEMENT;
    var n := AppendLine(t.buf, 17, []);
    assert n.buf == t.buf + [NEWLINE];
    var f1 := AppendLine(n.buf, 17, FENCE);
    assert f1.status == TotalLimitReached && f1.buf == n.buf + FENCE;
    assert PrintBlock([], 17, heading, open, c, 100) == WriteClose(t.buf, 17, text);
  }

  /** Ten bytes of heading lines in an 18-byte sink leave room 8 and cap 2; two stray bytes then overrun the reserve. */
  lemma StrayBytesBlock(heading: seq<Byte>, open: seq<Byte>)
    requires |BlockHead(heading, open)| == 10
    ensures Content([0xFF, 0xFF], Cap(8, 100)) == REPLACEMENT + REPLACEMENT
    ensures var r := PrintBlock([], 18, heading, open, [0xFF, 0xFF], 100);
            r.status == TotalLimitReached && r.buf == BlockHead(heading, open) + REPLACEMENT + REPLACEMENT + [NEWLINE]
  {
    var c: seq<Byte> := [0xFF, 0xFF];
    assert c[..2] == c;
    StrayBytesGrow();
    var h := WriteHead([], 18, heading, open);
    assert h.buf == BlockHead(heading, open);
    var text := Content(c, 2);
    assert !EndsWithNewline(text);
    var t := Append(h.buf, 18, text);
    assert t.buf == h.buf + REPLACEMENT + REPLACEMENT;
    var n := AppendLine(t.buf, 18, []);
    assert n.buf == t.buf + [NEWLINE];
    var f1 := AppendLine(n.buf, 18, FENCE);
    assert f1.status == TotalLimitReached && f1.buf == n.buf;
    assert PrintBlock([], 18, heading, open, c, 100) == WriteClose(t.buf, 18, text);
  }
}
