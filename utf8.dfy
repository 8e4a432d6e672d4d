/**
 * UTF-8 well-formedness and Rust's lossy decoding (`String::from_utf8_lossy`,
 * also what `Path::display` and `OsStr::to_string_lossy` do). Each maximal
 * ill-formed subpart is replaced by U+FFFD, as Rust's `Utf8Chunks` does.
 */
module Utf8 {
  import opened Bytes

  /** Length a lead byte announces (`utf8_char_width`); 0 if it cannot start a character. */
  function Width(b: Byte): nat {
    if b < 0x80 then 1
    else if b < 0xC2 then 0
    else if b < 0xE0 then 2
    else if b < 0xF0 then 3
    else if b < 0xF5 then 4
    else 0
  }

  predicate IsCont(b: Byte) {
    0x80 <= b < 0xC0
  }

  /** The restricted second-byte ranges that exclude overlong forms, surrogates and code points above U+10FFFF. */
  predicate SecondOk(b0: Byte, b1: Byte) {
    if b0 == 0xE0 then 0xA0 <= b1 < 0xC0
    else if b0 == 0xED then 0x80 <= b1 < 0xA0
    else if b0 == 0xF0 then 0x90 <= b1 < 0xC0
    else if b0 == 0xF4 then 0x80 <= b1 < 0x90
    else IsCont(b1)
  }

  /** How many bytes at the start of `s` follow the pattern of one well-formed character. */
  function Accepted(s: seq<Byte>): (n: nat)
    requires |s| > 0
    ensures n <= Width(s[0]) && n <= |s|
    ensures Width(s[0]) > 0 ==> n >= 1
  {
    var w := Width(s[0]);
    if w == 0 then 0
    else if w == 1 || |s| < 2 || !SecondOk(s[0], s[1]) then 1
    else if w == 2 || |s| < 3 || !IsCont(s[2]) then 2
    else if w == 3 || |s| < 4 || !IsCont(s[3]) then 3
    else 4
  }

  /** `s` begins with one complete well-formed character. */
  predicate StartsChar(s: seq<Byte>) {
    |s| > 0 && Width(s[0]) > 0 && Accepted(s) == Width(s[0])
  }

  predicate IsUtf8(s: seq<Byte>)
    decreases |s|
  {
    s == [] || (StartsChar(s) && IsUtf8(s[Width(s[0])..]))
  }

  /** U+FFFD REPLACEMENT CHARACTER, encoded. */
  const REPLACEMENT: seq<Byte> := [0xEF, 0xBF, 0xBD]

  /** Bytes skipped for one ill-formed subpart: the accepted bytes, at least one. */
  function BadLen(s: seq<Byte>): (n: nat)
    requires |s| > 0
    ensures 1 <= n <= |s|
  {
    if Accepted(s) == 0 then 1 else Accepted(s)
  }

  function Lossy(s: seq<Byte>): seq<Byte>
    decreases |s|
  {
    if s == [] then []
    else if StartsChar(s) then s[..Width(s[0])] + Lossy(s[Width(s[0])..])
    else REPLACEMENT + Lossy(s[BadLen(s)..])
  }

  /** Decoding well-formed text changes nothing. */
  lemma {:induction false} LossyOfValid(s: seq<Byte>)
    requires IsUtf8(s)
    ensures Lossy(s) == s
    decreases |s|
  {
    if s != [] {
      LossyOfValid(s[Width(s[0])..]);
    }
  }

  lemma {:induction false} AsciiIsUtf8(s: seq<Byte>)
    requires IsAscii(s)
    ensures IsUtf8(s)
    decreases |s|
  {
    if s != [] {
      AsciiIsUtf8(s[1..]);
    }
  }

  lemma {:induction false} AsciiLossy(s: seq<Byte>)
    requires IsAscii(s)
    ensures Lossy(s) == s
  {
    AsciiIsUtf8(s);
    LossyOfValid(s);
  }

  /** One complete character on its own is well-formed. */
  lemma OneCharIsUtf8(s: seq<Byte>)
    requires StartsChar(s)
    ensures IsUtf8(s[..Width(s[0])])
  {
    var c := s[..Width(s[0])];
    assert c[..Width(s[0])] == s[..Width(s[0])];
    StartsCharSamePrefix(s, c);
    assert c[Width(c[0])..] == [];
  }

  /** Whether a character starts `s` depends only on its first `Width` bytes. */
  lemma StartsCharSamePrefix(s: seq<Byte>, t: seq<Byte>)
    requires StartsChar(s)
    requires |t| >= Width(s[0]) && t[..Width(s[0])] == s[..Width(s[0])]
    ensures StartsChar(t) && Width(t[0]) == Width(s[0])
  {
    var w := Width(s[0]);
    assert t[0] == s[0];
    if w >= 2 { assert t[1] == s[1]; }
    if w >= 3 { assert t[2] == s[2]; }
    if w >= 4 { assert t[3] == s[3]; }
  }

  lemma {:induction false} ConcatIsUtf8(a: seq<Byte>, b: seq<Byte>)
    requires IsUtf8(a) && IsUtf8(b)
    ensures IsUtf8(a + b)
    decreases |a|
  {
    if a == [] {
      assert a + b == b;
    } else {
      var w := FirstCharOf(a);
      ConcatIsUtf8(a[w..], b);
      ConcatStep(a, b, w);
    }
  }

  /** Unfolds a non-empty well-formed text into its first character and the well-formed rest. */
  lemma FirstCharOf(a: seq<Byte>) returns (w: nat)
    requires IsUtf8(a) && a != []
    ensures StartsChar(a) && w == Width(a[0]) && 1 <= w <= |a| && IsUtf8(a[w..])
  {
    w := Width(a[0]);
  }

  /** A complete first character of `a`, then well-formed text, is well-formed. */
  lemma ConcatStep(a: seq<Byte>, b: seq<Byte>, w: nat)
    requires StartsChar(a) && w == Width(a[0]) && w <= |a|
    requires IsUtf8(a[w..] + b)
    ensures IsUtf8(a + b)
  {
    var c := a + b;
    assert c[..w] == a[..w];
    StartsCharSamePrefix(a, c);
    assert c[w..] == a[w..] + b;
    FirstCharThenUtf8(c);
  }

  /** Unfolds `IsUtf8` once: a complete first character followed by well-formed text. */
  lemma FirstCharThenUtf8(s: seq<Byte>)
    requires StartsChar(s) && IsUtf8(s[Width(s[0])..])
    ensures IsUtf8(s)
  {
  }

  /** Whatever the input, the decoded text is well-formed UTF-8. */
  lemma {:induction false} LossyIsUtf8(s: seq<Byte>)
    ensures IsUtf8(Lossy(s))
    decreases |s|
  {
    if s != [] {
      if StartsChar(s) {
        OneCharIsUtf8(s);
        LossyIsUtf8(s[Width(s[0])..]);
        ConcatIsUtf8(s[..Width(s[0])], Lossy(s[Width(s[0])..]));
      } else {
        assert StartsChar(REPLACEMENT) && REPLACEMENT[3..] == [];
        LossyIsUtf8(s[BadLen(s)..]);
        ConcatIsUtf8(REPLACEMENT, Lossy(s[BadLen(s)..]));
      }
    }
  }

  /** If the decoded text is pure ASCII, the input was that same ASCII text. */
  lemma {:induction false} LossyAsciiOnlyFromAscii(s: seq<Byte>)
    requires IsAscii(Lossy(s))
    ensures Lossy(s) == s
    decreases |s|
  {
    if s != [] {
      assert Lossy(s)[0] == if StartsChar(s) then s[0] else 0xEF;
      assert StartsChar(s) && Width(s[0]) == 1;
      assert Lossy(s) == [s[0]] + Lossy(s[1..]);
      assert IsAscii(Lossy(s[1..])) by {
        forall i | 0 <= i < |Lossy(s[1..])| ensures Lossy(s[1..])[i] < 0x80 {
          assert Lossy(s[1..])[i] == Lossy(s)[i + 1];
        }
      }
      LossyAsciiOnlyFromAscii(s[1..]);
      assert s == [s[0]] + s[1..];
    }
  }

  /** The decoded text starts with `.` exactly when the raw bytes do. */
  lemma LossyKeepsLeadingDot(s: seq<Byte>)
    ensures (|Lossy(s)| > 0 && Lossy(s)[0] == DOT) <==> (|s| > 0 && s[0] == DOT)
  {
    if s != [] {
      if StartsChar(s) {
        assert Lossy(s)[0] == s[0];
      } else {
        assert Lossy(s)[0] == 0xEF;
      }
    }
  }

  /** Replacement can make the decoded text LONGER than its input: one byte of a split two-byte character becomes three. */
  lemma SplitCharGrows()
    ensures IsUtf8([0xC3, 0xA9])
    ensures Lossy([0xC3]) == REPLACEMENT
    ensures |Lossy([0xC3])| > |[0xC3]|
  {
    var e: seq<Byte> := [0xC3, 0xA9];
    assert e[2..] == [];
    var h: seq<Byte> := [0xC3];
    assert h[1..] == [];
  }

  /** Each byte that cannot start a character decodes to its own U+FFFD: two bytes become six. */
  lemma StrayBytesGrow()
    ensures Lossy([0xFF, 0xFF]) == REPLACEMENT + REPLACEMENT
  {
    var s: seq<Byte> := [0xFF, 0xFF];
    assert !StartsChar(s) && BadLen(s) == 1 && s[1..] == [0xFF];
    var t: seq<Byte> := [0xFF];
    assert !StartsChar(t) && BadLen(t) == 1 && t[1..] == [];
  }
}
