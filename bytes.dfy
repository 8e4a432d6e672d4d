/** Bytes, ASCII literals and the byte-wise order used for sorting paths. */
module Bytes {
  /** One byte of a Rust `&str`/`OsStr`/`Vec<u8>`. */
  type Byte = b: int | 0 <= b < 256

  /** The bytes of an ASCII literal (every literal of the program is ASCII). */
  function Str(s: string): (r: seq<Byte>)
    requires forall i | 0 <= i < |s| :: s[i] as int < 128
    ensures |r| == |s| && IsAscii(r)
  {
    seq(|s|, i requires 0 <= i < |s| => s[i] as int)
  }

  const NEWLINE: Byte := 0x0A
  const DOT: Byte := 0x2E
  const SLASH: Byte := 0x2F

  predicate IsAscii(s: seq<Byte>) {
    forall i | 0 <= i < |s| :: s[i] < 0x80
  }

  /** `u8::to_ascii_lowercase`. */
  function ToAsciiLower(b: Byte): (r: Byte)
    ensures (0x41 <= b <= 0x5A) ==> r == b + 0x20
    ensures !(0x41 <= b <= 0x5A) ==> r == b
  {
    if 0x41 <= b <= 0x5A then b + 0x20 else b
  }

  /** `[u8]::eq_ignore_ascii_case`: same length and equal after ASCII lower-casing. */
  predicate EqIgnoreAsciiCase(a: seq<Byte>, b: seq<Byte>) {
    |a| == |b| && forall i | 0 <= i < |a| :: ToAsciiLower(a[i]) == ToAsciiLower(b[i])
  }

  /** `Ord` on byte slices: lexicographic, a proper prefix first. */
  predicate LexLe(a: seq<Byte>, b: seq<Byte>)
    decreases |a|
  {
    a == [] || (b != [] && (a[0] < b[0] || (a[0] == b[0] && LexLe(a[1..], b[1..]))))
  }

  lemma {:induction false} LexLeTotal(a: seq<Byte>, b: seq<Byte>)
    ensures LexLe(a, b) || LexLe(b, a)
    decreases |a|
  {
    if a != [] && b != [] && a[0] == b[0] {
      LexLeTotal(a[1..], b[1..]);
    }
  }

  lemma {:induction false} LexLeAntisymmetric(a: seq<Byte>, b: seq<Byte>)
    requires LexLe(a, b) && LexLe(b, a)
    ensures a == b
    decreases |a|
  {
    if a != [] {
      LexLeAntisymmetric(a[1..], b[1..]);
      assert a == [a[0]] + a[1..] && b == [b[0]] + b[1..];
    }
  }

  lemma {:induction false} LexLeTransitive(a: seq<Byte>, b: seq<Byte>, c: seq<Byte>)
    requires LexLe(a, b) && LexLe(b, c)
    ensures LexLe(a, c)
    decreases |a|
  {
    if a != [] && a[0] == b[0] && b[0] == c[0] {
      LexLeTransitive(a[1..], b[1..], c[1..]);
    }
  }
}
