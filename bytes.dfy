/**
 * Bytes as the server sees them on the wire, the ASCII constants of the
 * RESP grammar, ASCII lower-casing (used for case-insensitive command names)
 * and UTF-8 well-formedness as Rust's `std::str::from_utf8` checks it
 * (Table 3-7 of section 3.9 of the Unicode Standard).
 */
module ByteStrings {

  newtype byte = x: int | 0 <= x < 256

  type Bytes = seq<byte>

  const CR: byte := 13
  const LF: byte := 10
  const CRLF: Bytes := [CR, LF]
  const PLUS: byte := 43
  const MINUS: byte := 45
  const COLON: byte := 58
  const DOLLAR: byte := 36
  const STAR: byte := 42
  const ZERO: byte := 48

  /** The bytes of an ASCII string literal (characters are taken modulo 256). */
  function Ascii(s: string): (r: Bytes)
    ensures |r| == |s|
  {
    seq(|s|, i requires 0 <= i < |s| => (s[i] as int % 256) as byte)
  }

  lemma AsciiAppend(a: string, b: string)
    ensures Ascii(a + b) == Ascii(a) + Ascii(b)
  {
    assert forall i | 0 <= i < |a + b| :: Ascii(a + b)[i] == (Ascii(a) + Ascii(b))[i] by {
      forall i | 0 <= i < |a + b| ensures Ascii(a + b)[i] == (Ascii(a) + Ascii(b))[i] {
        if i < |a| { assert (a + b)[i] == a[i]; } else { assert (a + b)[i] == b[i - |a|]; }
      }
    }
  }

  /** A non-empty sequence is its head followed by its tail. */
  lemma HeadTail<T>(xs: seq<T>)
    requires xs != []
    ensures [xs[0]] + xs[1..] == xs
  {
  }

  /** Concatenation is associative; said once, where the prover needs it. */
  lemma Associative(a: Bytes, b: Bytes, c: Bytes)
    ensures (a + b) + c == a + (b + c)
  {
  }

  /** The concatenation of a sequence of byte strings. */
  function Flatten(chunks: seq<Bytes>): Bytes {
    if chunks == [] then [] else chunks[0] + Flatten(chunks[1..])
  }

  lemma FlattenConsRest(cs: seq<Bytes>, rest: Bytes)
    requires cs != []
    ensures Flatten(cs) + rest == cs[0] + (Flatten(cs[1..]) + rest)
  {
  }

  lemma {:induction false} FlattenAppend(a: seq<Bytes>, b: seq<Bytes>)
    ensures Flatten(a + b) == Flatten(a) + Flatten(b)
  {
    if a == [] {
      assert a + b == b;
    } else {
      assert (a + b)[1..] == a[1..] + b;
      FlattenAppend(a[1..], b);
    }
  }

  lemma FlattenSnoc(a: seq<Bytes>, c: Bytes)
    ensures Flatten(a + [c]) == Flatten(a) + c
  {
    FlattenAppend(a, [c]);
    assert [c][1..] == [];
  }

  /** No carriage return anywhere in `s`. */
  predicate NoCR(s: Bytes) {
    CR !in s
  }

  predicate IsUpper(b: byte) {
    65 <= b <= 90
  }

  /** ASCII lower-casing of one byte; every other byte is left alone. */
  function LowerByte(b: byte): (r: byte)
    ensures IsUpper(b) ==> r as int == b as int + 32
    ensures !IsUpper(b) ==> r == b
    ensures !IsUpper(r)
  {
    if IsUpper(b) then b + 32 else b
  }

  /** ASCII lower-casing of a byte string, as `to_ascii_lowercase` does it. */
  function AsciiLower(s: Bytes): (r: Bytes)
    ensures |r| == |s|
    ensures forall i :: 0 <= i < |s| ==> r[i] == LowerByte(s[i])
  {
    if s == [] then [] else [LowerByte(s[0])] + AsciiLower(s[1..])
  }

  lemma {:induction false} AsciiLowerIdempotent(s: Bytes)
    ensures AsciiLower(AsciiLower(s)) == AsciiLower(s)
  {
    if s != [] {
      AsciiLowerIdempotent(s[1..]);
      assert AsciiLower(s)[1..] == AsciiLower(s[1..]);
    }
  }

  predicate InRange(b: byte, lo: int, hi: int) {
    lo <= b as int <= hi
  }

  predicate Cont(b: byte) {
    InRange(b, 0x80, 0xBF)
  }

  /**
   * The length of the well-formed UTF-8 sequence at the front of `s`,
   * or 0 when the front of `s` is not one (Table 3-7).
   */
  function Utf8Width(s: Bytes): (w: nat)
    ensures w <= |s| && w <= 4
    ensures s != [] && InRange(s[0], 0, 0x7F) ==> w == 1
  {
    if s == [] then 0
    else if InRange(s[0], 0x00, 0x7F) then 1
    else if |s| >= 2 && InRange(s[0], 0xC2, 0xDF) && Cont(s[1]) then 2
    else if |s| >= 3 && s[0] == 0xE0 && InRange(s[1], 0xA0, 0xBF) && Cont(s[2]) then 3
    else if |s| >= 3 && (InRange(s[0], 0xE1, 0xEC) || InRange(s[0], 0xEE, 0xEF)) && Cont(s[1]) && Cont(s[2]) then 3
    else if |s| >= 3 && s[0] == 0xED && InRange(s[1], 0x80, 0x9F) && Cont(s[2]) then 3
    else if |s| >= 4 && s[0] == 0xF0 && InRange(s[1], 0x90, 0xBF) && Cont(s[2]) && Cont(s[3]) then 4
    else if |s| >= 4 && InRange(s[0], 0xF1, 0xF3) && Cont(s[1]) && Cont(s[2]) && Cont(s[3]) then 4
    else if |s| >= 4 && s[0] == 0xF4 && InRange(s[1], 0x80, 0x8F) && Cont(s[2]) && Cont(s[3]) then 4
    else 0
  }

  /** `s` is a concatenation of well-formed UTF-8 sequences. */
  predicate ValidUtf8(s: Bytes)
    decreases |s|
  {
    s == [] || (Utf8Width(s) > 0 && ValidUtf8(s[Utf8Width(s)..]))
  }

  predicate IsAscii(s: Bytes) {
    forall i :: 0 <= i < |s| ==> s[i] < 128
  }

  /** Pure ASCII is valid UTF-8. */
  lemma {:induction false} AsciiIsUtf8(s: Bytes)
    requires IsAscii(s)
    ensures ValidUtf8(s)
  {
    if s != [] {
      assert Utf8Width(s) == 1;
      assert IsAscii(s[1..]) by {
        forall i | 0 <= i < |s[1..]| ensures s[1..][i] < 128 {
          assert s[1..][i] == s[i + 1];
        }
      }
      AsciiIsUtf8(s[1..]);
    }
  }

  /** A lone continuation byte or a truncated sequence is not UTF-8. */
  lemma Utf8Examples()
    ensures !ValidUtf8([0x80])
    ensures !ValidUtf8([0xC3])
    ensures ValidUtf8([0xC3, 0xA9])
    ensures !ValidUtf8([0xED, 0xA0, 0x80])
  {
    assert Utf8Width([0xC3, 0xA9]) == 2;
    assert [0xC3, 0xA9][2..] == [];
  }
}
