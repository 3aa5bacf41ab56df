/**
 * Signed 64-bit integers and their decimal text.
 *
 * `Format` is the minimal decimal that Rust's `itoa` writes (a leading `-`
 * for negatives, no leading zeros).  `ParseI64` is nom's `i64` character
 * parser in its streaming and complete forms: an optional `+` or `-`, at
 * least one digit, accumulation with checked arithmetic (overflow fails),
 * and the first non-digit ends the number.  `ParseInt` is Rust's
 * `str::parse::<i64>`, which demands that the whole text be the number.
 */
module Decimal {
  import opened ByteStrings
  import opened Scan
  import opened Wrappers

  const I64_MIN: int := -0x8000_0000_0000_0000
  const I64_MAX: int := 0x7FFF_FFFF_FFFF_FFFF

  newtype i64 = x: int | -0x8000_0000_0000_0000 <= x < 0x8000_0000_0000_0000

  predicate IsDigit(b: byte) {
    48 <= b <= 57
  }

  predicate AllDigits(s: Bytes) {
    forall i :: 0 <= i < |s| ==> IsDigit(s[i])
  }

  function DigitValue(b: byte): (d: nat)
    requires IsDigit(b)
    ensures d < 10
  {
    (b - 48) as nat
  }

  function DigitByte(d: nat): (b: byte)
    requires d < 10
    ensures IsDigit(b) && DigitValue(b) == d
  {
    (48 + d) as byte
  }

  /** The minimal decimal digits of `n`, most significant first. */
  function Digits(n: nat): Bytes {
    if n < 10 then [DigitByte(n)] else Digits(n / 10) + [DigitByte(n % 10)]
  }

  /** `Digits` writes at least one digit, only digits, and no leading zero. */
  lemma {:induction false} DigitsShape(n: nat)
    ensures Digits(n) != [] && AllDigits(Digits(n))
    ensures Digits(n)[0] == ZERO ==> n == 0
    ensures n < 10 <==> |Digits(n)| == 1
  {
    if n >= 10 {
      DigitsShape(n / 10);
      assert Digits(n)[0] == Digits(n / 10)[0];
    }
  }

  /** The absolute value of an `i64`, which for the minimum does not fit an `i64`. */
  function Magnitude(i: i64): nat {
    if i < 0 then -(i as int) else i as int
  }

  /** The decimal text of an `i64`: `-` and the digits of the magnitude for negatives. */
  function Format(i: i64): Bytes {
    if i < 0 then [MINUS] + Digits(Magnitude(i)) else Digits(Magnitude(i))
  }

  /** `Format` is non-empty, starts with `-` exactly for negatives, and is digits otherwise. */
  lemma FormatShape(i: i64)
    ensures Format(i) != [] && (i < 0 <==> Format(i)[0] == MINUS)
    ensures i < 0 ==> AllDigits(Format(i)[1..]) && Format(i)[1..] == Digits(Magnitude(i))
    ensures i >= 0 ==> AllDigits(Format(i)) && Format(i) == Digits(Magnitude(i))
  {
    DigitsShape(Magnitude(i));
    if i < 0 {
      assert Format(i)[1..] == Digits(Magnitude(i));
    }
  }

  /** Left-to-right decimal accumulation of a digit run onto `acc`. */
  function Accumulate(acc: nat, ds: Bytes): nat
    requires AllDigits(ds)
    decreases |ds|
  {
    if ds == [] then acc else Accumulate(acc * 10 + DigitValue(ds[0]), ds[1..])
  }

  /** The largest magnitude a checked accumulation reaches without overflow. */
  function Limit(neg: bool): nat {
    if neg then -I64_MIN else I64_MAX
  }

  function Signed(neg: bool, acc: nat): (r: i64)
    requires acc <= Limit(neg)
    ensures r as int == (if neg then -(acc as int) else acc as int)
  {
    if neg then (-(acc as int)) as i64 else acc as i64
  }

  /**
   * The digit loop of the parser: `acc` is the magnitude read so far.  A
   * digit that would take the magnitude past the limit of the sign fails;
   * running out of input asks for more (streaming) or ends the number.
   */
  function DigitRun(neg: bool, s: Bytes, acc: nat, streaming: bool): (r: Step<i64>)
    requires acc <= Limit(neg)
    ensures r.Done? ==> |r.rest| <= |s|
    ensures r.Done? ==> r.rest == [] || !IsDigit(r.rest[0])
    ensures r.Done? && r.rest == [] ==> !streaming
    ensures r.NeedMore? ==> streaming
    decreases |s|
  {
    if s == [] then (if streaming then NeedMore else Done(Signed(neg, acc), []))
    else if !IsDigit(s[0]) then Done(Signed(neg, acc), s)
    else
      var next := acc * 10 + DigitValue(s[0]);
      if next > Limit(neg) then Fail
      else DigitRun(neg, s[1..], next, streaming)
  }

  /** nom's `i64` parser on the front of `input`. */
  function ParseI64(input: Bytes, streaming: bool): (r: Step<i64>)
    ensures r.Done? ==> |r.rest| < |input|
    ensures r.Done? ==> r.rest == [] || !IsDigit(r.rest[0])
    ensures r.NeedMore? ==> streaming
  {
    if input == [] then Short(streaming)
    else
      var neg := input[0] == MINUS;
      var body := if input[0] == MINUS || input[0] == PLUS then input[1..] else input;
      if body == [] then Short(streaming)
      else if !IsDigit(body[0]) then Fail
      else DigitRun(neg, body, 0, streaming)
  }

  /** Rust's `str::parse::<i64>`: the whole text must be one number. */
  function ParseInt(s: Bytes): (r: Option<i64>)
    ensures r.Some? ==> s != [] && (AllDigits(s) || (|s| >= 2 && (s[0] == MINUS || s[0] == PLUS) && AllDigits(s[1..])))
  {
    match ParseI64(s, false)
    case Done(v, rest) =>
      if rest == [] then
        assert AllDigits(s) || (|s| >= 2 && (s[0] == MINUS || s[0] == PLUS) && AllDigits(s[1..])) by {
          ParseI64AllDigits(s, v);
        }
        Some(v)
      else None
    case _ => None
  }

  // ---------------------------------------------------------------------
  // Lemmas about accumulation

  lemma {:induction false} AccumulateGrows(acc: nat, ds: Bytes)
    requires AllDigits(ds)
    ensures Accumulate(acc, ds) >= acc
    decreases |ds|
  {
    if ds != [] {
      AccumulateGrows(acc * 10 + DigitValue(ds[0]), ds[1..]);
    }
  }

  lemma {:induction false} AccumulateAppend(acc: nat, a: Bytes, b: Bytes)
    requires AllDigits(a) && AllDigits(b)
    ensures AllDigits(a + b)
    ensures Accumulate(acc, a + b) == Accumulate(Accumulate(acc, a), b)
    decreases |a|
  {
    assert AllDigits(a + b) by {
      forall i | 0 <= i < |a + b| ensures IsDigit((a + b)[i]) {
        if i < |a| { assert (a + b)[i] == a[i]; } else { assert (a + b)[i] == b[i - |a|]; }
      }
    }
    if a != [] {
      assert (a + b)[1..] == a[1..] + b;
      AccumulateAppend(acc * 10 + DigitValue(a[0]), a[1..], b);
    } else {
      assert a + b == b;
    }
  }

  /** Reading back the digits of `n` gives `n`. */
  lemma {:induction false} AccumulateDigits(n: nat)
    ensures AllDigits(Digits(n)) && Accumulate(0, Digits(n)) == n
  {
    DigitsShape(n);
    if n < 10 {
      assert Digits(n) == [DigitByte(n)];
      assert Digits(n)[1..] == [];
    } else {
      AccumulateDigits(n / 10);
      DigitsShape(n / 10);
      var d := DigitByte(n % 10);
      AccumulateAppend(0, Digits(n / 10), [d]);
      assert [d][1..] == [];
    }
  }

  /** A run of digits within the limit is consumed completely by the digit loop. */
  lemma {:induction false} DigitRunDigits(neg: bool, ds: Bytes, s: Bytes, acc: nat, streaming: bool)
    requires AllDigits(ds) && Accumulate(acc, ds) <= Limit(neg)
    requires acc <= Limit(neg)
    ensures DigitRun(neg, ds + s, acc, streaming) == DigitRun(neg, s, Accumulate(acc, ds), streaming)
  {
    if ds != [] {
      var next := acc * 10 + DigitValue(ds[0]);
      AccumulateGrows(next, ds[1..]);
      assert (ds + s)[0] == ds[0];
      assert (ds + s)[1..] == ds[1..] + s;
      DigitRunDigits(neg, ds[1..], s, next, streaming);
    } else {
      assert ds + s == s;
    }
  }

  /** The digits of a magnitude within the limit of its sign. */
  lemma MagnitudeDigits(i: i64)
    ensures Digits(Magnitude(i)) != [] && AllDigits(Digits(Magnitude(i)))
    ensures i >= 0 ==> Accumulate(0, Digits(Magnitude(i))) == i as int <= Limit(false)
    ensures i < 0 ==> Accumulate(0, Digits(Magnitude(i))) == -(i as int) <= Limit(true)
  {
    AccumulateDigits(Magnitude(i));
    DigitsShape(Magnitude(i));
  }

  /** The parser reads back what `Format` writes, when a non-digit follows. */
  lemma FormatParses(i: i64, s: Bytes, streaming: bool)
    requires s != [] && !IsDigit(s[0])
    ensures ParseI64(Format(i) + s, streaming) == Done(i, s)
  {
    MagnitudeDigits(i);
    var neg := i < 0;
    var ds := Digits(Magnitude(i));
    var input := Format(i) + s;
    if neg {
      assert input == [MINUS] + (ds + s);
      assert input[1..] == ds + s;
    } else {
      assert input == ds + s;
    }
    assert (ds + s)[0] == ds[0];
    assert ParseI64(input, streaming) == DigitRun(neg, ds + s, 0, streaming);
    DigitRunDigits(neg, ds, s, 0, streaming);
    assert DigitRun(neg, s, Magnitude(i), streaming) == Done(Signed(neg, Magnitude(i)), s);
    assert Signed(neg, Magnitude(i)) == i;
  }

  /** The complete parser reads back `Format` at the very end of the input. */
  lemma FormatParsesComplete(i: i64)
    ensures ParseI64(Format(i), false) == Done(i, [])
  {
    MagnitudeDigits(i);
    if i < 0 {
      var ds := Digits(Magnitude(i));
      assert Format(i)[1..] == ds + [];
      DigitRunDigits(true, ds, [], 0, false);
    } else {
      var ds := Digits(Magnitude(i));
      assert ds == ds + [];
      DigitRunDigits(false, ds, [], 0, false);
    }
  }

  /** Every prefix of `Format(i)`, the whole of it included, needs more input in streaming mode. */
  lemma FormatPrefixNeedMore(i: i64, k: nat)
    requires k <= |Format(i)|
    ensures ParseI64(Format(i)[..k], true) == NeedMore
  {
    MagnitudeDigits(i);
    var neg := i < 0;
    var ds := Digits(Magnitude(i));
    var off := if neg then 1 else 0;
    if k > off {
      var q := ds[..k - off];
      var tail := ds[k - off..];
      assert ds == q + tail;
      assert AllDigits(q) by { forall j | 0 <= j < |q| ensures IsDigit(q[j]) { assert q[j] == ds[j]; } }
      assert AllDigits(tail) by { forall j | 0 <= j < |tail| ensures IsDigit(tail[j]) { assert tail[j] == ds[j + k - off]; } }
      AccumulateAppend(0, q, tail);
      AccumulateGrows(Accumulate(0, q), tail);
      DigitRunDigits(neg, q, [], 0, true);
      assert q + [] == q;
      PrefixNeedMoreBody(i, k, q);
    }
  }

  lemma PrefixNeedMoreBody(i: i64, k: nat, q: Bytes)
    requires k <= |Format(i)|
    requires q != [] && AllDigits(q) && (if i < 0 then [MINUS] + q else q) == Format(i)[..k]
    requires DigitRun(i < 0, q, 0, true) == NeedMore
    ensures ParseI64(Format(i)[..k], true) == NeedMore
  {
    var p := Format(i)[..k];
    if i < 0 {
      assert p[1..] == q;
    }
  }

  /** `str::parse` reads back `Format`. */
  lemma ParseIntFormat(i: i64)
    ensures ParseInt(Format(i)) == Some(i)
  {
    FormatParsesComplete(i);
  }

  /** A complete number that consumes the whole text is made of digits after an optional sign. */
  lemma ParseI64AllDigits(s: Bytes, v: i64)
    requires ParseI64(s, false) == Done(v, [])
    ensures AllDigits(s) || (|s| >= 2 && (s[0] == MINUS || s[0] == PLUS) && AllDigits(s[1..]))
  {
    var body := if s[0] == MINUS || s[0] == PLUS then s[1..] else s;
    DigitRunConsumesDigits(s[0] == MINUS, body, 0);
  }

  /** When the complete digit loop ends at the end of the text, every byte was a digit. */
  lemma {:induction false} DigitRunConsumesDigits(neg: bool, s: Bytes, acc: nat)
    requires acc <= Limit(neg)
    requires DigitRun(neg, s, acc, false).Done? && DigitRun(neg, s, acc, false).rest == []
    ensures AllDigits(s)
    decreases |s|
  {
    if s != [] {
      assert IsDigit(s[0]);
      var next := acc * 10 + DigitValue(s[0]);
      assert next <= Limit(neg);
      assert DigitRun(neg, s, acc, false) == DigitRun(neg, s[1..], next, false);
      DigitRunConsumesDigits(neg, s[1..], next);
      forall k | 0 <= k < |s| ensures IsDigit(s[k]) {
        if k > 0 { assert s[k] == s[1..][k - 1]; }
      }
    }
  }

  /** Concrete readings: a `+` sign is accepted and a `-` sign negates. */
  lemma ParseI64SignExamples()
    ensures ParseI64([PLUS, 49, 50, CR], true) == Done(12, [CR])
    ensures ParseI64([MINUS, 49, 50, CR], true) == Done(-12, [CR])
  {
    var plus: Bytes := [PLUS, 49, 50, CR];
    var minus: Bytes := [MINUS, 49, 50, CR];
    var t: Bytes := [49, 50, CR];
    assert plus[1..] == t && minus[1..] == t;
    assert t[1..] == [50, CR];
    assert ParseI64(plus, true) == DigitRun(false, t, 0, true);
    assert ParseI64(minus, true) == DigitRun(true, t, 0, true);
    assert DigitRun(false, t, 0, true) == DigitRun(false, [50, CR], 1, true);
    assert DigitRun(true, t, 0, true) == DigitRun(true, [50, CR], 1, true);
  }

  /** Concrete readings: digits at the end need more input only when streaming; a bare sign or a non-digit is not a number. */
  lemma ParseI64EndExamples()
    ensures ParseI64([49, 50], true) == NeedMore
    ensures ParseI64([49, 50], false) == Done(12, [])
    ensures ParseI64([MINUS], true) == NeedMore
    ensures ParseI64([MINUS], false) == Fail
    ensures ParseI64([120, 49], true) == Fail
  {
    var t: Bytes := [49, 50];
    assert t[1..] == [50];
    assert ParseI64(t, true) == DigitRun(false, t, 0, true);
    assert ParseI64(t, false) == DigitRun(false, t, 0, false);
    assert DigitRun(false, t, 0, true) == DigitRun(false, [50], 1, true);
    assert DigitRun(false, t, 0, false) == DigitRun(false, [50], 1, false);
  }
}
