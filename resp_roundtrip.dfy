/**
 * Parsing what the serialiser writes.
 *
 * A value is encodable in a dialect when the parser can read it back: no
 * string holds a CR (the parser reads every string up to its first CR),
 * simple strings are UTF-8 where the dialect insists, errors are UTF-8,
 * and no length or count reaches 512 MiB.  For such a value, the parser
 * returns it and leaves whatever follows untouched; every proper prefix of
 * its encoding needs more input; and any trailing byte turns `parse` into
 * a parse error.
 */
module RespRoundTrip {
  import opened Wrappers
  import opened ByteStrings
  import opened Scan
  import opened Decimal
  import opened RespValue
  import opened RespParse
  import opened RespFrames

  predicate Encodable(d: Dialect, v: Value)
    decreases v
  {
    match v
    case Null => true
    case NullArray => true
    case Integer(_) => true
    case SimpleString(s) => NoCR(s) && (d == Older || ValidUtf8(s))
    case Error(e) => NoCR(e) && ValidUtf8(e)
    case BulkString(b) => NoCR(b) && |b| < RESP_MAX_SIZE
    case Array(xs) => |xs| < RESP_MAX_SIZE && forall i :: 0 <= i < |xs| ==> Encodable(d, xs[i])
  }

  predicate AllEncodable(d: Dialect, xs: seq<Value>) {
    forall i :: 0 <= i < |xs| ==> Encodable(d, xs[i])
  }

  /** The decimal the serialiser writes for a length is the text of that length as an `i64`. */
  lemma LengthText(n: nat)
    requires n < RESP_MAX_SIZE
    ensures Format(n as i64) == Digits(n)
  {
    FormatShape(n as i64);
  }

  lemma MinusOneText()
    ensures Format(-1) == [MINUS, 49]
  {
    assert Digits(1) == [49];
  }

  /** The header line of a bulk string or an array, as the parser reads it. */
  lemma HeaderText(indicator: byte, n: nat)
    requires n < RESP_MAX_SIZE
    ensures Line(indicator, Digits(n)) == [indicator] + Format(n as i64) + CRLF
  {
    LengthText(n);
  }

  /** What follows a value is left for the next parse. */
  lemma {:induction false} RoundTrip(d: Dialect, v: Value, rest: Bytes)
    requires Encodable(d, v)
    ensures ParseAny(d, Encode(v) + rest) == Done(v, rest)
    decreases v, 1
  {
    match v
    case Null =>
      MinusOneText();
      assert Encode(v) + rest == [DOLLAR] + Format(-1) + CRLF + rest;
      NullFrames(d, rest);
    case NullArray =>
      MinusOneText();
      assert Encode(v) + rest == [STAR] + Format(-1) + CRLF + rest;
      NullFrames(d, rest);
    case SimpleString(s) =>
      assert Encode(v) + rest == [PLUS] + s + CRLF + rest;
      SimpleStringFrame(d, s, rest);
    case Error(e) =>
      assert Encode(v) + rest == [MINUS] + e + CRLF + rest;
      ErrorFrame(d, e, rest);
    case Integer(i) =>
      assert Encode(v) + rest == [COLON] + Format(i) + CRLF + rest;
      IntegerFrame(d, i, rest);
    case BulkString(b) =>
      BulkRoundTrip(d, b, rest);
    case Array(xs) =>
      ArrayRoundTrip(d, xs, rest);
  }

  /** A bulk string, empty or not, parses back to itself. */
  lemma BulkRoundTrip(d: Dialect, b: Bytes, rest: Bytes)
    requires Encodable(d, BulkString(b))
    ensures ParseAny(d, Encode(BulkString(b)) + rest) == Done(BulkString(b), rest)
  {
    HeaderText(DOLLAR, |b|);
    if b == [] {
      assert Encode(BulkString(b)) + rest == [DOLLAR] + Format(0) + CRLF + CRLF + rest;
      EmptyBulkFrame(d, rest);
    } else {
      assert Encode(BulkString(b)) + rest == [DOLLAR] + Format(|b| as i64) + CRLF + (b + CRLF + rest);
      BulkFrame(d, |b| as i64, b, rest);
    }
  }

  /** An array parses back as its header followed by its elements. */
  lemma {:induction false} ArrayRoundTrip(d: Dialect, xs: seq<Value>, rest: Bytes)
    requires Encodable(d, Array(xs))
    ensures ParseAny(d, Encode(Array(xs)) + rest) == Done(Array(xs), rest)
    decreases xs, 2
  {
    ArrayText(xs, rest);
    ArrayFrame(d, |xs| as i64, EncodeAll(xs) + rest);
    ElementsRoundTrip(d, xs, rest);
  }

  lemma ArrayText(xs: seq<Value>, rest: Bytes)
    requires |xs| < RESP_MAX_SIZE
    ensures Encode(Array(xs)) + rest == [STAR] + Format(|xs| as i64) + CRLF + (EncodeAll(xs) + rest)
  {
    HeaderText(STAR, |xs|);
  }

  /** The encodings of `xs` parse back, as exactly `|xs|` frames, to `xs`. */
  lemma {:induction false} ElementsRoundTrip(d: Dialect, xs: seq<Value>, rest: Bytes)
    requires AllEncodable(d, xs)
    ensures ParseElements(d, EncodeAll(xs) + rest, |xs|) == Done(xs, rest)
    decreases xs, 0
  {
    var cs := seq(|xs|, i requires 0 <= i < |xs| => Encode(xs[i]));
    forall i, r | 0 <= i < |xs| ensures ParseAny(d, cs[i] + r) == Done(xs[i], r) {
      RoundTrip(d, xs[i], r);
    }
    FramesInOrder(d, xs, cs, rest);
  }

  /** Each chunk parses, whatever follows it, to the value at the same position. */
  ghost predicate Frames(d: Dialect, xs: seq<Value>, cs: seq<Bytes>) {
    |cs| == |xs| && forall i, r :: 0 <= i < |xs| ==> ParseAny(d, cs[i] + r) == Done(xs[i], r)
  }

  /**
   * When each chunk parses, whatever follows it, to its value, the chunks
   * one after the other parse to the values in order.
   */
  lemma {:induction false} FramesInOrder(d: Dialect, xs: seq<Value>, cs: seq<Bytes>, rest: Bytes)
    requires Frames(d, xs, cs)
    ensures ParseElements(d, Flatten(cs) + rest, |xs|) == Done(xs, rest)
    decreases |xs|
  {
    if xs != [] {
      TailFrames(d, xs, cs);
      FramesInOrder(d, xs[1..], cs[1..], rest);
      FramesStep(d, xs, cs, rest);
    } else {
      assert Flatten(cs) + rest == rest;
    }
  }

  /** The first chunk, then the rest in order. */
  lemma FramesStep(d: Dialect, xs: seq<Value>, cs: seq<Bytes>, rest: Bytes)
    requires Frames(d, xs, cs) && xs != []
    requires ParseElements(d, Flatten(cs[1..]) + rest, |xs[1..]|) == Done(xs[1..], rest)
    ensures ParseElements(d, Flatten(cs) + rest, |xs|) == Done(xs, rest)
  {
    HeadFrame(d, xs, cs, rest);
    ElementsSteps(d, Flatten(cs) + rest, xs, Flatten(cs[1..]) + rest, rest);
  }

  lemma HeadFrame(d: Dialect, xs: seq<Value>, cs: seq<Bytes>, rest: Bytes)
    requires Frames(d, xs, cs) && xs != []
    ensures ParseAny(d, Flatten(cs) + rest) == Done(xs[0], Flatten(cs[1..]) + rest)
  {
    FlattenConsRest(cs, rest);
    assert ParseAny(d, cs[0] + (Flatten(cs[1..]) + rest)) == Done(xs[0], Flatten(cs[1..]) + rest);
  }

  lemma TailFrames(d: Dialect, xs: seq<Value>, cs: seq<Bytes>)
    requires Frames(d, xs, cs) && xs != []
    ensures Frames(d, xs[1..], cs[1..])
  {
    forall i, r | 0 <= i < |xs| - 1 ensures ParseAny(d, cs[1..][i] + r) == Done(xs[1..][i], r) {
      assert cs[1..][i] == cs[i + 1] && xs[1..][i] == xs[i + 1];
    }
  }

  /** One frame, then the remaining ones. */
  lemma ElementsSteps(d: Dialect, input: Bytes, xs: seq<Value>, mid: Bytes, rest: Bytes)
    requires xs != []
    requires ParseAny(d, input) == Done(xs[0], mid)
    requires ParseElements(d, mid, |xs| - 1) == Done(xs[1..], rest)
    ensures ParseElements(d, input, |xs|) == Done(xs, rest)
  {
    ElementsCons(d, input, xs[0], mid, xs[1..], rest);
    HeadTail(xs);
  }

  lemma ElementsCons(d: Dialect, input: Bytes, v: Value, mid: Bytes, vs: seq<Value>, rest: Bytes)
    requires ParseAny(d, input) == Done(v, mid)
    requires ParseElements(d, mid, |vs|) == Done(vs, rest)
    ensures ParseElements(d, input, |vs| + 1) == Done([v] + vs, rest)
  {
  }

  /** `parse` of exactly one encoded value gives the value back. */
  lemma ParseEncode(d: Dialect, v: Value)
    requires Encodable(d, v)
    ensures ParseWith(d, Encode(v)) == Ok(v)
  {
    RoundTrip(d, v, []);
    assert Encode(v) + [] == Encode(v);
  }

  /** Bytes after one complete value make `parse` a parse error, not a success. */
  lemma TrailingBytes(d: Dialect, v: Value, rest: Bytes)
    requires Encodable(d, v) && rest != []
    ensures ParseWith(d, Encode(v) + rest) == Err(Parse)
  {
    RoundTrip(d, v, rest);
  }
}
