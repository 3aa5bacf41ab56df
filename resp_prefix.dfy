/**
 * `Incomplete` versus a parse error.
 *
 * Every proper prefix of the encoding of an encodable value needs more
 * input: the streaming parser never mistakes a truncated frame for a
 * complete one and never rejects it, so `parse` answers `Incomplete`.
 * A first byte that is no indicator, or a length out of range, is a parse
 * error at once, however much more input might follow.
 */
module RespPrefix {
  import opened Wrappers
  import opened ByteStrings
  import opened Scan
  import opened Decimal
  import opened RespValue
  import opened RespParse
  import opened RespFrames
  import opened RespRoundTrip

  // Frame-level facts about truncated frames.

  /** A truncated number line (`:`, `$` or `*`) needs more input, whatever the number. */
  lemma NumberLineCut(d: Dialect, indicator: byte, i: i64, k: nat)
    requires indicator == COLON || indicator == DOLLAR || indicator == STAR
    requires k < |Format(i)| + 3
    ensures ParseAny(d, ([indicator] + Format(i) + CRLF)[..k]) == NeedMore
  {
    var input := ([indicator] + Format(i) + CRLF)[..k];
    if k == 0 {
      assert input == [];
    } else {
      assert input[0] == indicator;
      NumberLinePrefix(indicator, i, k);
    }
    ParseAnyDispatch(d, input);
  }

  /** A truncated simple string or error line needs more input. */
  lemma SimpleLineCut(d: Dialect, indicator: byte, text: Bytes, k: nat)
    requires indicator == PLUS || indicator == MINUS
    requires NoCR(text) && k < |text| + 3
    ensures ParseAny(d, ([indicator] + text + CRLF)[..k]) == NeedMore
  {
    var input := ([indicator] + text + CRLF)[..k];
    if k == 0 {
      assert input == [];
    } else {
      assert input[0] == indicator;
      SimplePrefix(indicator, text, k);
    }
    ParseAnyDispatch(d, input);
  }

  /** After `$0\r\n`, nothing or a lone CR still needs more input. */
  lemma EmptyBulkCut(d: Dialect, t: Bytes)
    requires t == [] || t == [CR]
    ensures ParseAny(d, [DOLLAR] + Format(0) + CRLF + t) == NeedMore
  {
    LengthFrame(DOLLAR, BulkStringLength, 0, t);
    ParseAnyDispatch(d, [DOLLAR] + Format(0) + CRLF + t);
  }

  /** After a positive length, a payload with no CR yet needs more input. */
  lemma PayloadCut(d: Dialect, n: i64, t: Bytes)
    requires 0 < n as int < RESP_MAX_SIZE && NoCR(t)
    ensures ParseAny(d, [DOLLAR] + Format(n) + CRLF + t) == NeedMore
  {
    LengthFrame(DOLLAR, BulkStringLength, n, t);
    ParseAnyDispatch(d, [DOLLAR] + Format(n) + CRLF + t);
  }

  /** After a positive length, the payload and a lone CR still need more input. */
  lemma PayloadCRCut(d: Dialect, n: i64, b: Bytes)
    requires 0 < n as int < RESP_MAX_SIZE && NoCR(b)
    ensures ParseAny(d, [DOLLAR] + Format(n) + CRLF + (b + [CR])) == NeedMore
  {
    var input := [DOLLAR] + Format(n) + CRLF + (b + [CR]);
    LengthFrame(DOLLAR, BulkStringLength, n, b + [CR]);
    PayloadThenCR(b);
    BulkCRStep(input, n, b);
    ParseAnyDispatch(d, input);
  }

  lemma PayloadThenCR(b: Bytes)
    requires NoCR(b)
    ensures TakeUntilCR(b + [CR]) == Done(b, [CR])
  {
    TakeUntilCRPrefix(b, []);
    assert b + [CR] + [] == b + [CR];
  }

  /** A length other than -1 and 0 followed by a payload and a lone CR needs more input. */
  lemma BulkCRStep(input: Bytes, n: i64, b: Bytes)
    requires ParseLength(input, DOLLAR, BulkStringLength) == Done(n, b + [CR]) && n != -1 && n != 0
    requires TakeUntilCR(b + [CR]) == Done(b, [CR])
    ensures ParseBulkString(input) == NeedMore
  {
  }

  /** One frame still short: the sequence of frames is short too. */
  lemma ElementsHeadShort(d: Dialect, input: Bytes, n: nat)
    requires n > 0 && ParseAny(d, input) == NeedMore
    ensures ParseElements(d, input, n) == NeedMore
  {
  }

  /** One frame complete and the remaining ones short: the sequence is short. */
  lemma ElementsTailShort(d: Dialect, input: Bytes, v: Value, mid: Bytes, n: nat)
    requires n > 0 && ParseAny(d, input) == Done(v, mid)
    requires ParseElements(d, mid, n - 1) == NeedMore
    ensures ParseElements(d, input, n) == NeedMore
  {
  }

  // Shapes of prefixes, kept apart from the parser terms.

  lemma PrefixInHead(h: Bytes, body: Bytes, k: nat)
    requires k <= |h|
    ensures (h + body)[..k] == h[..k]
  {
  }

  lemma PrefixPastHead(h: Bytes, body: Bytes, k: nat)
    requires |h| <= k <= |h| + |body|
    ensures (h + body)[..k] == h + body[..k - |h|]
  {
  }

  lemma FlattenPrefixHead(cs: seq<Bytes>, j: nat)
    requires cs != [] && j < |cs[0]|
    ensures Flatten(cs)[..j] == cs[0][..j]
  {
    PrefixInHead(cs[0], Flatten(cs[1..]), j);
  }

  lemma FlattenPrefixTail(cs: seq<Bytes>, j: nat)
    requires cs != [] && |cs[0]| <= j <= |Flatten(cs)|
    ensures |Flatten(cs)| == |cs[0]| + |Flatten(cs[1..])|
    ensures Flatten(cs)[..j] == cs[0] + Flatten(cs[1..])[..j - |cs[0]|]
  {
    PrefixPastHead(cs[0], Flatten(cs[1..]), j);
  }

  lemma FlattenLength(cs: seq<Bytes>, j: nat)
    requires j < |Flatten(cs)|
    ensures cs != [] && |Flatten(cs)| == |cs[0]| + |Flatten(cs[1..])|
  {
  }

  lemma BulkShape(b: Bytes)
    ensures Encode(BulkString(b)) == Line(DOLLAR, Digits(|b|)) + (b + CRLF)
  {
  }

  lemma ArrayShape(xs: seq<Value>)
    ensures Encode(Array(xs)) == Line(STAR, Digits(|xs|)) + EncodeAll(xs)
  {
  }

  lemma PayloadPrefixShape(b: Bytes, j: nat)
    requires NoCR(b) && j < |b| + 2
    ensures j <= |b| ==> (b + CRLF)[..j] == b[..j] && NoCR(b[..j])
    ensures j == |b| + 1 ==> (b + CRLF)[..j] == b + [CR]
  {
    if j <= |b| {
      PrefixInHead(b, CRLF, j);
      assert forall m | 0 <= m < j :: b[..j][m] == b[m];
    } else {
      PrefixPastHead(b, CRLF, j);
      assert CRLF[..1] == [CR];
    }
  }

  // Chunks whose proper prefixes all need more input.

  /** Every proper prefix of each chunk needs more input. */
  ghost predicate ShortFrames(d: Dialect, xs: seq<Value>, cs: seq<Bytes>) {
    |cs| == |xs| && forall i, k :: 0 <= i < |xs| && 0 <= k < |cs[i]| ==> ParseAny(d, cs[i][..k]) == NeedMore
  }

  lemma TailShortFrames(d: Dialect, xs: seq<Value>, cs: seq<Bytes>)
    requires ShortFrames(d, xs, cs) && xs != []
    ensures ShortFrames(d, xs[1..], cs[1..])
  {
    forall i, k | 0 <= i < |xs| - 1 && 0 <= k < |cs[1..][i]| ensures ParseAny(d, cs[1..][i][..k]) == NeedMore {
      assert cs[1..][i] == cs[i + 1];
    }
  }

  /** A cut inside the first chunk. */
  lemma CutInHead(d: Dialect, xs: seq<Value>, cs: seq<Bytes>, j: nat)
    requires ShortFrames(d, xs, cs) && xs != [] && j < |cs[0]|
    ensures ParseElements(d, Flatten(cs)[..j], |xs|) == NeedMore
  {
    FlattenPrefixHead(cs, j);
    ElementsHeadShort(d, cs[0][..j], |xs|);
  }

  /** A cut past the first chunk, given that the remaining chunks cut there are short. */
  lemma CutPastHead(d: Dialect, xs: seq<Value>, cs: seq<Bytes>, j: nat)
    requires Frames(d, xs, cs) && xs != [] && |cs[0]| <= j <= |Flatten(cs)|
    requires ParseElements(d, Flatten(cs[1..])[..j - |cs[0]|], |xs[1..]|) == NeedMore
    ensures ParseElements(d, Flatten(cs)[..j], |xs|) == NeedMore
  {
    FlattenPrefixTail(cs, j);
    var tail := Flatten(cs[1..])[..j - |cs[0]|];
    assert ParseAny(d, cs[0] + tail) == Done(xs[0], tail);
    ElementsTailShort(d, cs[0] + tail, xs[0], tail, |xs|);
  }

  /** A cut anywhere before the end of the last chunk leaves the frames short. */
  lemma {:induction false} ElementsCut(d: Dialect, xs: seq<Value>, cs: seq<Bytes>, j: nat)
    requires Frames(d, xs, cs) && ShortFrames(d, xs, cs) && j < |Flatten(cs)|
    ensures ParseElements(d, Flatten(cs)[..j], |xs|) == NeedMore
    decreases |cs|
  {
    FlattenLength(cs, j);
    if |cs[0]| <= j {
      TailFrames(d, xs, cs);
      TailShortFrames(d, xs, cs);
      ElementsCut(d, xs[1..], cs[1..], j - |cs[0]|);
      CutPastHead(d, xs, cs, j);
    } else {
      CutInHead(d, xs, cs, j);
    }
  }

  // Value-level statements.

  /** Every proper prefix of an encoding needs more input. */
  lemma {:induction false} PrefixNeedMore(d: Dialect, v: Value, k: nat)
    requires Encodable(d, v) && k < |Encode(v)|
    ensures ParseAny(d, Encode(v)[..k]) == NeedMore
    decreases v, 1
  {
    match v
    case Null =>
      MinusOneText();
      NumberLineCut(d, DOLLAR, -1, k);
    case NullArray =>
      MinusOneText();
      NumberLineCut(d, STAR, -1, k);
    case Integer(i) =>
      NumberLineCut(d, COLON, i, k);
    case SimpleString(s) =>
      SimpleLineCut(d, PLUS, s, k);
    case Error(e) =>
      SimpleLineCut(d, MINUS, e, k);
    case BulkString(b) =>
      BulkPrefix(d, b, k);
    case Array(xs) =>
      ArrayPrefix(d, xs, k);
  }

  /** The proper prefixes of an array's encoding: in its header, or somewhere among its elements. */
  lemma {:induction false} ArrayPrefix(d: Dialect, xs: seq<Value>, k: nat)
    requires Encodable(d, Array(xs)) && k < |Encode(Array(xs))|
    ensures ParseAny(d, Encode(Array(xs))[..k]) == NeedMore
    decreases xs, 3
  {
    ArrayShape(xs);
    if k < |Line(STAR, Digits(|xs|))| {
      ArrayHeadCut(d, xs, k);
    } else {
      ArrayTailCut(d, xs, k);
    }
  }

  lemma ArrayHeadCut(d: Dialect, xs: seq<Value>, k: nat)
    requires |xs| < RESP_MAX_SIZE && k < |Line(STAR, Digits(|xs|))|
    ensures ParseAny(d, Encode(Array(xs))[..k]) == NeedMore
  {
    var h := Line(STAR, Digits(|xs|));
    HeaderText(STAR, |xs|);
    ArrayShape(xs);
    PrefixInHead(h, EncodeAll(xs), k);
    NumberLineCut(d, STAR, |xs| as i64, k);
  }

  lemma {:induction false} ArrayTailCut(d: Dialect, xs: seq<Value>, k: nat)
    requires Encodable(d, Array(xs))
    requires |Line(STAR, Digits(|xs|))| <= k < |Encode(Array(xs))|
    ensures ParseAny(d, Encode(Array(xs))[..k]) == NeedMore
    decreases xs, 2
  {
    var h := Line(STAR, Digits(|xs|));
    HeaderText(STAR, |xs|);
    ArrayShape(xs);
    PrefixPastHead(h, EncodeAll(xs), k);
    ElementsPrefix(d, xs, k - |h|);
    ArrayFrame(d, |xs| as i64, EncodeAll(xs)[..k - |h|]);
  }

  /** The proper prefixes of a bulk string's encoding: in its header, its payload or its final CR. */
  lemma BulkPrefix(d: Dialect, b: Bytes, k: nat)
    requires NoCR(b) && |b| < RESP_MAX_SIZE && k < |Encode(BulkString(b))|
    ensures ParseAny(d, Encode(BulkString(b))[..k]) == NeedMore
  {
    BulkShape(b);
    if k < |Line(DOLLAR, Digits(|b|))| {
      BulkHeadCut(d, b, k);
    } else {
      BulkTailCut(d, b, k);
    }
  }

  lemma BulkHeadCut(d: Dialect, b: Bytes, k: nat)
    requires |b| < RESP_MAX_SIZE && k < |Line(DOLLAR, Digits(|b|))|
    ensures ParseAny(d, Encode(BulkString(b))[..k]) == NeedMore
  {
    var h := Line(DOLLAR, Digits(|b|));
    HeaderText(DOLLAR, |b|);
    BulkShape(b);
    PrefixInHead(h, b + CRLF, k);
    NumberLineCut(d, DOLLAR, |b| as i64, k);
  }

  lemma BulkTailCut(d: Dialect, b: Bytes, k: nat)
    requires NoCR(b) && |b| < RESP_MAX_SIZE
    requires |Line(DOLLAR, Digits(|b|))| <= k < |Encode(BulkString(b))|
    ensures ParseAny(d, Encode(BulkString(b))[..k]) == NeedMore
  {
    var h := Line(DOLLAR, Digits(|b|));
    BulkShape(b);
    PrefixPastHead(h, b + CRLF, k);
    BulkBodyCut(d, b, k - |h|);
  }

  /** A cut after the bulk string's header: in its payload or at its final CR. */
  lemma BulkBodyCut(d: Dialect, b: Bytes, j: nat)
    requires NoCR(b) && |b| < RESP_MAX_SIZE && j < |b| + 2
    ensures ParseAny(d, Line(DOLLAR, Digits(|b|)) + (b + CRLF)[..j]) == NeedMore
  {
    HeaderText(DOLLAR, |b|);
    PayloadPrefixShape(b, j);
    if b == [] {
      assert (b + CRLF)[..j] == [] || (b + CRLF)[..j] == [CR];
      EmptyBulkCut(d, (b + CRLF)[..j]);
    } else if j <= |b| {
      PayloadCut(d, |b| as i64, b[..j]);
    } else {
      PayloadCRCut(d, |b| as i64, b);
    }
  }

  /** Every proper prefix of the encodings of `xs` leaves the `|xs|` frames short. */
  lemma {:induction false} ElementsPrefix(d: Dialect, xs: seq<Value>, j: nat)
    requires AllEncodable(d, xs) && j < |EncodeAll(xs)|
    ensures ParseElements(d, EncodeAll(xs)[..j], |xs|) == NeedMore
    decreases xs, 0
  {
    var cs := seq(|xs|, i requires 0 <= i < |xs| => Encode(xs[i]));
    forall i, r | 0 <= i < |xs| ensures ParseAny(d, cs[i] + r) == Done(xs[i], r) {
      RoundTrip(d, xs[i], r);
    }
    forall i, k | 0 <= i < |xs| && 0 <= k < |cs[i]| ensures ParseAny(d, cs[i][..k]) == NeedMore {
      PrefixNeedMore(d, xs[i], k);
    }
    ElementsCut(d, xs, cs, j);
  }

  /** `parse` of a truncated encoding is `Incomplete`, never a parse error. */
  lemma TruncatedIsIncomplete(d: Dialect, v: Value, k: nat)
    requires Encodable(d, v) && k < |Encode(v)|
    ensures ParseWith(d, Encode(v)[..k]) == Err(Incomplete)
  {
    PrefixNeedMore(d, v, k);
  }

  /** A first byte other than `+ - : $ *` is a parse error, never `Incomplete`. */
  lemma UnknownIndicator(d: Dialect, input: Bytes)
    requires input != [] && input[0] !in {PLUS, MINUS, COLON, DOLLAR, STAR}
    ensures ParseWith(d, input) == Err(Parse)
  {
    ParseAnyDispatch(d, input);
  }

  /** A bulk length or array count outside [-1, 512 MiB) is a parse error, whatever follows. */
  lemma LengthOutOfRange(d: Dialect, n: i64, rest: Bytes)
    requires !(-1 <= n as int < RESP_MAX_SIZE)
    ensures ParseWith(d, [DOLLAR] + Format(n) + CRLF + rest) == Err(Parse)
    ensures ParseWith(d, [STAR] + Format(n) + CRLF + rest) == Err(Parse)
  {
    OutOfRangeFrames(d, n, rest);
  }
}
