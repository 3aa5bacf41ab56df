/**
 * What the RESP parser does with each kind of frame, stated on the frame's
 * bytes: the line scanners, dispatch on the first byte, the frames of every
 * variant, the null and empty forms, the range check on lengths, and the
 * bulk-string payload that runs to the first CR whatever the declared length.
 */
module RespFrames {
  import opened Wrappers
  import opened ByteStrings
  import opened Scan
  import opened Decimal
  import opened RespValue
  import opened RespParse

  /** A number line parses to its number whatever follows it. */
  lemma NumberLineFrame(indicator: byte, i: i64, rest: Bytes)
    ensures ParseNumberLine([indicator] + Format(i) + CRLF + rest, indicator) == Done(i, rest)
  {
    var input := [indicator] + Format(i) + CRLF + rest;
    assert input[1..] == Format(i) + (CRLF + rest);
    FormatParses(i, CRLF + rest, true);
    LineEndingCRLF(rest, true);
  }

  /** A number line whose number needs more input needs more input. */
  lemma NumberShortStep(input: Bytes, indicator: byte)
    requires input != [] && input[0] == indicator
    requires ParseI64(input[1..], true) == NeedMore
    ensures ParseNumberLine(input, indicator) == NeedMore
  {
  }

  /** A number line cut just before its LF needs more input. */
  lemma NumberCRStep(input: Bytes, indicator: byte, n: i64)
    requires input != [] && input[0] == indicator
    requires ParseI64(input[1..], true) == Done(n, [CR])
    ensures ParseNumberLine(input, indicator) == NeedMore
  {
  }

  /** Every proper prefix of a number line needs more input. */
  lemma NumberLinePrefix(indicator: byte, i: i64, k: nat)
    requires k < |Format(i)| + 3
    ensures ParseNumberLine(([indicator] + Format(i) + CRLF)[..k], indicator) == NeedMore
  {
    var input := ([indicator] + Format(i) + CRLF)[..k];
    if k == 0 {
      assert input == [];
    } else if k <= |Format(i)| + 1 {
      assert input[1..] == Format(i)[..k - 1];
      FormatPrefixNeedMore(i, k - 1);
      NumberShortStep(input, indicator);
    } else {
      assert input[1..] == Format(i) + [CR];
      FormatParses(i, [CR], true);
      NumberCRStep(input, indicator, i);
    }
  }

  /** The three steps of a simple line, in order. */
  lemma SimpleSteps(input: Bytes, indicator: byte, text: Bytes, b: Bytes, c: Bytes)
    requires input != [] && input[0] == indicator
    requires TakeUntilCR(input[1..]) == Done(text, b)
    requires LineEnding(b, true) == Done((), c)
    ensures ParseSimple(input, indicator) == Done(text, c)
  {
  }

  lemma SimpleLineBody(indicator: byte, text: Bytes, rest: Bytes)
    requires NoCR(text)
    ensures TakeUntilCR(([indicator] + text + CRLF + rest)[1..]) == Done(text, [CR] + ([LF] + rest))
  {
    assert ([indicator] + text + CRLF + rest)[1..] == text + [CR] + ([LF] + rest);
    TakeUntilCRPrefix(text, [LF] + rest);
  }

  lemma LineEndingSplit(rest: Bytes)
    ensures LineEnding([CR] + ([LF] + rest), true) == Done((), rest)
  {
    assert [CR] + ([LF] + rest) == CRLF + rest;
    LineEndingCRLF(rest, true);
  }

  /** A simple line parses to the bytes before its CR LF whatever follows it. */
  lemma SimpleLine(indicator: byte, text: Bytes, rest: Bytes)
    requires NoCR(text)
    ensures ParseSimple([indicator] + text + CRLF + rest, indicator) == Done(text, rest)
  {
    SimpleLineBody(indicator, text, rest);
    LineEndingSplit(rest);
    SimpleSteps([indicator] + text + CRLF + rest, indicator, text, [CR] + ([LF] + rest), rest);
  }

  /** Every proper prefix of a simple line needs more input. */
  lemma SimplePrefix(indicator: byte, text: Bytes, k: nat)
    requires NoCR(text) && k < |text| + 3
    ensures ParseSimple(([indicator] + text + CRLF)[..k], indicator) == NeedMore
  {
    var input := ([indicator] + text + CRLF)[..k];
    if k == 0 {
      assert input == [];
    } else if k <= |text| + 1 {
      assert input[1..] == text[..k - 1];
    } else {
      assert input[1..] == text + [CR] + [];
      TakeUntilCRPrefix(text, []);
    }
  }

  /** A frame parser whose indicator is not the first byte fails at once. */
  lemma WrongIndicator(d: Dialect, input: Bytes)
    requires input != []
    ensures input[0] != PLUS ==> ParseSimpleString(d, input) == Fail
    ensures input[0] != STAR ==> ParseArray(d, input) == Fail
    ensures input[0] != MINUS ==> ParseSimpleError(input) == Fail
    ensures input[0] != DOLLAR ==> ParseBulkString(input) == Fail
    ensures input[0] != COLON ==> ParseInteger(input) == Fail
  {
  }

  /**
   * The alternative amounts to a dispatch on the first byte: empty input
   * needs more, each indicator selects its own frame parser, and any other
   * first byte fails.
   */
  lemma ParseAnyDispatch(d: Dialect, input: Bytes)
    ensures input == [] ==> ParseAny(d, input) == NeedMore
    ensures input != [] && input[0] == PLUS ==> ParseAny(d, input) == ParseSimpleString(d, input)
    ensures input != [] && input[0] == STAR ==> ParseAny(d, input) == ParseArray(d, input)
    ensures input != [] && input[0] == MINUS ==> ParseAny(d, input) == ParseSimpleError(input)
    ensures input != [] && input[0] == DOLLAR ==> ParseAny(d, input) == ParseBulkString(input)
    ensures input != [] && input[0] == COLON ==> ParseAny(d, input) == ParseInteger(input)
    ensures input != [] && input[0] !in {PLUS, STAR, MINUS, DOLLAR, COLON} ==> ParseAny(d, input) == Fail
  {
    if input != [] {
      WrongIndicator(d, input);
    }
  }

  /** `+text\r\n` is the simple string `text`, when the dialect accepts the text. */
  lemma SimpleStringFrame(d: Dialect, text: Bytes, rest: Bytes)
    requires NoCR(text) && (d == Older || ValidUtf8(text))
    ensures ParseAny(d, [PLUS] + text + CRLF + rest) == Done(SimpleString(text), rest)
  {
    SimpleLine(PLUS, text, rest);
    ParseAnyDispatch(d, [PLUS] + text + CRLF + rest);
  }

  /**
   * Text that is not UTF-8 makes `+text\r\n` fail in the current snapshot,
   * while the older one keeps the raw bytes.
   */
  lemma SimpleStringNotUtf8(text: Bytes, rest: Bytes)
    requires NoCR(text) && !ValidUtf8(text)
    ensures ParseAny(Current, [PLUS] + text + CRLF + rest) == Fail
    ensures ParseAny(Older, [PLUS] + text + CRLF + rest) == Done(SimpleString(text), rest)
  {
    SimpleLine(PLUS, text, rest);
    ParseAnyDispatch(Current, [PLUS] + text + CRLF + rest);
    ParseAnyDispatch(Older, [PLUS] + text + CRLF + rest);
    WrongIndicator(Current, [PLUS] + text + CRLF + rest);
  }

  /** `-text\r\n` is the error `text` exactly when the text is UTF-8, in both dialects. */
  lemma ErrorFrame(d: Dialect, text: Bytes, rest: Bytes)
    requires NoCR(text)
    ensures ValidUtf8(text) ==> ParseAny(d, [MINUS] + text + CRLF + rest) == Done(Error(text), rest)
    ensures !ValidUtf8(text) ==> ParseAny(d, [MINUS] + text + CRLF + rest) == Fail
  {
    SimpleLine(MINUS, text, rest);
    ParseAnyDispatch(d, [MINUS] + text + CRLF + rest);
    WrongIndicator(d, [MINUS] + text + CRLF + rest);
  }

  /** `:n\r\n` is the integer `n`. */
  lemma IntegerFrame(d: Dialect, i: i64, rest: Bytes)
    ensures ParseAny(d, [COLON] + Format(i) + CRLF + rest) == Done(Integer(i), rest)
  {
    NumberLineFrame(COLON, i, rest);
    ParseAnyDispatch(d, [COLON] + Format(i) + CRLF + rest);
  }

  /** A length line gives its number when it is in range, and fails otherwise. */
  lemma LengthFrame(delimiter: byte, kind: OutOfRangeType, n: i64, rest: Bytes)
    ensures -1 <= n as int < RESP_MAX_SIZE ==> ParseLength([delimiter] + Format(n) + CRLF + rest, delimiter, kind) == Done(n, rest)
    ensures !(-1 <= n as int < RESP_MAX_SIZE) ==> ParseLength([delimiter] + Format(n) + CRLF + rest, delimiter, kind) == Fail
  {
    NumberLineFrame(delimiter, n, rest);
  }

  /** A declared length or count below -1 or at least 512 MiB is a failure, not a shortage. */
  lemma OutOfRangeFrames(d: Dialect, n: i64, rest: Bytes)
    requires !(-1 <= n as int < RESP_MAX_SIZE)
    ensures ParseAny(d, [DOLLAR] + Format(n) + CRLF + rest) == Fail
    ensures ParseAny(d, [STAR] + Format(n) + CRLF + rest) == Fail
  {
    LengthFrame(DOLLAR, BulkStringLength, n, rest);
    LengthFrame(STAR, ArrayCount, n, rest);
    ParseAnyDispatch(d, [DOLLAR] + Format(n) + CRLF + rest);
    ParseAnyDispatch(d, [STAR] + Format(n) + CRLF + rest);
  }

  /** Length -1 is the null bulk string and count -1 the null array. */
  lemma NullFrames(d: Dialect, rest: Bytes)
    ensures ParseAny(d, [DOLLAR] + Format(-1) + CRLF + rest) == Done(Null, rest)
    ensures ParseAny(d, [STAR] + Format(-1) + CRLF + rest) == Done(NullArray, rest)
  {
    LengthFrame(DOLLAR, BulkStringLength, -1, rest);
    LengthFrame(STAR, ArrayCount, -1, rest);
    ParseAnyDispatch(d, [DOLLAR] + Format(-1) + CRLF + rest);
    ParseAnyDispatch(d, [STAR] + Format(-1) + CRLF + rest);
  }

  /** Length 0 takes one more line ending and is the empty bulk string. */
  lemma EmptyBulkFrame(d: Dialect, rest: Bytes)
    ensures ParseAny(d, [DOLLAR] + Format(0) + CRLF + CRLF + rest) == Done(BulkString([]), rest)
  {
    LengthFrame(DOLLAR, BulkStringLength, 0, CRLF + rest);
    assert [DOLLAR] + Format(0) + CRLF + CRLF + rest == [DOLLAR] + Format(0) + CRLF + (CRLF + rest);
    LineEndingCRLF(rest, true);
    ParseAnyDispatch(d, [DOLLAR] + Format(0) + CRLF + CRLF + rest);
  }

  /** The steps of a bulk string with a length other than -1 and 0, in order. */
  lemma BulkSteps(input: Bytes, n: i64, b: Bytes, payload: Bytes, c: Bytes, rest: Bytes)
    requires ParseLength(input, DOLLAR, BulkStringLength) == Done(n, b) && n != -1 && n != 0
    requires TakeUntilCR(b) == Done(payload, c)
    requires LineEnding(c, true) == Done((), rest)
    ensures ParseBulkString(input) == Done(BulkString(payload), rest)
  {
  }

  lemma PayloadLine(payload: Bytes, rest: Bytes)
    requires NoCR(payload)
    ensures TakeUntilCR(payload + CRLF + rest) == Done(payload, [CR] + ([LF] + rest))
  {
    assert payload + CRLF + rest == payload + [CR] + ([LF] + rest);
    TakeUntilCRPrefix(payload, [LF] + rest);
  }

  /**
   * Any other length in range: the payload is everything up to the first CR,
   * and the declared length `n` is never compared with the payload's size.
   */
  lemma BulkFrame(d: Dialect, n: i64, payload: Bytes, rest: Bytes)
    requires 0 < n as int < RESP_MAX_SIZE && NoCR(payload)
    ensures ParseAny(d, [DOLLAR] + Format(n) + CRLF + (payload + CRLF + rest)) == Done(BulkString(payload), rest)
  {
    var input := [DOLLAR] + Format(n) + CRLF + (payload + CRLF + rest);
    LengthFrame(DOLLAR, BulkStringLength, n, payload + CRLF + rest);
    PayloadLine(payload, rest);
    LineEndingSplit(rest);
    BulkSteps(input, n, payload + CRLF + rest, payload, [CR] + ([LF] + rest), rest);
    ParseAnyDispatch(d, input);
  }

  /** A count in range is followed by exactly that many frames, which make up the array. */
  lemma ArrayFrame(d: Dialect, n: i64, rest: Bytes)
    requires 0 <= n as int < RESP_MAX_SIZE
    ensures var e := ParseElements(d, rest, n as nat);
            ParseAny(d, [STAR] + Format(n) + CRLF + rest)
            == (if e.Done? then Done(Array(e.value), e.rest) else if e.NeedMore? then NeedMore else Fail)
  {
    LengthFrame(STAR, ArrayCount, n, rest);
    ParseAnyDispatch(d, [STAR] + Format(n) + CRLF + rest);
  }
}
