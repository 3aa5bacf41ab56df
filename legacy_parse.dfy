/**
 * The older, non-streaming parser of `src/parser.rs`.
 *
 * It works on the whole request at once: running out of input is an
 * ordinary failure, never a request for more.  Simple strings and errors
 * run to the first CR LF pair; a bulk string skips its header up to the
 * first CR and takes its payload up to the next CR, so the declared length
 * is never read; an array reads and ignores its count and then greedily
 * collects simple strings, errors, bulk strings and integers, so arrays
 * cannot nest.  `parse` succeeds only when the value spans the whole input.
 * The source works on `&str`; every token it looks for is ASCII, so the
 * model works on the UTF-8 bytes of the text.
 */
module LegacyParse {
  import opened Wrappers
  import opened ByteStrings
  import opened Scan
  import opened Decimal

  datatype RedisType =
    | SimpleString(text: Bytes)
    | Error(text: Bytes)
    | Integer(n: i64)
    | BulkString(text: Bytes)
    | Array(items: seq<RedisType>)

  /** Why `parse` gave up: input left over after a value, or no value at all. */
  datatype ParseError = Trailing(rest: Bytes) | Invalid

  /** A CR LF pair starts at index `i` of `s`. */
  predicate CRLFAt(s: Bytes, i: int) {
    0 <= i && i + 1 < |s| && s[i] == CR && s[i + 1] == LF
  }

  predicate NoCRLF(s: Bytes) {
    forall i :: 0 <= i < |s| ==> !CRLFAt(s, i)
  }

  /** Complete "take until CR LF": the bytes before the first CR LF pair, which stays in the rest. */
  function TakeUntilCRLF(s: Bytes): (r: Step<Bytes>)
    ensures !r.NeedMore?
    ensures r.Done? ==> r.value + r.rest == s && CRLFAt(s, |r.value|)
    ensures r.Done? ==> forall i :: 0 <= i < |r.value| ==> !CRLFAt(s, i)
    ensures r.Fail? ==> NoCRLF(s)
    decreases |s|
  {
    if |s| < 2 then Fail
    else if s[0] == CR && s[1] == LF then Done([], s)
    else
      match TakeUntilCRLF(s[1..])
      case Done(v, rest) =>
        assert forall i :: 1 <= i <= |v| ==> (CRLFAt(s, i) <==> CRLFAt(s[1..], i - 1));
        Done([s[0]] + v, rest)
      case Fail =>
        assert forall i :: 1 <= i < |s| ==> (CRLFAt(s, i) <==> CRLFAt(s[1..], i - 1));
        Fail
      case NeedMore => Fail
  }

  /** Complete "take while not CR": everything up to the first CR, or all of it. */
  function TakeWhileNotCR(s: Bytes): (r: (Bytes, Bytes))
    ensures r.0 + r.1 == s && NoCR(r.0)
    ensures r.1 == [] || r.1[0] == CR
  {
    match TakeUntilCR(s)
    case Done(v, rest) => (v, rest)
    case _ => (s, [])
  }

  /** An indicator, the text up to the first CR LF, then the line ending. */
  function ParseLine(input: Bytes, indicator: byte): (r: Step<Bytes>)
    ensures !r.NeedMore?
    ensures r.Done? ==> |r.rest| + |r.value| + 3 <= |input|
  {
    match Indicator(input, indicator, false)
    case Done(_, a) =>
      (match TakeUntilCRLF(a)
       case Done(text, b) =>
         (match LineEnding(b, false)
          case Done(_, c) => Done(text, c)
          case _ => Fail)
       case _ => Fail)
    case _ => Fail
  }

  function ParseSimpleString(input: Bytes): (r: Step<RedisType>)
    ensures !r.NeedMore?
    ensures r.Done? ==> |r.rest| < |input| && r.value.SimpleString?
  {
    match ParseLine(input, PLUS)
    case Done(text, rest) => Done(SimpleString(text), rest)
    case _ => Fail
  }

  function ParseSimpleError(input: Bytes): (r: Step<RedisType>)
    ensures !r.NeedMore?
    ensures r.Done? ==> |r.rest| < |input| && r.value.Error?
  {
    match ParseLine(input, MINUS)
    case Done(text, rest) => Done(Error(text), rest)
    case _ => Fail
  }

  /**
   * `$`, a header up to the first CR (never read as a number), the CR and a
   * line ending, then the payload up to the next CR and a line ending.
   */
  function ParseBulkString(input: Bytes): (r: Step<RedisType>)
    ensures !r.NeedMore?
    ensures r.Done? ==> |r.rest| < |input| && r.value.BulkString?
  {
    match Indicator(input, DOLLAR, false)
    case Done(_, a) =>
      var (_, b) := TakeWhileNotCR(a);
      (match Indicator(b, CR, false)
       case Done(_, c) =>
         (match LineEnding(c, false)
          case Done(_, e) =>
            var (payload, f) := TakeWhileNotCR(e);
            (match LineEnding(f, false)
             case Done(_, g) => Done(BulkString(payload), g)
             case _ => Fail)
          case _ => Fail)
       case _ => Fail)
    case _ => Fail
  }

  /** `:`, a signed decimal, then a line ending. */
  function ParseInteger(input: Bytes): (r: Step<RedisType>)
    ensures !r.NeedMore?
    ensures r.Done? ==> |r.rest| < |input| && r.value.Integer?
  {
    match Indicator(input, COLON, false)
    case Done(_, a) =>
      (match ParseI64(a, false)
       case Done(n, b) =>
         (match LineEnding(b, false)
          case Done(_, c) => Done(Integer(n), c)
          case _ => Fail)
       case _ => Fail)
    case _ => Fail
  }

  /** What an array may hold: the four line types, never another array. */
  function ParseElement(input: Bytes): (r: Step<RedisType>)
    ensures !r.NeedMore?
    ensures r.Done? ==> |r.rest| < |input| && !r.value.Array?
  {
    var s := ParseSimpleString(input);
    if !s.Fail? then s
    else
      var e := ParseSimpleError(input);
      if !e.Fail? then e
      else
        var b := ParseBulkString(input);
        if !b.Fail? then b
        else ParseInteger(input)
  }

  /** Greedy repetition: elements for as long as one parses; it never fails. */
  function Many0(input: Bytes): (r: (seq<RedisType>, Bytes))
    ensures |r.1| <= |input|
    ensures ParseElement(r.1).Fail?
    ensures forall i :: 0 <= i < |r.0| ==> !r.0[i].Array?
    decreases |input|
  {
    match ParseElement(input)
    case Done(v, rest) =>
      var (vs, tail) := Many0(rest);
      ([v] + vs, tail)
    case _ => ([], input)
  }

  /** `*`, a count that is read and ignored, the rest of the line, then the elements. */
  function ParseArray(input: Bytes): (r: Step<RedisType>)
    ensures !r.NeedMore?
    ensures r.Done? ==> |r.rest| < |input| && r.value.Array?
    ensures r.Done? ==> forall i :: 0 <= i < |r.value.items| ==> !r.value.items[i].Array?
  {
    match Indicator(input, STAR, false)
    case Done(_, a) =>
      (match ParseI64(a, false)
       case Done(_, b) =>
         var (_, c) := TakeWhileNotCR(b);
         (match Indicator(c, CR, false)
          case Done(_, e) =>
            (match LineEnding(e, false)
             case Done(_, f) =>
               var (items, g) := Many0(f);
               Done(Array(items), g)
             case _ => Fail)
          case _ => Fail)
       case _ => Fail)
    case _ => Fail
  }

  /** Any one value: array, simple string, error, bulk string, integer, in that order. */
  function ParseTop(input: Bytes): (r: Step<RedisType>)
    ensures !r.NeedMore?
    ensures r.Done? ==> |r.rest| < |input|
  {
    var a := ParseArray(input);
    if !a.Fail? then a else ParseElement(input)
  }

  /** `parse`: one value that spans the whole input. */
  function Parse(input: Bytes): (r: Result<RedisType, ParseError>)
    ensures r.Ok? <==> ParseTop(input).Done? && ParseTop(input).rest == []
    ensures r.Ok? ==> r.value == ParseTop(input).value
    ensures r == Err(Invalid) <==> ParseTop(input).Fail?
    ensures r.Err? && r.error.Trailing? ==> r.error.rest != [] && r.error.rest == ParseTop(input).rest
  {
    match ParseTop(input)
    case Done(v, rest) => if rest == [] then Ok(v) else Err(Trailing(rest))
    case _ => Err(Invalid)
  }
}
