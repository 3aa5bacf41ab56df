/**
 * The streaming RESP parser.  Two snapshots of the server carry it
 * (`src/resp/parse.rs` and `redis/src/resp/mod.rs`); they differ in one
 * place only, the UTF-8 check on simple strings, so the grammar is written
 * once and takes the snapshot as a `Dialect`.
 *
 * Every parser is streaming: running out of input in the middle of a frame
 * is `NeedMore`, not a failure.  `ParseAny` tries the five frame parsers in
 * the order the source lists them and keeps the first answer that is not a
 * failure, exactly as a parser alternative does.
 */
module RespParse {
  import opened Wrappers
  import opened ByteStrings
  import opened Scan
  import opened Decimal
  import opened RespValue

  /** `Current` is `src/resp/parse.rs`; `Older` is `redis/src/resp/mod.rs`. */
  datatype Dialect = Current | Older

  datatype OutOfRangeType = ArrayCount | BulkStringLength

  datatype Error =
    | OutOfRange(kind: OutOfRangeType, n: i64)
    | Parse
    | Utf8
    | Incomplete

  /** Largest accepted length or count, exclusive: 512 MiB. */
  const RESP_MAX_SIZE: int := 512 * 1024 * 1024

  /** The range check of a declared length or count: -1 (null) up to, not including, 512 MiB. */
  function CheckLength(kind: OutOfRangeType, n: i64): (r: Result<i64, Error>)
    ensures r.Ok? <==> -1 <= n as int < RESP_MAX_SIZE
    ensures r.Ok? ==> r.value == n
    ensures r.Err? ==> r.error == OutOfRange(kind, n)
  {
    if -1 <= n as int < RESP_MAX_SIZE then Ok(n) else Err(OutOfRange(kind, n))
  }

  /** `std::str::from_utf8`, as far as its verdict goes. */
  function CheckUtf8(text: Bytes): (r: Result<Bytes, Error>)
    ensures r.Ok? <==> ValidUtf8(text)
    ensures r.Ok? ==> r.value == text
    ensures r.Err? ==> r.error == Utf8
  {
    if ValidUtf8(text) then Ok(text) else Err(Utf8)
  }

  /** An indicator byte, everything up to the first CR, then a line ending. */
  function ParseSimple(input: Bytes, indicator: byte): (r: Step<Bytes>)
    ensures r.Done? ==> |r.rest| + |r.value| + 3 <= |input|
  {
    match Indicator(input, indicator, true)
    case NeedMore => NeedMore
    case Fail => Fail
    case Done(_, a) =>
      match TakeUntilCR(a)
      case NeedMore => NeedMore
      case Fail => Fail
      case Done(text, b) =>
        match LineEnding(b, true)
        case NeedMore => NeedMore
        case Fail => Fail
        case Done(_, c) => Done(text, c)
  }

  /** `+text\r\n`: the current snapshot insists on UTF-8 text, the older one keeps raw bytes. */
  function ParseSimpleString(d: Dialect, input: Bytes): (r: Step<Value>)
    ensures r.Done? ==> |r.rest| < |input| && r.value.SimpleString?
  {
    match ParseSimple(input, PLUS)
    case NeedMore => NeedMore
    case Fail => Fail
    case Done(text, rest) =>
      if d == Older || text == [] then Done(SimpleString(text), rest)
      else match CheckUtf8(text)
        case Ok(t) => Done(SimpleString(t), rest)
        case Err(_) => Fail
  }

  /** `-text\r\n`, with UTF-8 text in both snapshots. */
  function ParseSimpleError(input: Bytes): (r: Step<Value>)
    ensures r.Done? ==> |r.rest| < |input| && r.value.Error?
  {
    match ParseSimple(input, MINUS)
    case NeedMore => NeedMore
    case Fail => Fail
    case Done(text, rest) =>
      match CheckUtf8(text)
      case Ok(t) => Done(Error(t), rest)
      case Err(_) => Fail
  }

  /** An indicator byte, a signed 64-bit decimal, then a line ending. */
  function ParseNumberLine(input: Bytes, indicator: byte): (r: Step<i64>)
    ensures r.Done? ==> |r.rest| + 3 <= |input|
  {
    match Indicator(input, indicator, true)
    case NeedMore => NeedMore
    case Fail => Fail
    case Done(_, a) =>
      match ParseI64(a, true)
      case NeedMore => NeedMore
      case Fail => Fail
      case Done(n, b) =>
        match LineEnding(b, true)
        case NeedMore => NeedMore
        case Fail => Fail
        case Done(_, c) => Done(n, c)
  }

  /** `:n\r\n`. */
  function ParseInteger(input: Bytes): (r: Step<Value>)
    ensures r.Done? ==> |r.rest| < |input| && r.value.Integer?
  {
    match ParseNumberLine(input, COLON)
    case NeedMore => NeedMore
    case Fail => Fail
    case Done(n, c) => Done(Integer(n), c)
  }

  /** A length or count line, `$n\r\n` or `*n\r\n`; a value out of range fails. */
  function ParseLength(input: Bytes, delimiter: byte, kind: OutOfRangeType): (r: Step<i64>)
    ensures r.Done? ==> |r.rest| < |input| && -1 <= r.value as int < RESP_MAX_SIZE
  {
    match ParseNumberLine(input, delimiter)
    case NeedMore => NeedMore
    case Fail => Fail
    case Done(n, c) =>
      match CheckLength(kind, n)
      case Ok(len) => Done(len, c)
      case Err(_) => Fail
  }

  /**
   * A bulk string.  Length -1 is the null bulk string and length 0 the empty
   * one; for any other length the payload is every byte up to the first CR,
   * whatever the declared length says.
   */
  function ParseBulkString(input: Bytes): (r: Step<Value>)
    ensures r.Done? ==> |r.rest| < |input| && (r.value.Null? || r.value.BulkString?)
  {
    match ParseLength(input, DOLLAR, BulkStringLength)
    case NeedMore => NeedMore
    case Fail => Fail
    case Done(n, rest) =>
      if n == -1 then Done(Null, rest)
      else if n == 0 then
        match LineEnding(rest, true)
        case NeedMore => NeedMore
        case Fail => Fail
        case Done(_, c) => Done(BulkString([]), c)
      else
        match TakeUntilCR(rest)
        case NeedMore => NeedMore
        case Fail => Fail
        case Done(payload, b) =>
          match LineEnding(b, true)
          case NeedMore => NeedMore
          case Fail => Fail
          case Done(_, c) => Done(BulkString(payload), c)
  }

  /** Any one frame: the five frame parsers in the source's order, first non-failure wins. */
  function ParseAny(d: Dialect, input: Bytes): (r: Step<Value>)
    ensures r.Done? ==> |r.rest| < |input|
    decreases |input|, 2
  {
    var s := ParseSimpleString(d, input);
    if !s.Fail? then s
    else
      var a := ParseArray(d, input);
      if !a.Fail? then a
      else
        var e := ParseSimpleError(input);
        if !e.Fail? then e
        else
          var b := ParseBulkString(input);
          if !b.Fail? then b
          else ParseInteger(input)
  }

  /** `*n\r\n` and then exactly `n` frames; count -1 is the null array. */
  function ParseArray(d: Dialect, input: Bytes): (r: Step<Value>)
    ensures r.Done? ==> |r.rest| < |input| && (r.value.NullArray? || r.value.Array?)
    decreases |input|, 1
  {
    match ParseLength(input, STAR, ArrayCount)
    case NeedMore => NeedMore
    case Fail => Fail
    case Done(n, rest) =>
      if n == -1 then Done(NullArray, rest)
      else
        match ParseElements(d, rest, n as nat)
        case NeedMore => NeedMore
        case Fail => Fail
        case Done(items, c) => Done(Array(items), c)
  }

  /** Exactly `n` frames one after the other; the first failure or shortage ends it. */
  function ParseElements(d: Dialect, input: Bytes, n: nat): (r: Step<seq<Value>>)
    ensures r.Done? ==> |r.rest| <= |input| && |r.value| == n
    decreases |input|, 3, n
  {
    if n == 0 then Done([], input)
    else
      match ParseAny(d, input)
      case NeedMore => NeedMore
      case Fail => Fail
      case Done(v, rest) =>
        match ParseElements(d, rest, n - 1)
        case NeedMore => NeedMore
        case Fail => Fail
        case Done(vs, c) => Done([v] + vs, c)
  }

  /**
   * `parse`: exactly one frame and nothing after it.  Trailing bytes and
   * every failure are `Parse`; running out of input is `Incomplete`.
   */
  function ParseWith(d: Dialect, input: Bytes): (r: Result<Value, Error>)
    ensures r.Err? ==> r.error == Parse || r.error == Incomplete
    ensures r.Ok? <==> ParseAny(d, input).Done? && ParseAny(d, input).rest == []
    ensures r.Ok? ==> r.value == ParseAny(d, input).value
    ensures r == Err(Incomplete) <==> ParseAny(d, input).NeedMore?
  {
    match ParseAny(d, input)
    case Done(v, rest) => if rest == [] then Ok(v) else Err(Parse)
    case NeedMore => Err(Incomplete)
    case Fail => Err(Parse)
  }

  /** The current snapshot's `parse`. */
  function ParseFrame(input: Bytes): (r: Result<Value, Error>)
    ensures r.Err? ==> r.error == Parse || r.error == Incomplete
  {
    ParseWith(Current, input)
  }

  /** The older snapshot's `parse`. */
  function ParseFrameOlder(input: Bytes): (r: Result<Value, Error>)
    ensures r.Err? ==> r.error == Parse || r.error == Incomplete
  {
    ParseWith(Older, input)
  }
}
