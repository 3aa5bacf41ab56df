/**
 * Turning a request into a command (`src/parser/mod.rs`).
 *
 * `ParseRequest` accepts only a top-level array.  `ReadCommand` then walks the array
 * with a cursor: a case-insensitive keyword, then the arguments of that
 * command.  `Decode` is the same reading stated position by position over
 * the elements the cursor has left; `ReadCommand` is proved to agree with it,
 * including how many takes it makes, and the lemmas below are about
 * `Decode`.
 *
 * An expiration is a number of milliseconds: `Duration::from_secs(n as u64)`
 * is `(n as u64) * 1000` of them and `Duration::from_millis(n as u64)` is
 * `n as u64`, where `n as u64` wraps a negative `n` round to `n + 2^64`.
 */
module Commands {
  import opened Wrappers
  import opened ByteStrings
  import opened Decimal
  import opened Cursor
  import RespValue
  import RespParse

  /** The command keywords generated into `COMMAND_KEYWORDS`. */
  datatype Keyword = PingWord | EchoWord | CommandWord | GetWord | SetWord

  /** The `SET` modifiers generated into `SET_PARAMS`. */
  datatype SetParam = EX | PX

  /** Keys are ASCII lower case: a lookup lower-cases the word first. */
  const COMMAND_KEYWORDS: map<Bytes, Keyword> :=
    map[Ascii("ping") := PingWord, Ascii("echo") := EchoWord, Ascii("command") := CommandWord,
        Ascii("get") := GetWord, Ascii("set") := SetWord]

  const SET_PARAMS: map<Bytes, SetParam> := map[Ascii("ex") := EX, Ascii("px") := PX]

  datatype Command =
    | Ping
    | Command
    | Echo(text: Bytes)
    | Get(key: Bytes)
    | Set(key: Bytes, value: RespValue.Value, expiration: Option<nat>)

  datatype Error =
    | InvalidInput
    | NotExists
    | InvalidCommandArgument
    | Parse(resp: RespParse.Error)
    | Value(value: ValueError)

  const U64_MODULUS: int := 0x1_0000_0000_0000_0000

  /** Rust's `n as u64` on an `i64`. */
  function AsU64(n: i64): (r: nat)
    ensures r < U64_MODULUS
    ensures n >= 0 ==> r == n as int
    ensures n < 0 ==> r == n as int + U64_MODULUS
  {
    if n >= 0 then n as nat else (n as int + U64_MODULUS) as nat
  }

  /** The expiration, in milliseconds, of a modifier and its number. */
  function Expiration(p: SetParam, n: i64): (ms: nat)
    ensures p == EX ==> ms == AsU64(n) * 1000
    ensures p == PX ==> ms == AsU64(n)
  {
    match p
    case EX => AsU64(n) * 1000
    case PX => AsU64(n)
  }

  /** `Parser::parse`: a RESP frame that must be an array; its elements are what the cursor walks. */
  function ParseRequest(input: Bytes): (r: Result<seq<RespValue.Value>, Error>)
    ensures r.Ok? <==> RespParse.ParseFrame(input).Ok? && RespParse.ParseFrame(input).value.Array?
    ensures r.Ok? ==> r.value == RespParse.ParseFrame(input).value.items
    ensures RespParse.ParseFrame(input).Err? ==> r == Err(Parse(RespParse.ParseFrame(input).error))
    ensures RespParse.ParseFrame(input).Ok? && !RespParse.ParseFrame(input).value.Array? ==> r == Err(InvalidInput)
  {
    match RespParse.ParseFrame(input)
    case Ok(v) => if v.Array? then Ok(v.items) else Err(InvalidInput)
    case Err(e) => Err(Parse(e))
  }

  /** A result of reading commands, and how many elements the cursor took for it. */
  datatype Decoded = Decoded(result: Result<Command, Error>, takes: nat)

  /**
   * The command that the elements `args`, not yet taken, spell out, and the
   * number of takes `ReadCommand` makes to read it.  A take past the end still
   * counts, so `takes` can exceed `|args|` by one.
   */
  function Decode(args: seq<RespValue.Value>): (r: Decoded)
    ensures 1 <= r.takes <= 5 && r.takes <= |args| + 1
  {
    if args == [] then Decoded(Err(Value(OutOfBounds)), 1)
    else
      match UncasedOf(args[0])
      case Err(e) => Decoded(Err(Value(e)), 1)
      case Ok(word) =>
        if word !in COMMAND_KEYWORDS then Decoded(Err(NotExists), 1)
        else
          match COMMAND_KEYWORDS[word]
          case PingWord => Decoded(Ok(Ping), 1)
          case CommandWord => Decoded(Ok(Command), 1)
          case EchoWord =>
            var a := TextArgument(args[1..]);
            Decoded(if a.Ok? then Ok(Echo(a.value)) else Err(Value(a.error)), 2)
          case GetWord =>
            var a := TextArgument(args[1..]);
            Decoded(if a.Ok? then Ok(Get(a.value)) else Err(Value(a.error)), 2)
          case SetWord =>
            var s := DecodeSet(args[1..]);
            Decoded(s.result, s.takes + 1)
  }

  /** The first of `args` as text, or why it is not. */
  function TextArgument(args: seq<RespValue.Value>): (r: Result<Bytes, ValueError>)
    ensures args == [] ==> r == Err(OutOfBounds)
    ensures args != [] ==> r == TextOf(args[0])
  {
    if args == [] then Err(OutOfBounds) else TextOf(args[0])
  }

  /** The arguments of `SET`: a key, a value, then an optional modifier and its number. */
  function DecodeSet(args: seq<RespValue.Value>): (r: Decoded)
    ensures 1 <= r.takes <= 4 && r.takes <= |args| + 1
  {
    match TextArgument(args)
    case Err(e) => Decoded(Err(Value(e)), 1)
    case Ok(key) =>
      if |args| < 2 then Decoded(Err(Value(OutOfBounds)), 2)
      else if |args| < 3 then Decoded(Ok(Set(key, args[1], None)), 3)
      else
        match UncasedOf(args[2])
        case Err(e) => Decoded(Err(Value(e)), 3)
        case Ok(word) =>
          if word !in SET_PARAMS then Decoded(Err(InvalidCommandArgument), 3)
          else if |args| < 4 then Decoded(Err(Value(OutOfBounds)), 4)
          else
            match NumberOf(args[3])
            case Err(e) => Decoded(Err(Value(e)), 4)
            case Ok(n) => Decoded(Ok(Set(key, args[1], Some(Expiration(SET_PARAMS[word], n)))), 4)
  }

  /**
   * `Parser::command`: reads a command off the cursor.  The result is what
   * `Decode` says of the elements the cursor had left, and the cursor has
   * moved on by exactly the number of takes `Decode` counts.
   */
  method ReadCommand(ast: Values) returns (r: Result<Command, Error>)
    requires ast.Valid()
    modifies ast
    ensures ast.Valid()
    ensures r == Decode(old(ast.Remaining())).result
    ensures ast.idx == old(ast.idx) + Decode(old(ast.Remaining())).takes
  {
    var keyword := ast.GetUncasedString();
    if keyword.Err? {
      return Err(Value(keyword.error));
    }
    var word := keyword.value;
    if word !in COMMAND_KEYWORDS {
      return Err(NotExists);
    }
    match COMMAND_KEYWORDS[word]
    case PingWord => r := Ok(Ping);
    case CommandWord => r := Ok(Command);
    case EchoWord =>
      var text := ast.GetString();
      r := if text.Ok? then Ok(Echo(text.value)) else Err(Value(text.error));
    case GetWord =>
      var key := ast.GetString();
      r := if key.Ok? then Ok(Get(key.value)) else Err(Value(key.error));
    case SetWord =>
      r := ReadSet(ast);
  }

  /** The `SET` arm of `Parser::command`. */
  method ReadSet(ast: Values) returns (r: Result<Command, Error>)
    requires ast.Valid()
    modifies ast
    ensures ast.Valid()
    ensures r == DecodeSet(old(ast.Remaining())).result
    ensures ast.idx == old(ast.idx) + DecodeSet(old(ast.Remaining())).takes
  {
    var key := ast.GetString();
    if key.Err? {
      return Err(Value(key.error));
    }
    var value := ast.Next();
    if value.Err? {
      return Err(Value(value.error));
    }
    var modifier := ast.GetUncasedString();
    match modifier
    case Err(OutOfBounds) =>
      r := Ok(Set(key.value, value.value, None));
    case Err(e) =>
      r := Err(Value(e));
    case Ok(word) =>
      if word !in SET_PARAMS {
        return Err(InvalidCommandArgument);
      }
      var n := ast.GetNumber();
      if n.Err? {
        return Err(Value(n.error));
      }
      r := Ok(Set(key.value, value.value, Some(Expiration(SET_PARAMS[word], n.value))));
  }
}
