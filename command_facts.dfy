/**
 * What `Decode`, and so `Parser::command`, makes of a request; and what
 * `Parser::parse` makes of the bytes the serialiser writes.
 */
module CommandFacts {
  import opened Wrappers
  import opened ByteStrings
  import opened Decimal
  import opened Cursor
  import opened Commands
  import RespValue
  import RespParse
  import RespRoundTrip
  import RespPrefix

  /** An argument whose text lower-cases to `word`. */
  predicate Spells(v: RespValue.Value, word: string) {
    IsText(v) && AsciiLower(v.data) == Ascii(word)
  }

  // ---------------------------------------------------------------------
  // The keyword

  /** An empty array has no keyword to take. */
  lemma EmptyRequest()
    ensures Decode([]) == Decoded(Err(Value(OutOfBounds)), 1)
  {
  }

  /** A keyword must be a simple or a bulk string. */
  lemma KeywordNotText(v: RespValue.Value, rest: seq<RespValue.Value>)
    requires !IsText(v)
    ensures Decode([v] + rest) == Decoded(Err(Value(InvalidType)), 1)
  {
    assert ([v] + rest)[0] == v;
  }

  /** A word that is not in the keyword table, in any case, is `NotExists`. */
  lemma UnknownKeyword(v: RespValue.Value, rest: seq<RespValue.Value>)
    requires IsText(v) && AsciiLower(v.data) !in COMMAND_KEYWORDS
    ensures Decode([v] + rest) == Decoded(Err(NotExists), 1)
  {
    assert ([v] + rest)[0] == v;
  }

  /** Keywords are case-insensitive: only the lower-cased text of the keyword matters. */
  lemma KeywordCaseInsensitive(a: RespValue.Value, b: RespValue.Value, rest: seq<RespValue.Value>)
    requires IsText(a) && IsText(b) && AsciiLower(a.data) == AsciiLower(b.data)
    ensures Decode([a] + rest) == Decode([b] + rest)
  {
    assert ([a] + rest)[0] == a && ([a] + rest)[1..] == rest;
    assert ([b] + rest)[0] == b && ([b] + rest)[1..] == rest;
  }

  /** The five keywords, and nothing else, are in the table. */
  lemma KeywordTable(w: Bytes)
    ensures w in COMMAND_KEYWORDS <==>
      w == Ascii("ping") || w == Ascii("echo") || w == Ascii("command") || w == Ascii("get") || w == Ascii("set")
    ensures w == Ascii("ping") ==> COMMAND_KEYWORDS[w] == PingWord
    ensures w == Ascii("echo") ==> COMMAND_KEYWORDS[w] == EchoWord
    ensures w == Ascii("command") ==> COMMAND_KEYWORDS[w] == CommandWord
    ensures w == Ascii("get") ==> COMMAND_KEYWORDS[w] == GetWord
    ensures w == Ascii("set") ==> COMMAND_KEYWORDS[w] == SetWord
  {
    TableKeysDistinct();
  }

  lemma TableKeysDistinct()
    ensures Ascii("ping") == [112, 105, 110, 103] && Ascii("echo") == [101, 99, 104, 111]
    ensures Ascii("command") == [99, 111, 109, 109, 97, 110, 100]
    ensures Ascii("get") == [103, 101, 116] && Ascii("set") == [115, 101, 116]
  {
  }

  // ---------------------------------------------------------------------
  // The commands

  /** `PING` and `COMMAND` take one element and leave the rest untouched. */
  lemma PingIgnoresArguments(w: RespValue.Value, rest: seq<RespValue.Value>)
    requires Spells(w, "ping")
    ensures Decode([w] + rest) == Decoded(Ok(Ping), 1)
  {
    KeywordTable(AsciiLower(w.data));
    assert ([w] + rest)[0] == w;
  }

  lemma CommandIgnoresArguments(w: RespValue.Value, rest: seq<RespValue.Value>)
    requires Spells(w, "command")
    ensures Decode([w] + rest) == Decoded(Ok(Command), 1)
  {
    KeywordTable(AsciiLower(w.data));
    assert ([w] + rest)[0] == w;
  }

  /** `ECHO` and `GET` take their one argument; whatever follows is not looked at. */
  lemma EchoArgument(w: RespValue.Value, arg: RespValue.Value, rest: seq<RespValue.Value>)
    requires Spells(w, "echo")
    ensures Decode([w, arg] + rest) == Decoded(if IsText(arg) then Ok(Echo(arg.data)) else Err(Value(InvalidType)), 2)
  {
    KeywordTable(AsciiLower(w.data));
    HeadAndTail(w, arg, rest);
  }

  lemma GetArgument(w: RespValue.Value, arg: RespValue.Value, rest: seq<RespValue.Value>)
    requires Spells(w, "get")
    ensures Decode([w, arg] + rest) == Decoded(if IsText(arg) then Ok(Get(arg.data)) else Err(Value(InvalidType)), 2)
  {
    KeywordTable(AsciiLower(w.data));
    HeadAndTail(w, arg, rest);
  }

  /** A missing argument is `OutOfBounds`, after a second take. */
  lemma ArgumentMissing(w: RespValue.Value)
    requires Spells(w, "echo") || Spells(w, "get")
    ensures Decode([w]) == Decoded(Err(Value(OutOfBounds)), 2)
  {
    KeywordTable(AsciiLower(w.data));
    assert [w][1..] == [];
  }

  lemma HeadAndTail(w: RespValue.Value, arg: RespValue.Value, rest: seq<RespValue.Value>)
    ensures ([w, arg] + rest)[0] == w && ([w, arg] + rest)[1..] == [arg] + rest
  {
  }

  /** `SET` with a key and a value and nothing more stores without expiration. */
  lemma SetWithoutExpiration(w: RespValue.Value, key: RespValue.Value, v: RespValue.Value)
    requires Spells(w, "set") && IsText(key)
    ensures Decode([w, key, v]) == Decoded(Ok(Set(key.data, v, None)), 4)
  {
    KeywordTable(AsciiLower(w.data));
    assert [w, key, v][1..] == [key, v];
  }

  /** `SET` with `EX` or `PX` and a number; elements after the number are not looked at. */
  lemma SetWithExpiration(w: RespValue.Value, key: RespValue.Value, v: RespValue.Value,
                          m: RespValue.Value, n: RespValue.Value, rest: seq<RespValue.Value>)
    requires Spells(w, "set") && IsText(key) && IsText(m) && AsciiLower(m.data) in SET_PARAMS
    requires NumberOf(n).Ok?
    ensures Decode([w, key, v, m, n] + rest)
         == Decoded(Ok(Set(key.data, v, Some(Expiration(SET_PARAMS[AsciiLower(m.data)], NumberOf(n).value)))), 5)
  {
    KeywordTable(AsciiLower(w.data));
    SetArguments(w, key, v, m, n, rest);
  }

  /** Any other modifier word is `InvalidCommandArgument`, and no number is taken. */
  lemma SetUnknownModifier(w: RespValue.Value, key: RespValue.Value, v: RespValue.Value,
                           m: RespValue.Value, rest: seq<RespValue.Value>)
    requires Spells(w, "set") && IsText(key) && IsText(m) && AsciiLower(m.data) !in SET_PARAMS
    ensures Decode([w, key, v, m] + rest) == Decoded(Err(InvalidCommandArgument), 4)
  {
    KeywordTable(AsciiLower(w.data));
    SetTail(w, key, v, m, rest);
  }

  /** Only running out at the modifier is forgiven: a modifier that is not text is an error. */
  lemma SetModifierNotText(w: RespValue.Value, key: RespValue.Value, v: RespValue.Value,
                           m: RespValue.Value, rest: seq<RespValue.Value>)
    requires Spells(w, "set") && IsText(key) && !IsText(m)
    ensures Decode([w, key, v, m] + rest) == Decoded(Err(Value(InvalidType)), 4)
  {
    KeywordTable(AsciiLower(w.data));
    SetTail(w, key, v, m, rest);
  }

  /** A modifier without its number is `OutOfBounds`. */
  lemma SetNumberMissing(w: RespValue.Value, key: RespValue.Value, v: RespValue.Value, m: RespValue.Value)
    requires Spells(w, "set") && IsText(key) && IsText(m) && AsciiLower(m.data) in SET_PARAMS
    ensures Decode([w, key, v, m]) == Decoded(Err(Value(OutOfBounds)), 5)
  {
    KeywordTable(AsciiLower(w.data));
    SetTail(w, key, v, m, []);
    assert [w, key, v, m] + [] == [w, key, v, m];
  }

  /** A number that does not read is reported as it is. */
  lemma SetBadNumber(w: RespValue.Value, key: RespValue.Value, v: RespValue.Value,
                     m: RespValue.Value, n: RespValue.Value, rest: seq<RespValue.Value>)
    requires Spells(w, "set") && IsText(key) && IsText(m) && AsciiLower(m.data) in SET_PARAMS
    requires NumberOf(n).Err?
    ensures Decode([w, key, v, m, n] + rest) == Decoded(Err(Value(NumberOf(n).error)), 5)
  {
    KeywordTable(AsciiLower(w.data));
    SetArguments(w, key, v, m, n, rest);
  }

  /** A key that is not text, or no key or value at all. */
  lemma SetShort(w: RespValue.Value, key: RespValue.Value, rest: seq<RespValue.Value>)
    requires Spells(w, "set")
    ensures Decode([w]) == Decoded(Err(Value(OutOfBounds)), 2)
    ensures IsText(key) ==> Decode([w, key]) == Decoded(Err(Value(OutOfBounds)), 3)
    ensures !IsText(key) ==> Decode([w, key] + rest) == Decoded(Err(Value(InvalidType)), 2)
  {
    KeywordTable(AsciiLower(w.data));
    assert [w][1..] == [];
    assert [w, key][1..] == [key];
    HeadAndTail(w, key, rest);
  }

  lemma SetArguments(w: RespValue.Value, key: RespValue.Value, v: RespValue.Value,
                     m: RespValue.Value, n: RespValue.Value, rest: seq<RespValue.Value>)
    ensures ([w, key, v, m, n] + rest)[0] == w
    ensures ([w, key, v, m, n] + rest)[1..] == [key, v, m, n] + rest
  {
  }

  lemma SetTail(w: RespValue.Value, key: RespValue.Value, v: RespValue.Value,
                m: RespValue.Value, rest: seq<RespValue.Value>)
    ensures ([w, key, v, m] + rest)[0] == w
    ensures ([w, key, v, m] + rest)[1..] == [key, v, m] + rest
  {
  }

  /** The modifier table holds `ex` and `px`, and nothing else. */
  lemma ParamTable(w: Bytes)
    ensures w in SET_PARAMS <==> w == Ascii("ex") || w == Ascii("px")
    ensures w == Ascii("ex") ==> SET_PARAMS[w] == EX
    ensures w == Ascii("px") ==> SET_PARAMS[w] == PX
  {
    assert Ascii("ex") == [101, 120] && Ascii("px") == [112, 120];
  }

  /** `EX -1` wraps under `as u64` to almost 2^64 seconds, in milliseconds. */
  lemma NegativeSecondsWrap()
    ensures Expiration(EX, -1) == (U64_MODULUS - 1) * 1000
    ensures Expiration(PX, -1) == U64_MODULUS - 1
  {
  }

  // ---------------------------------------------------------------------
  // Concrete requests

  lemma PingLower()
    ensures AsciiLower(Ascii("PING")) == Ascii("ping")
  {
    assert Ascii("PING") == [80, 73, 78, 71];
    assert AsciiLower([80, 73, 78, 71]) == [112, 105, 110, 103];
  }

  /** The one test of `Parser::command`: a cursor over `PING` reads `Ping`. */
  lemma PingTest()
    ensures Decode([RespValue.SimpleString(Ascii("PING"))]) == Decoded(Ok(Ping), 1)
  {
    PingLower();
    PingIgnoresArguments(RespValue.SimpleString(Ascii("PING")), []);
    assert [RespValue.SimpleString(Ascii("PING"))] + [] == [RespValue.SimpleString(Ascii("PING"))];
  }

  // ---------------------------------------------------------------------
  // Parsing the request

  /** Every array the serialiser can write and the parser can read is a request of those elements. */
  lemma ArrayRequest(xs: seq<RespValue.Value>)
    requires RespRoundTrip.Encodable(RespParse.Current, RespValue.Array(xs))
    ensures ParseRequest(RespValue.Encode(RespValue.Array(xs))) == Ok(xs)
  {
    RespRoundTrip.ParseEncode(RespParse.Current, RespValue.Array(xs));
  }

  /** Any other value is `InvalidInput`. */
  lemma NonArrayRequest(v: RespValue.Value)
    requires RespRoundTrip.Encodable(RespParse.Current, v) && !v.Array?
    ensures ParseRequest(RespValue.Encode(v)) == Err(InvalidInput)
  {
    RespRoundTrip.ParseEncode(RespParse.Current, v);
  }

  /** A request cut short is `Parse(Incomplete)`, the one error the handler waits on. */
  lemma TruncatedRequest(v: RespValue.Value, k: nat)
    requires RespRoundTrip.Encodable(RespParse.Current, v) && k < |RespValue.Encode(v)|
    ensures ParseRequest(RespValue.Encode(v)[..k]) == Err(Parse(RespParse.Incomplete))
  {
    RespPrefix.TruncatedIsIncomplete(RespParse.Current, v, k);
  }

  /** Bytes after a complete request make it a parse error. */
  lemma TrailingRequest(v: RespValue.Value, rest: Bytes)
    requires RespRoundTrip.Encodable(RespParse.Current, v) && rest != []
    ensures ParseRequest(RespValue.Encode(v) + rest) == Err(Parse(RespParse.Parse))
  {
    RespRoundTrip.TrailingBytes(RespParse.Current, v, rest);
  }
}
