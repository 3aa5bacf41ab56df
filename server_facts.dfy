/**
 * What one `handle` and a whole `run` of `src/server/handler.rs` do with
 * the bytes a client sends: which requests wait, which are answered and
 * which close the connection; what the replies are; and how the read
 * buffer, which is never cleared, carries one request into the next read.
 */
module ServerFacts {
  import opened Wrappers
  import opened ByteStrings
  import opened Commands
  import opened Server
  import Database
  import StoreValue
  import RespValue
  import RespParse
  import RespRoundTrip
  import CommandFacts

  // ---------------------------------------------------------------------
  // Classifying one `handle`

  /** `Parser::command` fails only with a value error, an unknown command or an unknown `SET` modifier. */
  lemma CommandErrors(args: seq<RespValue.Value>)
    ensures Decode(args).result.Err? ==>
      Decode(args).result.error.Value? || Decode(args).result.error == NotExists
      || Decode(args).result.error == InvalidCommandArgument
  {
    if args != [] && Cursor.UncasedOf(args[0]).Ok? {
      var word := Cursor.UncasedOf(args[0]).value;
      if word in COMMAND_KEYWORDS && COMMAND_KEYWORDS[word] == SetWord {
        SetErrors(args[1..]);
      }
    }
  }

  lemma SetErrors(args: seq<RespValue.Value>)
    ensures DecodeSet(args).result.Err? ==>
      DecodeSet(args).result.error.Value? || DecodeSet(args).result.error == InvalidCommandArgument
  {
  }

  /** Every reply a command or an error writes is a whole RESP frame, so never empty. */
  lemma RepliesNotEmpty(f: Failure, v: RespValue.Value)
    ensures |ErrorReply(f)| >= 3 && |RespValue.Encode(v)| >= 3
    ensures |PONG| >= 3 && |OK| >= 3
  {
    RespValue.EncodeStart(RespValue.Error(Ascii(Message(f))));
    RespValue.EncodeStart(v);
    RespValue.EncodeStart(RespValue.SimpleString(Ascii("PONG")));
    RespValue.EncodeStart(RespValue.SimpleString(Ascii("OK")));
  }

  /**
   * How a request ends `handle`: it waits on an incomplete request and on
   * an unknown command, panics on a `SET` of a value the store cannot
   * hold, is served on every other command and closes on every other
   * error.  It writes nothing exactly when it waits on an incomplete
   * request or panics, and only a served `SET` changes the store.
   */
  lemma AnswerClasses(request: Result<Command, Commands.Error>, entries: map<Bytes, Database.Entry>, now: nat)
    ensures Answer(request, entries, now).outcome == Again <==>
      request == Err(Parse(RespParse.Incomplete)) || request == Err(NotExists)
    ensures Answer(request, entries, now).outcome == Closed <==>
      request.Err? && request.error != Parse(RespParse.Incomplete) && request.error != NotExists
    ensures Answer(request, entries, now).outcome == Panicked <==>
      request.Ok? && request.value.Set? && !StoreValue.Storable(request.value.value)
    ensures Answer(request, entries, now).outcome == Served <==>
      request.Ok? && !(request.value.Set? && !StoreValue.Storable(request.value.value))
    ensures Answer(request, entries, now).reply == [] <==>
      request == Err(Parse(RespParse.Incomplete)) || Answer(request, entries, now).outcome == Panicked
    ensures Answer(request, entries, now).entries != entries ==> request.Ok? && request.value.Set?
  {
    if request.Err? {
      RepliesNotEmpty(Request(request.error), RespValue.Null);
    } else {
      var cmd := request.value;
      match cmd
      case Ping => RepliesNotEmpty(Client(KeyNotExists), RespValue.Null);
      case Command => RepliesNotEmpty(Client(KeyNotExists), RespValue.Null);
      case Echo(text) => RepliesNotEmpty(Client(KeyNotExists), RespValue.SimpleString(text));
      case Get(key) =>
        var found := Database.Lookup(entries, key, now);
        if found.Some? {
          RepliesNotEmpty(Client(KeyNotExists), StoreValue.ToResp(found.value));
        } else {
          RepliesNotEmpty(Client(KeyNotExists), RespValue.Null);
        }
      case Set(_, _, _) => RepliesNotEmpty(Client(KeyNotExists), RespValue.Null);
    }
  }

  /**
   * `handle` on the buffer `b`, as the source tells its cases apart: an
   * incomplete parse waits; any other parse error closes; an unknown
   * command waits; any other command error closes.
   */
  lemma StepClasses(b: Bytes, entries: map<Bytes, Database.Entry>, now: nat)
    ensures ParseRequest(b) == Err(Parse(RespParse.Incomplete)) ==>
      Step(b, entries, now) == StepResult(Again, [], entries)
    ensures ParseRequest(b).Err? && ParseRequest(b).error != Parse(RespParse.Incomplete) ==>
      Step(b, entries, now) == StepResult(Closed, ErrorReply(Request(ParseRequest(b).error)), entries)
    ensures ParseRequest(b).Ok? && Decode(ParseRequest(b).value).result == Err(NotExists) ==>
      Step(b, entries, now) == StepResult(Again, ErrorReply(Request(NotExists)), entries)
    ensures ParseRequest(b).Ok? && Decode(ParseRequest(b).value).result.Err? && Decode(ParseRequest(b).value).result != Err(NotExists) ==>
      Step(b, entries, now) == StepResult(Closed, ErrorReply(Request(Decode(ParseRequest(b).value).result.error)), entries)
  {
    if ParseRequest(b).Ok? {
      CommandErrors(ParseRequest(b).value);
    }
  }

  // ---------------------------------------------------------------------
  // Requests across reads

  /** A request that has only partly arrived waits, writing nothing and leaving the store alone. */
  lemma TruncatedWaits(v: RespValue.Value, k: nat, entries: map<Bytes, Database.Entry>, now: nat)
    requires RespRoundTrip.Encodable(RespParse.Current, v) && k < |RespValue.Encode(v)|
    ensures Step(RespValue.Encode(v)[..k], entries, now) == StepResult(Again, [], entries)
  {
    CommandFacts.TruncatedRequest(v, k);
    StepClasses(RespValue.Encode(v)[..k], entries, now);
  }

  /**
   * A request split across two reads is answered, at the second read, as
   * if it had arrived whole then: same outcome, same reply, same store.
   */
  lemma SplitRequest(v: RespValue.Value, k: nat, first: nat, second: nat, entries: map<Bytes, Database.Entry>)
    requires RespRoundTrip.Encodable(RespParse.Current, v) && k < |RespValue.Encode(v)|
    ensures var split := Serve([Read(RespValue.Encode(v)[..k], first), Read(RespValue.Encode(v)[k..], second)], 0, [], entries);
      var whole := Serve([Read(RespValue.Encode(v), second)], 0, [], entries);
      split.outcome == whole.outcome && split.output == whole.output && split.entries == whole.entries
  {
    var e := RespValue.Encode(v);
    var chunks := [Read(e[..k], first), Read(e[k..], second)];
    var one := [Read(e, second)];
    TruncatedWaits(v, k, entries, first);
    assert [] + e[..k] == e[..k] && e[..k] + e[k..] == e && [] + e == e;
    SilentRead(chunks, 0, [], entries);
    LastRead(chunks, 1, e[..k], entries);
    LastRead(one, 0, [], entries);
  }

  /** A read that is waited on silently only adds its bytes to the buffer. */
  lemma SilentRead(chunks: seq<Read>, i: nat, buffer: Bytes, entries: map<Bytes, Database.Entry>)
    requires i < |chunks| && Step(buffer + chunks[i].bytes, entries, chunks[i].now) == StepResult(Again, [], entries)
    ensures var rest := Serve(chunks, i + 1, buffer + chunks[i].bytes, entries);
      Serve(chunks, i, buffer, entries) == Session(rest.outcome, rest.output, rest.entries, rest.used + 1)
  {
    var rest := Serve(chunks, i + 1, buffer + chunks[i].bytes, entries);
    assert [] + rest.output == rest.output;
  }

  /** The last read: `run` ends with its outcome, or is still waiting. */
  lemma LastRead(chunks: seq<Read>, i: nat, buffer: Bytes, entries: map<Bytes, Database.Entry>)
    requires i + 1 == |chunks|
    ensures var step := Step(buffer + chunks[i].bytes, entries, chunks[i].now);
      Serve(chunks, i, buffer, entries)
        == Session(if step.outcome == Again then None else Some(step.outcome), step.reply, step.entries, 1)
  {
    var step := Step(buffer + chunks[i].bytes, entries, chunks[i].now);
    assert Serve(chunks, i + 1, buffer + chunks[i].bytes, entries) == Session(None, [], entries, 0);
    assert step.reply + [] == step.reply;
  }

  /**
   * An unknown command is answered and the connection waits, but its frame
   * stays in the buffer: whatever arrives next follows a complete frame,
   * which is a parse error, so the next read is answered with a parse
   * error and closes the connection.
   */
  lemma UnknownCommandStays(xs: seq<RespValue.Value>, more: Bytes, first: nat, second: nat,
                                entries: map<Bytes, Database.Entry>)
    requires RespRoundTrip.Encodable(RespParse.Current, RespValue.Array(xs))
    requires Decode(xs).result == Err(NotExists) && more != []
    ensures Serve([Read(RespValue.Encode(RespValue.Array(xs)), first), Read(more, second)], 0, [], entries)
         == Session(Some(Closed), ErrorReply(Request(NotExists)) + ErrorReply(Request(Parse(RespParse.Parse))), entries, 2)
  {
    var e := RespValue.Encode(RespValue.Array(xs));
    CommandFacts.ArrayRequest(xs);
    CommandFacts.TrailingRequest(RespValue.Array(xs), more);
    assert [] + e == e;
    StepClasses(e, entries, first);
    StepClasses(e + more, entries, second);
  }

  // ---------------------------------------------------------------------
  // The replies

  /** The two fixed replies. */
  lemma FixedReplies()
    ensures PONG == Ascii("+PONG\r\n") && OK == Ascii("+OK\r\n")
  {
    assert PONG == [43, 80, 79, 78, 71, 13, 10];
    assert OK == [43, 79, 75, 13, 10];
  }

  /** Every error message is printable ASCII. */
  lemma MessagePrintable(f: Failure)
    ensures Printable(Message(f))
  {
    LongMessagePrintable();
    ParseMessagesPrintable();
    ShortMessagesPrintable();
    ValueMessagesPrintable();
  }

  lemma LongMessagePrintable()
    ensures Printable("Command argument does not exist")
  {
  }

  lemma ParseMessagesPrintable()
    ensures Printable("Failed to parse input") && Printable("command does not exist")
  {
  }

  lemma ShortMessagesPrintable()
    ensures Printable("key does not exist") && Printable("Invalid command") && Printable("Invalid Type")
  {
  }

  lemma ValueMessagesPrintable()
    ensures Printable("Invalid number") && Printable("Invalid UTF8 Input") && Printable("Not enough arguments")
  {
  }

  /** Printable text becomes bytes that are ASCII and hold no CR. */
  lemma PrintableBytes(s: string)
    requires Printable(s)
    ensures IsAscii(Ascii(s)) && NoCR(Ascii(s))
  {
    forall i | 0 <= i < |s|
      ensures Ascii(s)[i] < 128 && Ascii(s)[i] != CR
    {
      assert s[i] in s;
      assert Ascii(s)[i] == (s[i] as int % 256) as byte;
    }
  }

  /**
   * What `write_error` writes reads back, with the parser the server
   * itself uses, as one RESP error frame holding the message.
   */
  lemma ErrorReplyParses(f: Failure)
    ensures RespParse.ParseFrame(ErrorReply(f)) == Ok(RespValue.Error(Ascii(Message(f))))
  {
    MessagePrintable(f);
    PrintableBytes(Message(f));
    AsciiIsUtf8(Ascii(Message(f)));
    RespRoundTrip.ParseEncode(RespParse.Current, RespValue.Error(Ascii(Message(f))));
  }

  // ---------------------------------------------------------------------
  // Commands against the store

  /**
   * A `SET` of a storable value answers `OK`, and a later `GET` of the key
   * serves the value back, as it was sent, until the expiration has
   * passed; then it answers that the key does not exist.  Other keys are
   * served as before.
   */
  lemma SetThenGet(key: Bytes, v: RespValue.Value, expiration: Option<nat>, stored: nat, fetched: nat,
                   entries: map<Bytes, Database.Entry>, other: Bytes)
    requires StoreValue.Storable(v) && stored <= fetched
    ensures Respond(Set(key, v, expiration), entries, stored).reply == OK
    ensures Respond(Get(key), Respond(Set(key, v, expiration), entries, stored).entries, fetched).reply
         == if expiration.None? || fetched - stored < expiration.value then RespValue.Encode(v)
            else ErrorReply(Client(KeyNotExists))
    ensures other != key ==>
      Respond(Get(other), Respond(Set(key, v, expiration), entries, stored).entries, fetched).reply
        == Respond(Get(other), entries, fetched).reply
  {
    StoreValue.ServeStored(v);
    Database.LookupAfterInsert(entries, key, StoreValue.FromResp(v).value, expiration, stored, other, fetched);
  }

  // ---------------------------------------------------------------------
  // A concrete session

  /** The request a client sends for `PING`: an array of one bulk string. */
  lemma PingRequestBytes()
    ensures RespValue.Encode(RespValue.Array([RespValue.BulkString(Ascii("PING"))]))
         == Ascii("*1\r\n$4\r\nPING\r\n")
  {
    var p := Ascii("PING");
    var xs := [RespValue.BulkString(p)];
    assert p == [80, 73, 78, 71];
    RespValue.EncodeAllCons(xs);
    RespValue.EncodeAllEmpty();
    assert xs[1..] == [];
    assert Decimal.Digits(1) == [49];
    assert Decimal.Digits(4) == [52];
    assert Ascii("*1\r\n$4\r\nPING\r\n") == [42, 49, 13, 10, 36, 52, 13, 10, 80, 73, 78, 71, 13, 10];
  }

  /** `PING` is served with `+PONG`, and nothing in the store changes. */
  lemma PingServed(entries: map<Bytes, Database.Entry>, now: nat)
    ensures Step(Ascii("*1\r\n$4\r\nPING\r\n"), entries, now) == StepResult(Served, Ascii("+PONG\r\n"), entries)
  {
    var w := RespValue.BulkString(Ascii("PING"));
    PingRequestBytes();
    assert Ascii("PING") == [80, 73, 78, 71];
    assert RespRoundTrip.Encodable(RespParse.Current, RespValue.Array([w]));
    CommandFacts.ArrayRequest([w]);
    CommandFacts.PingLower();
    CommandFacts.PingIgnoresArguments(w, []);
    assert [w] + [] == [w];
    FixedReplies();
  }

  /**
   * `run` returns as soon as it has served a command: after a `PING` it
   * has written `+PONG` and reads nothing more.
   */
  lemma PingSession(more: seq<Read>, now: nat, entries: map<Bytes, Database.Entry>)
    ensures Serve([Read(Ascii("*1\r\n$4\r\nPING\r\n"), now)] + more, 0, [], entries)
         == Session(Some(Served), Ascii("+PONG\r\n"), entries, 1)
  {
    var request := Ascii("*1\r\n$4\r\nPING\r\n");
    PingServed(entries, now);
    assert ([Read(request, now)] + more)[0] == Read(request, now);
    assert [] + request == request;
  }
}
