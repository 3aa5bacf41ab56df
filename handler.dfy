/**
 * Serving requests on one connection (`src/server/handler.rs`).
 *
 * Reading from the socket is "append these bytes to the read buffer", and
 * writing is "append to the output stream".  Each `Handle` appends what
 * was read, parses the whole buffer as one request and answers it; the
 * buffer is never cleared.  `Run` calls `Handle` for as long as it answers
 * `Again`: on a request that is still incomplete, which writes nothing, and
 * on an unknown command, which writes an error reply.  Every other error
 * writes an error reply and ends the connection.
 *
 * `Step` is one `Handle` as a function of the buffer, the store's entries
 * and the time, and `Serve` is `Run` as a function of the reads; the
 * methods are proved to agree with them.
 */
module Server {
  import opened Wrappers
  import opened ByteStrings
  import opened Buffers
  import opened Cursor
  import opened Commands
  import StoreValue
  import Database
  import RespValue
  import RespParse

  datatype ClientError = KeyNotExists

  /** What `write_error` is given: a client error or a request error. */
  datatype Failure = Client(client: ClientError) | Request(error: Commands.Error)

  /** Printable ASCII: no control characters, so in particular no CR. */
  predicate Printable(s: string) {
    forall c :: c in s ==> ' ' <= c <= '~'
  }

  /**
   * The text an error reply carries: the top-level message of the error.
   * The detail a wrapped error adds after a colon is not modelled.
   */
  function Message(f: Failure): (m: string)
    ensures m != ""
  {
    match f
    case Client(KeyNotExists) => "key does not exist"
    case Request(InvalidInput) => "Invalid command"
    case Request(NotExists) => "command does not exist"
    case Request(InvalidCommandArgument) => "Command argument does not exist"
    case Request(Parse(_)) => "Failed to parse input"
    case Request(Value(InvalidType)) => "Invalid Type"
    case Request(Value(InvalidNumber)) => "Invalid number"
    case Request(Value(Utf8)) => "Invalid UTF8 Input"
    case Request(Value(OutOfBounds)) => "Not enough arguments"
  }

  /** The bytes `write_error` writes: the error as a RESP error value. */
  function ErrorReply(f: Failure): Bytes {
    RespValue.Encode(RespValue.Error(Ascii(Message(f))))
  }

  const PONG: Bytes := RespValue.Encode(RespValue.SimpleString(Ascii("PONG")))
  const OK: Bytes := RespValue.Encode(RespValue.SimpleString(Ascii("OK")))

  /** What a command writes, what the store holds afterwards, and whether it panicked. */
  datatype Response = Response(reply: Bytes, entries: map<Bytes, Database.Entry>, panicked: bool)

  /**
   * `handle_command`.  `GET` serves a live value in its RESP form or
   * answers `KeyNotExists`; `SET` of a value the store cannot hold panics
   * where `insert` unwraps the failed conversion, before anything is
   * stored or written.
   */
  function Respond(cmd: Command, entries: map<Bytes, Database.Entry>, now: nat): (r: Response)
    ensures !cmd.Set? ==> r.entries == entries && !r.panicked
    ensures cmd.Ping? ==> r.reply == PONG
    ensures cmd.Command? ==> r.reply == OK
    ensures cmd.Echo? ==> r.reply == RespValue.Encode(RespValue.SimpleString(cmd.text))
    ensures cmd.Get? && Database.Lookup(entries, cmd.key, now).Some? ==>
      r.reply == RespValue.Encode(StoreValue.ToResp(Database.Lookup(entries, cmd.key, now).value))
    ensures cmd.Get? && Database.Lookup(entries, cmd.key, now).None? ==> r.reply == ErrorReply(Client(KeyNotExists))
    ensures cmd.Set? && StoreValue.Storable(cmd.value) ==>
      !r.panicked && r.reply == OK &&
      r.entries == entries[cmd.key := Database.NewEntry(StoreValue.FromResp(cmd.value).value, cmd.expiration, now)]
    ensures cmd.Set? && !StoreValue.Storable(cmd.value) ==> r.panicked && r.reply == [] && r.entries == entries
  {
    match cmd
    case Ping => Response(PONG, entries, false)
    case Command => Response(OK, entries, false)
    case Echo(text) => Response(RespValue.Encode(RespValue.SimpleString(text)), entries, false)
    case Get(key) =>
      (match Database.Lookup(entries, key, now)
       case Some(v) => Response(RespValue.Encode(StoreValue.ToResp(v)), entries, false)
       case None => Response(ErrorReply(Client(KeyNotExists)), entries, false))
    case Set(key, value, expiration) =>
      (match StoreValue.FromResp(value)
       case Ok(v) => Response(OK, entries[key := Database.NewEntry(v, expiration, now)], false)
       case Err(_) => Response([], entries, true))
  }

  /** How one `handle` ends: `Ok(())`, `Err(Again)`, `Err(IoError)`, or a panic. */
  datatype Outcome = Served | Again | Closed | Panicked

  /** The command a buffer holds, or why it holds none: `Parser::parse`, then `Parser::command`. */
  function Requested(buffer: Bytes): (r: Result<Command, Commands.Error>)
    ensures r.Ok? ==> ParseRequest(buffer).Ok?
    ensures (r.Err? && r.error.Parse?) <==> (ParseRequest(buffer).Err? && ParseRequest(buffer).error.Parse?)
    ensures ParseRequest(buffer) == Err(InvalidInput) ==> r == Err(InvalidInput)
  {
    match ParseRequest(buffer)
    case Ok(items) => Decode(items).result
    case Err(e) => Err(e)
  }

  /** What one `handle` writes and how it ends, on the buffer after the read. */
  datatype StepResult = StepResult(outcome: Outcome, reply: Bytes, entries: map<Bytes, Database.Entry>)

  /**
   * What `handle` does with the request it found: an incomplete request
   * waits silently; an unknown command is answered with an error and waits;
   * any other error is answered and closes; a command is answered as
   * `Respond` says.
   */
  function Answer(request: Result<Command, Commands.Error>, entries: map<Bytes, Database.Entry>, now: nat): (s: StepResult)
    ensures s.outcome == Again ==> s.entries == entries
  {
    match request
    case Err(e) =>
      if e == Parse(RespParse.Incomplete) then StepResult(Again, [], entries)
      else if e == NotExists then StepResult(Again, ErrorReply(Request(NotExists)), entries)
      else StepResult(Closed, ErrorReply(Request(e)), entries)
    case Ok(cmd) =>
      var r := Respond(cmd, entries, now);
      StepResult(if r.panicked then Panicked else Served, r.reply, r.entries)
  }

  /** One `handle`, on the buffer after the read. */
  function Step(buffer: Bytes, entries: map<Bytes, Database.Entry>, now: nat): (s: StepResult)
    ensures s.outcome == Again ==> s.entries == entries
  {
    Answer(Requested(buffer), entries, now)
  }

  /** One read: the bytes that arrived and the time at which `handle` looks at them. */
  datatype Read = Read(bytes: Bytes, now: nat)

  /** How `run` ends, if it ends within the reads: its last outcome, what it wrote, the store, the reads it used. */
  datatype Session = Session(outcome: Option<Outcome>, output: Bytes, entries: map<Bytes, Database.Entry>, used: nat)

  /**
   * `run` from the read at index `i` on, with the buffer holding `buffer`:
   * one `handle` per read for as long as the outcome is `Again`.  When the
   * reads run out first, `run` is still waiting (`outcome` is `None`).
   */
  function Serve(chunks: seq<Read>, i: nat, buffer: Bytes, entries: map<Bytes, Database.Entry>): (s: Session)
    requires i <= |chunks|
    ensures s.used <= |chunks| - i
    ensures s.outcome.None? ==> s.used == |chunks| - i && s.entries == entries
    ensures s.outcome.Some? ==> s.outcome.value != Again && s.used >= 1
    decreases |chunks| - i
  {
    if i == |chunks| then Session(None, [], entries, 0)
    else
      var b := buffer + chunks[i].bytes;
      var step := Step(b, entries, chunks[i].now);
      if step.outcome == Again then
        var s := Serve(chunks, i + 1, b, entries);
        Session(s.outcome, step.reply + s.output, s.entries, s.used + 1)
      else
        Session(Some(step.outcome), step.reply, step.entries, 1)
  }

  /** `s` preceded by `used` reads that wrote `written`. */
  function Join(written: Bytes, used: nat, s: Session): (r: Session)
    ensures r.outcome == s.outcome && r.entries == s.entries
    ensures r.output == written + s.output && r.used == used + s.used
  {
    Session(s.outcome, written + s.output, s.entries, used + s.used)
  }

  /** One more `handle` of `run`, as seen from the reads already used. */
  lemma Advance(chunks: seq<Read>, i: nat, buffer: Bytes, entries: map<Bytes, Database.Entry>, written: Bytes, step: StepResult)
    requires i < |chunks|
    requires step == Step(buffer + chunks[i].bytes, entries, chunks[i].now)
    ensures step.outcome == Again ==>
      Join(written, i, Serve(chunks, i, buffer, entries))
        == Join(written + step.reply, i + 1, Serve(chunks, i + 1, buffer + chunks[i].bytes, entries))
    ensures step.outcome != Again ==>
      Join(written, i, Serve(chunks, i, buffer, entries))
        == Session(Some(step.outcome), written + step.reply, step.entries, i + 1)
  {
    var s := Serve(chunks, i, buffer, entries);
    if step.outcome == Again {
      var rest := Serve(chunks, i + 1, buffer + chunks[i].bytes, entries);
      assert s == Session(rest.outcome, step.reply + rest.output, rest.entries, rest.used + 1);
      Associative(written, step.reply, rest.output);
    } else {
      assert s == Session(Some(step.outcome), step.reply, step.entries, 1);
    }
  }

  class Handler {
    /** The connection's output stream. */
    const stream: ByteBuffer

    constructor (stream: ByteBuffer)
      ensures this.stream == stream
    {
      this.stream := stream;
    }

    /** `write_error`: the error serialised as a RESP error value. */
    method WriteError(f: Failure)
      modifies stream
      ensures stream.data == old(stream.data) + ErrorReply(f)
    {
      var output := new ByteBuffer();
      RespValue.Serialize(RespValue.Error(Ascii(Message(f))), output);
      stream.Extend(output.data);
    }

    /** `handle_command`, against the store `db` at time `now`. */
    method HandleCommand(cmd: Command, db: Database.Database, now: nat) returns (panicked: bool)
      modifies stream, db
      ensures stream.data == old(stream.data) + Respond(cmd, old(db.entries), now).reply
      ensures db.entries == Respond(cmd, old(db.entries), now).entries
      ensures panicked == Respond(cmd, old(db.entries), now).panicked
    {
      panicked := false;
      match cmd
      case Ping =>
        stream.Extend(PONG);
      case Echo(text) =>
        var output := new ByteBuffer();
        RespValue.Serialize(RespValue.SimpleString(text), output);
        stream.Extend(output.data);
      case Command =>
        stream.Extend(OK);
      case Get(key) =>
        HandleGet(key, db, now);
      case Set(key, value, expiration) =>
        panicked := HandleSet(key, value, expiration, db, now);
    }

    /** The `GET` arm of `handle_command`: the live value, or the missing-key error. */
    method HandleGet(key: Bytes, db: Database.Database, now: nat)
      modifies stream
      ensures stream.data == old(stream.data) + Respond(Get(key), db.entries, now).reply
    {
      var found := db.GetByString(key, now);
      if found.Some? {
        var output := new ByteBuffer();
        RespValue.Serialize(StoreValue.ToResp(found.value), output);
        stream.Extend(output.data);
      } else {
        WriteError(Client(KeyNotExists));
      }
    }

    /** The `SET` arm of `handle_command`: store and answer `+OK`, or panic on a value the store cannot hold. */
    method HandleSet(key: Bytes, value: RespValue.Value, expiration: Option<nat>, db: Database.Database, now: nat)
      returns (panicked: bool)
      modifies stream, db
      ensures stream.data == old(stream.data) + Respond(Set(key, value, expiration), old(db.entries), now).reply
      ensures db.entries == Respond(Set(key, value, expiration), old(db.entries), now).entries
      ensures panicked == Respond(Set(key, value, expiration), old(db.entries), now).panicked
    {
      var stored := StoreValue.FromResp(value);
      if stored.Err? {
        return true;
      }
      db.Insert(key, stored.value, expiration, now);
      stream.Extend(OK);
      panicked := false;
    }

    /** `handle`: read into the buffer, parse it as one request, answer. */
    method Handle(db: Database.Database, reader: ByteBuffer, incoming: Bytes, now: nat) returns (r: Outcome)
      requires reader != stream
      modifies reader, stream, db
      ensures reader.data == old(reader.data) + incoming
      ensures r == Step(reader.data, old(db.entries), now).outcome
      ensures stream.data == old(stream.data) + Step(reader.data, old(db.entries), now).reply
      ensures db.entries == Step(reader.data, old(db.entries), now).entries
    {
      reader.Extend(incoming);
      var parsed := ParseRequest(reader.data);
      var request;
      if parsed.Err? {
        request := Err(parsed.error);
      } else {
        var ast := new Values(parsed.value);
        request := ReadCommand(ast);
      }
      assert request == Requested(reader.data);
      r := Reply(request, db, now);
    }

    /** The part of `handle` that answers the request it found. */
    method Reply(request: Result<Command, Commands.Error>, db: Database.Database, now: nat) returns (r: Outcome)
      modifies stream, db
      ensures r == Answer(request, old(db.entries), now).outcome
      ensures stream.data == old(stream.data) + Answer(request, old(db.entries), now).reply
      ensures db.entries == Answer(request, old(db.entries), now).entries
    {
      if request.Ok? {
        var panicked := HandleCommand(request.value, db, now);
        r := if panicked then Panicked else Served;
      } else if request.error == Parse(RespParse.Incomplete) {
        r := Again;
      } else if request.error == NotExists {
        WriteError(Request(NotExists));
        r := Again;
      } else {
        WriteError(Request(request.error));
        r := Closed;
      }
    }

    /**
     * `run`: a fresh, empty read buffer, then `handle` once per read for as
     * long as it answers `Again`.  `used` counts the reads it consumed.
     */
    method Run(db: Database.Database, chunks: seq<Read>) returns (r: Option<Outcome>, used: nat)
      modifies stream, db
      ensures r == Serve(chunks, 0, [], old(db.entries)).outcome
      ensures used == Serve(chunks, 0, [], old(db.entries)).used
      ensures stream.data == old(stream.data) + Serve(chunks, 0, [], old(db.entries)).output
      ensures db.entries == Serve(chunks, 0, [], old(db.entries)).entries
    {
      var reader := new ByteBuffer();
      ghost var entries := db.entries;
      ghost var target := Serve(chunks, 0, [], entries);
      ghost var written: Bytes := [];
      used := 0;
      r := None;
      while used < |chunks|
        invariant used <= |chunks|
        invariant db.entries == entries
        invariant stream.data == old(stream.data) + written
        invariant target == Join(written, used, Serve(chunks, used, reader.data, entries))
        decreases |chunks| - used
      {
        ghost var before := reader.data;
        var o := Handle(db, reader, chunks[used].bytes, chunks[used].now);
        ghost var step := Step(reader.data, entries, chunks[used].now);
        Advance(chunks, used, before, entries, written, step);
        Associative(old(stream.data), written, step.reply);
        written := written + step.reply;
        used := used + 1;
        if o != Again {
          r := Some(o);
          return;
        }
      }
    }
  }
}
