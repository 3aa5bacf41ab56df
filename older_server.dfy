/**
 * The older snapshot's request handling (`redis/src/parser.rs` and
 * `redis/src/server/handler.rs`).
 *
 * Its parser accepts any one RESP value and its only command is `PING`:
 * a simple string or an array of any content is `PING`, anything else is
 * an invalid command.  The connection loop appends each read to one
 * buffer; a successful parse clears the buffer before the command is
 * looked at, an incomplete parse reads again with the buffer as it is,
 * and any other outcome ends the loop.  Unlike the newer handler, a served
 * `PING` keeps the connection open.
 */
module OlderServer {
  import opened Wrappers
  import opened ByteStrings
  import opened Buffers
  import RespValue
  import RespParse

  /** The older crate's commands. */
  datatype Command = Ping | Echo(text: Bytes)

  /**
   * The older crate's error.  Its third variant wraps failures of the
   * listener, which are not modelled.
   */
  datatype Error = InvalidCommand | ParseError(resp: RespParse.Error)

  const PONG: Bytes := Ascii("+PONG\r\n")
  const INVALID_COMMAND: string := "Invalid command"

  /** `Parser::parse`: the older RESP parser's result, its errors wrapped. */
  function Parse(input: Bytes): (r: Result<RespValue.Value, Error>)
    ensures r.Ok? <==> RespParse.ParseFrameOlder(input).Ok?
    ensures r.Ok? ==> r.value == RespParse.ParseFrameOlder(input).value
    ensures r.Err? ==> r.error == ParseError(RespParse.ParseFrameOlder(input).error)
  {
    match RespParse.ParseFrameOlder(input)
    case Ok(v) => Ok(v)
    case Err(e) => Err(ParseError(e))
  }

  /** `Parser::command`: a simple string or an array, whatever it holds, is `PING`. */
  function CommandOf(ast: RespValue.Value): (r: Result<Command, Error>)
    ensures r.Ok? <==> ast.SimpleString? || ast.Array?
    ensures r.Ok? ==> r.value == Ping
    ensures r.Err? ==> r.error == InvalidCommand
  {
    match ast
    case SimpleString(_) => Ok(Ping)
    case Array(_) => Ok(Ping)
    case _ => Err(InvalidCommand)
  }

  /** What `handle_command` writes, or the message it fails with. */
  function Reply(cmd: Command): (r: Result<Bytes, string>)
    ensures cmd.Ping? <==> r.Ok?
    ensures r.Ok? ==> r.value == PONG
    ensures r.Err? ==> r.error == INVALID_COMMAND
  {
    match cmd
    case Ping => Ok(PONG)
    case Echo(_) => Err(INVALID_COMMAND)
  }

  /** Why the loop ended: an error from parsing or from `Parser::command`, or a failed command. */
  datatype Stop = Failed(error: Error) | Refused(message: string)

  /** One turn of the loop: whether it ends the loop, what it writes, the buffer afterwards. */
  datatype Turn = Turn(stop: Option<Stop>, reply: Bytes, buffer: Bytes)

  /** One turn of the loop on the buffer after the read. */
  function Step(buffer: Bytes): (t: Turn)
    ensures Parse(buffer).Ok? ==> t.buffer == [] && (t.stop.None? <==> t.reply == PONG)
    ensures Parse(buffer).Err? ==> t.buffer == buffer && t.reply == []
    ensures t.stop.Some? ==> t.reply == [] && t.stop.value.Failed?
  {
    match Parse(buffer)
    case Ok(ast) =>
      (match CommandOf(ast)
       case Err(e) => Turn(Some(Failed(e)), [], [])
       case Ok(cmd) =>
         (match Reply(cmd)
          case Ok(bytes) => Turn(None, bytes, [])
          case Err(m) => Turn(Some(Refused(m)), [], [])))
    case Err(e) =>
      if e == ParseError(RespParse.Incomplete) then Turn(None, [], buffer)
      else Turn(Some(Failed(e)), [], buffer)
  }

  /** How the loop ends within the reads, what it wrote, the buffer it leaves, the reads it used. */
  datatype Session = Session(stop: Option<Stop>, output: Bytes, buffer: Bytes, used: nat)

  /** The loop from the read at index `i` on, with the buffer holding `buffer`. */
  function Serve(chunks: seq<Bytes>, i: nat, buffer: Bytes): (s: Session)
    requires i <= |chunks|
    ensures s.used <= |chunks| - i
    ensures s.stop.None? ==> s.used == |chunks| - i
    ensures s.stop.Some? ==> s.used >= 1
    decreases |chunks| - i
  {
    if i == |chunks| then Session(None, [], buffer, 0)
    else
      var t := Step(buffer + chunks[i]);
      if t.stop.None? then
        var s := Serve(chunks, i + 1, t.buffer);
        Session(s.stop, t.reply + s.output, s.buffer, s.used + 1)
      else
        Session(t.stop, t.reply, t.buffer, 1)
  }

  /** `s` preceded by `used` reads that wrote `written`. */
  function Join(written: Bytes, used: nat, s: Session): (r: Session)
    ensures r.stop == s.stop && r.buffer == s.buffer
    ensures r.output == written + s.output && r.used == used + s.used
  {
    Session(s.stop, written + s.output, s.buffer, used + s.used)
  }

  /** One more turn of the loop, as seen from the reads already used. */
  lemma Advance(chunks: seq<Bytes>, i: nat, buffer: Bytes, written: Bytes, t: Turn)
    requires i < |chunks| && t == Step(buffer + chunks[i])
    ensures t.stop.None? ==>
      Join(written, i, Serve(chunks, i, buffer)) == Join(written + t.reply, i + 1, Serve(chunks, i + 1, t.buffer))
    ensures t.stop.Some? ==>
      Join(written, i, Serve(chunks, i, buffer)) == Session(t.stop, written + t.reply, t.buffer, i + 1)
  {
    if t.stop.None? {
      var rest := Serve(chunks, i + 1, t.buffer);
      assert Serve(chunks, i, buffer) == Session(rest.stop, t.reply + rest.output, rest.buffer, rest.used + 1);
      Associative(written, t.reply, rest.output);
    }
  }

  class Handler {
    /** The connection's output stream. */
    const stream: ByteBuffer
    /** The read buffer the connection was given. */
    const buf: ByteBuffer

    constructor (stream: ByteBuffer, buf: ByteBuffer)
      ensures this.stream == stream && this.buf == buf
    {
      this.stream := stream;
      this.buf := buf;
    }

    /** `handle_command`: `PING` writes `+PONG`; `ECHO` fails without writing. */
    method HandleCommand(cmd: Command) returns (failure: Option<string>)
      modifies stream
      ensures failure.None? <==> Reply(cmd).Ok?
      ensures failure.Some? ==> failure.value == Reply(cmd).error
      ensures stream.data == old(stream.data) + (if Reply(cmd).Ok? then Reply(cmd).value else [])
    {
      match cmd
      case Ping =>
        stream.Extend(PONG);
        failure := None;
      case Echo(_) =>
        failure := Some(INVALID_COMMAND);
    }

    /**
     * One pass of `run`'s loop: the read is appended to the buffer, which
     * is parsed; a value clears the buffer and is answered, an incomplete
     * parse waits for the next read, and anything else ends the loop.
     */
    method Turn(chunk: Bytes) returns (stop: Option<Stop>)
      requires stream != buf
      modifies stream, buf
      ensures stop == Step(old(buf.data) + chunk).stop
      ensures stream.data == old(stream.data) + Step(old(buf.data) + chunk).reply
      ensures buf.data == Step(old(buf.data) + chunk).buffer
    {
      buf.Extend(chunk);
      var parsed := Parse(buf.data);
      if parsed.Ok? {
        buf.Clear();
        var command := CommandOf(parsed.value);
        if command.Err? {
          return Some(Failed(command.error));
        }
        var failure := HandleCommand(command.value);
        if failure.Some? {
          // `Parser::command` only yields `PING`, and `PING` never fails.
          assert false;
        }
        stop := None;
      } else if parsed.error != ParseError(RespParse.Incomplete) {
        stop := Some(Failed(parsed.error));
      } else {
        stop := None;
      }
    }

    /**
     * `run`: one turn per read, for as long as no turn ends the loop.
     * `used` counts the reads it consumed.
     */
    method Run(chunks: seq<Bytes>) returns (stop: Option<Stop>, used: nat)
      requires stream != buf
      modifies stream, buf
      ensures stop == Serve(chunks, 0, old(buf.data)).stop
      ensures used == Serve(chunks, 0, old(buf.data)).used
      ensures stream.data == old(stream.data) + Serve(chunks, 0, old(buf.data)).output
      ensures buf.data == Serve(chunks, 0, old(buf.data)).buffer
    {
      ghost var target := Serve(chunks, 0, buf.data);
      ghost var written: Bytes := [];
      used := 0;
      stop := None;
      while used < |chunks|
        invariant used <= |chunks| && stop.None?
        invariant stream.data == old(stream.data) + written
        invariant target == Join(written, used, Serve(chunks, used, buf.data))
        decreases |chunks| - used
      {
        ghost var before := buf.data;
        stop := Turn(chunks[used]);
        ghost var t := Step(before + chunks[used]);
        Advance(chunks, used, before, written, t);
        Associative(old(stream.data), written, t.reply);
        written := written + t.reply;
        used := used + 1;
        if stop.Some? {
          return;
        }
      }
    }
  }
}
