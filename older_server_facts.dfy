/**
 * What the older snapshot's connection loop does with the bytes a client
 * sends: every whole request in a read of its own is a `PING` or closes
 * the connection; a request split across reads waits for the rest; two
 * requests in one read are a parse error, because the parser wants
 * exactly one value and the buffer is only cleared after a success.
 */
module OlderServerFacts {
  import opened Wrappers
  import opened ByteStrings
  import opened OlderServer
  import RespValue
  import RespParse
  import RespRoundTrip
  import RespPrefix

  /** A value the client sends as a request: one the parser reads back, and one `Parser::command` accepts. */
  predicate Request(v: RespValue.Value) {
    RespRoundTrip.Encodable(RespParse.Older, v) && (v.SimpleString? || v.Array?)
  }

  /** The requests, one read each. */
  function Frames(vs: seq<RespValue.Value>): (cs: seq<Bytes>)
    ensures |cs| == |vs| && forall j :: 0 <= j < |vs| ==> cs[j] == RespValue.Encode(vs[j])
  {
    seq(|vs|, j requires 0 <= j < |vs| => RespValue.Encode(vs[j]))
  }

  /** `n` copies of `b`, one after the other. */
  function Repeat(b: Bytes, n: nat): (r: Bytes)
    ensures |r| == n * |b|
  {
    if n == 0 then [] else b + Repeat(b, n - 1)
  }

  /**
   * A turn either goes on, having written `+PONG` and cleared the buffer
   * or having written nothing and kept it, or ends the loop with an
   * invalid command or a parse error; `handle_command` never fails.
   */
  lemma StepCases(b: Bytes)
    ensures Step(b).stop.None? ==>
      (Step(b).reply == PONG && Step(b).buffer == []) || (Step(b).reply == [] && Step(b).buffer == b)
    ensures Step(b).stop.Some? ==>
      Step(b).stop.value.Failed? && Step(b).reply == []
      && (Step(b).stop.value.error == InvalidCommand || Step(b).stop.value.error == ParseError(RespParse.Parse))
  {
  }

  /** However the loop ends, it ends on an invalid command or a parse error, never on a failed command. */
  lemma {:induction false} EndsOnError(chunks: seq<Bytes>, i: nat, buffer: Bytes)
    requires i <= |chunks|
    ensures Serve(chunks, i, buffer).stop.Some? ==>
      Serve(chunks, i, buffer).stop.value.Failed?
      && Serve(chunks, i, buffer).stop.value.error != ParseError(RespParse.Incomplete)
    decreases |chunks| - i
  {
    if i < |chunks| {
      StepCases(buffer + chunks[i]);
      if Step(buffer + chunks[i]).stop.None? {
        EndsOnError(chunks, i + 1, Step(buffer + chunks[i]).buffer);
      }
    }
  }

  /** A whole request is answered with `+PONG` and leaves the buffer empty. */
  lemma RequestServed(v: RespValue.Value)
    requires Request(v)
    ensures Step(RespValue.Encode(v)) == Turn(None, PONG, [])
  {
    RespRoundTrip.ParseEncode(RespParse.Older, v);
  }

  /** A whole value that is neither a simple string nor an array ends the loop, with the buffer cleared. */
  lemma NonCommandFails(v: RespValue.Value)
    requires RespRoundTrip.Encodable(RespParse.Older, v) && !(v.SimpleString? || v.Array?)
    ensures Step(RespValue.Encode(v)) == Turn(Some(Failed(InvalidCommand)), [], [])
  {
    RespRoundTrip.ParseEncode(RespParse.Older, v);
  }

  /** Requests sent one read each are all answered, and the loop waits with an empty buffer. */
  lemma {:induction false} OneRequestPerRead(vs: seq<RespValue.Value>, i: nat)
    requires i <= |vs| && forall j :: 0 <= j < |vs| ==> Request(vs[j])
    ensures Serve(Frames(vs), i, []) == Session(None, Repeat(PONG, |vs| - i), [], |vs| - i)
    decreases |vs| - i
  {
    if i < |vs| {
      assert [] + Frames(vs)[i] == RespValue.Encode(vs[i]);
      RequestServed(vs[i]);
      OneRequestPerRead(vs, i + 1);
    }
  }

  /** A request split across two reads waits silently at the first and is answered at the second. */
  lemma SplitRequest(v: RespValue.Value, k: nat)
    requires Request(v) && k < |RespValue.Encode(v)|
    ensures Step(RespValue.Encode(v)[..k]) == Turn(None, [], RespValue.Encode(v)[..k])
    ensures Serve([RespValue.Encode(v)[..k], RespValue.Encode(v)[k..]], 0, []) == Session(None, PONG, [], 2)
  {
    var e := RespValue.Encode(v);
    PrefixWaits(v, k);
    RequestServed(v);
    assert e[..k] + e[k..] == e;
    TwoReads(e[..k], e[k..]);
  }

  /** A proper prefix of a request waits for more and keeps the buffer. */
  lemma PrefixWaits(v: RespValue.Value, k: nat)
    requires Request(v) && k < |RespValue.Encode(v)|
    ensures Step(RespValue.Encode(v)[..k]) == Turn(None, [], RespValue.Encode(v)[..k])
  {
    RespPrefix.TruncatedIsIncomplete(RespParse.Older, v, k);
  }

  /** Two reads, of which the first waits and the second completes a request. */
  lemma TwoReads(a: Bytes, b: Bytes)
    requires Step(a) == Turn(None, [], a) && Step(a + b) == Turn(None, PONG, [])
    ensures Serve([a, b], 0, []) == Session(None, PONG, [], 2)
  {
    var chunks := [a, b];
    assert [] + chunks[0] == a && a + chunks[1] == a + b;
    assert Serve(chunks, 2, []) == Session(None, [], [], 0);
    assert Serve(chunks, 1, a) == Session(None, PONG + [], [], 1);
    assert PONG + [] == PONG && [] + PONG == PONG;
  }

  /**
   * Two requests in one read: the second follows a complete value, so the
   * parse fails, nothing is written and the loop ends with both still in
   * the buffer.
   */
  lemma PipelinedRequests(v: RespValue.Value, w: RespValue.Value)
    requires Request(v) && Request(w)
    ensures Serve([RespValue.Encode(v) + RespValue.Encode(w)], 0, [])
         == Session(Some(Failed(ParseError(RespParse.Parse))), [], RespValue.Encode(v) + RespValue.Encode(w), 1)
  {
    var both := RespValue.Encode(v) + RespValue.Encode(w);
    RespValue.EncodeStart(w);
    RespRoundTrip.TrailingBytes(RespParse.Older, v, RespValue.Encode(w));
    assert [] + both == both;
  }
}
