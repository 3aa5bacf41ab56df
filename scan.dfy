/**
 * The outcome of one incremental parse step and the small token scanners the
 * RESP grammars are built from: an indicator byte, a line ending and "every
 * byte up to the first carriage return".
 *
 * A step either succeeds with a value and the unconsumed rest of the input,
 * needs more input (the input so far is a proper prefix of something that may
 * still parse), or fails for good.  A scanner in complete (non-streaming)
 * mode never asks for more input: where a streaming scanner would, it fails.
 */
module Scan {
  import opened ByteStrings

  datatype Step<+T> = Done(value: T, rest: Bytes) | NeedMore | Fail

  /** What a scanner answers when it runs out of input. */
  function Short<T>(streaming: bool): (r: Step<T>)
    ensures streaming <==> r.NeedMore?
    ensures !streaming <==> r.Fail?
  {
    if streaming then NeedMore else Fail
  }

  /** A single expected byte at the front of the input. */
  function Indicator(input: Bytes, b: byte, streaming: bool): (r: Step<()>)
    ensures r.Done? <==> input != [] && input[0] == b
    ensures r.Done? ==> r.rest == input[1..]
    ensures r.NeedMore? <==> streaming && input == []
  {
    if input == [] then Short(streaming)
    else if input[0] == b then Done((), input[1..])
    else Fail
  }

  /**
   * A line ending: a lone LF or a CR LF pair.  A CR at the very end of the
   * input may still become CR LF, so in streaming mode it needs more input.
   */
  function LineEnding(input: Bytes, streaming: bool): (r: Step<()>)
    ensures r.Done? <==> (|input| >= 1 && input[0] == LF) || (|input| >= 2 && input[..2] == CRLF)
    ensures r.Done? && input[0] == LF ==> r.rest == input[1..]
    ensures r.Done? && input[0] == CR ==> r.rest == input[2..]
    ensures r.NeedMore? <==> streaming && (input == [] || input == [CR])
  {
    if input == [] then Short(streaming)
    else if input[0] == LF then Done((), input[1..])
    else if input[0] != CR then Fail
    else if |input| == 1 then Short(streaming)
    else if input[1] == LF then Done((), input[2..])
    else Fail
  }

  /** Index of the first CR in `s`, which must contain one. */
  function FirstCR(s: Bytes): (k: nat)
    requires CR in s
    ensures k < |s| && s[k] == CR && NoCR(s[..k])
  {
    if s[0] == CR then 0
    else
      var k := FirstCR(s[1..]);
      assert s[..k + 1] == [s[0]] + s[1..][..k];
      k + 1
  }

  /**
   * Streaming "take until CR": the bytes before the first CR, leaving the CR
   * at the front of the rest.  Without a CR it needs more input.
   */
  function TakeUntilCR(input: Bytes): (r: Step<Bytes>)
    ensures r.Done? <==> CR in input
    ensures !r.Fail?
    ensures r.Done? ==> r.value + r.rest == input && NoCR(r.value) && r.rest != [] && r.rest[0] == CR
  {
    if CR in input then
      var k := FirstCR(input);
      assert input[..k] + input[k..] == input;
      Done(input[..k], input[k..])
    else NeedMore
  }

  /** The first CR is found no matter what follows it. */
  lemma TakeUntilCRPrefix(content: Bytes, rest: Bytes)
    requires NoCR(content)
    ensures TakeUntilCR(content + [CR] + rest) == Done(content, [CR] + rest)
  {
    var input := content + [CR] + rest;
    assert input[|content|] == CR;
    assert input[..|content|] == content;
    assert input[|content|..] == [CR] + rest;
  }

  /** A CR LF line ending consumes exactly two bytes, in either mode. */
  lemma LineEndingCRLF(rest: Bytes, streaming: bool)
    ensures LineEnding(CRLF + rest, streaming) == Done((), rest)
  {
    assert (CRLF + rest)[2..] == rest;
  }
}
