/**
 * What the older parser reads: its line forms, its greedy arrays, and the
 * wire form the serialiser writes, for the values it can represent.
 */
module LegacyFacts {
  import opened Wrappers
  import opened ByteStrings
  import opened Scan
  import opened Decimal
  import RespValue
  import opened LegacyParse

  // The line forms.

  /** The first CR LF after a text free of CR LF pairs is the one that ends it. */
  lemma TakeUntilCRLFLine(text: Bytes, rest: Bytes)
    requires NoCRLF(text)
    ensures TakeUntilCRLF(text + CRLF + rest) == Done(text, CRLF + rest)
  {
    var s := text + CRLF + rest;
    assert CRLFAt(s, |text|);
    forall k | 0 <= k < |text| ensures !CRLFAt(s, k) {
      assert s[k] == text[k];
      if k + 1 < |text| {
        assert s[k + 1] == text[k + 1];
        assert !CRLFAt(text, k);
      } else {
        assert s[k + 1] == CR;
      }
    }
    var r := TakeUntilCRLF(s);
    assert |r.value| == |text|;
    assert r.value == s[..|text|] && s[..|text|] == text;
    assert r.rest == s[|text|..] && s[|text|..] == CRLF + rest;
  }

  lemma LineSteps(input: Bytes, indicator: byte, text: Bytes, b: Bytes, c: Bytes)
    requires input != [] && input[0] == indicator
    requires TakeUntilCRLF(input[1..]) == Done(text, b)
    requires LineEnding(b, false) == Done((), c)
    ensures ParseLine(input, indicator) == Done(text, c)
  {
  }

  /** `+text\r\n` or `-text\r\n`: the text runs to the first CR LF, lone CRs included. */
  lemma LineFrame(indicator: byte, text: Bytes, rest: Bytes)
    requires NoCRLF(text)
    ensures ParseLine([indicator] + text + CRLF + rest, indicator) == Done(text, rest)
  {
    var input := [indicator] + text + CRLF + rest;
    assert input[1..] == text + CRLF + rest;
    TakeUntilCRLFLine(text, rest);
    LineEndingCRLF(rest, false);
    LineSteps(input, indicator, text, CRLF + rest, rest);
  }

  lemma IntegerSteps(input: Bytes, n: i64, b: Bytes, c: Bytes)
    requires input != [] && input[0] == COLON
    requires ParseI64(input[1..], false) == Done(n, b)
    requires LineEnding(b, false) == Done((), c)
    ensures ParseInteger(input) == Done(Integer(n), c)
  {
  }

  /** `:n\r\n` is the integer `n`. */
  lemma IntegerFrame(i: i64, rest: Bytes)
    ensures ParseInteger([COLON] + Format(i) + CRLF + rest) == Done(Integer(i), rest)
  {
    var input := [COLON] + Format(i) + CRLF + rest;
    assert input[1..] == Format(i) + (CRLF + rest);
    FormatParses(i, CRLF + rest, false);
    LineEndingCRLF(rest, false);
    IntegerSteps(input, i, CRLF + rest, rest);
  }

  lemma WhileNotCRLine(text: Bytes, rest: Bytes)
    requires NoCR(text)
    ensures TakeWhileNotCR(text + CRLF + rest) == (text, CRLF + rest)
  {
    assert text + CRLF + rest == text + [CR] + ([LF] + rest);
    assert [CR] + ([LF] + rest) == CRLF + rest;
    TakeUntilCRPrefix(text, [LF] + rest);
  }

  lemma BulkSteps(input: Bytes, b: Bytes, c: Bytes, e: Bytes, payload: Bytes, f: Bytes, g: Bytes)
    requires input != [] && input[0] == DOLLAR
    requires TakeWhileNotCR(input[1..]).1 == b
    requires Indicator(b, CR, false) == Done((), c)
    requires LineEnding(c, false) == Done((), e)
    requires TakeWhileNotCR(e) == (payload, f)
    requires LineEnding(f, false) == Done((), g)
    ensures ParseBulkString(input) == Done(BulkString(payload), g)
  {
  }

  /**
   * `$header\r\npayload\r\n` is the bulk string `payload` for any header
   * without a CR: the declared length is never read.
   */
  lemma BulkFrame(header: Bytes, payload: Bytes, rest: Bytes)
    requires NoCR(header) && NoCR(payload)
    ensures ParseBulkString([DOLLAR] + header + CRLF + (payload + CRLF + rest)) == Done(BulkString(payload), rest)
  {
    var input := [DOLLAR] + header + CRLF + (payload + CRLF + rest);
    var e := payload + CRLF + rest;
    HeaderSkipped(header, e);
    AfterHeaderCR(e);
    WhileNotCRLine(payload, rest);
    LineEndingCRLF(rest, false);
    BulkSteps(input, CRLF + e, [LF] + e, e, payload, CRLF + rest, rest);
  }

  lemma HeaderSkipped(header: Bytes, e: Bytes)
    requires NoCR(header)
    ensures TakeWhileNotCR(([DOLLAR] + header + CRLF + e)[1..]).1 == CRLF + e
  {
    assert ([DOLLAR] + header + CRLF + e)[1..] == header + CRLF + e;
    WhileNotCRLine(header, e);
  }

  /** After the header's CR, its LF is a complete line ending on its own. */
  lemma AfterHeaderCR(e: Bytes)
    ensures Indicator(CRLF + e, CR, false) == Done((), [LF] + e)
    ensures LineEnding([LF] + e, false) == Done((), e)
  {
    assert (CRLF + e)[1..] == [LF] + e;
    assert ([LF] + e)[1..] == e;
  }

  /** Without a CR there is simply nothing to read: short input fails, it never waits. */
  lemma ShortInputFails()
    ensures ParseTop(Ascii(":123")) == Fail
    ensures Parse(Ascii(":123")) == Err(Invalid)
  {
    var a := Ascii(":123");
    assert a == [COLON, 49, 50, 51];
    assert a[1..] == [49, 50, 51];
    assert ParseI64([49, 50, 51], false) == Done(123, []) by {
      assert [49, 50, 51][1..] == [50, 51];
      assert [50, 51][1..] == [51];
      assert [51][1..] == [];
    }
  }

  // Greedy repetition over chunks.

  /** Each chunk reads, whatever follows it, as the element at the same position. */
  ghost predicate ElementFrames(xs: seq<RedisType>, cs: seq<Bytes>) {
    |cs| == |xs| && forall i, r :: 0 <= i < |xs| ==> ParseElement(cs[i] + r) == Done(xs[i], r)
  }

  lemma TailElementFrames(xs: seq<RedisType>, cs: seq<Bytes>)
    requires ElementFrames(xs, cs) && xs != []
    ensures ElementFrames(xs[1..], cs[1..])
  {
    forall i, r | 0 <= i < |xs| - 1 ensures ParseElement(cs[1..][i] + r) == Done(xs[1..][i], r) {
      assert cs[1..][i] == cs[i + 1] && xs[1..][i] == xs[i + 1];
    }
  }

  lemma Many0Cons(input: Bytes, v: RedisType, mid: Bytes, vs: seq<RedisType>, rest: Bytes)
    requires ParseElement(input) == Done(v, mid)
    requires Many0(mid) == (vs, rest)
    ensures Many0(input) == ([v] + vs, rest)
  {
  }

  /** One element in front of what `many0` reads is one more element read. */
  lemma Many0Step(x: RedisType, vs: seq<RedisType>, c: Bytes, tail: Bytes, rest: Bytes)
    requires ParseElement(c + (tail + rest)) == Done(x, tail + rest)
    requires Many0(tail + rest) == (vs, rest)
    ensures Many0(c + tail + rest) == ([x] + vs, rest)
  {
    Many0Cons(c + (tail + rest), x, tail + rest, vs, rest);
    assert c + tail + rest == c + (tail + rest);
  }

  lemma ElementFrameAt(xs: seq<RedisType>, cs: seq<Bytes>, i: nat, r: Bytes)
    requires ElementFrames(xs, cs) && i < |xs|
    ensures ParseElement(cs[i] + r) == Done(xs[i], r)
  {
  }

  /** The chunks one after the other, then input that is no element: exactly the elements. */
  lemma {:induction false} Many0Chunks(xs: seq<RedisType>, cs: seq<Bytes>, rest: Bytes)
    requires ElementFrames(xs, cs) && ParseElement(rest).Fail?
    ensures Many0(Flatten(cs) + rest) == (xs, rest)
    decreases |xs|
  {
    if xs != [] {
      TailElementFrames(xs, cs);
      Many0Chunks(xs[1..], cs[1..], rest);
      ElementFrameAt(xs, cs, 0, Flatten(cs[1..]) + rest);
      Many0Step(xs[0], xs[1..], cs[0], Flatten(cs[1..]), rest);
      assert Flatten(cs) == cs[0] + Flatten(cs[1..]);
      HeadTail(xs);
    } else {
      assert Flatten(cs) + rest == rest;
    }
  }

  // Reading what the serialiser writes.

  /** The serialiser's value for a legacy value (a bulk string's text becomes its bytes). */
  function AsValue(t: RedisType): (v: RespValue.Value)
    ensures !t.Array? ==> !v.Array? && !v.Null? && !v.NullArray?
    ensures t.Array? ==> v.Array? && |v.items| == |t.items|
    decreases t
  {
    match t
    case SimpleString(s) => RespValue.SimpleString(s)
    case Error(e) => RespValue.Error(e)
    case Integer(n) => RespValue.Integer(n)
    case BulkString(b) => RespValue.BulkString(b)
    case Array(xs) => RespValue.Array(seq(|xs|, i requires 0 <= i < |xs| => AsValue(xs[i])))
  }

  /**
   * The values whose wire form the older parser reads back: texts free of
   * CR LF pairs, bulk payloads free of CR, arrays of non-arrays whose count
   * fits an `i64`.
   */
  predicate Flat(t: RedisType) {
    match t
    case SimpleString(s) => NoCRLF(s)
    case Error(e) => NoCRLF(e)
    case Integer(_) => true
    case BulkString(b) => NoCR(b)
    case Array(xs) =>
      |xs| < 0x8000_0000_0000_0000 &&
      forall i :: 0 <= i < |xs| ==> !xs[i].Array? && Flat(xs[i])
  }

  lemma CountText(n: nat)
    requires n < 0x8000_0000_0000_0000
    ensures Format(n as i64) == Digits(n)
  {
    FormatShape(n as i64);
  }

  lemma DigitsNoCR(n: nat)
    ensures NoCR(Digits(n))
  {
    DigitsShape(n);
  }

  /** The wire form of each kind of element, with whatever follows it. */
  lemma ElementShape(t: RedisType, rest: Bytes)
    requires !t.Array?
    ensures t.SimpleString? ==> RespValue.Encode(AsValue(t)) + rest == [PLUS] + t.text + CRLF + rest
    ensures t.Error? ==> RespValue.Encode(AsValue(t)) + rest == [MINUS] + t.text + CRLF + rest
    ensures t.Integer? ==> RespValue.Encode(AsValue(t)) + rest == [COLON] + Format(t.n) + CRLF + rest
    ensures t.BulkString? ==>
      RespValue.Encode(AsValue(t)) + rest == [DOLLAR] + Digits(|t.text|) + CRLF + (t.text + CRLF + rest)
  {
  }

  /** The alternatives amount to a dispatch on the first byte. */
  lemma ElementDispatch(input: Bytes)
    requires input != []
    ensures input[0] == PLUS ==> ParseElement(input) == ParseSimpleString(input)
    ensures input[0] == MINUS ==> ParseElement(input) == ParseSimpleError(input)
    ensures input[0] == DOLLAR ==> ParseElement(input) == ParseBulkString(input)
    ensures input[0] == COLON ==> ParseElement(input) == ParseInteger(input)
    ensures input[0] !in {PLUS, MINUS, DOLLAR, COLON} ==> ParseElement(input) == Fail
    ensures input[0] != STAR ==> ParseTop(input) == ParseElement(input)
    ensures input[0] == STAR ==> ParseElement(input) == Fail && ParseTop(input) == ParseArray(input)
  {
  }

  lemma SimpleElement(s: Bytes, rest: Bytes)
    requires NoCRLF(s)
    ensures ParseElement([PLUS] + s + CRLF + rest) == Done(SimpleString(s), rest)
  {
    LineFrame(PLUS, s, rest);
    ElementDispatch([PLUS] + s + CRLF + rest);
  }

  lemma ErrorElement(e: Bytes, rest: Bytes)
    requires NoCRLF(e)
    ensures ParseElement([MINUS] + e + CRLF + rest) == Done(Error(e), rest)
  {
    LineFrame(MINUS, e, rest);
    ElementDispatch([MINUS] + e + CRLF + rest);
  }

  lemma IntegerElement(i: i64, rest: Bytes)
    ensures ParseElement([COLON] + Format(i) + CRLF + rest) == Done(Integer(i), rest)
  {
    IntegerFrame(i, rest);
    ElementDispatch([COLON] + Format(i) + CRLF + rest);
  }

  lemma BulkElement(b: Bytes, rest: Bytes)
    requires NoCR(b)
    ensures ParseElement([DOLLAR] + Digits(|b|) + CRLF + (b + CRLF + rest)) == Done(BulkString(b), rest)
  {
    DigitsNoCR(|b|);
    BulkFrame(Digits(|b|), b, rest);
    ElementDispatch([DOLLAR] + Digits(|b|) + CRLF + (b + CRLF + rest));
  }

  /** One element of an array, written by the serialiser, reads back whatever follows it. */
  lemma ElementRoundTrip(t: RedisType, rest: Bytes)
    requires !t.Array? && Flat(t)
    ensures ParseElement(RespValue.Encode(AsValue(t)) + rest) == Done(t, rest)
  {
    ElementShape(t, rest);
    match t
    case SimpleString(s) => SimpleElement(s, rest);
    case Error(e) => ErrorElement(e, rest);
    case Integer(i) => IntegerElement(i, rest);
    case BulkString(b) => BulkElement(b, rest);
  }

  lemma ArraySteps(input: Bytes, n: i64, b: Bytes, c: Bytes, e: Bytes, f: Bytes, xs: seq<RedisType>, rest: Bytes)
    requires input != [] && input[0] == STAR
    requires ParseI64(input[1..], false) == Done(n, b)
    requires TakeWhileNotCR(b).1 == c
    requires Indicator(c, CR, false) == Done((), e)
    requires LineEnding(e, false) == Done((), f)
    requires Many0(f) == (xs, rest)
    ensures ParseArray(input) == Done(Array(xs), rest)
  {
  }

  lemma CountLine(n: i64, body: Bytes)
    ensures ([STAR] + Format(n) + CRLF + body)[1..] == Format(n) + (CRLF + body)
  {
  }

  lemma NothingBeforeCR(body: Bytes)
    ensures TakeWhileNotCR(CRLF + body).1 == CRLF + body
  {
    WhileNotCRLine([], body);
    assert [] + CRLF + body == CRLF + body;
  }

  /**
   * `*n\r\n` and the elements' lines, up to input that is no element: the
   * array holds exactly those elements, whatever the count `n` says.
   */
  lemma ArrayFrame(n: i64, xs: seq<RedisType>, cs: seq<Bytes>, rest: Bytes)
    requires ElementFrames(xs, cs) && ParseElement(rest).Fail?
    ensures ParseArray([STAR] + Format(n) + CRLF + (Flatten(cs) + rest)) == Done(Array(xs), rest)
  {
    var body := Flatten(cs) + rest;
    CountLine(n, body);
    FormatParses(n, CRLF + body, false);
    NothingBeforeCR(body);
    AfterHeaderCR(body);
    Many0Chunks(xs, cs, rest);
    ArraySteps([STAR] + Format(n) + CRLF + body, n, CRLF + body, CRLF + body, [LF] + body, body, xs, rest);
  }

  lemma AsValueItems(xs: seq<RedisType>)
    ensures RespValue.Encode(AsValue(Array(xs)))
         == [STAR] + Digits(|xs|) + CRLF + Flatten(seq(|xs|, i requires 0 <= i < |xs| => RespValue.Encode(AsValue(xs[i]))))
  {
    var ys := AsValue(Array(xs)).items;
    assert seq(|ys|, i requires 0 <= i < |ys| => RespValue.Encode(ys[i]))
        == seq(|xs|, i requires 0 <= i < |xs| => RespValue.Encode(AsValue(xs[i])));
  }

  /** `parse` reads back the serialiser's wire form of every flat value. */
  lemma RoundTrip(t: RedisType)
    requires Flat(t)
    ensures Parse(RespValue.Encode(AsValue(t))) == Ok(t)
  {
    var input := RespValue.Encode(AsValue(t));
    assert ParseElement([]).Fail?;
    if t.Array? {
      var xs := t.items;
      var cs := seq(|xs|, i requires 0 <= i < |xs| => RespValue.Encode(AsValue(xs[i])));
      forall i, r | 0 <= i < |xs| ensures ParseElement(cs[i] + r) == Done(xs[i], r) {
        ElementRoundTrip(xs[i], r);
      }
      AsValueItems(xs);
      CountText(|xs|);
      assert input == [STAR] + Format(|xs| as i64) + CRLF + (Flatten(cs) + []);
      ArrayFrame(|xs| as i64, xs, cs, []);
      ElementDispatch(input);
    } else {
      ElementRoundTrip(t, []);
      assert input + [] == input;
      RespValue.EncodeStart(AsValue(t));
    }
  }

  /** An array as the first element ends the outer array empty; its bytes are left over. */
  lemma NestedArrayTrailing(n: i64, tail: Bytes)
    requires tail != [] && tail[0] == STAR
    ensures Parse([STAR] + Format(n) + CRLF + tail) == Err(Trailing(tail))
  {
    ElementDispatch(tail);
    assert Flatten([]) + tail == tail;
    ArrayFrame(n, [], [], tail);
    ElementDispatch([STAR] + Format(n) + CRLF + tail);
  }

  /** Whatever the count says, a count line and one integer line make a one-element array. */
  lemma CountIgnored(n: i64, i: i64)
    ensures Parse([STAR] + Format(n) + CRLF + ([COLON] + Format(i) + CRLF)) == Ok(Array([Integer(i)]))
  {
    var one := [COLON] + Format(i) + CRLF;
    forall r ensures ParseElement(one + r) == Done(Integer(i), r) {
      IntegerElement(i, r);
    }
    assert Flatten([one]) + [] == one by {
      assert [one][1..] == [];
    }
    assert ParseElement([]).Fail?;
    ArrayFrame(n, [Integer(i)], [one], []);
    ElementDispatch([STAR] + Format(n) + CRLF + one);
  }

  lemma NestedText()
    ensures Ascii("*1\r\n*0\r\n") == [STAR] + Format(1) + CRLF + Ascii("*0\r\n")
    ensures Ascii("*0\r\n") != [] && Ascii("*0\r\n")[0] == STAR
  {
    assert Format(1) == [49];
  }

  lemma CountText51()
    ensures Ascii("*5\r\n:1\r\n") == [STAR] + Format(5) + CRLF + ([COLON] + Format(1) + CRLF)
  {
    assert Format(1) == [49] && Format(5) == [53];
  }

  /** `*1` followed by `*0`: arrays cannot nest. */
  lemma NestedArrayExample()
    ensures Parse(Ascii("*1\r\n*0\r\n")) == Err(Trailing(Ascii("*0\r\n")))
  {
    NestedText();
    NestedArrayTrailing(1, Ascii("*0\r\n"));
  }

  /** `*5` followed by a single integer. */
  lemma CountIgnoredExample()
    ensures Parse(Ascii("*5\r\n:1\r\n")) == Ok(Array([Integer(1)]))
  {
    CountText51();
    CountIgnored(5, 1);
  }
}
