/**
 * The RESP value tree the server parses requests into and serialises
 * replies from, and its wire encoding.
 *
 * `Encode` is the byte string a value serialises to; `Serialize` is the
 * serialiser itself, which appends piece by piece to the caller's output
 * buffer and is proved to append exactly `Encode(v)`.
 */
module RespValue {
  import opened ByteStrings
  import opened Decimal
  import opened Buffers

  datatype Value =
    | Null
    | NullArray
    | SimpleString(data: Bytes)
    | Error(text: Bytes)
    | Integer(n: i64)
    | BulkString(data: Bytes)
    | Array(items: seq<Value>)

  /** The name of a value's variant, as logged by the server. */
  function TypeName(v: Value): (r: string)
    ensures r != ""
  {
    match v
    case Null => "null"
    case NullArray => "null_array"
    case SimpleString(_) => "simple_string"
    case Error(_) => "error"
    case Integer(_) => "integer"
    case BulkString(_) => "bulk_string"
    case Array(_) => "array"
  }

  predicate SameVariant(a: Value, b: Value) {
    match (a, b)
    case (Null, Null) => true
    case (NullArray, NullArray) => true
    case (SimpleString(_), SimpleString(_)) => true
    case (Error(_), Error(_)) => true
    case (Integer(_), Integer(_)) => true
    case (BulkString(_), BulkString(_)) => true
    case (Array(_), Array(_)) => true
    case _ => false
  }

  /** Type names tell the variants apart: two values share a name iff they share a variant. */
  lemma TypeNameIdentifiesVariant(a: Value, b: Value)
    ensures TypeName(a) == TypeName(b) <==> SameVariant(a, b)
  {
    if SameVariant(a, b) {
    } else {
      match a
      case Null => assert TypeName(a)[0] == 'n' && |TypeName(a)| == 4;
      case NullArray => assert |TypeName(a)| == 10;
      case SimpleString(_) => assert |TypeName(a)| == 13;
      case Error(_) => assert TypeName(a)[0] == 'e';
      case Integer(_) => assert TypeName(a)[0] == 'i';
      case BulkString(_) => assert TypeName(a)[0] == 'b';
      case Array(_) => assert TypeName(a)[0] == 'a' && |TypeName(a)| == 5;
    }
  }

  /** The byte a value's encoding starts with. */
  function TypeByte(v: Value): byte {
    match v
    case Null => DOLLAR
    case NullArray => STAR
    case SimpleString(_) => PLUS
    case Error(_) => MINUS
    case Integer(_) => COLON
    case BulkString(_) => DOLLAR
    case Array(_) => STAR
  }

  /** One protocol line: an indicator byte, a payload, CR LF. */
  function Line(indicator: byte, payload: Bytes): Bytes {
    [indicator] + payload + CRLF
  }

  /**
   * The wire form of a value.  Lengths and counts are written as minimal
   * decimals and always equal the actual byte length or element count.
   */
  function Encode(v: Value): Bytes
    decreases v
  {
    match v
    case Null => Line(DOLLAR, [MINUS, 49])
    case NullArray => Line(STAR, [MINUS, 49])
    case SimpleString(s) => Line(PLUS, s)
    case Error(e) => Line(MINUS, e)
    case Integer(n) => Line(COLON, Format(n))
    case BulkString(b) => Line(DOLLAR, Digits(|b|)) + b + CRLF
    case Array(xs) => Line(STAR, Digits(|xs|)) + EncodeAll(xs)
  }

  /** The encodings of a sequence of values, one after the other. */
  function EncodeAll(xs: seq<Value>): Bytes
    decreases xs
  {
    Flatten(seq(|xs|, i requires 0 <= i < |xs| => Encode(xs[i])))
  }

  /** Every encoding starts with the indicator byte of its variant. */
  lemma EncodeStart(v: Value)
    ensures |Encode(v)| >= 3 && Encode(v)[0] == TypeByte(v)
  {
  }

  /** The encodings of a non-empty sequence start with the encoding of its head. */
  lemma EncodeAllCons(xs: seq<Value>)
    requires xs != []
    ensures EncodeAll(xs) == Encode(xs[0]) + EncodeAll(xs[1..])
  {
    var cs := seq(|xs|, i requires 0 <= i < |xs| => Encode(xs[i]));
    var ds := seq(|xs| - 1, i requires 0 <= i < |xs| - 1 => Encode(xs[1..][i]));
    assert cs[1..] == ds;
  }

  /** The same, with whatever follows the encodings. */
  lemma EncodeAllConsRest(xs: seq<Value>, rest: Bytes)
    requires xs != []
    ensures EncodeAll(xs) + rest == Encode(xs[0]) + (EncodeAll(xs[1..]) + rest)
  {
    EncodeAllCons(xs);
  }

  /** Appending a value appends its encoding. */
  lemma EncodeAllSnoc(xs: seq<Value>, x: Value)
    ensures EncodeAll(xs + [x]) == EncodeAll(xs) + Encode(x)
  {
    var cs := seq(|xs|, i requires 0 <= i < |xs| => Encode(xs[i]));
    var ds := seq(|xs| + 1, i requires 0 <= i < |xs| + 1 => Encode((xs + [x])[i]));
    assert ds == cs + [Encode(x)];
    FlattenSnoc(cs, Encode(x));
  }

  lemma EncodeAllEmpty()
    ensures EncodeAll([]) == []
  {
  }

  /**
   * `Value::serialize`: appends the wire form of `v` to `output`, writing
   * the pieces in order and recursing into array elements.  Whatever
   * `output` held before stays an unchanged prefix.
   */
  method Serialize(v: Value, output: ByteBuffer)
    modifies output
    ensures output.data == old(output.data) + Encode(v)
    decreases v
  {
    ghost var start := output.data;
    match v {
      case Null =>
        output.Extend(Line(DOLLAR, [MINUS, 49]));
      case NullArray =>
        output.Extend(Line(STAR, [MINUS, 49]));
      case SimpleString(s) =>
        WriteLine(PLUS, s, output);
      case Error(e) =>
        WriteLine(MINUS, e, output);
      case Integer(n) =>
        WriteLine(COLON, Format(n), output);
      case BulkString(b) =>
        WriteLine(DOLLAR, Digits(|b|), output);
        output.Extend(b);
        output.Extend(CRLF);
        assert output.data == start + (Line(DOLLAR, Digits(|b|)) + b + CRLF);
      case Array(items) =>
        WriteLine(STAR, Digits(|items|), output);
        ghost var mid := output.data;
        SerializeItems(items, output);
        assert output.data == start + (Line(STAR, Digits(|items|)) + EncodeAll(items));
    }
  }

  /** The element loop of the array case: each element is serialised in turn. */
  method SerializeItems(items: seq<Value>, output: ByteBuffer)
    modifies output
    ensures output.data == old(output.data) + EncodeAll(items)
    decreases items
  {
    var i := 0;
    while i < |items|
      invariant 0 <= i <= |items|
      invariant output.data == old(output.data) + EncodeAll(items[..i])
    {
      ghost var pre := output.data;
      Serialize(items[i], output);
      SerializeStep(old(output.data), pre, output.data, items[..i], items[i]);
      assert items[..i + 1] == items[..i] + [items[i]];
      i := i + 1;
    }
    assert items[..|items|] == items;
  }

  /** One turn of the element loop: the output grows by the next element's encoding. */
  lemma SerializeStep(start: Bytes, pre: Bytes, post: Bytes, done: seq<Value>, x: Value)
    requires pre == start + EncodeAll(done)
    requires post == pre + Encode(x)
    ensures post == start + EncodeAll(done + [x])
  {
    EncodeAllSnoc(done, x);
  }

  /** Pushes the indicator, then the payload, then CR LF. */
  method WriteLine(indicator: byte, payload: Bytes, output: ByteBuffer)
    modifies output
    ensures output.data == old(output.data) + Line(indicator, payload)
  {
    output.Push(indicator);
    output.Extend(payload);
    output.Extend(CRLF);
  }

  /** The null bulk string and the null array have their own fixed forms, distinct from the empty ones. */
  lemma NullEncodings()
    ensures Encode(Null) == Ascii("$-1\r\n")
    ensures Encode(NullArray) == Ascii("*-1\r\n")
    ensures Encode(BulkString([])) == Ascii("$0\r\n\r\n")
    ensures Encode(Array([])) == Ascii("*0\r\n")
    ensures Encode(Null) != Encode(BulkString([])) && Encode(NullArray) != Encode(Array([]))
  {
    NullPieces();
    EmptyPieces();
    assert Encode(Null)[1] != Encode(BulkString([]))[1];
    assert Encode(NullArray)[1] != Encode(Array([]))[1];
  }

  lemma EmptyPieces()
    ensures Encode(BulkString([])) == Ascii("$0\r\n\r\n")
    ensures Encode(Array([])) == Ascii("*0\r\n")
  {
    assert Digits(0) == [ZERO];
    EncodeAllEmpty();
  }

  /** The mixed six-element array of the serialiser's own test, line by line. */
  lemma MixedArrayEncoding()
    ensures Encode(Array([Null, NullArray, Integer(100), BulkString(Ascii("Hello World")),
                          SimpleString(Ascii("Hello World")), Error(Ascii("SOME ERROR"))]))
         == Ascii("*6\r\n") + Ascii("$-1\r\n") + Ascii("*-1\r\n") + Ascii(":100\r\n")
          + Ascii("$11\r\n") + Ascii("Hello World\r\n") + Ascii("+Hello World\r\n") + Ascii("-SOME ERROR\r\n")
  {
    var hello := Ascii("Hello World");
    NullPieces();
    IntegerPiece();
    BulkPiece();
    SimplePiece();
    ErrorPiece();
    SixElements([Null, NullArray, Integer(100), BulkString(hello), SimpleString(hello), Error(Ascii("SOME ERROR"))],
                Ascii("$-1\r\n"), Ascii("*-1\r\n"), Ascii(":100\r\n"), Ascii("$11\r\n") + Ascii("Hello World\r\n"),
                Ascii("+Hello World\r\n"), Ascii("-SOME ERROR\r\n"));
  }

  /** A six-element array is its header followed by the six encodings in order. */
  lemma SixElements(xs: seq<Value>, a: Bytes, b: Bytes, c: Bytes, d: Bytes, e: Bytes, f: Bytes)
    requires |xs| == 6
    requires Encode(xs[0]) == a && Encode(xs[1]) == b && Encode(xs[2]) == c
    requires Encode(xs[3]) == d && Encode(xs[4]) == e && Encode(xs[5]) == f
    ensures Encode(Array(xs)) == Ascii("*6\r\n") + a + b + c + d + e + f
  {
    var h := Line(STAR, Digits(|xs|));
    assert xs[..0] == [] && h + [] == h;
    EncodeAllEmpty();
    EncodePrefix(h, xs, 0);
    EncodePrefix(h, xs, 1);
    EncodePrefix(h, xs, 2);
    EncodePrefix(h, xs, 3);
    EncodePrefix(h, xs, 4);
    EncodePrefix(h, xs, 5);
    assert xs[..6] == xs;
    assert Encode(Array(xs)) == h + a + b + c + d + e + f;
    SixHeader();
  }

  /** After a header, the encodings of the first `k + 1` values extend those of the first `k`. */
  lemma EncodePrefix(h: Bytes, xs: seq<Value>, k: nat)
    requires k < |xs|
    ensures h + EncodeAll(xs[..k + 1]) == h + EncodeAll(xs[..k]) + Encode(xs[k])
  {
    assert xs[..k + 1] == xs[..k] + [xs[k]];
    EncodeAllSnoc(xs[..k], xs[k]);
  }

  lemma SixHeader()
    ensures Line(STAR, Digits(6)) == Ascii("*6\r\n")
  {
    assert Digits(6) == [54];
  }

  lemma NullPieces()
    ensures Encode(Null) == Ascii("$-1\r\n")
    ensures Encode(NullArray) == Ascii("*-1\r\n")
  {
  }

  lemma IntegerPiece()
    ensures Encode(Integer(100)) == Ascii(":100\r\n")
  {
    assert Digits(100) == [49, 48, 48] by { assert Digits(10) == [49, 48] by { assert Digits(1) == [49]; } }
  }

  lemma BulkPiece()
    ensures Encode(BulkString(Ascii("Hello World"))) == Ascii("$11\r\n") + Ascii("Hello World\r\n")
  {
    assert Digits(11) == [49, 49] by { assert Digits(1) == [49]; }
    AsciiAppend("Hello World", "\r\n");
  }

  lemma SimplePiece()
    ensures Encode(SimpleString(Ascii("Hello World"))) == Ascii("+Hello World\r\n")
  {
    AsciiAppend("Hello World", "\r\n");
    AsciiAppend("+", "Hello World\r\n");
    assert "+Hello World\r\n" == "+" + ("Hello World" + "\r\n");
  }

  lemma ErrorPiece()
    ensures Encode(Error(Ascii("SOME ERROR"))) == Ascii("-SOME ERROR\r\n")
  {
    AsciiAppend("SOME ERROR", "\r\n");
    AsciiAppend("-", "SOME ERROR\r\n");
    assert "-SOME ERROR\r\n" == "-" + ("SOME ERROR" + "\r\n");
  }
}
