/**
 * The parser's own test inputs, in both snapshots, as consequences of the
 * general results.
 */
module RespExamples {
  import opened Wrappers
  import opened ByteStrings
  import opened Decimal
  import opened RespValue
  import opened RespParse
  import opened RespFrames
  import opened RespRoundTrip
  import opened RespPrefix

  /** `$-1`, `*-1`, `*0` and `$0` with its empty line: null and empty stay apart. */
  lemma NullAndEmptyExamples(d: Dialect)
    ensures ParseWith(d, Ascii("$-1\r\n")) == Ok(Null)
    ensures ParseWith(d, Ascii("*-1\r\n")) == Ok(NullArray)
    ensures ParseWith(d, Ascii("*0\r\n")) == Ok(Array([]))
    ensures ParseWith(d, Ascii("$0\r\n\r\n")) == Ok(BulkString([]))
  {
    NullEncodings();
    ParseEncode(d, Null);
    ParseEncode(d, NullArray);
    ParseEncode(d, Array([]));
    ParseEncode(d, BulkString([]));
  }

  lemma OkText(d: Dialect)
    ensures Encode(SimpleString(Ascii("OK"))) == Ascii("+OK\r\n")
    ensures Encodable(d, SimpleString(Ascii("OK")))
  {
    assert Ascii("OK") == [79, 75];
    AsciiIsUtf8([79, 75]);
  }

  lemma ErrorBytes()
    ensures Ascii("ERROR") == [69, 82, 82, 79, 82]
  {
  }

  lemma ErrorText()
    ensures Encode(Error(Ascii("ERROR"))) == Ascii("-ERROR\r\n")
  {
  }

  lemma ErrorEncodable(d: Dialect)
    ensures Encodable(d, Error(Ascii("ERROR")))
  {
    ErrorBytes();
    ErrorUtf8();
  }

  lemma ErrorUtf8()
    ensures NoCR([69, 82, 82, 79, 82]) && ValidUtf8([69, 82, 82, 79, 82])
  {
    AsciiIsUtf8([69, 82, 82, 79, 82]);
  }

  lemma FooText()
    ensures Encode(BulkString(Ascii("foo"))) == Ascii("$3\r\nfoo\r\n")
  {
    assert Digits(3) == [51];
  }

  lemma PositiveText()
    ensures Encode(Integer(123)) == Ascii(":123\r\n")
  {
    assert Digits(123) == [49, 50, 51];
  }

  lemma NegativeText()
    ensures Encode(Integer(-123)) == Ascii(":-123\r\n")
  {
    assert Digits(123) == [49, 50, 51];
    assert Format(-123) == [MINUS, 49, 50, 51];
  }

  lemma SingletonText()
    ensures Encode(Array([Integer(523)])) == Ascii("*1\r\n:523\r\n")
  {
    assert Format(523) == [53, 50, 51] by {
      assert Digits(523) == [53, 50, 51];
    }
    assert Digits(1) == [49];
    EncodeAllCons([Integer(523)]);
    assert [Integer(523)][1..] == [];
    EncodeAllEmpty();
  }

  lemma SimpleStringExample(d: Dialect)
    ensures ParseWith(d, Ascii("+OK\r\n")) == Ok(SimpleString(Ascii("OK")))
  {
    OkText(d);
    ParseEncode(d, SimpleString(Ascii("OK")));
  }

  lemma ErrorExample(d: Dialect)
    ensures ParseWith(d, Ascii("-ERROR\r\n")) == Ok(Error(Ascii("ERROR")))
  {
    ErrorText();
    ErrorEncodable(d);
    ParseEncode(d, Error(Ascii("ERROR")));
  }

  lemma BulkStringExample(d: Dialect)
    ensures ParseWith(d, Ascii("$3\r\nfoo\r\n")) == Ok(BulkString(Ascii("foo")))
  {
    FooText();
    ParseEncode(d, BulkString(Ascii("foo")));
  }

  lemma IntegerExamples(d: Dialect)
    ensures ParseWith(d, Ascii(":123\r\n")) == Ok(Integer(123))
    ensures ParseWith(d, Ascii(":-123\r\n")) == Ok(Integer(-123))
  {
    PositiveText();
    NegativeText();
    ParseEncode(d, Integer(123));
    ParseEncode(d, Integer(-123));
  }

  lemma SingletonArrayExample(d: Dialect)
    ensures ParseWith(d, Ascii("*1\r\n:523\r\n")) == Ok(Array([Integer(523)]))
  {
    SingletonText();
    ParseEncode(d, Array([Integer(523)]));
  }

  /** `:123` with no line ending yet is `Incomplete`. */
  lemma NotEnoughData(d: Dialect)
    ensures ParseWith(d, Ascii(":123")) == Err(Incomplete)
  {
    PositiveText();
    assert Ascii(":123") == Encode(Integer(123))[..4];
    TruncatedIsIncomplete(d, Integer(123), 4);
  }

  /** A declared length of 5 with a two-byte payload still reads the payload up to the CR. */
  lemma DeclaredLengthIgnored(d: Dialect)
    ensures ParseWith(d, Ascii("$5\r\nab\r\n")) == Ok(BulkString(Ascii("ab")))
  {
    assert Digits(5) == [53];
    assert Ascii("$5\r\nab\r\n") == [DOLLAR] + Format(5) + CRLF + (Ascii("ab") + CRLF + []);
    BulkFrame(d, 5, Ascii("ab"), []);
  }

  /** A lone continuation byte: the current snapshot rejects it, the older one keeps it. */
  lemma RawSimpleString()
    ensures ParseWith(Current, [PLUS, 0x80, CR, LF]) == Err(Parse)
    ensures ParseWith(Older, [PLUS, 0x80, CR, LF]) == Ok(SimpleString([0x80]))
  {
    Utf8Examples();
    assert [PLUS, 0x80, CR, LF] == [PLUS] + [0x80] + CRLF + [];
    SimpleStringNotUtf8([0x80], []);
  }
}
