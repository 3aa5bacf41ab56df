/**
 * The argument cursor of `src/parser/values.rs`: the elements of a request
 * array and an index that every take moves forward by one, before it looks
 * at the element and whether or not the take then succeeds.  There is no
 * rewind: once the cursor has run past the end, every later take fails.
 */
module Cursor {
  import opened Wrappers
  import opened ByteStrings
  import opened Decimal
  import opened RespValue

  datatype ValueError = InvalidType | InvalidNumber | Utf8 | OutOfBounds

  /** A string-like element: a simple string or a bulk string. */
  predicate IsText(v: Value) {
    v.SimpleString? || v.BulkString?
  }

  /** What `get_string` makes of the element it took. */
  function TextOf(v: Value): (r: Result<Bytes, ValueError>)
    ensures r.Ok? <==> IsText(v)
    ensures r.Ok? ==> r.value == v.data
    ensures r.Err? ==> r.error == InvalidType
  {
    match v
    case SimpleString(s) => Ok(s)
    case BulkString(b) => Ok(b)
    case _ => Err(InvalidType)
  }

  /**
   * What `get_uncased_string` makes of the element it took.  An uncased
   * string is represented by its ASCII lower-case form, the form by which
   * uncased strings compare.
   */
  function UncasedOf(v: Value): (r: Result<Bytes, ValueError>)
    ensures r.Ok? <==> IsText(v)
    ensures r.Ok? ==> r.value == AsciiLower(v.data)
    ensures r.Err? ==> r.error == InvalidType
  {
    match TextOf(v)
    case Ok(s) => Ok(AsciiLower(s))
    case Err(e) => Err(e)
  }

  /** What `get_number` makes of the element it took: an integer as it is, text through `str::parse`. */
  function NumberOf(v: Value): (r: Result<i64, ValueError>)
    ensures v.Integer? ==> r == Ok(v.n)
    ensures IsText(v) ==> (r.Ok? <==> ParseInt(v.data).Some?)
    ensures IsText(v) && r.Ok? ==> r.value == ParseInt(v.data).value
    ensures IsText(v) && r.Err? ==> r.error == InvalidNumber
    ensures !IsText(v) && !v.Integer? ==> r == Err(InvalidType)
  {
    match v
    case Integer(i) => Ok(i)
    case SimpleString(s) => (match ParseInt(s) case Some(i) => Ok(i) case None => Err(InvalidNumber))
    case BulkString(b) => (match ParseInt(b) case Some(i) => Ok(i) case None => Err(InvalidNumber))
    case _ => Err(InvalidType)
  }

  /** A number written the way the serialiser writes it is read back, as a simple or a bulk string. */
  lemma NumberOfFormat(i: i64)
    ensures NumberOf(SimpleString(Format(i))) == Ok(i)
    ensures NumberOf(BulkString(Format(i))) == Ok(i)
  {
    ParseIntFormat(i);
  }

  class Values {
    const values: seq<Value>
    /** The position of the element taken last; -1 before the first take. */
    var idx: int

    ghost predicate Valid()
      reads this
    {
      -1 <= idx
    }

    /** The elements the cursor has not yet taken. */
    ghost function Remaining(): (r: seq<Value>)
      requires Valid()
      reads this
      ensures |r| <= |values|
    {
      if idx + 1 <= |values| then values[idx + 1..] else []
    }

    /** Every further take fails with `OutOfBounds`. */
    predicate Exhausted()
      reads this
    {
      idx + 1 >= |values|
    }

    /** `new`: the cursor sits before the first element. */
    constructor (values: seq<Value>)
      ensures this.values == values && idx == -1
      ensures Valid() && Remaining() == values
    {
      this.values := values;
      idx := -1;
    }

    /** `check_bounds`: the index has run past the last element. */
    function CheckBounds(): (r: Result<(), ValueError>)
      reads this
      ensures r.Err? <==> idx >= |values|
      ensures r.Err? ==> r.error == OutOfBounds
    {
      if idx >= |values| then Err(OutOfBounds) else Ok(())
    }

    /** `next`: advance by one, then take the element there, if there is one. */
    method Next() returns (r: Result<Value, ValueError>)
      requires Valid()
      modifies this
      ensures Valid() && idx == old(idx) + 1
      ensures r.Err? <==> idx >= |values|
      ensures r.Err? ==> r.error == OutOfBounds
      ensures r.Ok? ==> r.value == values[idx]
      ensures old(Remaining()) == [] ==> Remaining() == [] && r == Err(OutOfBounds)
      ensures old(Remaining()) != [] ==> Remaining() == old(Remaining())[1..] && r == Ok(old(Remaining())[0])
      ensures old(Exhausted()) ==> Exhausted()
    {
      idx := idx + 1;
      var bounds := CheckBounds();
      if bounds.Err? {
        return Err(bounds.error);
      }
      r := Ok(values[idx]);
    }

    /** `get_string`: the text of the next element, which must be a simple or a bulk string. */
    method GetString() returns (r: Result<Bytes, ValueError>)
      requires Valid()
      modifies this
      ensures Valid() && idx == old(idx) + 1
      ensures old(Remaining()) == [] ==> r == Err(OutOfBounds) && Remaining() == []
      ensures old(Remaining()) != [] ==> r == TextOf(old(Remaining())[0]) && Remaining() == old(Remaining())[1..]
    {
      var next := Next();
      match next
      case Err(e) => r := Err(e);
      case Ok(v) => r := TextOf(v);
    }

    /** `get_uncased_string`: as `GetString`, the text compared without regard to ASCII case. */
    method GetUncasedString() returns (r: Result<Bytes, ValueError>)
      requires Valid()
      modifies this
      ensures Valid() && idx == old(idx) + 1
      ensures old(Remaining()) == [] ==> r == Err(OutOfBounds) && Remaining() == []
      ensures old(Remaining()) != [] ==> r == UncasedOf(old(Remaining())[0]) && Remaining() == old(Remaining())[1..]
    {
      var next := Next();
      match next
      case Err(e) => r := Err(e);
      case Ok(v) => r := UncasedOf(v);
    }

    /** `get_number`: the next element as a signed 64-bit number. */
    method GetNumber() returns (r: Result<i64, ValueError>)
      requires Valid()
      modifies this
      ensures Valid() && idx == old(idx) + 1
      ensures old(Remaining()) == [] ==> r == Err(OutOfBounds) && Remaining() == []
      ensures old(Remaining()) != [] ==> r == NumberOf(old(Remaining())[0]) && Remaining() == old(Remaining())[1..]
    {
      var next := Next();
      match next
      case Err(e) => r := Err(e);
      case Ok(v) => r := NumberOf(v);
    }

    /** `get_array`: always an empty slice, and the cursor does not move. */
    method GetArray() returns (r: Result<seq<Value>, ValueError>)
      ensures r == Ok([])
    {
      r := Ok([]);
    }
  }
}
