/**
 * The values the key-value store holds (`src/database/value.rs`), and the
 * conversions into them.  Only null, simple strings, integers and bulk
 * strings can be stored; the conversions keep the content and the kind.
 */
module StoreValue {
  import opened Wrappers
  import opened ByteStrings
  import opened Decimal
  import RespValue

  datatype Value =
    | String(text: Bytes)
    | Bytes(data: Bytes)
    | Integer(n: i64)
    | Null

  /** The message of a failed conversion. */
  const INVALID_VALUE: string := "invalid value"

  /** A RESP value the store can hold. */
  predicate Storable(v: RespValue.Value) {
    v.Null? || v.SimpleString? || v.Integer? || v.BulkString?
  }

  /** `TryFrom<&resp::Value>`. */
  function FromResp(v: RespValue.Value): (r: Result<Value, string>)
    ensures r.Ok? <==> Storable(v)
    ensures r.Err? ==> r.error == INVALID_VALUE
  {
    match v
    case Null => Ok(Null)
    case SimpleString(s) => Ok(String(s))
    case Integer(i) => Ok(Integer(i))
    case BulkString(b) => Ok(Bytes(b))
    case _ => Err(INVALID_VALUE)
  }

  /** `TryFrom<&str>`, over the UTF-8 bytes of the text: it never fails. */
  function FromStr(s: Bytes): (r: Result<Value, string>)
    ensures r.Ok? && r.value.String? && r.value.text == s
  {
    Ok(String(s))
  }

  /** `TryFrom<&[u8]>`: it never fails. */
  function FromBytes(b: Bytes): (r: Result<Value, string>)
    ensures r.Ok? && r.value.Bytes? && r.value.data == b
  {
    Ok(Bytes(b))
  }

  /** `TryFrom<i64>`: it never fails. */
  function FromInt(i: i64): (r: Result<Value, string>)
    ensures r.Ok? && r.value == Integer(i)
  {
    Ok(Integer(i))
  }

  /**
   * The RESP value a stored value is served as by `GET`: a string as a
   * simple string, bytes as a bulk string, an integer and null as they are.
   */
  function ToResp(v: Value): (r: RespValue.Value)
    ensures Storable(r)
  {
    match v
    case String(s) => RespValue.SimpleString(s)
    case Bytes(b) => RespValue.BulkString(b)
    case Integer(i) => RespValue.Integer(i)
    case Null => RespValue.Null
  }

  /** Serving what was stored gives back the RESP value it was converted from. */
  lemma ServeStored(v: RespValue.Value)
    requires Storable(v)
    ensures FromResp(v).Ok? && ToResp(FromResp(v).value) == v
  {
  }

  /** Storing what is served gives back the stored value. */
  lemma StoreServed(v: Value)
    ensures FromResp(ToResp(v)) == Ok(v)
  {
  }

  /** The conversion is injective: distinct storable values are stored as distinct values. */
  lemma FromRespInjective(a: RespValue.Value, b: RespValue.Value)
    requires FromResp(a).Ok? && FromResp(b).Ok? && FromResp(a) == FromResp(b)
    ensures a == b
  {
    ServeStored(a);
    ServeStored(b);
  }

  /** The conversion keeps the kind of value. */
  lemma FromRespKind(v: RespValue.Value)
    requires Storable(v)
    ensures v.Null? <==> FromResp(v).value.Null?
    ensures v.SimpleString? <==> FromResp(v).value.String?
    ensures v.Integer? <==> FromResp(v).value.Integer?
    ensures v.BulkString? <==> FromResp(v).value.Bytes?
  {
  }

  /** Text and bytes with the same content are still told apart. */
  lemma TextIsNotBytes(s: Bytes)
    ensures FromStr(s) != FromBytes(s)
    ensures FromResp(RespValue.SimpleString(s)) == FromStr(s)
    ensures FromResp(RespValue.BulkString(s)) == FromBytes(s)
  {
  }
}
