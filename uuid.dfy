/**
 * Sixteen-byte identifiers and the decoding of a binlog value into one
 * (`value_as_uuid` and the part of `uuid::Uuid` it relies on).
 */
module UuidValue {
  import opened BinlogTypes

  type UuidBytes = s: seq<byte> | |s| == 16
    witness [0, 0, 0, 0, 0, 0, 0, 0, 0, 0, 0, 0, 0, 0, 0, 0]

  /** A 128-bit identifier, held as its sixteen bytes. */
  datatype Uuid = Uuid(bytes: UuidBytes)

  /** `Uuid::default()`, the nil identifier. */
  const NIL: Uuid := Uuid([0, 0, 0, 0, 0, 0, 0, 0, 0, 0, 0, 0, 0, 0, 0, 0])

  predicate IsNil(u: Uuid) {
    forall i :: 0 <= i < 16 ==> u.bytes[i] == 0
  }

  /** `Uuid::from_slice`: only a slice of exactly sixteen bytes is accepted. */
  function FromSlice(b: seq<byte>): (r: Option<Uuid>)
    ensures r.Some? <==> |b| == 16
    ensures r.Some? ==> r.value.bytes == b
  {
    if |b| == 16 then Some(Uuid(b)) else None
  }

  /** `Uuid::as_bytes`. */
  function AsBytes(u: Uuid): (b: UuidBytes) {
    u.bytes
  }

  /** Decoding the bytes of an identifier gives that identifier back. */
  lemma FromSliceAsBytes(u: Uuid)
    ensures FromSlice(AsBytes(u)) == Some(u)
  {
  }

  /** Whatever `from_slice` accepts is reproduced exactly by `as_bytes`. */
  lemma AsBytesFromSlice(b: seq<byte>)
    requires FromSlice(b).Some?
    ensures AsBytes(FromSlice(b).value) == b
  {
  }

  predicate IsBytes(value: BinlogValue) {
    value.Value? && value.v.Bytes?
  }

  /**
   * `value_as_uuid`: a byte payload of exactly sixteen bytes becomes the
   * identifier with those bytes; a byte payload of another length is a parse
   * error; every other value, NULL included, is not an identifier.
   */
  function ValueAsUuid(value: BinlogValue): (r: Result<Uuid>)
    ensures r.Ok? <==> IsBytes(value) && |value.v.bytes| == 16
    ensures r.Ok? ==> AsBytes(r.value) == value.v.bytes
    ensures IsBytes(value) && |value.v.bytes| != 16 ==> r == Err(UuidParse(value.v.bytes))
    ensures !IsBytes(value) ==> r == Err(NotAUuid(value))
  {
    match value
    case Value(Bytes(b)) =>
      (match FromSlice(b)
       case Some(u) => Ok(u)
       case None => Err(UuidParse(b)))
    case _ => Err(NotAUuid(value))
  }

  /** A NULL column never decodes to an identifier. */
  lemma NullIsNotAUuid()
    ensures ValueAsUuid(Value(Null)) == Err(NotAUuid(Value(Null)))
  {
  }
}
