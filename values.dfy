/**
  Fixed-width integers, values and rows as the row comparators of
  parquet-go see them.

  A `Value` carries the index of the leaf column it belongs to, stored as the
  bitwise complement of that index (`^columnIndex` on an `int16`), and either
  no payload (a null) or a typed payload. A `Row` is a sequence of values.
 */
module Values {

  newtype uint8 = x: int | 0 <= x < 0x100
  newtype int16 = x: int | -0x8000 <= x < 0x8000
  newtype int32 = x: int | -0x8000_0000 <= x < 0x8000_0000
  newtype int64 = x: int | -0x8000_0000_0000_0000 <= x < 0x8000_0000_0000_0000
  newtype uint32 = x: int | 0 <= x < 0x1_0000_0000
  newtype uint64 = x: int | 0 <= x < 0x1_0000_0000_0000_0000

  datatype Option<+T> = None | Some(value: T)

  /** The typed payloads a non-null value can hold (floating point and the
      96-bit legacy integer are not modelled). */
  datatype Payload =
    | Boolean(b: bool)
    | Int32(i32: int32)
    | Int64(i64: int64)
    | ByteArray(bytes: seq<uint8>)
    | FixedLenByteArray(fixed: seq<uint8>)

  /** `columnTag` is the stored column field: the complement of the leaf's
      column index. A value without payload is null. */
  datatype Value = Value(columnTag: int16, payload: Option<Payload>)
  {
    predicate IsNull() {
      payload.None?
    }
  }

  type Row = seq<Value>

  /** Two's-complement bitwise negation `^x` on a 16-bit integer, which is
      -x - 1 and never leaves the 16-bit range. */
  function Complement(x: int16): int16 {
    (-(x as int) - 1) as int16
  }

  lemma ComplementInvolution(x: int16)
    ensures Complement(Complement(x)) == x
    ensures Complement(x) != x
  {
  }

  /** A non-negative column index is always stored as a negative tag, and
      distinct indexes get distinct tags. */
  lemma ComplementInjective(x: int16, y: int16)
    ensures Complement(x) == Complement(y) <==> x == y
    ensures x >= 0 ==> Complement(x) < 0
  {
  }
}
