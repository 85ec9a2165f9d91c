/** SQL values and rows. Floating-point numbers are kept as their bits. */
module Rows {
  import opened Bytes

  type I64 = i: int | -0x8000_0000_0000_0000 <= i < 0x8000_0000_0000_0000

  datatype Value =
    | Null
    | Integer(i: I64)
    | Float(bits: U64)
    | Real(bits: U64)
    | Text(utf8: seq<byte>)
    | Blob(bytes: seq<byte>)
    | Vector(parts: seq<U32>)

  type Row = seq<Value>
}
