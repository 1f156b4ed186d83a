/**
  Shared vocabulary of the model: optional values and error results, and
  the Java primitive `byte` with the two conversions the server relies on
  (the truncating `(byte)` cast and the `& 0xFF` unsigned reading).
 */
module Base {

  datatype Option<T> = None | Some(value: T)

  /** A value or the reason it could not be produced (a Java exception). */
  datatype Result<T, E> = Ok(value: T) | Err(error: E)

  /** An `IOException`: the model does not distinguish its causes. */
  datatype IoError = IoFailure

  /** A Java `byte`: two's complement, signed. */
  type SByte = b: int | -128 <= b < 128

  /** `(byte) v`: keep the low eight bits of `v` and read them as signed. */
  function Narrow(v: int): (r: SByte)
    ensures (r - v) % 256 == 0
  {
    var m := v % 256;
    if m < 128 then m else m - 256
  }

  /** `getUInt`: `value & 0x000000FF`, the unsigned reading of a byte. */
  function Unsigned(b: SByte): (r: int)
    ensures 0 <= r < 256
    ensures (r - b) % 256 == 0
  {
    if b < 0 then b + 256 else b
  }

  /** The two readings of a byte are inverse to each other. */
  lemma NarrowUnsigned(b: SByte)
    ensures Narrow(Unsigned(b)) == b
  {
  }

  lemma UnsignedNarrow(v: int)
    ensures Unsigned(Narrow(v)) == v % 256
  {
  }
}
