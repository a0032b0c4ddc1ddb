/** Value types shared by every component of the gateway model. */
module Base {

  /** A Java string, as a sequence of UTF-16 code units. */
  type Str = seq<char>

  /** An unsigned view of a Java byte (`b & 0xff`). */
  newtype byte = x: int | 0 <= x < 256

  type Bytes = seq<byte>

  /** A Java reference that may be null. */
  datatype Option<+T> = None | Some(value: T)

  /** The byte whose value is the code of an ASCII character. */
  function Ch(c: char): byte
    requires c as int < 256
  {
    c as int as byte
  }
}
