/** Byte values. */
module Bytes {
  type Byte = b: int | 0 <= b < 256

  /** ASCII `0` to `9` */
  predicate IsDigitByte(b: Byte) { 48 <= b <= 57 }

  /** The bytes of ASCII text. */
  function Codes(s: string): seq<Byte>
    requires forall i :: 0 <= i < |s| ==> s[i] as int < 128
  {
    seq(|s|, i requires 0 <= i < |s| => s[i] as int)
  }
}
