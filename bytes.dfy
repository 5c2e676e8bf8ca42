/** Octets and the ASCII test shared by the codecs. */
module Bytes {

  /** One octet, as Python's `bytes` holds them. */
  type Byte = x: int | 0 <= x < 256

  /** True when every character is in the 7-bit ASCII range. */
  predicate IsAsciiText(s: string)
  {
    forall i :: 0 <= i < |s| ==> s[i] as int < 128
  }
}
