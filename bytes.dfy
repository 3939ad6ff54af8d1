/** Bytes, and the UTF-8 bytes of ASCII text. A Rust `&str` or `String` is modelled by its bytes. */
module Bytes {

  newtype byte = b: int | 0 <= b < 0x100

  const Slash: byte := 0x2F      // '/'
  const Backslash: byte := 0x5C  // '\'
  const PercentSign: byte := 0x25  // '%'

  predicate IsAscii(s: string) {
    forall i :: 0 <= i < |s| ==> s[i] as int < 0x80
  }

  /** The UTF-8 encoding of an ASCII string: one byte per character. */
  function Ascii(s: string): (r: seq<byte>)
    requires IsAscii(s)
  {
    seq(|s|, i requires 0 <= i < |s| => s[i] as int as byte)
  }
}
