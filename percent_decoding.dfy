/**
  Percent-decoding (section 2.1 of RFC 3986) as the `percent_encoding`
  crate's `percent_decode` does it: `%` and two hexadecimal digits, of either
  case, become the byte they spell; a `%` not followed by two hexadecimal
  digits is kept as it is rather than rejected.
 */
module PercentDecoding {
  import opened Bytes

  predicate IsHexDigit(b: byte) {
    || 0x30 <= b <= 0x39  // 0-9
    || 0x41 <= b <= 0x46  // A-F
    || 0x61 <= b <= 0x66  // a-f
  }

  function HexValue(b: byte): (v: nat)
    requires IsHexDigit(b)
    ensures v < 16
  {
    if b <= 0x39 then b as int - 0x30
    else if b <= 0x46 then b as int - 0x41 + 10
    else b as int - 0x61 + 10
  }

  /** The upper-case hexadecimal digit for `v`, the form section 2.1 of RFC 3986 recommends. */
  function HexDigit(v: nat): (b: byte)
    requires v < 16
    ensures IsHexDigit(b) && HexValue(b) == v
  {
    if v < 10 then (0x30 + v) as byte else (0x41 + v - 10) as byte
  }

  /** `percent_decode(bytes)`, collected. */
  function PercentDecode(s: seq<byte>): (r: seq<byte>)
    ensures |r| <= |s|
  {
    if s == [] then []
    else if s[0] == PercentSign && |s| >= 3 && IsHexDigit(s[1]) && IsHexDigit(s[2]) then
      [(HexValue(s[1]) * 16 + HexValue(s[2])) as byte] + PercentDecode(s[3..])
    else [s[0]] + PercentDecode(s[1..])
  }

  /** Encoding every byte as `%` and two upper-case hexadecimal digits. */
  function PercentEncode(d: seq<byte>): (r: seq<byte>)
    ensures |r| == 3 * |d|
  {
    if d == [] then []
    else [PercentSign, HexDigit(d[0] as int / 16), HexDigit(d[0] as int % 16)] + PercentEncode(d[1..])
  }

  /** Decoding undoes encoding, for every byte string. */
  lemma {:induction false} DecodeEncode(d: seq<byte>)
    ensures PercentDecode(PercentEncode(d)) == d
  {
    if d != [] {
      var e := PercentEncode(d);
      DecodeEncode(d[1..]);
      assert e[3..] == PercentEncode(d[1..]);
      assert (HexValue(e[1]) * 16 + HexValue(e[2])) as byte == d[0];
    }
  }

  /** Text without `%` is left as it is. */
  lemma {:induction false} DecodeWithoutPercent(s: seq<byte>)
    requires forall i :: 0 <= i < |s| ==> s[i] != PercentSign
    ensures PercentDecode(s) == s
  {
    if s != [] {
      DecodeWithoutPercent(s[1..]);
    }
  }

  /** Text without `%` in front of more text is copied, and decoding resumes after it. */
  lemma {:induction false} DecodeAfterPlain(a: seq<byte>, b: seq<byte>)
    requires forall i :: 0 <= i < |a| ==> a[i] != PercentSign
    ensures PercentDecode(a + b) == a + PercentDecode(b)
  {
    if a != [] {
      assert (a + b)[1..] == a[1..] + b;
      DecodeAfterPlain(a[1..], b);
    } else {
      assert a + b == b;
    }
  }

  /** One escape `%hl` in front of more text decodes to its byte. */
  lemma DecodeEscape(h: byte, l: byte, b: seq<byte>)
    requires IsHexDigit(h) && IsHexDigit(l)
    ensures PercentDecode([PercentSign, h, l] + b) == [(HexValue(h) * 16 + HexValue(l)) as byte] + PercentDecode(b)
  {
    assert ([PercentSign, h, l] + b)[3..] == b;
  }

  /** A `%` without two hexadecimal digits after it is kept, as the crate does, and decoding goes on after it. */
  lemma MalformedEscapeKept(s: seq<byte>)
    requires s != [] && s[0] == PercentSign
    requires !(|s| >= 3 && IsHexDigit(s[1]) && IsHexDigit(s[2]))
    ensures PercentDecode(s) == [PercentSign] + PercentDecode(s[1..])
  {
  }

  /** Two malformed escapes: a non-hexadecimal second digit, and a `%` at the end. */
  lemma MalformedEscapeExamples()
    ensures PercentDecode(Ascii("%2g")) == Ascii("%2g")
    ensures PercentDecode(Ascii("5%")) == Ascii("5%")
  {
    var s := Ascii("%2g");
    assert s == [0x25, 0x32, 0x67];
    assert s[1..] == [0x32, 0x67];
    MalformedEscapeKept(s);
    DecodeWithoutPercent(s[1..]);
    var t := Ascii("5%");
    assert t == [0x35, 0x25];
    assert t[1..] == [0x25];
    assert t[1..][1..] == [];
  }
}
