/**
  Well-formed UTF-8 (RFC 3629, section 4), the check behind Rust's
  `decode_utf8` / `str::from_utf8`.
 */
module Utf8 {
  import opened Bytes

  predicate IsContinuation(b: byte) {
    0x80 <= b <= 0xBF
  }

  /**
    The length of the well-formed UTF-8 sequence `s` starts with, or 0 when
    it starts with none: the table of section 4 of RFC 3629, which rules out
    overlong forms, surrogates and code points above U+10FFFF.
   */
  function SequenceLength(s: seq<byte>): (n: nat)
    requires |s| > 0
    ensures n <= 4 && n <= |s|
  {
    var b := s[0];
    if b <= 0x7F then 1
    else if 0xC2 <= b <= 0xDF then
      if |s| >= 2 && IsContinuation(s[1]) then 2 else 0
    else if b == 0xE0 then
      if |s| >= 3 && 0xA0 <= s[1] <= 0xBF && IsContinuation(s[2]) then 3 else 0
    else if 0xE1 <= b <= 0xEC || 0xEE <= b <= 0xEF then
      if |s| >= 3 && IsContinuation(s[1]) && IsContinuation(s[2]) then 3 else 0
    else if b == 0xED then
      if |s| >= 3 && 0x80 <= s[1] <= 0x9F && IsContinuation(s[2]) then 3 else 0
    else if b == 0xF0 then
      if |s| >= 4 && 0x90 <= s[1] <= 0xBF && IsContinuation(s[2]) && IsContinuation(s[3]) then 4 else 0
    else if 0xF1 <= b <= 0xF3 then
      if |s| >= 4 && IsContinuation(s[1]) && IsContinuation(s[2]) && IsContinuation(s[3]) then 4 else 0
    else if b == 0xF4 then
      if |s| >= 4 && 0x80 <= s[1] <= 0x8F && IsContinuation(s[2]) && IsContinuation(s[3]) then 4 else 0
    else 0
  }

  /** `s` is a concatenation of well-formed UTF-8 sequences. */
  predicate IsValid(s: seq<byte>)
    decreases |s|
  {
    s == [] || (SequenceLength(s) > 0 && IsValid(s[SequenceLength(s)..]))
  }

  /** `t` is `s` with some ASCII bytes replaced by other ASCII bytes. */
  predicate AsciiRewrite(s: seq<byte>, t: seq<byte>) {
    |s| == |t| && forall i :: 0 <= i < |s| ==> s[i] == t[i] || (s[i] <= 0x7F && t[i] <= 0x7F)
  }

  /** Rewriting ASCII bytes into ASCII bytes keeps a text well-formed, and a malformed one malformed. */
  lemma {:induction false} AsciiRewriteValid(s: seq<byte>, t: seq<byte>)
    requires AsciiRewrite(s, t)
    ensures IsValid(s) <==> IsValid(t)
    decreases |s|
  {
    if s != [] {
      var n := SequenceLength(s);
      assert SequenceLength(t) == n;
      if n > 0 {
        assert AsciiRewrite(s[n..], t[n..]) by {
          forall i | 0 <= i < |s| - n
            ensures s[n..][i] == t[n..][i] || (s[n..][i] <= 0x7F && t[n..][i] <= 0x7F)
          {
            assert s[n + i] == t[n + i] || (s[n + i] <= 0x7F && t[n + i] <= 0x7F);
          }
        }
        AsciiRewriteValid(s[n..], t[n..]);
      }
    }
  }

  /** ASCII bytes in front change nothing about well-formedness. */
  lemma {:induction false} AsciiPrefixValid(a: seq<byte>, s: seq<byte>)
    requires forall i :: 0 <= i < |a| ==> a[i] <= 0x7F
    ensures IsValid(a + s) <==> IsValid(s)
  {
    if a != [] {
      assert SequenceLength(a + s) == 1;
      assert (a + s)[1..] == a[1..] + s;
      AsciiPrefixValid(a[1..], s);
    } else {
      assert a + s == s;
    }
  }

  /** ASCII text is well-formed. */
  lemma AsciiValid(s: seq<byte>)
    requires forall i :: 0 <= i < |s| ==> s[i] <= 0x7F
    ensures IsValid(s)
  {
    AsciiPrefixValid(s, []);
    assert s + [] == s;
  }

  /** A well-formed text never starts in the middle of a character. */
  lemma ValidStartsOnBoundary(s: seq<byte>)
    requires IsValid(s) && s != []
    ensures !IsContinuation(s[0])
  {
  }
}
