/**
  Decoding a `file:///` URI into a native path (`decode_uri`).

  The URI and the result are Rust strings, modelled by their UTF-8 bytes.
  `uri.split_at(8)` cuts the first 8 bytes off and panics when there are
  fewer than 8 bytes or byte 8 lies inside a multi-byte character; that is
  modelled as the outcome Panicked.  The rest is percent-decoded, must be
  well-formed UTF-8, and becomes a path: on Windows every `/` is turned into
  `\`, elsewhere a leading `/` is put back.
 */
module UriDecode {
  import opened Wrappers
  import opened Target
  import opened Bytes
  import opened Utf8
  import opened PercentDecoding

  /** The bytes of `file:///`. */
  const FilePrefix: seq<byte> := [0x66, 0x69, 0x6C, 0x65, 0x3A, 0x2F, 0x2F, 0x2F]

  /** `str::is_char_boundary`: the start, the end, or a byte that does not continue a character. */
  predicate IsCharBoundary(s: seq<byte>, i: nat) {
    i == 0 || i == |s| || (i < |s| && !IsContinuation(s[i]))
  }

  /** The decoded path with every `/` replaced by `\`. */
  function BackslashSeparators(d: seq<byte>): seq<byte>
  {
    seq(|d|, i requires 0 <= i < |d| => if d[i] == Slash then Backslash else d[i])
  }

  /** The native path for a decoded URI path on the given target. */
  function NativePath(d: seq<byte>, p: Platform): seq<byte>
  {
    match p
    case Windows => BackslashSeparators(d)
    case Unix => [Slash] + d
  }

  /** What follows the prefix: percent-decode, insist on UTF-8, make a native path. */
  function DecodePath(path: seq<byte>, p: Platform): Option<seq<byte>>
  {
    var d := PercentDecode(path);
    if IsValid(d) then Some(NativePath(d, p)) else None
  }

  /** `decode_uri`, including the panic of `split_at(8)`. */
  function DecodeUri(uri: seq<byte>, p: Platform): (r: Call<Option<seq<byte>>>)
    ensures r.Panicked? <==> |uri| < 8 || (|uri| > 8 && IsContinuation(uri[8]))
    ensures r.Returned? && r.value.Some? ==> |uri| >= 8 && uri[..8] == FilePrefix
  {
    if !IsCharBoundary(uri, 8) then Panicked
    else if uri[..8] != FilePrefix then Returned(None)
    else Returned(DecodePath(uri[8..], p))
  }

  /**
    A corrected `decode_uri` that takes the prefix off without `split_at`
    (as `strip_prefix("file:///")?` would): it never panics, answers None for
    every URI that does not start with `file:///`, short ones included, and
    agrees with the source wherever the source does not panic.
   */
  function DecodeUriChecked(uri: seq<byte>, p: Platform): (r: Option<seq<byte>>)
    ensures |uri| < 8 ==> r == None
    ensures r.Some? ==> |uri| >= 8 && uri[..8] == FilePrefix
    ensures !DecodeUri(uri, p).Panicked? ==> DecodeUri(uri, p) == Returned(r)
  {
    if |uri| >= 8 && uri[..8] == FilePrefix then DecodePath(uri[8..], p) else None
  }

  // ---------------------------------------------------------------------

  lemma FilePrefixSplit(rest: seq<byte>)
    ensures |FilePrefix + rest| >= 8
    ensures (FilePrefix + rest)[..8] == FilePrefix && (FilePrefix + rest)[8..] == rest
  {
  }

  /**
    With the right prefix, the answer is None exactly when the decoded
    remainder is not well-formed UTF-8.
   */
  lemma {:induction false} DecodeUriUtf8(rest: seq<byte>, p: Platform)
    requires rest == [] || !IsContinuation(rest[0])
    ensures DecodeUri(FilePrefix + rest, p).Returned?
    ensures DecodeUri(FilePrefix + rest, p).value.None? <==> !IsValid(PercentDecode(rest))
  {
    FilePrefixSplit(rest);
  }

  /** A URI of a well-formed string that starts with `file:///` never makes `split_at` panic. */
  lemma {:induction false} NoPanicOnFileUri(uri: seq<byte>, p: Platform)
    requires IsValid(uri)
    requires |uri| >= 8 && uri[..8] == FilePrefix
    ensures DecodeUri(uri, p).Returned?
  {
    var rest := uri[8..];
    assert uri == FilePrefix + rest;
    AsciiPrefixValid(FilePrefix, rest);
    if rest != [] {
      ValidStartsOnBoundary(rest);
    }
  }

  /** On Unix-like targets the path is `/` followed by the decoded text. */
  lemma {:induction false} DecodeUriUnix(rest: seq<byte>)
    requires rest == [] || !IsContinuation(rest[0])
    requires IsValid(PercentDecode(rest))
    ensures DecodeUri(FilePrefix + rest, Unix) == Returned(Some([Slash] + PercentDecode(rest)))
  {
    FilePrefixSplit(rest);
  }

  /**
    On Windows the path is the decoded text, of the same length, with every
    `/` (an encoded `%2F` included) turned into `\` and nothing else changed.
   */
  lemma {:induction false} DecodeUriWindows(rest: seq<byte>)
    requires rest == [] || !IsContinuation(rest[0])
    requires IsValid(PercentDecode(rest))
    ensures var d := PercentDecode(rest);
      && DecodeUri(FilePrefix + rest, Windows).Returned?
      && DecodeUri(FilePrefix + rest, Windows).value.Some?
      && var w := DecodeUri(FilePrefix + rest, Windows).value.value;
      && |w| == |d|
      && (forall i :: 0 <= i < |w| ==> w[i] != Slash)
      && (forall i :: 0 <= i < |w| ==> w[i] == d[i] || (d[i] == Slash && w[i] == Backslash))
  {
    FilePrefixSplit(rest);
  }

  /** The native path is well-formed UTF-8 exactly when the decoded text is. */
  lemma NativePathValid(d: seq<byte>, p: Platform)
    ensures IsValid(NativePath(d, p)) <==> IsValid(d)
  {
    match p
    case Windows =>
      AsciiRewriteValid(d, BackslashSeparators(d));
    case Unix =>
      AsciiPrefixValid([Slash], d);
  }

  /** Every path returned is well-formed UTF-8, as a Rust `String` must be. */
  lemma DecodeUriYieldsString(uri: seq<byte>, p: Platform)
    requires DecodeUri(uri, p).Returned? && DecodeUri(uri, p).value.Some?
    ensures IsValid(DecodeUri(uri, p).value.value)
  {
    NativePathValid(PercentDecode(uri[8..]), p);
  }

  /**
    Round trip: percent-encode a well-formed path text, put `file:///` in
    front, decode: the native form of the same text comes back.
   */
  lemma DecodeUriRoundTrip(d: seq<byte>, p: Platform)
    requires IsValid(d)
    ensures DecodeUri(FilePrefix + PercentEncode(d), p) == Returned(Some(NativePath(d, p)))
  {
    var e := PercentEncode(d);
    FilePrefixSplit(e);
    DecodeEncode(d);
  }

  // ---------------------------------------------------------------------
  // Examples.

  /** A URI made of `file:///` and a remainder that starts a character is decoded from that remainder. */
  lemma DecodeFileUri(rest: seq<byte>, p: Platform)
    requires rest == [] || !IsContinuation(rest[0])
    ensures DecodeUri(FilePrefix + rest, p) == Returned(DecodePath(rest, p))
  {
    FilePrefixSplit(rest);
  }

  /** Plain text around one escape `%hl` decodes to the text with the escape's byte in its place. */
  lemma DecodeOneEscape(head: seq<byte>, h: byte, l: byte, tail: seq<byte>)
    requires forall i :: 0 <= i < |head| ==> head[i] != PercentSign
    requires forall i :: 0 <= i < |tail| ==> tail[i] != PercentSign
    requires IsHexDigit(h) && IsHexDigit(l)
    ensures PercentDecode(head + [PercentSign, h, l] + tail) == head + [(HexValue(h) * 16 + HexValue(l)) as byte] + tail
  {
    assert head + [PercentSign, h, l] + tail == head + ([PercentSign, h, l] + tail);
    DecodeAfterPlain(head, [PercentSign, h, l] + tail);
    DecodeEscape(h, l, tail);
    DecodeWithoutPercent(tail);
  }

  /** The bytes of the Unix example, cut at the escape. */
  lemma UnixExampleBytes()
    ensures Ascii("file:///path/to/a%20file.ext") == FilePrefix + (Ascii("path/to/a") + [PercentSign, 0x32, 0x30] + Ascii("file.ext"))
    ensures Ascii("/path/to/a file.ext") == [Slash] + (Ascii("path/to/a") + [0x20] + Ascii("file.ext"))
  {
  }

  /** The Unix example of the source's documentation. */
  lemma DecodeUriUnixExample()
    ensures DecodeUri(Ascii("file:///path/to/a%20file.ext"), Unix) == Returned(Some(Ascii("/path/to/a file.ext")))
  {
    var head, tail := Ascii("path/to/a"), Ascii("file.ext");
    var rest, d := head + [PercentSign, 0x32, 0x30] + tail, head + [0x20] + tail;
    UnixExampleBytes();
    assert DecodePath(rest, Unix) == Some([Slash] + d) by {
      DecodeOneEscape(head, 0x32, 0x30, tail);
      AsciiValid(d);
    }
    DecodeFileUri(rest, Unix);
  }

  /** The bytes of the Windows example, cut at the escape. */
  lemma WindowsExampleUri()
    ensures Ascii("file:///C:/path/to/a%20file.ext") == FilePrefix + (Ascii("C:/path/to/a") + [PercentSign, 0x32, 0x30] + Ascii("file.ext"))
  {
  }

  /** The bytes of the Windows example's path. */
  lemma WindowsExamplePath()
    ensures Ascii("C:\\path\\to\\a file.ext") == BackslashSeparators(Ascii("C:/path/to/a") + [0x20] + Ascii("file.ext"))
  {
  }

  /** The Windows example of the source's documentation. */
  lemma DecodeUriWindowsExample()
    ensures DecodeUri(Ascii("file:///C:/path/to/a%20file.ext"), Windows) == Returned(Some(Ascii("C:\\path\\to\\a file.ext")))
  {
    var head, tail := Ascii("C:/path/to/a"), Ascii("file.ext");
    var rest, d := head + [PercentSign, 0x32, 0x30] + tail, head + [0x20] + tail;
    WindowsExampleUri();
    WindowsExamplePath();
    assert DecodePath(rest, Windows) == Some(BackslashSeparators(d)) by {
      DecodeOneEscape(head, 0x32, 0x30, tail);
      AsciiValid(d);
    }
    DecodeFileUri(rest, Windows);
  }

  /** An encoded `%2F` is decoded first and then treated like any other `/`. */
  lemma DecodeEncodedSlash(p: Platform)
    ensures DecodeUri(Ascii("file:///a%2Fb"), p) == Returned(Some(
      match p
      case Windows => Ascii("a\\b")
      case Unix => Ascii("/a/b")))
  {
    var head, tail := Ascii("a"), Ascii("b");
    var rest, d := head + [PercentSign, 0x32, 0x46] + tail, head + [Slash] + tail;
    assert Ascii("file:///a%2Fb") == FilePrefix + rest by {
    }
    assert Ascii("a\\b") == BackslashSeparators(d) by {
    }
    assert Ascii("/a/b") == [Slash] + d by {
    }
    assert DecodePath(rest, p) == Some(NativePath(d, p)) by {
      DecodeOneEscape(head, 0x32, 0x46, tail);
      AsciiValid(d);
    }
    DecodeFileUri(rest, p);
  }

  /** A URI of another scheme is not decoded. */
  lemma DecodeOtherScheme(p: Platform)
    ensures DecodeUri(Ascii("http://example.com"), p) == Returned(None)
  {
    var uri := Ascii("http://example.com");
    assert uri[0] != FilePrefix[0];
  }

  /** Percent-decoding that yields malformed UTF-8 makes the answer None. */
  lemma DecodeMalformedUtf8(p: Platform)
    ensures DecodeUri(Ascii("file:///%FF"), p) == Returned(None)
  {
    var uri := Ascii("file:///%FF");
    assert uri == FilePrefix + [PercentSign, 0x46, 0x46];
    assert uri[8..] == [PercentSign, 0x46, 0x46] + [];
    DecodeEscape(0x46, 0x46, []);
    assert PercentDecode(uri[8..]) == [0xFF];
  }

  // ---------------------------------------------------------------------
  // The panic of `split_at(8)`.

  /** A URI shorter than 8 bytes, such as `file://`, makes the source panic instead of returning None. */
  lemma ShortUriPanics(p: Platform)
    ensures DecodeUri(Ascii("file://"), p) == Panicked
    ensures DecodeUriChecked(Ascii("file://"), p) == None
  {
  }

  /**
    So does a well-formed string whose byte 8 lies inside a character:
    `a` followed by four `é` (two bytes each).
   */
  lemma MidCharacterUriPanics(p: Platform)
    ensures var uri: seq<byte> := [0x61, 0xC3, 0xA9, 0xC3, 0xA9, 0xC3, 0xA9, 0xC3, 0xA9];
      && IsValid(uri)
      && DecodeUri(uri, p) == Panicked
      && DecodeUriChecked(uri, p) == None
  {
    var uri: seq<byte> := [0x61, 0xC3, 0xA9, 0xC3, 0xA9, 0xC3, 0xA9, 0xC3, 0xA9];
    assert uri[1..][2..] == [0xC3, 0xA9, 0xC3, 0xA9, 0xC3, 0xA9];
    assert uri[1..][2..][2..] == [0xC3, 0xA9, 0xC3, 0xA9];
    assert uri[1..][2..][2..][2..] == [0xC3, 0xA9];
    assert uri[1..][2..][2..][2..][2..] == [];
    assert uri[0] != FilePrefix[0];
  }
}
