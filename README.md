# neovim-gtk `misc.rs` string helpers in Dafny

This project models the three string transformations of neovim-gtk's
`src/misc.rs` and proves what they promise:

- `split_at_comma` splits a parameter list at every comma that does not
  follow a backslash. Inside each field it collapses `\,` to `,`, and it drops
  a trailing empty field. The source is one loop with an `escaped` flag, an
  `item` accumulator and an `items` vector. It is modelled by the method
  `CommaSplit.SplitAtComma`, with that loop and its invariants. The method is
  proved equal to the specification function `CommaSplit.Split`. `Split` is
  built on `RawFields`, which reads a text into its raw fields. `RawFields` is
  pinned down on its own terms: joining its fields with commas gives the text
  back; its fields are well formed; and it is the only well-formed field list
  with that join.
- `escape_filename` puts a backslash in front of every ASCII character that is
  not a digit, a letter, `.`, `_`, `-` or a path character of the target: `/`
  on Unix-like targets, `:` and `\` on Windows. The regular expression is
  modelled by the predicate `FilenameEscape.IsSpecial`. The build target is a
  `Target.Platform` parameter.
- `decode_uri` takes a `file:///` URI apart. It cuts off 8 bytes with
  `split_at(8)`, percent-decodes the rest the way the `percent_encoding` crate
  does (section 2.1 of RFC 3986), insists on well-formed UTF-8 (section 4 of
  RFC 3629), then builds a native path:
  - on Windows, every `/` becomes `\`;
  - elsewhere, a `/` is put in front.

  Rust strings are modelled by their UTF-8 bytes here. The panic that
  `split_at` raises is modelled as the outcome `Panicked` of
  `Wrappers.Call`.

`decode_uri` returns `Option`, and line 60 answers `None` for any prefix
other than `file:///`. Yet on a URI shorter than 8 bytes, `split_at(8)` at
line 58 panics before that match is reached. The model keeps the panic; see
"Findings".

Modules, one per file: `Wrappers`, `Target`, `Bytes`, `Utf8`,
`PercentDecoding`, `CommaSplit`, `FilenameEscape`, `UriDecode`.

## Model

| member | source | states |
|---|---|---|
| CommaSplit.IsDelimiter | src/misc.rs:19-29 | Definition: `s[i]` is a `,` and the character before it, if any, is not `\`, the one-character lookback of the `escaped` flag. |
| CommaSplit.RawFields | src/misc.rs:18-30 | Definition: the text read one character at a time; a delimiter starts a new, empty field, any other character is added to the last field; there is always at least one field. |
| CommaSplit.Split | src/misc.rs:18-34 | Definition: the raw fields, each unescaped, with an empty last field left out. |
| CommaSplit.SplitAtComma | src/misc.rs:12-37 | The loop returns exactly `Split(source)`: the raw fields, unescaped, without an empty last field. |
| CommaSplit.UnescapeCommas | src/misc.rs:20 | Definition of `replace("\\,", ",")`, also used at line 33: each backslash-comma pair becomes a comma, scanning left to right without overlap; every other character is kept. |
| CommaSplit.RawFieldsCount | src/misc.rs:18-25 | The text has one more raw field than it has commas not preceded by a backslash. |
| CommaSplit.SplitCount | src/misc.rs:19-25 | The result holds one field per unescaped comma, plus one when the text after the last such comma is non-empty. |
| CommaSplit.SplitFields | src/misc.rs:19-34 | An unfolding of `Split`: each returned field is the unescaped raw field at the same position, and only an empty last raw field is left out. |
| CommaSplit.RawFieldsJoin | src/misc.rs:18-30 | Joining the raw fields with commas gives the text back, so no character is lost or reordered. |
| CommaSplit.RawFieldsWellFormed | src/misc.rs:19-29 | No raw field contains a field-ending comma, and no raw field but the last ends in a backslash. |
| CommaSplit.RawFieldsOfJoin | src/misc.rs:18-30 | Well-formed fields joined with commas are read back as the same fields, so the raw fields are the only well-formed reading of a text. |
| CommaSplit.EscapeCommas | src/misc.rs:20 | Not in the source: the inverse of line 20's `replace`, used for the round trip. The escaped field has no field-ending comma, and it ends in a backslash exactly when the field did. |
| CommaSplit.UnescapeEscape | src/misc.rs:20 | Collapsing `\,` to `,` undoes escaping every comma, whatever the field holds. |
| CommaSplit.NoCommaUnchanged | src/misc.rs:20 | Escaping and unescaping leave a field without commas unchanged. |
| CommaSplit.SplitJoinEscaped | src/misc.rs:11-37 | Splitting the comma-join of escaped fields gives back the fields, when no field but the last ends in a backslash and the last is non-empty. |
| CommaSplit.SplitJoin | src/misc.rs:11-37 | Splitting the comma-join of comma-free fields gives back the fields, under the same backslash and non-empty-last conditions. |
| CommaSplit.SplitNoComma | src/misc.rs:18-34 | A text without commas is one field, or no field when it is empty. |
| CommaSplit.SplitSourceTestPlain | src/misc.rs:87-91 | `a,b` splits into `a` and `b`. |
| CommaSplit.SplitSourceTestEscaped | src/misc.rs:93-96 | `a,b\,c` splits into `a` and `b,c`. |
| CommaSplit.SplitDropsTrailingEmpty | src/misc.rs:32-34 | The empty text gives no field, and `a,` gives only `a`. |
| CommaSplit.SplitKeepsInnerEmpty | src/misc.rs:19-25 | Leading and interior empty fields are kept: `,a,,b` gives four fields. |
| CommaSplit.EscapedCommaInField | src/misc.rs:19-29 | A comma right after a backslash never ends a field, whatever precedes the backslash, a second backslash included. |
| CommaSplit.SplitEscapedComma | src/misc.rs:18-34 | Two pieces without field-ending commas, joined by a backslash and a comma, split into one field: the whole text, unescaped. |
| CommaSplit.UnescapeEscapedComma | src/misc.rs:20 | Unescaping turns a backslash followed by a comma into the comma. |
| CommaSplit.UnescapeKeepsBackslash | src/misc.rs:20 | A backslash before anything but a comma is kept, and unescaping resumes at the next character. When that character is not a backslash either, both are kept. |
| CommaSplit.UnescapeWithoutEscapedComma | src/misc.rs:20 | A field with no backslash directly before a comma comes out unchanged, with every backslash and comma kept. |
| CommaSplit.SplitAfterTwoBackslashes | src/misc.rs:19-29 | Example: `a\\,b` (two backslashes, then a comma) is one field, `a\,b`. |
| CommaSplit.SplitKeepsBackslash | src/misc.rs:20-27 | Example: `a\b` is one field, with its backslash kept. |
| FilenameEscape.IsSpecial | src/misc.rs:42-48 | Definition of the regex class: an ASCII character that is not a digit, letter, `.`, `_` or `-`, nor `:` or `\` on Windows, nor `/` elsewhere. |
| FilenameEscape.EscapeFilename | src/misc.rs:40-50 | The result is the input lengthened by exactly the number of special characters. |
| FilenameEscape.EscapeStart | src/misc.rs:50 | An escaped name never starts with a special character that has no backslash in front of it. |
| FilenameEscape.UnescapeEscape | src/misc.rs:40-50 | Deleting the inserted backslashes gives the name back, so no character is dropped, changed or reordered. |
| FilenameEscape.EscapeConcat | src/misc.rs:50 | Escaping works character by character: it distributes over concatenation. |
| FilenameEscape.EscapeUnchanged | src/misc.rs:40-50 | A name comes back unchanged if and only if it has no special character. |
| FilenameEscape.EscapeAroundSpace | src/misc.rs:47-50 | Between two names without special characters, only a space gets a backslash. |
| FilenameEscape.EscapeSpaceExample | src/misc.rs:47-50 | On Unix-like targets, `a b.txt` becomes `a\ b.txt`. |
| FilenameEscape.EscapeKeepsPlain | src/misc.rs:44-47 | A name made only of digits, ASCII letters, `.`, `_`, `-` and the target's path characters comes back unchanged. |
| FilenameEscape.EscapeSpecial | src/misc.rs:44-50 | Every special character gets exactly one backslash in front of it. |
| FilenameEscape.EscapeUnixPath | src/misc.rs:46-47 | Example: `/tmp/a_b-1` is unchanged on Unix-like targets. |
| FilenameEscape.EscapeUnixColon | src/misc.rs:47 | On Unix-like targets, `:` is escaped. |
| FilenameEscape.EscapeNonAscii | src/misc.rs:44-47 | Text made only of non-ASCII characters comes back unchanged, on either target. |
| FilenameEscape.EscapeWindowsExemption | src/misc.rs:43-44 | On Windows, `:` and `\` are not escaped and `/` is. |
| PercentDecoding.HexDigit | src/misc.rs:62 | Not in the source: the encoder's digit, used for the round trip. For a value below 16 it is a hexadecimal digit that reads back as that value. |
| PercentDecoding.PercentDecode | src/misc.rs:62 | Percent-decoding never lengthens the text. |
| PercentDecoding.DecodeEncode | src/misc.rs:62 | Percent-decoding undoes percent-encoding, for every byte string. |
| PercentDecoding.DecodeWithoutPercent | src/misc.rs:62 | Text without `%` is left unchanged. |
| PercentDecoding.DecodeAfterPlain | src/misc.rs:62 | Text without `%` at the front is copied, and decoding resumes after it. |
| PercentDecoding.DecodeEscape | src/misc.rs:62 | `%` and two hexadecimal digits decode to the byte they spell. |
| PercentDecoding.MalformedEscapeKept | src/misc.rs:62 | A `%` that is not followed by two hexadecimal digits is kept, and decoding goes on at the next byte. |
| PercentDecoding.MalformedEscapeExamples | src/misc.rs:62 | Examples: `%2g` and `5%` decode to themselves. |
| Utf8.IsValid | src/misc.rs:62 | Definition of the check `decode_utf8` makes: the bytes are a sequence of well-formed UTF-8 characters, as in the table of section 4 of RFC 3629. |
| Utf8.SequenceLength | src/misc.rs:62 | A character of well-formed UTF-8 is at most 4 bytes and fits in what is left of the text. |
| Utf8.AsciiRewriteValid | src/misc.rs:63-67 | Replacing ASCII bytes with other ASCII bytes keeps well-formed UTF-8 well formed, and malformed UTF-8 malformed. |
| Utf8.AsciiPrefixValid | src/misc.rs:69 | Putting ASCII in front changes nothing about well-formedness. |
| Utf8.AsciiValid | src/misc.rs:62 | ASCII text is well-formed UTF-8. |
| Utf8.ValidStartsOnBoundary | src/misc.rs:58 | Well-formed UTF-8 never starts in the middle of a character. |
| UriDecode.IsCharBoundary | src/misc.rs:58 | Definition of `is_char_boundary`, the test inside `split_at`: the start, the end, or a byte that does not continue a character. |
| UriDecode.BackslashSeparators | src/misc.rs:64-67 | Definition of the Windows replacement: every `/` byte becomes `\`, every other byte is kept. |
| UriDecode.NativePath | src/misc.rs:63-70 | Definition of the path build: the Windows replacement, or `/` in front elsewhere. |
| UriDecode.DecodePath | src/misc.rs:62-70 | Definition: percent-decode; None unless the result is well-formed UTF-8; otherwise the native path. |
| UriDecode.DecodeUri | src/misc.rs:57-71 | The call panics exactly when the URI is under 8 bytes or byte 8 continues a character; a path is returned only for a URI that starts with `file:///`. |
| UriDecode.DecodeUriUtf8 | src/misc.rs:58-62 | With the `file:///` prefix, the answer is None exactly when the decoded remainder is not well-formed UTF-8. |
| UriDecode.NoPanicOnFileUri | src/misc.rs:58-59 | A well-formed string that starts with `file:///` never makes the prefix split panic. |
| UriDecode.DecodeFileUri | src/misc.rs:58-62 | A `file:///` URI whose remainder starts a character is decoded from that remainder. |
| UriDecode.DecodeUriUnix | src/misc.rs:68-70 | On Unix-like targets, the path is `/` followed by the decoded text. |
| UriDecode.DecodeUriWindows | src/misc.rs:63-67 | On Windows, the path has the decoded text's length and contains no `/`. Every byte is the decoded byte, except that a `/` becomes `\`; nothing is put in front. |
| UriDecode.NativePathValid | src/misc.rs:63-70 | Building the native path keeps UTF-8 well formed on both targets, and keeps malformed UTF-8 malformed. |
| UriDecode.DecodeUriYieldsString | src/misc.rs:57-71 | Every returned path is well-formed UTF-8, as a Rust `String` must be. |
| UriDecode.DecodeUriRoundTrip | src/misc.rs:57-71 | Percent-encode a well-formed text and put `file:///` in front. Decoding that gives back the text's native path. |
| UriDecode.DecodeUriUnixExample | src/misc.rs:55 | `file:///path/to/a%20file.ext` becomes `/path/to/a file.ext` on Unix-like targets. |
| UriDecode.DecodeUriWindowsExample | src/misc.rs:56 | `file:///C:/path/to/a%20file.ext` becomes `C:\path\to\a file.ext` on Windows. |
| UriDecode.DecodeEncodedSlash | src/misc.rs:62-69 | An encoded `%2F` is decoded first and then treated like any other `/`. |
| UriDecode.DecodeOtherScheme | src/misc.rs:58-60 | `http://example.com` gives None. |
| UriDecode.DecodeMalformedUtf8 | src/misc.rs:62 | `file:///%FF` gives None, because byte `FF` is not UTF-8. |
| UriDecode.ShortUriPanics | src/misc.rs:58 | `file://`, 7 bytes, makes the source panic; the corrected decoder answers None. |
| UriDecode.MidCharacterUriPanics | src/misc.rs:58 | A well-formed 9-byte string whose byte 8 continues a character makes the source panic; the corrected decoder answers None. |
| UriDecode.DecodeUriChecked | src/misc.rs:57-71 | The corrected decoder never panics and answers None for URIs under 8 bytes. It returns a path only after `file:///`, and it agrees with the source wherever the source does not panic. |

## Left out

- The macros `try_wr!`, `try_w!`, `try_r!`, `try_e!`, `unwrap_any!` and `check!` (src/misc.rs:101-209): logging and process exit around a `Result`, with no data logic of their own.
- `about_comments` (src/misc.rs:74-80): formats a constant from `crate::shell`. `crate::shell` is not part of this model.
- The `regex` engine and the `lazy_static` initialisation: replaced by the character predicate `FilenameEscape.IsSpecial` and by `UriDecode.BackslashSeparators`, which replaces every `/` with `\`. The build target, which `cfg!(target_os = "windows")` fixes at compile time, is a parameter.
- `Cow` borrowing in `escape_filename`: whether the result is a copy cannot be observed in a value model. Only equality with the input is stated (`FilenameEscape.EscapeUnchanged`).
- `mem::swap` and the `Vec`/`String` buffers of `split_at_comma`: modelled as reassigned sequence variables, so moving versus copying is not captured.
- The `percent_encoding` crate's internals and the decoding of UTF-8 into characters: `PercentDecoding.PercentDecode` follows the crate's byte-level behaviour. `Utf8.IsValid` is the check from the table in section 4 of RFC 3629; no code points are computed.
- UriDecode.DecodeUri: works on the UTF-8 bytes of the URI and of the path. `split_at_comma` and `escape_filename` work on characters, because they only ever look at whole characters.
- FilenameEscape.EscapeFilename: targets other than Windows are one platform, `Unix`, as the source's `else` branch treats them alike.

## Findings

| source | as written | input that shows it | evidently intended | confidence | as-written member | corrected member |
|---|---|---|---|---|---|---|
| src/misc.rs:58 | `uri.split_at(8)` panics when the URI has fewer than 8 bytes, or when byte 8 lies inside a multi-byte character, although the function returns `Option` | `file://` (7 bytes); also `a` followed by four `é` | return None for every URI that does not start with `file:///` | high; not executed | UriDecode.ShortUriPanics | UriDecode.DecodeUriChecked |
