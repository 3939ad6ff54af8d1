/**
  Splitting a comma-separated parameter list (`split_at_comma`).

  A `,` ends a field unless the single character before it is a backslash;
  inside each field every two-character sequence `\,` is collapsed to `,`;
  an empty last field is dropped.  The text is Rust's `&str` seen as its
  characters (`source.chars()`), so `string` (a sequence of Unicode scalar
  values) models it exactly.
 */
module CommaSplit {

  /** `s[i]` ends a field: it is a `,` and the one character before it, if any, is not `\`. */
  predicate IsDelimiter(s: string, i: nat)
    requires i < |s|
  {
    s[i] == ',' && (i == 0 || s[i - 1] != '\\')
  }

  /** The number of field-ending commas in `s`. */
  function CountDelimiters(s: string): nat
  {
    if s == [] then 0
    else CountDelimiters(s[..|s| - 1]) + (if IsDelimiter(s, |s| - 1) then 1 else 0)
  }

  /** A field holds no field-ending comma: each of its commas follows a backslash of the field itself. */
  predicate NoDelimiter(f: string) {
    forall j :: 0 <= j < |f| ==> !IsDelimiter(f, j)
  }

  predicate EndsInBackslash(f: string) {
    |f| > 0 && f[|f| - 1] == '\\'
  }

  /** Fields that are separated unambiguously once joined with commas. */
  predicate WellFormed(fields: seq<string>) {
    && |fields| >= 1
    && (forall k :: 0 <= k < |fields| ==> NoDelimiter(fields[k]))
    && (forall k :: 0 <= k < |fields| - 1 ==> !EndsInBackslash(fields[k]))
  }

  /** The fields joined with one `,` between neighbours. */
  function JoinFields(fields: seq<string>): string
  {
    if fields == [] then []
    else if |fields| == 1 then fields[0]
    else JoinFields(fields[..|fields| - 1]) + [','] + fields[|fields| - 1]
  }

  /**
    The fields of `s` before unescaping, read left to right one character at
    a time, including a last field that may be empty.
   */
  function RawFields(s: string): (r: seq<string>)
    ensures |r| >= 1
  {
    if s == [] then [[]]
    else
      var prev := RawFields(s[..|s| - 1]);
      if IsDelimiter(s, |s| - 1) then prev + [[]]
      else prev[..|prev| - 1] + [prev[|prev| - 1] + [s[|s| - 1]]]
  }

  /**
    `str::replace("\\,", ",")`: every `\,` becomes `,`, scanning left to right
    without rescanning what was replaced; every other character, backslashes
    included, is kept.
   */
  function UnescapeCommas(f: string): string
  {
    if f == [] then []
    else if |f| >= 2 && f[0] == '\\' && f[1] == ',' then [','] + UnescapeCommas(f[2..])
    else [f[0]] + UnescapeCommas(f[1..])
  }

  /** Two fields without field-ending commas stay without one when put side by side. */
  lemma NoDelimiterConcat(a: string, b: string)
    requires NoDelimiter(a) && NoDelimiter(b)
    ensures NoDelimiter(a + b)
  {
    forall j | 0 <= j < |a + b|
      ensures !IsDelimiter(a + b, j)
    {
      if j < |a| {
        assert !IsDelimiter(a, j);
      } else {
        assert !IsDelimiter(b, j - |a|);
      }
    }
  }

  /** The escaping a caller applies to a field: a backslash before every comma. */
  function EscapeCommas(g: string): (r: string)
    ensures NoDelimiter(r)
    ensures EndsInBackslash(r) <==> EndsInBackslash(g)
    ensures |r| >= |g|
  {
    if g == [] then []
    else
      var rest := EscapeCommas(g[1..]);
      var piece := if g[0] == ',' then ['\\', ','] else [g[0]];
      assert NoDelimiter(piece) by {
        assert !IsDelimiter(piece, 0);
      }
      NoDelimiterConcat(piece, rest);
      piece + rest
  }

  /** What `split_at_comma` returns: the unescaped fields, an empty last field left out. */
  function Split(s: string): seq<string>
  {
    var raw := RawFields(s);
    var n := if raw[|raw| - 1] == [] then |raw| - 1 else |raw|;
    seq(n, k requires 0 <= k < n => UnescapeCommas(raw[k]))
  }

  /** `split_at_comma`: one pass over the characters with an `escaped` flag and a field accumulator. */
  method SplitAtComma(source: string) returns (items: seq<string>)
    ensures items == Split(source)
  {
    items := [];
    var escaped := false;
    var item: string := [];
    for i := 0 to |source|
      invariant escaped <==> i > 0 && source[i - 1] == '\\'
      invariant |RawFields(source[..i])| == |items| + 1
      invariant RawFields(source[..i])[|items|] == item
      invariant forall k :: 0 <= k < |items| ==> items[k] == UnescapeCommas(RawFields(source[..i])[k])
    {
      var ch := source[i];
      assert source[..i + 1][..i] == source[..i];
      if ch == ',' && !escaped {
        items := items + [UnescapeCommas(item)];
        item := [];
      } else {
        item := item + [ch];
      }
      escaped := ch == '\\';
    }
    assert source[..|source|] == source;
    if item != [] {
      items := items + [UnescapeCommas(item)];
    }
  }

  // ---------------------------------------------------------------------
  // The raw fields are exactly the comma-separated pieces of the text.

  /** There is one raw field more than there are field-ending commas. */
  lemma {:induction false} RawFieldsCount(s: string)
    ensures |RawFields(s)| == CountDelimiters(s) + 1
  {
    if s != [] {
      RawFieldsCount(s[..|s| - 1]);
    }
  }

  /** The last raw field is empty exactly when the text is empty or ends in a field-ending comma. */
  lemma LastRawFieldEmpty(s: string)
    ensures RawFields(s)[|RawFields(s)| - 1] == [] <==> s == [] || IsDelimiter(s, |s| - 1)
  {
  }

  /** `f` is the final part of `s`. */
  predicate IsSuffix(f: string, s: string) {
    |f| <= |s| && f == s[|s| - |f|..]
  }

  /** One character more keeps the last raw field a suffix of the text. */
  lemma {:induction false} LastRawFieldStep(s: string)
    requires s != []
    requires var prev := RawFields(s[..|s| - 1]); IsSuffix(prev[|prev| - 1], s[..|s| - 1])
    ensures var r := RawFields(s); IsSuffix(r[|r| - 1], s)
  {
    var t, c := s[..|s| - 1], s[|s| - 1];
    var prev := RawFields(t);
    var r := RawFields(s);
    if !IsDelimiter(s, |s| - 1) {
      var last := prev[|prev| - 1];
      assert r[|r| - 1] == last + [c];
      var k := |t| - |last|;
      assert s == t + [c];
      assert (t + [c])[k..] == t[k..] + [c];
    } else {
      assert r[|r| - 1] == [];
    }
  }

  /** The last raw field is the text after the last field-ending comma: a suffix of `s`. */
  lemma {:induction false} LastRawField(s: string)
    ensures var r := RawFields(s); IsSuffix(r[|r| - 1], s)
  {
    if s != [] {
      LastRawField(s[..|s| - 1]);
      LastRawFieldStep(s);
    }
  }

  /** Appending a character to the last field appends it to the joined text. */
  lemma {:induction false} JoinExtendLast(fields: seq<string>, c: char)
    requires |fields| >= 1
    ensures JoinFields(fields[..|fields| - 1] + [fields[|fields| - 1] + [c]]) == JoinFields(fields) + [c]
  {
    var n := |fields|;
    var ext := fields[..n - 1] + [fields[n - 1] + [c]];
    if n > 1 {
      assert ext[..n - 1] == fields[..n - 1];
    }
  }

  /** One character more keeps the joined raw fields equal to the text. */
  lemma {:induction false} RawFieldsJoinStep(s: string)
    requires s != []
    requires JoinFields(RawFields(s[..|s| - 1])) == s[..|s| - 1]
    ensures JoinFields(RawFields(s)) == s
  {
    var t := s[..|s| - 1];
    var prev := RawFields(t);
    if IsDelimiter(s, |s| - 1) {
      assert RawFields(s) == prev + [[]];
      assert (prev + [[]])[..|prev|] == prev;
      assert s == t + [','] + [];
    } else {
      JoinExtendLast(prev, s[|s| - 1]);
      assert s == t + [s[|s| - 1]];
    }
  }

  /** Joining the raw fields with commas gives back the text: splitting loses nothing. */
  lemma {:induction false} RawFieldsJoin(s: string)
    ensures JoinFields(RawFields(s)) == s
  {
    if s != [] {
      RawFieldsJoin(s[..|s| - 1]);
      RawFieldsJoinStep(s);
    }
  }

  /** A character added to a field adds no field-ending comma unless it is a comma not after a backslash. */
  lemma ExtendNoDelimiter(f: string, c: char)
    requires NoDelimiter(f)
    requires c == ',' ==> EndsInBackslash(f)
    ensures NoDelimiter(f + [c])
  {
    forall j | 0 <= j < |f|
      ensures !IsDelimiter(f + [c], j)
    {
      assert !IsDelimiter(f, j);
    }
  }

  /** Replacing the last field keeps the fields well-formed. */
  lemma WellFormedReplaceLast(fields: seq<string>, f: string)
    requires WellFormed(fields)
    requires NoDelimiter(f)
    ensures WellFormed(fields[..|fields| - 1] + [f])
  {
    var r := fields[..|fields| - 1] + [f];
    assert forall k :: 0 <= k < |fields| - 1 ==> r[k] == fields[k];
  }

  /** Adding a field keeps the fields well-formed when the former last one does not end in a backslash. */
  lemma WellFormedAppend(fields: seq<string>, f: string)
    requires WellFormed(fields)
    requires !EndsInBackslash(fields[|fields| - 1])
    requires NoDelimiter(f)
    ensures WellFormed(fields + [f])
  {
    var r := fields + [f];
    assert forall k :: 0 <= k < |fields| ==> r[k] == fields[k];
  }

  /** The raw fields hold no field-ending comma, and none but the last ends in a backslash. */
  lemma {:induction false} RawFieldsWellFormed(s: string)
    ensures WellFormed(RawFields(s))
  {
    if s != [] {
      var t := s[..|s| - 1];
      var prev := RawFields(t);
      var last := prev[|prev| - 1];
      RawFieldsWellFormed(t);
      LastRawField(t);
      LastRawFieldEmpty(t);
      assert NoDelimiter(last);
      if !IsDelimiter(s, |s| - 1) {
        var c := s[|s| - 1];
        if c == ',' {
          assert |t| > 0 && t[|t| - 1] == '\\';
          assert last != [];
          assert last[|last| - 1] == t[|t| - 1];
        }
        ExtendNoDelimiter(last, c);
        WellFormedReplaceLast(prev, last + [c]);
      } else {
        assert last != [] ==> last[|last| - 1] == t[|t| - 1];
        WellFormedAppend(prev, []);
      }
    }
  }

  /** A field without a field-ending comma is read as one raw field. */
  lemma {:induction false} SingleRawField(f: string)
    requires NoDelimiter(f)
    ensures RawFields(f) == [f]
  {
    if f != [] {
      var g := f[..|f| - 1];
      assert forall j :: 0 <= j < |g| ==> IsDelimiter(g, j) == IsDelimiter(f, j);
      SingleRawField(g);
      assert f == g + [f[|f| - 1]];
    }
  }

  /** A character that does not end a field is added to the last raw field. */
  lemma RawFieldsExtend(t: string, c: char)
    requires !IsDelimiter(t + [c], |t|)
    ensures RawFields(t + [c]) == RawFields(t)[..|RawFields(t)| - 1] + [RawFields(t)[|RawFields(t)| - 1] + [c]]
  {
    assert (t + [c])[..|t|] == t;
  }

  /** One character of a field more, read after an unescaped comma, extends the last raw field. */
  lemma {:induction false} RawFieldsAfterCommaStep(x: string, f: string)
    requires !EndsInBackslash(x)
    requires NoDelimiter(f) && f != []
    requires RawFields(x + [','] + f[..|f| - 1]) == RawFields(x) + [f[..|f| - 1]]
    ensures RawFields(x + [','] + f) == RawFields(x) + [f]
  {
    var g, c := f[..|f| - 1], f[|f| - 1];
    var t := x + [','] + g;
    assert f == g + [c];
    assert x + [','] + f == t + [c];
    assert !IsDelimiter(t + [c], |t|) by {
      if c == ',' {
        assert !IsDelimiter(f, |f| - 1);
        assert g != [] && g[|g| - 1] == '\\';
        assert t[|t| - 1] == g[|g| - 1];
      }
    }
    RawFieldsExtend(t, c);
  }

  /** After a comma that is not escaped, a field without a field-ending comma is read whole. */
  lemma {:induction false} RawFieldsAfterComma(x: string, f: string)
    requires !EndsInBackslash(x)
    requires NoDelimiter(f)
    ensures RawFields(x + [','] + f) == RawFields(x) + [f]
  {
    if f == [] {
      var s := x + [','] + f;
      assert s[..|s| - 1] == x;
    } else {
      var g := f[..|f| - 1];
      assert NoDelimiter(g) by {
        forall j | 0 <= j < |g|
          ensures !IsDelimiter(g, j)
        {
          assert IsDelimiter(g, j) == IsDelimiter(f, j);
        }
      }
      RawFieldsAfterComma(x, g);
      RawFieldsAfterCommaStep(x, f);
    }
  }

  /** The joined text ends in a backslash only if its last field does. */
  lemma JoinEnd(fields: seq<string>)
    requires |fields| >= 1
    ensures EndsInBackslash(JoinFields(fields)) ==> EndsInBackslash(fields[|fields| - 1])
  {
  }

  /** Dropping the last of several well-formed fields leaves well-formed fields. */
  lemma WellFormedInit(fields: seq<string>)
    requires WellFormed(fields) && |fields| >= 2
    ensures WellFormed(fields[..|fields| - 1])
  {
    var init := fields[..|fields| - 1];
    assert forall k :: 0 <= k < |init| ==> init[k] == fields[k];
  }

  /** One more field, after fields that are read back, is read back too. */
  lemma RawFieldsOfJoinStep(init: seq<string>, last: string)
    requires |init| >= 1 && RawFields(JoinFields(init)) == init
    requires !EndsInBackslash(init[|init| - 1]) && NoDelimiter(last)
    ensures RawFields(JoinFields(init + [last])) == init + [last]
  {
    var fields := init + [last];
    assert fields[..|fields| - 1] == init;
    JoinEnd(init);
    RawFieldsAfterComma(JoinFields(init), last);
  }

  /**
    Round trip: well-formed fields joined with commas are read back as the
    same raw fields.  With RawFieldsJoin and RawFieldsWellFormed this makes
    RawFields(s) the only well-formed field list whose join is `s`.
   */
  lemma {:induction false} RawFieldsOfJoin(fields: seq<string>)
    requires WellFormed(fields)
    ensures RawFields(JoinFields(fields)) == fields
  {
    var n := |fields|;
    if n == 1 {
      SingleRawField(fields[0]);
    } else {
      var init, last := fields[..n - 1], fields[n - 1];
      assert fields == init + [last];
      assert RawFields(JoinFields(init)) == init by {
        WellFormedInit(fields);
        RawFieldsOfJoin(init);
      }
      assert !EndsInBackslash(init[n - 2]) && NoDelimiter(last) by {
        assert init[n - 2] == fields[n - 2];
      }
      RawFieldsOfJoinStep(init, last);
    }
  }

  // ---------------------------------------------------------------------
  // Unescaping.

  /** Unescaping undoes the escaping of commas, whatever the field holds. */
  lemma {:induction false} UnescapeEscape(g: string)
    ensures UnescapeCommas(EscapeCommas(g)) == g
  {
    if g != [] {
      var rest := EscapeCommas(g[1..]);
      UnescapeEscape(g[1..]);
      if g[0] == ',' {
        assert EscapeCommas(g) == ['\\', ','] + rest;
        assert (['\\', ','] + rest)[2..] == rest;
      } else {
        assert EscapeCommas(g) == [g[0]] + rest;
        assert rest != [] ==> !IsDelimiter(rest, 0);
        assert ([g[0]] + rest)[1..] == rest;
      }
    }
  }

  /** A field without commas is left as it is by escaping and by unescaping. */
  lemma {:induction false} NoCommaUnchanged(f: string)
    requires forall j :: 0 <= j < |f| ==> f[j] != ','
    ensures UnescapeCommas(f) == f
    ensures EscapeCommas(f) == f
  {
    if f != [] {
      NoCommaUnchanged(f[1..]);
    }
  }

  // ---------------------------------------------------------------------
  // Properties of split_at_comma.

  /**
    The number of fields is the number of field-ending commas, plus one when
    the text after the last of them is non-empty.
   */
  lemma SplitCount(s: string)
    ensures |Split(s)| == CountDelimiters(s) + (if s == [] || IsDelimiter(s, |s| - 1) then 0 else 1)
  {
    RawFieldsCount(s);
    LastRawFieldEmpty(s);
  }

  /** Every field of the result comes from the text between two field-ending commas, unescaped. */
  lemma SplitFields(s: string)
    ensures var raw := RawFields(s);
      && |Split(s)| <= |raw|
      && (forall k :: 0 <= k < |Split(s)| ==> Split(s)[k] == UnescapeCommas(raw[k]))
      && (|Split(s)| < |raw| ==> |Split(s)| == |raw| - 1 && raw[|raw| - 1] == [])
  {
  }

  /** Raw fields that unescape to `fields`, with a non-empty last one, split into `fields`. */
  lemma SplitOfRawFields(s: string, fields: seq<string>)
    requires |RawFields(s)| == |fields| && RawFields(s)[|fields| - 1] != []
    requires forall k :: 0 <= k < |fields| ==> UnescapeCommas(RawFields(s)[k]) == fields[k]
    ensures Split(s) == fields
  {
  }

  /**
    Round trip: escape the commas of each field, join with commas, split: the
    fields come back, provided none but the last ends in a backslash and the
    last is not empty.
   */
  lemma SplitJoinEscaped(fields: seq<string>)
    requires forall k :: 0 <= k < |fields| - 1 ==> !EndsInBackslash(fields[k])
    requires fields != [] ==> fields[|fields| - 1] != []
    ensures Split(JoinFields(seq(|fields|, k requires 0 <= k < |fields| => EscapeCommas(fields[k])))) == fields
  {
    var escaped := seq(|fields|, k requires 0 <= k < |fields| => EscapeCommas(fields[k]));
    if fields != [] {
      var n := |fields|;
      assert RawFields(JoinFields(escaped)) == escaped by {
        assert WellFormed(escaped) by {
          forall k | 0 <= k < n - 1
            ensures !EndsInBackslash(escaped[k])
          {
            assert !EndsInBackslash(fields[k]);
          }
        }
        RawFieldsOfJoin(escaped);
      }
      assert escaped[n - 1] != [];
      assert forall k :: 0 <= k < n ==> UnescapeCommas(escaped[k]) == fields[k] by {
        forall k | 0 <= k < n
          ensures UnescapeCommas(escaped[k]) == fields[k]
        {
          UnescapeEscape(fields[k]);
        }
      }
      SplitOfRawFields(JoinFields(escaped), fields);
    }
  }

  /** Round trip for fields without commas, which need no escaping. */
  lemma SplitJoin(fields: seq<string>)
    requires forall k, j :: 0 <= k < |fields| && 0 <= j < |fields[k]| ==> fields[k][j] != ','
    requires forall k :: 0 <= k < |fields| - 1 ==> !EndsInBackslash(fields[k])
    requires fields != [] ==> fields[|fields| - 1] != []
    ensures Split(JoinFields(fields)) == fields
  {
    var escaped := seq(|fields|, k requires 0 <= k < |fields| => EscapeCommas(fields[k]));
    forall k | 0 <= k < |fields|
      ensures escaped[k] == fields[k]
    {
      NoCommaUnchanged(fields[k]);
    }
    assert escaped == fields;
    SplitJoinEscaped(fields);
  }

  /** A text without commas is one field, or none when it is empty. */
  lemma SplitNoComma(s: string)
    requires forall j :: 0 <= j < |s| ==> s[j] != ','
    ensures Split(s) == if s == [] then [] else [s]
  {
    SingleRawField(s);
    NoCommaUnchanged(s);
  }

  /**
    A comma right after a backslash never ends a field, whatever comes before
    the backslash (another backslash included): the text around it stays one
    field.
   */
  lemma EscapedCommaInField(x: string, y: string)
    requires NoDelimiter(x) && NoDelimiter(y)
    ensures NoDelimiter(x + ['\\', ','] + y)
  {
    var s := x + ['\\', ','] + y;
    forall j | 0 <= j < |s|
      ensures !IsDelimiter(s, j)
    {
      if j < |x| {
        assert !IsDelimiter(x, j);
        assert s[j] == x[j];
        if j > 0 {
          assert s[j - 1] == x[j - 1];
        }
      } else if j == |x| + 1 {
        assert s[j - 1] == '\\';
      } else if j > |x| + 1 {
        var k := j - |x| - 2;
        assert !IsDelimiter(y, k);
        assert s[j] == y[k];
        if k > 0 {
          assert s[j - 1] == y[k - 1];
        }
      }
    }
  }

  /** So splitting such a text gives one field, the whole text unescaped. */
  lemma SplitEscapedComma(x: string, y: string)
    requires NoDelimiter(x) && NoDelimiter(y)
    ensures Split(x + ['\\', ','] + y) == [UnescapeCommas(x + ['\\', ','] + y)]
  {
    var f := x + ['\\', ','] + y;
    EscapedCommaInField(x, y);
    SingleRawField(f);
  }

  /** Unescaping turns `\,` into `,`. */
  lemma UnescapeEscapedComma(b: string)
    ensures UnescapeCommas(['\\', ','] + b) == [','] + UnescapeCommas(b)
  {
    assert (['\\', ','] + b)[2..] == b;
  }

  /**
    A backslash before anything but a comma is kept, and unescaping goes on
    with the character after it; if that is not a backslash either, both are kept.
   */
  lemma UnescapeKeepsBackslash(c: char, b: string)
    requires c != ','
    ensures UnescapeCommas(['\\', c] + b) == ['\\'] + UnescapeCommas([c] + b)
    ensures c != '\\' ==> UnescapeCommas(['\\', c] + b) == ['\\', c] + UnescapeCommas(b)
  {
    assert (['\\', c] + b)[1..] == [c] + b;
    assert ([c] + b)[1..] == b;
  }

  /** No `\,` anywhere: two neighbouring characters are never a backslash then a comma. */
  predicate NoEscapedComma(f: string) {
    forall j :: 0 <= j < |f| - 1 ==> f[j] != '\\' || f[j + 1] != ','
  }

  /** A field without `\,` is left as it is by unescaping: every backslash and every comma is kept. */
  lemma {:induction false} UnescapeWithoutEscapedComma(f: string)
    requires NoEscapedComma(f)
    ensures UnescapeCommas(f) == f
  {
    if f != [] {
      assert NoEscapedComma(f[1..]) by {
        forall j | 0 <= j < |f[1..]| - 1
          ensures f[1..][j] != '\\' || f[1..][j + 1] != ','
        {
          assert f[j + 1] != '\\' || f[j + 2] != ',';
        }
      }
      UnescapeWithoutEscapedComma(f[1..]);
      if |f| >= 2 {
        assert f[0] != '\\' || f[1] != ',';
      }
    }
  }

  /** The first case of the source's own test. */
  lemma SplitSourceTestPlain()
    ensures Split("a,b") == ["a", "b"]
  {
    assert JoinFields(["a", "b"]) == "a,b" by {
      assert ["a", "b"][..1] == ["a"];
    }
    SplitJoin(["a", "b"]);
  }

  lemma EscapeCommasExample()
    ensures EscapeCommas("b,c") == "b\\,c"
  {
    assert "b,c"[1..] == ",c";
    assert ",c"[1..] == "c";
    assert "c"[1..] == "";
  }

  /** The second case of the source's own test: the escaped comma stays inside the second field. */
  lemma SplitSourceTestEscaped()
    ensures Split("a,b\\,c") == ["a", "b,c"]
  {
    var fields := ["a", "b,c"];
    EscapeCommasExample();
    NoCommaUnchanged("a");
    var escaped := seq(|fields|, k requires 0 <= k < |fields| => EscapeCommas(fields[k]));
    assert escaped == ["a", "b\\,c"];
    assert JoinFields(escaped) == "a,b\\,c" by {
      assert escaped[..1] == ["a"];
    }
    SplitJoinEscaped(fields);
  }

  /** Empty input gives no field; an empty last field is dropped. */
  lemma SplitDropsTrailingEmpty()
    ensures Split("") == []
    ensures Split("a,") == ["a"]
  {
    var fields := ["a", ""];
    assert JoinFields(fields) == "a," by {
      assert fields[..1] == ["a"];
    }
    assert WellFormed(fields);
    RawFieldsOfJoin(fields);
    NoCommaUnchanged("a");
  }

  lemma JoinWithEmptyFields()
    ensures JoinFields(["", "a", "", "b"]) == ",a,,b"
  {
    var two, three, four := ["", "a"], ["", "a", ""], ["", "a", "", "b"];
    assert two[..1] == [""];
    assert JoinFields(two) == ",a";
    assert three[..2] == two;
    assert JoinFields(three) == ",a,";
    assert four[..3] == three;
  }

  /** Empty leading and interior fields are kept. */
  lemma SplitKeepsInnerEmpty()
    ensures Split(",a,,b") == ["", "a", "", "b"]
  {
    var fields := ["", "a", "", "b"];
    JoinWithEmptyFields();
    assert WellFormed(fields);
    RawFieldsOfJoin(fields);
    NoCommaUnchanged("a");
    NoCommaUnchanged("b");
  }

  /** Unescaping `a\\\\,b` (a, two backslashes, a comma, b) removes only the backslash right before the comma. */
  lemma UnescapeAfterTwoBackslashes()
    ensures UnescapeCommas("a\\\\,b") == "a\\,b"
  {
    var f := "a\\\\,b";
    assert f[1..] == "\\\\,b";
    assert f[1..][1..] == "\\,b";
    assert f[1..][1..][2..] == "b";
    assert "b"[1..] == "";
  }

  /**
    Only the one previous character decides: a comma after two backslashes is
    still escaped, so `a\\\\,b` is one field.
   */
  lemma SplitAfterTwoBackslashes()
    ensures Split("a\\\\,b") == ["a\\,b"]
  {
    var f := "a\\\\,b";
    assert NoDelimiter(f) by {
      assert !IsDelimiter(f, 3);
    }
    SingleRawField(f);
    UnescapeAfterTwoBackslashes();
  }

  /** A backslash before anything but a comma is kept. */
  lemma SplitKeepsBackslash()
    ensures Split("a\\b") == ["a\\b"]
  {
    SplitNoComma("a\\b");
  }
}
