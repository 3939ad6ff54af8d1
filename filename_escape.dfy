/**
  Escaping a file name for display (`escape_filename`).

  The source matches every character of the class
  `[[:ascii:]&&[^0-9a-zA-Z._<exempt>-]]` and replaces it with a backslash
  followed by itself.  The regular expression is only a character test, so it
  is modelled by the predicate IsSpecial; which path characters are exempt
  depends on the build target, here a parameter.
 */
module FilenameEscape {
  import opened Target

  /** Characters never escaped on any target: digits, ASCII letters, `.`, `_` and `-`. */
  predicate IsPlain(c: char) {
    || ('0' <= c <= '9')
    || ('a' <= c <= 'z')
    || ('A' <= c <= 'Z')
    || c == '.' || c == '_' || c == '-'
  }

  /** Path characters left alone: `:` and `\` on Windows, `/` on every other target. */
  predicate IsExempt(c: char, p: Platform) {
    match p
    case Windows => c == ':' || c == '\\'
    case Unix => c == '/'
  }

  /** The characters the pattern matches: ASCII, neither plain nor exempt. */
  predicate IsSpecial(c: char, p: Platform) {
    c as int < 0x80 && !IsPlain(c) && !IsExempt(c, p)
  }

  /** The number of special characters in `s`. */
  function CountSpecial(s: string, p: Platform): nat
  {
    if s == [] then 0 else (if IsSpecial(s[0], p) then 1 else 0) + CountSpecial(s[1..], p)
  }

  /** What one character becomes: a special one gets a backslash in front. */
  function EscapeChar(c: char, p: Platform): string
  {
    if IsSpecial(c, p) then ['\\', c] else [c]
  }

  /** `escape_filename`: a backslash inserted before every special character. */
  function EscapeFilename(s: string, p: Platform): (r: string)
    ensures |r| == |s| + CountSpecial(s, p)
  {
    if s == [] then [] else EscapeChar(s[0], p) + EscapeFilename(s[1..], p)
  }

  /** An escaped name never starts with a bare special character. */
  lemma EscapeStart(s: string, p: Platform)
    ensures var r := EscapeFilename(s, p); r != [] ==> r[0] == '\\' || !IsSpecial(r[0], p)
  {
  }

  /** Removes the backslashes EscapeFilename inserts: the ones directly before a special character. */
  function UnescapeFilename(r: string, p: Platform): string
  {
    if r == [] then []
    else if |r| >= 2 && r[0] == '\\' && IsSpecial(r[1], p) then [r[1]] + UnescapeFilename(r[2..], p)
    else [r[0]] + UnescapeFilename(r[1..], p)
  }

  /**
    Deleting the inserted backslashes gives back the name: escaping never
    drops, changes or reorders a character, non-ASCII ones included.
   */
  lemma {:induction false} UnescapeEscape(s: string, p: Platform)
    ensures UnescapeFilename(EscapeFilename(s, p), p) == s
  {
    if s != [] {
      var rest := EscapeFilename(s[1..], p);
      UnescapeEscape(s[1..], p);
      if IsSpecial(s[0], p) {
        assert EscapeFilename(s, p) == ['\\', s[0]] + rest;
        assert (['\\', s[0]] + rest)[2..] == rest;
      } else {
        assert EscapeFilename(s, p) == [s[0]] + rest;
        assert ([s[0]] + rest)[1..] == rest;
        if s[0] == '\\' && rest != [] {
          assert !IsSpecial('\\', p);
          EscapeStart(s[1..], p);
        }
      }
    }
  }

  /** Escaping works character by character, so it distributes over concatenation. */
  lemma {:induction false} EscapeConcat(a: string, b: string, p: Platform)
    ensures EscapeFilename(a + b, p) == EscapeFilename(a, p) + EscapeFilename(b, p)
  {
    if a != [] {
      var piece := EscapeChar(a[0], p);
      var ea, eb := EscapeFilename(a[1..], p), EscapeFilename(b, p);
      assert EscapeFilename(a + b, p) == piece + EscapeFilename(a[1..] + b, p) by {
        assert (a + b)[0] == a[0];
        assert (a + b)[1..] == a[1..] + b;
      }
      assert EscapeFilename(a[1..] + b, p) == ea + eb by {
        EscapeConcat(a[1..], b, p);
      }
      assert piece + (ea + eb) == (piece + ea) + eb;
    } else {
      assert a + b == b;
    }
  }

  /** A name without special characters comes back unchanged, and only such a name does. */
  lemma {:induction false} EscapeUnchanged(s: string, p: Platform)
    ensures EscapeFilename(s, p) == s <==> forall i :: 0 <= i < |s| ==> !IsSpecial(s[i], p)
  {
    if s != [] {
      EscapeUnchanged(s[1..], p);
      if IsSpecial(s[0], p) {
        assert |EscapeFilename(s, p)| > |s|;
      } else {
        var e := EscapeFilename(s, p);
        assert e == [s[0]] + EscapeFilename(s[1..], p);
        assert e[1..] == EscapeFilename(s[1..], p);
        assert s == [s[0]] + s[1..];
        assert forall i :: 1 <= i < |s| ==> s[i] == s[1..][i - 1];
      }
    }
  }

  /** A space between two names without special characters is the only thing escaped. */
  lemma EscapeAroundSpace(x: string, y: string, p: Platform)
    requires forall i :: 0 <= i < |x| ==> !IsSpecial(x[i], p)
    requires forall i :: 0 <= i < |y| ==> !IsSpecial(y[i], p)
    ensures EscapeFilename(x + " " + y, p) == x + "\\ " + y
  {
    assert EscapeFilename(x + " " + y, p) == EscapeFilename(x, p) + EscapeFilename(" ", p) + EscapeFilename(y, p) by {
      EscapeConcat(x + " ", y, p);
      EscapeConcat(x, " ", p);
    }
    EscapeUnchanged(x, p);
    EscapeUnchanged(y, p);
    assert EscapeFilename(" ", p) == "\\ " by {
      assert " "[1..] == "";
    }
  }

  /** `a b.txt`: the space is escaped, letters and the dot are not. */
  lemma EscapeSpaceExample()
    ensures EscapeFilename("a b.txt", Unix) == "a\\ b.txt"
  {
    var x, y := "a", "b.txt";
    assert forall i :: 0 <= i < |y| ==> !IsSpecial(y[i], Unix);
    EscapeAroundSpace(x, y, Unix);
    assert x + " " + y == "a b.txt";
    assert x + "\\ " + y == "a\\ b.txt";
  }

  /** Digits, ASCII letters, `.`, `_`, `-` and the target's path characters are never escaped. */
  lemma EscapeKeepsPlain(s: string, p: Platform)
    requires forall i :: 0 <= i < |s| ==> IsPlain(s[i]) || IsExempt(s[i], p)
    ensures EscapeFilename(s, p) == s
  {
    EscapeUnchanged(s, p);
  }

  /** Non-ASCII characters are never escaped, on either target. */
  lemma EscapeNonAscii(s: string, p: Platform)
    requires forall i :: 0 <= i < |s| ==> s[i] as int >= 0x80
    ensures EscapeFilename(s, p) == s
  {
    EscapeUnchanged(s, p);
  }

  /** Every special character gets one backslash in front of it. */
  lemma EscapeSpecial(c: char, p: Platform)
    requires IsSpecial(c, p)
    ensures EscapeFilename([c], p) == ['\\', c]
  {
    assert [c][1..] == [];
  }

  /** A Unix path of plain characters: `/`, letters, digits, `_` and `-` are kept. */
  lemma EscapeUnixPath()
    ensures EscapeFilename("/tmp/a_b-1", Unix) == "/tmp/a_b-1"
  {
    var name := "/tmp/a_b-1";
    assert forall i :: 0 <= i < |name| ==> IsPlain(name[i]) || IsExempt(name[i], Unix);
    EscapeKeepsPlain(name, Unix);
  }

  /** On Unix-like targets `:` is escaped. */
  lemma EscapeUnixColon()
    ensures EscapeFilename(":", Unix) == "\\:"
  {
    EscapeSpecial(':', Unix);
  }

  /** On Windows `:` and `\` are exempt and `/` is escaped. */
  lemma EscapeWindowsExemption()
    ensures EscapeFilename("C:\\a", Windows) == "C:\\a"
    ensures EscapeFilename("/", Windows) == "\\/"
  {
    EscapeUnchanged("C:\\a", Windows);
    assert "/"[1..] == "";
  }
}
