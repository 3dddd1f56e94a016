/**
 The string operations the notebook cleaner relies on: Python's `"".join(lines)`
 and the emptiness test `s.strip() == ""`, where `strip()` without an argument
 removes leading and trailing whitespace as defined by `str.isspace`.
 */
module Text {

  /** The characters Python's `str.isspace` accepts: ASCII whitespace
      (tab, line feed, vertical tab, form feed, carriage return, space), the
      information separators U+001C..U+001F, and the Unicode space and line or
      paragraph separators. */
  const WhitespaceChars: set<char> := {
    '\t', '\n', '\U{0B}', '\U{0C}', '\r', ' ',
    '\U{1C}', '\U{1D}', '\U{1E}', '\U{1F}',
    '\U{85}', '\U{A0}', '\U{1680}',
    '\U{2000}', '\U{2001}', '\U{2002}', '\U{2003}', '\U{2004}', '\U{2005}',
    '\U{2006}', '\U{2007}', '\U{2008}', '\U{2009}', '\U{200A}',
    '\U{2028}', '\U{2029}', '\U{202F}', '\U{205F}', '\U{3000}'
  }

  predicate IsWhitespace(c: char) {
    c in WhitespaceChars
  }

  /** Every character of `s` is whitespace (vacuously true of ""). */
  predicate AllWhitespace(s: string) {
    forall i :: 0 <= i < |s| ==> IsWhitespace(s[i])
  }

  /** `s.lstrip()`: drops leading whitespace. */
  function TrimStart(s: string): string {
    if |s| > 0 && IsWhitespace(s[0]) then TrimStart(s[1..]) else s
  }

  /** `s.rstrip()`: drops trailing whitespace. */
  function TrimEnd(s: string): string {
    if |s| > 0 && IsWhitespace(s[|s| - 1]) then TrimEnd(s[..|s| - 1]) else s
  }

  /** `TrimStart` removes exactly the longest whitespace prefix: the result is
      a suffix of the input, everything cut off was whitespace, and the result
      does not start with whitespace. */
  lemma {:induction false} TrimStartRemovesWhitespacePrefix(s: string)
    ensures var r := TrimStart(s);
            && |r| <= |s| && r == s[|s| - |r|..]
            && AllWhitespace(s[..|s| - |r|])
            && (r == [] || !IsWhitespace(r[0]))
  {
    if |s| > 0 && IsWhitespace(s[0]) {
      TrimStartRemovesWhitespacePrefix(s[1..]);
      var r := TrimStart(s[1..]);
      assert s[..|s| - |r|] == [s[0]] + s[1..][..|s| - 1 - |r|];
    }
  }

  /** `TrimEnd` removes exactly the longest whitespace suffix. */
  lemma {:induction false} TrimEndRemovesWhitespaceSuffix(s: string)
    ensures var r := TrimEnd(s);
            && r <= s
            && AllWhitespace(s[|r|..])
            && (r == [] || !IsWhitespace(r[|r| - 1]))
  {
    if |s| > 0 && IsWhitespace(s[|s| - 1]) {
      TrimEndRemovesWhitespaceSuffix(s[..|s| - 1]);
      var r := TrimEnd(s[..|s| - 1]);
      assert s[|r|..] == s[..|s| - 1][|r|..] + [s[|s| - 1]];
    }
  }

  /** `s.strip()`. */
  function Strip(s: string): string {
    TrimEnd(TrimStart(s))
  }

  /** The emptiness test the cleaner applies to a cell's text. */
  predicate IsBlank(s: string) {
    Strip(s) == ""
  }

  /** `"".join(lines)`. */
  function Join(lines: seq<string>): string {
    if lines == [] then "" else lines[0] + Join(lines[1..])
  }

  /** `s.strip() == ""` holds exactly when every character of `s` is
      whitespace. */
  lemma BlankIffAllWhitespace(s: string)
    ensures IsBlank(s) <==> AllWhitespace(s)
  {
    var t := TrimStart(s);
    TrimStartRemovesWhitespacePrefix(s);
    TrimEndRemovesWhitespaceSuffix(t);
    if TrimEnd(t) == "" {
      assert t[0..] == t;
      assert t == [];
      assert s[..|s|] == s;
    }
  }

  lemma AllWhitespaceAppend(a: string, b: string)
    ensures AllWhitespace(a + b) <==> AllWhitespace(a) && AllWhitespace(b)
  {
    if AllWhitespace(a + b) {
      forall i | 0 <= i < |a|
        ensures IsWhitespace(a[i])
      {
        assert a[i] == (a + b)[i];
      }
      forall i | 0 <= i < |b|
        ensures IsWhitespace(b[i])
      {
        assert b[i] == (a + b)[|a| + i];
      }
    }
  }

  /** The joined text of several lines is blank exactly when every line is
      blank, so the cleaner's test does not depend on how the text of a cell
      is split into lines. */
  lemma {:induction false} JoinBlankIffLinesBlank(lines: seq<string>)
    ensures IsBlank(Join(lines)) <==> forall i :: 0 <= i < |lines| ==> IsBlank(lines[i])
  {
    BlankIffAllWhitespace(Join(lines));
    if lines == [] {
      assert AllWhitespace(Join(lines));
    } else {
      JoinBlankIffLinesBlank(lines[1..]);
      AllWhitespaceAppend(lines[0], Join(lines[1..]));
      BlankIffAllWhitespace(lines[0]);
      BlankIffAllWhitespace(Join(lines[1..]));
      if forall i :: 1 <= i < |lines| ==> IsBlank(lines[i]) {
        forall i | 0 <= i < |lines| - 1
          ensures IsBlank(lines[1..][i])
        {
          assert lines[1..][i] == lines[i + 1];
        }
      }
    }
  }
}
