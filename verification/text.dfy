/**
 The Python string and text-file primitives the credential store is built from:
 `str.strip`, `str.split`, `str.join`, and iterating over a file opened in text mode.
 Each function is stated by a companion `...Spec` lemma that characterises its result
 independently of how it is computed.
 */
module Text {

  /** The characters `str.isspace` accepts, which `str.strip()` removes when called without arguments. */
  const Whitespace: set<char> := {
    '\t', '\n', '\U{B}', '\U{C}', '\r', '\U{1C}', '\U{1D}', '\U{1E}', '\U{1F}', ' ',
    '\U{85}', '\U{A0}', '\U{1680}',
    '\U{2000}', '\U{2001}', '\U{2002}', '\U{2003}', '\U{2004}', '\U{2005}',
    '\U{2006}', '\U{2007}', '\U{2008}', '\U{2009}', '\U{200A}',
    '\U{2028}', '\U{2029}', '\U{202F}', '\U{205F}', '\U{3000}'
  }

  /** The argument of `line.strip("\n")`. */
  const Newline: set<char> := {'\n'}

  /** Position of the first `c` in `s`, or `|s|` when there is none. */
  function IndexOf(s: string, c: char): (i: nat)
    ensures i <= |s|
    ensures i < |s| ==> s[i] == c
    ensures forall j :: 0 <= j < i ==> s[j] != c
  {
    if |s| == 0 then 0 else if s[0] == c then 0 else 1 + IndexOf(s[1..], c)
  }

  // ---------------------------------------------------------------------------
  // str.strip

  /** `s.lstrip(cs)`: drops the longest prefix made of characters in `cs`. */
  function TrimStart(s: string, cs: set<char>): string
  {
    if |s| > 0 && s[0] in cs then TrimStart(s[1..], cs) else s
  }

  lemma {:induction false} TrimStartSpec(s: string, cs: set<char>)
    ensures var r := TrimStart(s, cs);
            && |r| <= |s| && r == s[|s| - |r|..]
            && (|r| > 0 ==> r[0] !in cs)
            && (forall i :: 0 <= i < |s| - |r| ==> s[i] in cs)
    decreases |s|
  {
    if |s| > 0 && s[0] in cs {
      TrimStartSpec(s[1..], cs);
    }
  }

  /** `s.rstrip(cs)`: drops the longest suffix made of characters in `cs`. */
  function TrimEnd(s: string, cs: set<char>): string
  {
    if |s| > 0 && s[|s| - 1] in cs then TrimEnd(s[..|s| - 1], cs) else s
  }

  lemma {:induction false} TrimEndSpec(s: string, cs: set<char>)
    ensures var r := TrimEnd(s, cs);
            && |r| <= |s| && r == s[..|r|]
            && (|r| > 0 ==> r[|r| - 1] !in cs)
            && (forall i :: |r| <= i < |s| ==> s[i] in cs)
    decreases |s|
  {
    if |s| > 0 && s[|s| - 1] in cs {
      TrimEndSpec(s[..|s| - 1], cs);
    }
  }

  /** `s.strip(cs)`. */
  function Strip(s: string, cs: set<char>): string
  {
    TrimEnd(TrimStart(s, cs), cs)
  }

  /** How many leading characters `s.strip(cs)` removes. */
  function StripOffset(s: string, cs: set<char>): nat
  {
    TrimStartSpec(s, cs);
    |s| - |TrimStart(s, cs)|
  }

  /**
   `s.strip(cs)` is the slice of `s` left after removing every leading and trailing
   character in `cs`: it neither starts nor ends with such a character, and every
   character cut off on either side is one.
   */
  lemma StripSpec(s: string, cs: set<char>)
    ensures var r := Strip(s, cs);
            var a := StripOffset(s, cs);
            && (|r| == 0 || (r[0] !in cs && r[|r| - 1] !in cs))
            && a + |r| <= |s|
            && (forall i :: 0 <= i < |r| ==> r[i] == s[a + i])
            && (forall i :: 0 <= i < a ==> s[i] in cs)
            && (forall i :: a + |r| <= i < |s| ==> s[i] in cs)
  {
    var t := TrimStart(s, cs);
    TrimStartSpec(s, cs);
    TrimEndSpec(t, cs);
  }

  /** Every character `str.strip` keeps was in the original. */
  lemma StripChars(s: string, cs: set<char>)
    ensures forall c :: c in Strip(s, cs) ==> c in s
  {
    StripSpec(s, cs);
    var r := Strip(s, cs);
    var a := StripOffset(s, cs);
    forall c | c in r
      ensures c in s
    {
      var p :| 0 <= p < |r| && r[p] == c;
      assert s[a + p] == c;
    }
  }

  /** Stripping a string that has no removable character at either end changes nothing. */
  lemma StripClean(s: string, cs: set<char>)
    requires |s| == 0 || (s[0] !in cs && s[|s| - 1] !in cs)
    ensures Strip(s, cs) == s
  {
    assert TrimStart(s, cs) == s;
  }

  /** A character `str.strip` does not remove is in the result iff it was in the original. */
  lemma StripKeepsChar(s: string, cs: set<char>, c: char)
    requires c !in cs
    ensures c in Strip(s, cs) <==> c in s
  {
    StripSpec(s, cs);
    StripChars(s, cs);
    var r := Strip(s, cs);
    var a := StripOffset(s, cs);
    if c in s {
      var p :| 0 <= p < |s| && s[p] == c;
      assert s[p] !in cs;
      assert a <= p < a + |r|;
      assert r[p - a] == c;
    }
  }

  // ---------------------------------------------------------------------------
  // str.join and str.split

  /** `sep.join(parts)`. */
  function JoinWith(parts: seq<string>, sep: string): string
  {
    if |parts| == 0 then ""
    else if |parts| == 1 then parts[0]
    else parts[0] + sep + JoinWith(parts[1..], sep)
  }

  /** Every character of a field occurs in the joined text. */
  lemma {:induction false} JoinWithContains(parts: seq<string>, sep: string, i: nat, c: char)
    requires i < |parts| && c in parts[i]
    ensures c in JoinWith(parts, sep)
    decreases |parts|
  {
    if |parts| > 1 && i > 0 {
      JoinWithContains(parts[1..], sep, i - 1, c);
    }
  }

  /** A character in neither the fields nor the separator is not in the joined text. */
  lemma {:induction false} JoinWithAvoids(parts: seq<string>, sep: string, c: char)
    requires c !in sep && forall i :: 0 <= i < |parts| ==> c !in parts[i]
    ensures c !in JoinWith(parts, sep)
    decreases |parts|
  {
    if |parts| > 1 {
      JoinWithAvoids(parts[1..], sep, c);
    }
  }

  /** `s.split(sep)`. */
  function Split(s: string, sep: char): (r: seq<string>)
    ensures |r| >= 1
    decreases |s|
  {
    var i := IndexOf(s, sep);
    if i == |s| then [s] else [s[..i]] + Split(s[i + 1..], sep)
  }

  /**
   `s.split(sep)` are the fields between separators: no field contains the separator,
   joining them gives back `s`, and there are at least two exactly when `s` holds a separator.
   */
  lemma {:induction false} SplitSpec(s: string, sep: char)
    ensures var r := Split(s, sep);
            && (forall i :: 0 <= i < |r| ==> sep !in r[i])
            && JoinWith(r, [sep]) == s
            && (|r| >= 2 <==> sep in s)
    decreases |s|
  {
    var i := IndexOf(s, sep);
    if i < |s| {
      var rest := Split(s[i + 1..], sep);
      SplitSpec(s[i + 1..], sep);
      var r := [s[..i]] + rest;
      assert r[1..] == rest;
      assert s == s[..i] + [sep] + s[i + 1..];
    }
  }

  /** Splitting the joined text of separator-free fields gives back exactly those fields. */
  lemma {:induction false} SplitJoin(parts: seq<string>, sep: char)
    requires |parts| >= 1
    requires forall i :: 0 <= i < |parts| ==> sep !in parts[i]
    ensures Split(JoinWith(parts, [sep]), sep) == parts
    decreases |parts|
  {
    var s := JoinWith(parts, [sep]);
    if |parts| > 1 {
      var head := parts[0];
      var rest := JoinWith(parts[1..], [sep]);
      assert s == head + [sep] + rest;
      assert s[|head|] == sep;
      var i := IndexOf(s, sep);
      assert i == |head|;
      assert s[..i] == head;
      assert s[i + 1..] == rest;
      SplitJoin(parts[1..], sep);
    }
  }

  // ---------------------------------------------------------------------------
  // Reading and writing a text file line by line

  /** Concatenation of a sequence of strings. */
  function Concat(ls: seq<string>): string
  {
    if |ls| == 0 then "" else ls[0] + Concat(ls[1..])
  }

  /** A line as text-mode iteration yields it: non-empty, no carriage return, a newline only at its end. */
  predicate IsLine(l: string)
  {
    |l| > 0 && '\r' !in l && forall j :: 0 <= j < |l| - 1 ==> l[j] != '\n'
  }

  /** Cuts text into lines after each newline, keeping the newline. */
  function SplitLines(s: string): seq<string>
    decreases |s|
  {
    if |s| == 0 then []
    else
      var i := IndexOf(s, '\n');
      if i == |s| then [s] else [s[..i + 1]] + SplitLines(s[i + 1..])
  }

  /** The lines cover the text exactly. */
  lemma {:induction false} SplitLinesConcat(s: string)
    ensures Concat(SplitLines(s)) == s
    decreases |s|
  {
    if |s| > 0 {
      var i := IndexOf(s, '\n');
      if i < |s| {
        SplitLinesConcat(s[i + 1..]);
        var r := [s[..i + 1]] + SplitLines(s[i + 1..]);
        assert r[1..] == SplitLines(s[i + 1..]);
        assert s == s[..i + 1] + s[i + 1..];
      }
    }
  }

  /**
   Each line is non-empty with a newline only at its end, and every line but the last
   ends in a newline (so text ending in a newline has no empty last line).
   */
  lemma {:induction false} SplitLinesShape(s: string)
    ensures var r := SplitLines(s);
            && (forall i :: 0 <= i < |r| ==> |r[i]| > 0 && forall j :: 0 <= j < |r[i]| - 1 ==> r[i][j] != '\n')
            && (forall i :: 0 <= i < |r| - 1 ==> r[i][|r[i]| - 1] == '\n')
    decreases |s|
  {
    if |s| > 0 {
      var i := IndexOf(s, '\n');
      var r := SplitLines(s);
      var head := if i < |s| then s[..i + 1] else s;
      assert r[0] == head;
      assert forall j :: 0 <= j < |head| - 1 ==> head[j] == s[j] && j < i;
      if i < |s| {
        SplitLinesShape(s[i + 1..]);
        assert r[1..] == SplitLines(s[i + 1..]);
        assert head[|head| - 1] == '\n';
        forall k | 1 <= k < |r|
          ensures r[k] == SplitLines(s[i + 1..])[k - 1]
        {
        }
      }
    }
  }

  /** A character absent from the text is absent from every line. */
  lemma {:induction false} SplitLinesAvoid(s: string, c: char)
    requires c !in s
    ensures forall i :: 0 <= i < |SplitLines(s)| ==> c !in SplitLines(s)[i]
    decreases |s|
  {
    if |s| > 0 {
      var i := IndexOf(s, '\n');
      var r := SplitLines(s);
      if i < |s| {
        assert c !in s[i + 1..];
        SplitLinesAvoid(s[i + 1..], c);
        assert r[1..] == SplitLines(s[i + 1..]);
        assert c !in s[..i + 1];
      }
    }
  }

  /** Python's universal-newline translation on reading: `\r\n` and a lone `\r` both become `\n`. */
  function TranslateNewlines(s: string): string
    decreases |s|
  {
    if |s| == 0 then ""
    else if s[0] == '\r' then "\n" + TranslateNewlines(if |s| > 1 && s[1] == '\n' then s[2..] else s[1..])
    else [s[0]] + TranslateNewlines(s[1..])
  }

  /** The translated text holds no carriage return, and text without one is left unchanged. */
  lemma {:induction false} TranslateNewlinesSpec(s: string)
    ensures '\r' !in TranslateNewlines(s)
    ensures '\r' !in s ==> TranslateNewlines(s) == s
    decreases |s|
  {
    if |s| > 0 {
      if s[0] == '\r' {
        TranslateNewlinesSpec(if |s| > 1 && s[1] == '\n' then s[2..] else s[1..]);
      } else {
        TranslateNewlinesSpec(s[1..]);
      }
    }
  }

  /** The lines `for line in open(path, "r")` yields for a file holding `text`. */
  function ReadLines(text: string): seq<string>
  {
    SplitLines(TranslateNewlines(text))
  }

  /** The lines read from a file add up to its text after newline translation: nothing is lost or added. */
  lemma ReadLinesCover(text: string)
    ensures Concat(ReadLines(text)) == TranslateNewlines(text)
  {
    SplitLinesConcat(TranslateNewlines(text));
  }

  /** Every line read from a file is a line: non-empty, no carriage return, a newline only at its end. */
  lemma ReadLinesAreLines(text: string)
    ensures forall i :: 0 <= i < |ReadLines(text)| ==> IsLine(ReadLines(text)[i])
  {
    TranslateNewlinesSpec(text);
    SplitLinesShape(TranslateNewlines(text));
    SplitLinesAvoid(TranslateNewlines(text), '\r');
    forall i | 0 <= i < |ReadLines(text)|
      ensures IsLine(ReadLines(text)[i])
    {
      assert ReadLines(text)[i] == SplitLines(TranslateNewlines(text))[i];
    }
  }

  /** Writing each string followed by `\n`, as `f.write(f"...\n")` does line by line. */
  function Unlines(ls: seq<string>): string
  {
    if |ls| == 0 then "" else ls[0] + "\n" + Unlines(ls[1..])
  }

  lemma {:induction false} UnlinesNoCarriageReturn(ls: seq<string>)
    requires forall i :: 0 <= i < |ls| ==> '\r' !in ls[i]
    ensures '\r' !in Unlines(ls)
    decreases |ls|
  {
    if |ls| > 0 {
      UnlinesNoCarriageReturn(ls[1..]);
    }
  }

  lemma {:induction false} SplitUnlines(ls: seq<string>)
    requires forall i :: 0 <= i < |ls| ==> '\n' !in ls[i]
    ensures SplitLines(Unlines(ls)) == seq(|ls|, i requires 0 <= i < |ls| => ls[i] + "\n")
    decreases |ls|
  {
    if |ls| > 0 {
      var s := Unlines(ls);
      var head := ls[0];
      assert s == head + "\n" + Unlines(ls[1..]);
      assert s[|head|] == '\n';
      var i := IndexOf(s, '\n');
      assert i == |head|;
      assert s[..i + 1] == head + "\n";
      assert s[i + 1..] == Unlines(ls[1..]);
      SplitUnlines(ls[1..]);
    }
  }

  /**
   Text written as lines without line breaks reads back as exactly those lines,
   each with its newline terminator.
   */
  lemma ReadUnlines(ls: seq<string>)
    requires forall i :: 0 <= i < |ls| ==> '\n' !in ls[i] && '\r' !in ls[i]
    ensures ReadLines(Unlines(ls)) == seq(|ls|, i requires 0 <= i < |ls| => ls[i] + "\n")
  {
    UnlinesNoCarriageReturn(ls);
    TranslateNewlinesSpec(Unlines(ls));
    SplitUnlines(ls);
  }

  /** Removing the newline terminator of a line leaves a text with no line break at all. */
  lemma StripLineBreaks(l: string)
    requires IsLine(l)
    ensures '\n' !in Strip(l, Newline) && '\r' !in Strip(l, Newline)
  {
    StripSpec(l, Newline);
    StripChars(l, Newline);
    var r := Strip(l, Newline);
    var a := StripOffset(l, Newline);
    forall p | 0 <= p < |r|
      ensures r[p] != '\n'
    {
      assert r[p] == l[a + p];
    }
  }

  /** Stripping the terminator of a newline-free text followed by `\n` gives back that text. */
  lemma StripTerminator(s: string)
    requires '\n' !in s
    ensures Strip(s + "\n", Newline) == s
  {
    var l := s + "\n";
    if |s| > 0 {
      assert l[0] == s[0];
      assert TrimStart(l, Newline) == l;
      assert l[..|l| - 1] == s;
      assert TrimEnd(l, Newline) == TrimEnd(s, Newline);
      assert s[|s| - 1] !in Newline;
    } else {
      assert TrimStart(l, Newline) == TrimStart("", Newline);
    }
  }
}
