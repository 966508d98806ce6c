/** The handful of Python `str` operations the bot relies on, over `seq<char>`:
    `str.isdigit`/`int()` for ASCII digits, `str.isspace`/`str.strip()`,
    `str.startswith`, `str.split(sep)` and `str.splitlines()`. */
module Text {
  import opened Wrappers

  /* ---------------------------------------------------------------------
     Spans: the longest prefix (or suffix) whose characters satisfy a test.
     Every "scan until" of the model is one of these.
     --------------------------------------------------------------------- */

  /** Length of the longest prefix of `s` whose characters all satisfy `p`. */
  function Span(s: string, p: char -> bool): (n: nat)
    ensures n <= |s|
    ensures forall i :: 0 <= i < n ==> p(s[i])
    ensures n < |s| ==> !p(s[n])
  {
    if |s| == 0 || !p(s[0]) then 0 else 1 + Span(s[1..], p)
  }

  /** Length of the longest suffix of `s` whose characters all satisfy `p`. */
  function SpanEnd(s: string, p: char -> bool): (n: nat)
    ensures n <= |s|
    ensures forall i :: |s| - n <= i < |s| ==> p(s[i])
    ensures n < |s| ==> !p(s[|s| - n - 1])
  {
    if |s| == 0 || !p(s[|s| - 1]) then 0 else 1 + SpanEnd(s[..|s| - 1], p)
  }

  /** A span stops exactly at the first character that fails the test. */
  lemma SpanOfPrefix(a: string, b: string, p: char -> bool)
    requires forall i :: 0 <= i < |a| ==> p(a[i])
    requires |b| > 0 ==> !p(b[0])
    ensures Span(a + b, p) == |a|
  {
    assert forall i :: 0 <= i < |a| ==> (a + b)[i] == a[i];
    assert |b| > 0 ==> (a + b)[|a|] == b[0];
  }

  predicate StartsWith(s: string, prefix: string) {
    |prefix| <= |s| && s[..|prefix|] == prefix
  }

  /* ---------------------------------------------------------------------
     Digits: `\d` and `int()` restricted to ASCII digits.
     --------------------------------------------------------------------- */

  predicate IsDigit(c: char) {
    '0' <= c <= '9'
  }

  predicate AllDigits(s: string) {
    forall i :: 0 <= i < |s| ==> IsDigit(s[i])
  }

  function DigitValue(c: char): nat
    requires IsDigit(c)
  {
    (c as int) - ('0' as int)
  }

  function DigitChar(d: nat): (c: char)
    requires d < 10
    ensures IsDigit(c) && DigitValue(c) == d
  {
    ('0' as int + d) as char
  }

  /** `int(ds)` for a string of ASCII digits: read most significant first. */
  function DecimalValue(ds: string): nat
    requires AllDigits(ds)
  {
    if |ds| == 0 then 0 else DecimalValue(ds[..|ds| - 1]) * 10 + DigitValue(ds[|ds| - 1])
  }

  /** `str(n)` for a natural number: the shortest decimal numeral. */
  function DecimalString(n: nat): (s: string)
    ensures |s| > 0 && AllDigits(s)
    ensures |s| > 1 ==> s[0] != '0'
  {
    if n < 10 then [DigitChar(n)] else DecimalString(n / 10) + [DigitChar(n % 10)]
  }

  /** `int(str(n)) == n`. */
  lemma {:induction false} DecimalRoundTrip(n: nat)
    ensures DecimalValue(DecimalString(n)) == n
  {
    if n >= 10 {
      var s := DecimalString(n);
      assert s[..|s| - 1] == DecimalString(n / 10);
      DecimalRoundTrip(n / 10);
    }
  }

  /** `int()` ignores leading zeros, so several numerals denote one line number. */
  lemma {:induction false} LeadingZeroIgnored(ds: string)
    requires AllDigits(ds)
    ensures AllDigits("0" + ds) && DecimalValue("0" + ds) == DecimalValue(ds)
  {
    if |ds| > 0 {
      var init := ds[..|ds| - 1];
      assert ("0" + ds)[..|ds|] == "0" + init;
      LeadingZeroIgnored(init);
    }
  }

  /* ---------------------------------------------------------------------
     Whitespace: `str.isspace` and `str.strip()`.
     --------------------------------------------------------------------- */

  /** The characters for which Python's `str.isspace()` is true. */
  predicate IsSpace(c: char) {
    c in {'\t', '\n', '\U{000B}', '\U{000C}', '\r', '\U{001C}', '\U{001D}', '\U{001E}', '\U{001F}',
          ' ', '\U{0085}', '\U{00A0}', '\U{1680}', '\U{2000}', '\U{2001}', '\U{2002}', '\U{2003}',
          '\U{2004}', '\U{2005}', '\U{2006}', '\U{2007}', '\U{2008}', '\U{2009}', '\U{200A}',
          '\U{2028}', '\U{2029}', '\U{202F}', '\U{205F}', '\U{3000}'}
  }

  predicate AllSpace(s: string) {
    forall i :: 0 <= i < |s| ==> IsSpace(s[i])
  }

  /** Neither end of `s` is whitespace: `s.strip() == s`. */
  predicate Trimmed(s: string) {
    |s| > 0 ==> !IsSpace(s[0]) && !IsSpace(s[|s| - 1])
  }

  /** `s.strip()`: `s` is the result with whitespace-only padding on both sides. */
  function Strip(s: string): (r: string)
    ensures Trimmed(r)
    ensures exists i :: 0 <= i <= |s| - |r| && s[i..i + |r|] == r && AllSpace(s[..i]) && AllSpace(s[i + |r|..])
  {
    var lead := Span(s, IsSpace);
    var t := s[lead..];
    var trail := SpanEnd(t, IsSpace);
    var r := t[..|t| - trail];
    var head := s[..lead];
    var tail := t[|t| - trail..];
    assert s[lead..lead + |r|] == r;
    assert s[lead + |r|..] == tail;
    assert Trimmed(r) by {
      if |r| > 0 {
        assert r[0] == s[lead];
        assert r[|r| - 1] == t[|t| - trail - 1];
      }
    }
    assert AllSpace(head) by {
      forall i | 0 <= i < |head|
        ensures IsSpace(head[i])
      {
        assert head[i] == s[i];
      }
    }
    assert AllSpace(tail) by {
      forall i | 0 <= i < |tail|
        ensures IsSpace(tail[i])
      {
        assert tail[i] == t[|t| - trail + i];
      }
    }
    r
  }

  /** Stripping one leading space off an already trimmed string gives it back. */
  lemma StripPadded(p: string)
    requires Trimmed(p)
    ensures Strip(" " + p) == p
  {
    var s := " " + p;
    var lead := Span(s, IsSpace);
    if |p| == 0 {
    } else {
      SpanOfPrefix(" ", p, IsSpace);
      assert s[lead..] == p;
      assert SpanEnd(p, IsSpace) == 0;
    }
  }

  /* ---------------------------------------------------------------------
     `str.split(sep)` with an explicit, non-empty separator.
     --------------------------------------------------------------------- */

  predicate OccursAt(s: string, pat: string, i: nat) {
    i + |pat| <= |s| && s[i..i + |pat|] == pat
  }

  predicate Contains(s: string, pat: string) {
    exists i: nat :: i + |pat| <= |s| && OccursAt(s, pat, i)
  }

  /** `s.find(pat)`, with None for -1: the leftmost occurrence. */
  function Find(s: string, pat: string): (r: Option<nat>)
    requires |pat| > 0
    ensures r.Some? ==> OccursAt(s, pat, r.value) && forall j: nat :: j < r.value ==> !OccursAt(s, pat, j)
    ensures r.None? <==> !Contains(s, pat)
  {
    if |s| < |pat| then None
    else if s[..|pat|] == pat then Some(0)
    else
      match Find(s[1..], pat)
      case None =>
        assert forall j: nat :: 1 <= j ==> OccursAt(s, pat, j) == OccursAt(s[1..], pat, j - 1);
        None
      case Some(k) =>
        assert forall j: nat :: 1 <= j ==> OccursAt(s, pat, j) == OccursAt(s[1..], pat, j - 1);
        Some(k + 1)
  }

  /** `s.split(sep)`: the pieces between non-overlapping occurrences found left to right. */
  function SplitOn(s: string, sep: string): (parts: seq<string>)
    requires |sep| > 0
    ensures |parts| > 0
    ensures forall k :: 0 <= k < |parts| ==> !Contains(parts[k], sep)
    decreases |s|
  {
    match Find(s, sep)
    case None => [s]
    case Some(i) =>
      var head := s[..i];
      assert forall j: nat :: OccursAt(head, sep, j) ==> OccursAt(s, sep, j);
      [head] + SplitOn(s[i + |sep|..], sep)
  }

  /** `sep.join(parts)`. */
  function JoinWith(parts: seq<string>, sep: string): string {
    if |parts| == 0 then ""
    else if |parts| == 1 then parts[0]
    else parts[0] + sep + JoinWith(parts[1..], sep)
  }

  /** A string around an occurrence of `pat`: what precedes it, `pat`, and what follows. */
  lemma AroundOccurrence(s: string, pat: string, i: nat)
    requires OccursAt(s, pat, i)
    ensures s == s[..i] + pat + s[i + |pat|..]
  {
    assert s == s[..i] + s[i..i + |pat|] + s[i + |pat|..];
  }

  /** A split at a found separator: the piece before it, then the split of the rest. */
  lemma SplitAtFound(s: string, sep: string, i: nat)
    requires |sep| > 0 && Find(s, sep) == Some(i)
    ensures i + |sep| <= |s|
    ensures s == s[..i] + sep + s[i + |sep|..]
    ensures SplitOn(s, sep) == [s[..i]] + SplitOn(s[i + |sep|..], sep)
  {
    AroundOccurrence(s, sep, i);
  }

  /** Joining the pieces of a split with the separator restores the string. */
  lemma {:induction false} JoinSplit(s: string, sep: string)
    requires |sep| > 0
    ensures JoinWith(SplitOn(s, sep), sep) == s
    decreases |s|
  {
    match Find(s, sep)
    case None =>
      assert SplitOn(s, sep) == [s];
    case Some(i) =>
      var rest := s[i + |sep|..];
      var tail := SplitOn(rest, sep);
      SplitAtFound(s, sep, i);
      var parts := [s[..i]] + tail;
      assert parts[1..] == tail;
      assert JoinWith(parts, sep) == s[..i] + sep + JoinWith(tail, sep);
      JoinSplit(rest, sep);
  }

  /** Splitting `sep + t` yields an empty first piece followed by the pieces of `t`. */
  lemma SplitAfterSeparator(sep: string, t: string)
    requires |sep| > 0
    ensures SplitOn(sep + t, sep) == [""] + SplitOn(t, sep)
  {
    assert (sep + t)[..|sep|] == sep;
    assert (sep + t)[|sep|..] == t;
  }

  /** A split has exactly one piece, the whole string, iff the separator does not occur. */
  lemma SplitSingle(t: string, sep: string)
    requires |sep| > 0
    ensures |SplitOn(t, sep)| == 1 <==> !Contains(t, sep)
    ensures !Contains(t, sep) ==> SplitOn(t, sep) == [t]
  {
  }

  /** A one-character pattern occurs exactly where that character does. */
  lemma ContainsChar(s: string, c: char)
    ensures Contains(s, [c]) <==> c in s
  {
    if c in s {
      var i :| 0 <= i < |s| && s[i] == c;
      assert OccursAt(s, [c], i);
    }
    if Contains(s, [c]) {
      var i: nat :| i + 1 <= |s| && OccursAt(s, [c], i);
      assert s[i] == s[i..i + 1][0];
    }
  }

  /** Splitting on a one-character separator cuts at its first occurrence. */
  lemma SplitAtFirst(a: string, c: char, t: string)
    requires c !in a
    ensures SplitOn(a + [c] + t, [c]) == [a] + SplitOn(t, [c])
  {
    var s := a + [c] + t;
    assert OccursAt(s, [c], |a|);
    forall j: nat | j < |a|
      ensures !OccursAt(s, [c], j)
    {
      assert s[j..j + 1] == [a[j]];
    }
    var f := Find(s, [c]);
    assert f.Some?;
    assert f.value == |a|;
    assert s[..|a|] == a;
    assert s[|a| + 1..] == t;
  }

  /** The first occurrence of a character splits the string around it. */
  lemma FirstOccurrence(s: string, c: char, i: nat)
    requires OccursAt(s, [c], i) && forall j: nat :: j < i ==> !OccursAt(s, [c], j)
    ensures i < |s| && c !in s[..i]
    ensures s == s[..i] + [c] + s[i + 1..]
  {
    AroundOccurrence(s, [c], i);
    var a := s[..i];
    forall j | 0 <= j < i
      ensures a[j] != c
    {
      assert !OccursAt(s, [c], j);
      assert s[j..j + 1] == [a[j]];
    }
  }

  /** Without the separator in either part, both splits are a single piece. */
  lemma SplitOnAppendWhole(s: string, c: char, sfx: string)
    requires c !in s && c !in sfx
    ensures SplitOn(s, [c]) == [s] && SplitOn(s + sfx, [c]) == [s + sfx]
  {
    ContainsChar(s, c);
    ContainsChar(s + sfx, c);
    SplitSingle(s, [c]);
    SplitSingle(s + sfx, [c]);
  }

  /** Extending the last piece of `rest` extends the last piece of `[a] + rest`. */
  lemma ExtendLastPiece(a: string, rest: seq<string>, sfx: string)
    requires |rest| > 0
    ensures var parts := [a] + rest;
      [a] + (rest[..|rest| - 1] + [rest[|rest| - 1] + sfx]) == parts[..|parts| - 1] + [parts[|parts| - 1] + sfx]
  {
    var parts := [a] + rest;
    assert parts[..|parts| - 1] == [a] + rest[..|rest| - 1];
  }

  /** Appending text free of the separator only extends the last piece. */
  lemma {:induction false} SplitOnAppend(s: string, c: char, sfx: string)
    requires c !in sfx
    ensures var parts := SplitOn(s, [c]);
      SplitOn(s + sfx, [c]) == parts[..|parts| - 1] + [parts[|parts| - 1] + sfx]
    decreases |s|
  {
    match Find(s, [c])
    case None =>
      ContainsChar(s, c);
      SplitOnAppendWhole(s, c, sfx);
    case Some(i) =>
      FirstOccurrence(s, c, i);
      var a, t := s[..i], s[i + 1..];
      assert s + sfx == a + [c] + (t + sfx);
      SplitAtFirst(a, c, t);
      SplitAtFirst(a, c, t + sfx);
      SplitOnAppend(t, c, sfx);
      ExtendLastPiece(a, SplitOn(t, [c]), sfx);
  }

  /* ---------------------------------------------------------------------
     `str.splitlines()` and the "line + newline" concatenation.
     --------------------------------------------------------------------- */

  /** The line boundaries of Python's `str.splitlines()`. */
  predicate IsLineBreak(c: char) {
    c in {'\n', '\r', '\U{000B}', '\U{000C}', '\U{001C}', '\U{001D}', '\U{001E}', '\U{0085}', '\U{2028}', '\U{2029}'}
  }

  predicate NoBreaks(s: string) {
    forall i :: 0 <= i < |s| ==> !IsLineBreak(s[i])
  }

  predicate NotLineBreak(c: char) {
    !IsLineBreak(c)
  }

  /** `s.splitlines()`: `\r\n` is one boundary, and a final boundary adds no empty line. */
  function SplitLines(s: string): (lines: seq<string>)
    ensures forall k :: 0 <= k < |lines| ==> NoBreaks(lines[k])
    ensures |lines| <= |s|
    decreases |s|
  {
    if |s| == 0 then []
    else
      var i := Span(s, NotLineBreak);
      if i == |s| then [s]
      else
        var width := if s[i] == '\r' && i + 1 < |s| && s[i + 1] == '\n' then 2 else 1;
        [s[..i]] + SplitLines(s[i + width..])
  }

  /** Each line followed by a newline, concatenated in order. */
  function JoinLines(lines: seq<string>): string {
    if |lines| == 0 then "" else lines[0] + "\n" + JoinLines(lines[1..])
  }

  lemma {:induction false} JoinLinesAppend(lines: seq<string>, x: string)
    ensures JoinLines(lines + [x]) == JoinLines(lines) + x + "\n"
  {
    if |lines| > 0 {
      assert (lines + [x])[1..] == lines[1..] + [x];
      JoinLinesAppend(lines[1..], x);
    }
  }

  /** Lines without line breaks survive a newline-join followed by `splitlines()`. */
  lemma {:induction false} SplitJoinLines(lines: seq<string>)
    requires forall k :: 0 <= k < |lines| ==> NoBreaks(lines[k])
    ensures SplitLines(JoinLines(lines)) == lines
  {
    if |lines| > 0 {
      var s := JoinLines(lines);
      var rest := JoinLines(lines[1..]);
      assert s == lines[0] + ("\n" + rest);
      SpanOfPrefix(lines[0], "\n" + rest, NotLineBreak);
      assert s[..|lines[0]|] == lines[0];
      assert s[|lines[0]| + 1..] == rest;
      SplitJoinLines(lines[1..]);
    }
  }
}
