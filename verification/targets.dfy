/** Edit targets: the file blocks a request points at (alchemy/github.py).

    An issue body names its targets with GitHub blob permalinks, one per line,
    of the shape `https://github.com/<owner>/<repo>/blob/<commit>/<path>#L<start>[-L<end>]`;
    a pull-request review comment names its target by the commented lines. */
module Targets {
  import opened Wrappers
  import opened Text
  import opened Seqs

  /** `EditTarget`: a file path relative to the project root, a commit id, and
      the block fenced by a start and an end line number. */
  datatype EditTarget = EditTarget(path: string, commit: string, block: (int, int))

  /** The line part of a permalink: the digits after `#L`, the digits of the
      optional `-L<end>` group (None when that group did not match), and
      whatever follows the match on the line. */
  datatype LineSpec = LineSpec(startDigits: string, endDigits: Option<string>, rest: string)

  /** The pieces the permalink pattern picks out of a line, in the order they
      appear. */
  datatype Permalink = Permalink(owner: string, repo: string, commit: string, path: string, lines: LineSpec)

  const HostPrefix: string := "https://github.com/"

  /** `[^/]+` */
  predicate Segment(s: string) {
    |s| > 0 && '/' !in s
  }

  /** `\d+` */
  predicate Numeral(s: string) {
    |s| > 0 && AllDigits(s)
  }

  /** `-L\d` : the start of the optional end-line group. */
  predicate StartsRange(s: string) {
    |s| >= 3 && s[0] == '-' && s[1] == 'L' && IsDigit(s[2])
  }

  /** What a greedy match of `\d+(?:-L\d+)?` can produce: both numerals are
      maximal, and the end-line group is taken whenever it can be. */
  predicate WellFormedLines(l: LineSpec) {
    && Numeral(l.startDigits)
    && (l.endDigits.Some? ==> Numeral(l.endDigits.value))
    && (|l.rest| > 0 ==> !IsDigit(l.rest[0]))
    && (l.endDigits.None? ==> !StartsRange(l.rest))
  }

  /** What a match of the whole pattern can produce: every field obeys its
      character class. */
  predicate WellFormed(p: Permalink) {
    && Segment(p.owner) && Segment(p.repo) && Segment(p.commit)
    && |p.path| > 0 && '#' !in p.path
    && WellFormedLines(p.lines)
  }

  /* The text of a line, reassembled from its pieces, innermost first. */

  function LinesText(l: LineSpec): string {
    l.startDigits + ((match l.endDigits case Some(e) => "-L" + e case None => "") + l.rest)
  }

  function PathText(p: Permalink): string {
    p.path + ("#" + ("L" + LinesText(p.lines)))
  }

  function CommitText(p: Permalink): string {
    p.commit + ("/" + PathText(p))
  }

  function RepoText(p: Permalink): string {
    p.repo + ("/" + ("blob/" + CommitText(p)))
  }

  /** The text of a line after the host prefix. */
  function RenderTail(p: Permalink): string {
    p.owner + ("/" + RepoText(p))
  }

  function Render(p: Permalink): string {
    HostPrefix + RenderTail(p)
  }

  /* ---------------------------------------------------------------------
     The matcher, one regular-expression piece at a time
     --------------------------------------------------------------------- */

  /** `[^c]+c` : a non-empty run without `stop`, then `stop` itself. */
  function TakeSegment(s: string, stop: char): (r: Option<(string, string)>)
    ensures r.Some? ==> |r.value.0| > 0 && stop !in r.value.0 && s == r.value.0 + ([stop] + r.value.1)
  {
    var n := Span(s, c => c != stop);
    if n == 0 || n == |s| then None
    else
      assert s == s[..n] + ([stop] + s[n + 1..]);
      Some((s[..n], s[n + 1..]))
  }

  lemma TakeSegmentOf(a: string, stop: char, b: string)
    requires |a| > 0 && stop !in a
    ensures TakeSegment(a + ([stop] + b), stop) == Some((a, b))
  {
    var s := a + ([stop] + b);
    SpanOfPrefix(a, [stop] + b, c => c != stop);
    assert s[..|a|] == a;
    assert s[|a| + 1..] == b;
  }

  /** A literal piece of the pattern. */
  function TakeLiteral(s: string, lit: string): (r: Option<string>)
    ensures r.Some? ==> s == lit + r.value
  {
    if StartsWith(s, lit) then
      assert s == s[..|lit|] + s[|lit|..];
      Some(s[|lit|..])
    else None
  }

  lemma TakeLiteralOf(lit: string, b: string)
    ensures TakeLiteral(lit + b, lit) == Some(b)
  {
    assert (lit + b)[..|lit|] == lit;
    assert (lit + b)[|lit|..] == b;
  }

  /** `\d+`, greedy. */
  function TakeNumeral(s: string): (r: Option<(string, string)>)
    ensures r.Some? ==> Numeral(r.value.0) && s == r.value.0 + r.value.1
    ensures r.Some? ==> |r.value.1| > 0 ==> !IsDigit(r.value.1[0])
  {
    var n := Span(s, IsDigit);
    if n == 0 then None
    else
      assert s == s[..n] + s[n..];
      assert |s[n..]| > 0 ==> s[n..][0] == s[n];
      Some((s[..n], s[n..]))
  }

  lemma TakeNumeralOf(ds: string, b: string)
    requires Numeral(ds)
    requires |b| > 0 ==> !IsDigit(b[0])
    ensures TakeNumeral(ds + b) == Some((ds, b))
  {
    SpanOfPrefix(ds, b, IsDigit);
    assert (ds + b)[..|ds|] == ds;
    assert (ds + b)[|ds|..] == b;
  }

  /** `(\d+)(?:-L(\d+))?` and the rest of the line. */
  function MatchLines(s: string): (r: Option<LineSpec>)
    ensures r.Some? ==> WellFormedLines(r.value) && LinesText(r.value) == s
  {
    var start :- TakeNumeral(s);
    if StartsRange(start.1) then
      var end :- TakeNumeral(start.1[2..]);
      assert start.1 == "-L" + end.0 + end.1;
      Some(LineSpec(start.0, Some(end.0), end.1))
    else
      Some(LineSpec(start.0, None, start.1))
  }

  lemma MatchLinesComplete(l: LineSpec)
    requires WellFormedLines(l)
    ensures MatchLines(LinesText(l)) == Some(l)
  {
    if l.endDigits.Some? {
      var e := l.endDigits.value;
      var after := "-L" + (e + l.rest);
      assert LinesText(l) == l.startDigits + after;
      TakeNumeralOf(l.startDigits, after);
      assert StartsRange(after);
      assert after[2..] == e + l.rest;
      TakeNumeralOf(e, l.rest);
      assert "-L" + e + l.rest == after;
    } else {
      assert LinesText(l) == l.startDigits + l.rest;
      TakeNumeralOf(l.startDigits, l.rest);
    }
  }

  /** The pattern after `https://github.com/`, matched from the start of `s`. */
  function MatchTail(s: string): (r: Option<Permalink>)
    ensures r.Some? ==> WellFormed(r.value) && RenderTail(r.value) == s
  {
    var owner :- TakeSegment(s, '/');
    var repo :- TakeSegment(owner.1, '/');
    var afterBlob :- TakeLiteral(repo.1, "blob/");
    var commit :- TakeSegment(afterBlob, '/');
    var path :- TakeSegment(commit.1, '#');
    var afterL :- TakeLiteral(path.1, "L");
    var lines :- MatchLines(afterL);
    Some(Permalink(owner.0, repo.0, commit.0, path.0, lines))
  }

  /** Every well-formed decomposition is found again by the matcher. */
  lemma MatchTailComplete(p: Permalink)
    requires WellFormed(p)
    ensures MatchTail(RenderTail(p)) == Some(p)
  {
    TakeSegmentOf(p.owner, '/', RepoText(p));
    TakeSegmentOf(p.repo, '/', "blob/" + CommitText(p));
    TakeLiteralOf("blob/", CommitText(p));
    TakeSegmentOf(p.commit, '/', PathText(p));
    TakeSegmentOf(p.path, '#', "L" + LinesText(p.lines));
    TakeLiteralOf("L", LinesText(p.lines));
    MatchLinesComplete(p.lines);
  }

  /** `_target_regex.match(line)`, with the host's dot read as a literal dot. */
  function MatchPermalink(line: string): (r: Option<Permalink>)
    ensures r.Some? ==> WellFormed(r.value) && line == Render(r.value)
  {
    var tail :- TakeLiteral(line, HostPrefix);
    MatchTail(tail)
  }

  /** Matching is anchored and exact: a line matches iff it is a rendered
      well-formed permalink followed by arbitrary text, and the pieces found
      are the ones it was rendered from. */
  lemma MatchPermalinkComplete(p: Permalink)
    requires WellFormed(p)
    ensures MatchPermalink(Render(p)) == Some(p)
  {
    TakeLiteralOf(HostPrefix, RenderTail(p));
    MatchTailComplete(p);
  }

  /** `_target_regex.match(line)` as written: the `.` of `github.com` is an
      unescaped regular-expression dot, so any character but a newline is
      accepted there (the pattern is compiled without DOTALL). */
  function MatchPermalinkAsWritten(line: string): (r: Option<Permalink>)
    ensures r.Some? ==> WellFormed(r.value)
    ensures r.Some? ==> |line| >= 19 && line[14] != '\n' && line == HostPrefix[..14] + [line[14]] + HostPrefix[15..] + RenderTail(r.value)
  {
    if |line| >= 19 && line[..14] == HostPrefix[..14] && line[14] != '\n' && line[15..19] == HostPrefix[15..] then
      var r := MatchTail(line[19..]);
      assert line == line[..14] + [line[14]] + line[15..19] + line[19..];
      r
    else None
  }

  /** The as-written matcher accepts a permalink whose host is not github.com,
      such as `https://githubXcom/o/r/blob/c/p#L1`; the corrected one does not.
      Only a newline there is rejected by both. */
  lemma UnescapedDotAcceptsOtherHosts(p: Permalink, x: char)
    requires WellFormed(p) && x != '.' && x != '\n'
    ensures MatchPermalinkAsWritten("https://github" + [x] + "com/" + RenderTail(p)) == Some(p)
    ensures MatchPermalink("https://github" + [x] + "com/" + RenderTail(p)) == None
  {
    var line := "https://github" + [x] + "com/" + RenderTail(p);
    assert line[..14] == HostPrefix[..14];
    assert line[15..19] == HostPrefix[15..];
    assert line[19..] == RenderTail(p);
    MatchTailComplete(p);
    assert line[14] != HostPrefix[14];
    assert !StartsWith(line, HostPrefix) by {
      assert line[..19][14] == line[14];
    }
  }

  /** The corrected matcher differs from the as-written one only on lines that
      carry some other character where the host has its dot. */
  lemma AsWrittenAgreesOnDot(line: string)
    requires |line| > 14 ==> line[14] == '.'
    ensures MatchPermalinkAsWritten(line) == MatchPermalink(line)
  {
    if |line| >= 19 && line[..14] == HostPrefix[..14] && line[14] != '\n' && line[15..19] == HostPrefix[15..] {
      assert line[..19] == line[..14] + [line[14]] + line[15..19];
      assert line[..19] == HostPrefix;
    }
  }

  /* ---------------------------------------------------------------------
     From a match to an edit target
     --------------------------------------------------------------------- */

  /** The block rule: `(start, end)` when the end-line group matched, and
      `(start, start + 1)` otherwise; nothing relates `end` to `start`. */
  function ToTarget(p: Permalink): (t: EditTarget)
    requires WellFormed(p)
    ensures t.path == p.path && t.commit == p.commit
    ensures t.block.0 >= 0 && t.block.1 >= 0
    ensures p.lines.endDigits.None? ==> t.block.1 == t.block.0 + 1
  {
    var start := DecimalValue(p.lines.startDigits);
    var end := match p.lines.endDigits case Some(e) => DecimalValue(e) case None => start + 1;
    EditTarget(p.path, p.commit, (start, end))
  }

  /** One line of an issue body to at most one target. */
  function ParseLine(line: string): (r: Option<EditTarget>)
    ensures r.Some? ==> StartsWith(line, HostPrefix)
    ensures r.Some? ==> |r.value.path| > 0 && '#' !in r.value.path && Segment(r.value.commit)
    ensures r.Some? ==> r.value.block.0 >= 0 && r.value.block.1 >= 0
  {
    match MatchPermalink(line)
    case None => None
    case Some(p) =>
      TakeLiteralOf(HostPrefix, RenderTail(p));
      Some(ToTarget(p))
  }

  /** A rendered well-formed permalink parses to the target of its pieces. */
  lemma ParseRendered(p: Permalink)
    requires WellFormed(p)
    ensures ParseLine(Render(p)) == Some(ToTarget(p))
  {
    MatchPermalinkComplete(p);
  }

  /** `int()` ignores a leading zero: `#L07` names the same block as `#L7`. */
  lemma LeadingZeroSameTarget(p: Permalink)
    requires WellFormed(p)
    ensures var q := p.(lines := p.lines.(startDigits := "0" + p.lines.startDigits));
      ParseLine(Render(q)) == ParseLine(Render(p))
  {
    var ds := p.lines.startDigits;
    var q := p.(lines := p.lines.(startDigits := "0" + ds));
    LeadingZeroIgnored(ds);
    assert WellFormedLines(q.lines);
    assert ToTarget(q) == ToTarget(p);
    ParseRendered(p);
    ParseRendered(q);
  }

  /** The numeral for an optional line number. */
  function NumeralOf(n: Option<nat>): Option<string> {
    match n case Some(v) => Some(DecimalString(v)) case None => None
  }

  /** The permalink to lines `start`..`end` of `path`, or to the single line
      `start`, followed by `rest`. */
  function PermalinkTo(owner: string, repo: string, commit: string, path: string,
                       start: nat, end: Option<nat>, rest: string): string
  {
    Render(Permalink(owner, repo, commit, path, LineSpec(DecimalString(start), NumeralOf(end), rest)))
  }

  /** Decimal numerals are read back as the line numbers they spell. */
  lemma TargetOfNumerals(p: Permalink, start: nat, end: Option<nat>)
    requires WellFormed(p)
    requires p.lines.startDigits == DecimalString(start) && p.lines.endDigits == NumeralOf(end)
    ensures ToTarget(p) == EditTarget(p.path, p.commit, (start, end.GetOr(start + 1)))
  {
    DecimalRoundTrip(start);
    if end.Some? {
      DecimalRoundTrip(end.value);
    }
  }

  /** A permalink to lines `start`..`end` (or to the single line `start`),
      followed by any text that cannot extend the match, yields exactly the
      target `(path, commit, (start, end))` (or `(path, commit, (start, start + 1))`). */
  lemma ParsePermalinkLine(owner: string, repo: string, commit: string, path: string,
                           start: nat, end: Option<nat>, rest: string)
    requires Segment(owner) && Segment(repo) && Segment(commit)
    requires |path| > 0 && '#' !in path
    requires |rest| > 0 ==> !IsDigit(rest[0])
    requires end.None? ==> !StartsRange(rest)
    ensures ParseLine(PermalinkTo(owner, repo, commit, path, start, end, rest))
         == Some(EditTarget(path, commit, (start, end.GetOr(start + 1))))
  {
    var p := Permalink(owner, repo, commit, path, LineSpec(DecimalString(start), NumeralOf(end), rest));
    assert WellFormed(p);
    ParseRendered(p);
    TargetOfNumerals(p, start, end);
  }

  /** The end of a block is never checked against its start. */
  lemma EndNotCheckedAgainstStart()
    ensures ParseLine("https://github.com/o/r/blob/c/f.py#L7-L4") == Some(EditTarget("f.py", "c", (7, 4)))
  {
    var p := Permalink("o", "r", "c", "f.py", LineSpec("7", Some("4"), ""));
    assert Render(p) == "https://github.com/o/r/blob/c/f.py#L7-L4";
    assert DecimalString(7) == "7" && DecimalString(4) == "4";
    assert WellFormed(p);
    ParseRendered(p);
    TargetOfNumerals(p, 7, Some(4));
  }

  /* ---------------------------------------------------------------------
     `_get_targets_from_body`
     --------------------------------------------------------------------- */

  /** The targets of a sequence of lines, in line order. */
  function TargetsOfLines(lines: seq<string>): seq<EditTarget> {
    FilterMap(lines, ParseLine)
  }

  /** `_get_targets_from_body`: scan the body line by line. */
  function GetTargetsFromBody(haystack: string): (ts: seq<EditTarget>)
    ensures |ts| <= |SplitLines(haystack)|
    ensures forall k :: 0 <= k < |ts| ==>
      |ts[k].path| > 0 && '#' !in ts[k].path && Segment(ts[k].commit) && ts[k].block.0 >= 0 && ts[k].block.1 >= 0
  {
    var lines := SplitLines(haystack);
    FilterMapFollowsHits(lines, ParseLine);
    TargetsOfLines(lines)
  }

  /** The k-th target comes from the k-th line that starts with a permalink:
      at most one target per line, none for any other line, in line order. */
  lemma TargetsFollowLines(haystack: string)
    ensures var lines := SplitLines(haystack); var hits := Hits(lines, ParseLine);
      && |GetTargetsFromBody(haystack)| == |hits| <= |lines|
      && (forall k, l :: 0 <= k < l < |hits| ==> hits[k] < hits[l])
      && (forall i :: 0 <= i < |lines| && ParseLine(lines[i]).Some? ==> i in hits)
      && (forall k :: 0 <= k < |hits| ==>
            hits[k] < |lines| && ParseLine(lines[hits[k]]) == Some(GetTargetsFromBody(haystack)[k]))
  {
    FilterMapFollowsHits(SplitLines(haystack), ParseLine);
  }

  /** Lines joined with newlines are scanned one by one, in order. */
  lemma TargetsOfJoinedLines(lines: seq<string>)
    requires forall k :: 0 <= k < |lines| ==> NoBreaks(lines[k])
    ensures GetTargetsFromBody(JoinLines(lines)) == TargetsOfLines(lines)
  {
    SplitJoinLines(lines);
  }

  /* ---------------------------------------------------------------------
     `handle_pr_comment`
     --------------------------------------------------------------------- */

  /** The target of a review comment: the block runs from `start_line` to
      `line`, and a missing or zero `start_line` falls back to `line`. A null
      `line` makes one of the two `int(...)` calls raise `TypeError`, shown
      here as None. */
  function PrCommentTarget(path: string, commitId: string, startLine: Option<int>, line: Option<int>): (r: Option<EditTarget>)
    ensures r.None? <==> line.None?
    ensures r.Some? ==> r.value.path == path && r.value.commit == commitId && r.value.block.1 == line.value
    ensures r.Some? && (startLine.None? || startLine == Some(0)) ==> r.value.block == (line.value, line.value)
    ensures r.Some? && startLine.Some? && startLine.value != 0 ==> r.value.block == (startLine.value, line.value)
  {
    var start :- if startLine.Some? && startLine.value != 0 then startLine else line;
    var end :- line;
    Some(EditTarget(path, commitId, (start, end)))
  }

  /** A review comment on lines `start`..`end` names the same edit target as
      the permalink to those lines of the same file at the same commit. */
  lemma CommentAgreesWithPermalink(owner: string, repo: string, commit: string, path: string,
                                   start: nat, end: nat, rest: string)
    requires Segment(owner) && Segment(repo) && Segment(commit)
    requires |path| > 0 && '#' !in path
    requires |rest| > 0 ==> !IsDigit(rest[0])
    requires start != 0
    ensures PrCommentTarget(path, commit, Some(start), Some(end))
         == ParseLine(PermalinkTo(owner, repo, commit, path, start, Some(end), rest))
  {
    ParsePermalinkLine(owner, repo, commit, path, start, Some(end), rest);
  }

  /** The two ways of naming one line disagree on the block's end: a
      single-line permalink ends one line later, a single-line comment does not. */
  lemma SingleLineConventions(p: Permalink, line: int)
    requires WellFormed(p) && p.lines.endDigits.None?
    ensures ParseLine(Render(p)).Some?
    ensures var t := ParseLine(Render(p)).value; t.block.1 == t.block.0 + 1
    ensures var t := PrCommentTarget(p.path, p.commit, None, Some(line)).value; t.block.1 == t.block.0
  {
    MatchPermalinkComplete(p);
  }
}
