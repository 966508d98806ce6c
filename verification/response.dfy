/** The splitter that turns the language model's reply into output files
    (the loop over `resp.splitlines()` in `_make_freeform_changes`,
    alchemy/github.py).

    The reply is read line by line. A line that starts with the marker `%%%`
    opens a new file whose path is the rest of the line, stripped; every other
    line, followed by a newline, is appended to the most recently opened file. */
module Response {
  import opened Wrappers
  import opened Text
  import opened Seqs

  /** `_RESP_PATH_PREFIX` */
  const Marker: string := "%%%"

  /** `OutputFile(path, content)` */
  datatype OutputFile = OutputFile(path: string, content: string)

  /** The exceptions the loop can raise, with the index of the offending line. */
  datatype SplitError =
    | NoOpenFile(line: nat)           // IndexError: `output_files[-1]` while no file is open
    | MalformedHeader(line: nat)      // ValueError: `line.split(marker)` does not give exactly two pieces
    | ImmutableOutputFile(line: nat)  // AttributeError: `+=` on a field of the `OutputFile` namedtuple

  predicate IsHeader(line: string) {
    StartsWith(line, Marker)
  }

  /** The text after the marker of a header line. */
  function HeaderText(line: string): Option<string> {
    if IsHeader(line) then Some(line[|Marker|..]) else None
  }

  /** `_, key = line.split(marker)`: the key, or None when the unpacking fails. */
  function HeaderKey(line: string): Option<string> {
    var parts := SplitOn(line, Marker);
    if |parts| == 2 then Some(parts[1]) else None
  }

  /** A header line unpacks iff the marker does not occur again after its
      first three characters, and its key is then everything after the marker. */
  lemma HeaderKeyOfHeader(line: string)
    requires IsHeader(line)
    ensures HeaderKey(line).Some? <==> !Contains(line[|Marker|..], Marker)
    ensures HeaderKey(line).Some? ==> HeaderKey(line) == HeaderText(line)
  {
    var t := line[|Marker|..];
    assert line == Marker + t;
    SplitAfterSeparator(Marker, t);
    SplitSingle(t, Marker);
  }

  /** A header line whose key cannot be unpacked. */
  predicate Malformed(line: string) {
    IsHeader(line) && HeaderKey(line).None?
  }

  /* ---------------------------------------------------------------------
     The splitter
     --------------------------------------------------------------------- */

  /** One iteration of the loop, on line number `i`. */
  function Step(files: seq<OutputFile>, line: string, i: nat): Result<seq<OutputFile>, SplitError> {
    if IsHeader(line) then
      match HeaderKey(line)
      case None => Err(MalformedHeader(i))
      case Some(key) => Ok(files + [OutputFile(Strip(key), "")])
    else if |files| == 0 then Err(NoOpenFile(i))
    else
      var last := files[|files| - 1];
      Ok(files[..|files| - 1] + [last.(content := last.content + line + "\n")])
  }

  /** The loop over a sequence of lines: the first failing line ends it. */
  function SplitFiles(lines: seq<string>): Result<seq<OutputFile>, SplitError> {
    if |lines| == 0 then Ok([])
    else
      var n := |lines| - 1;
      var files :- SplitFiles(lines[..n]);
      Step(files, lines[n], n)
  }

  /** The splitter over the whole reply. */
  function SplitResponse(resp: string): Result<seq<OutputFile>, SplitError> {
    SplitFiles(SplitLines(resp))
  }

  /** One iteration fails only with its own line number; a header adds one
      file and a content line none. */
  lemma StepShape(files: seq<OutputFile>, line: string, i: nat)
    ensures Step(files, line, i).Err? ==> Step(files, line, i).error.line == i
    ensures Step(files, line, i).Ok? ==>
      |Step(files, line, i).value| == |files| + (if IsHeader(line) then 1 else 0)
  {
  }

  /** An error names a line of the input, and there are never more files than lines. */
  lemma {:induction false} SplitFilesShape(lines: seq<string>)
    ensures SplitFiles(lines).Err? ==> SplitFiles(lines).error.line < |lines|
    ensures SplitFiles(lines).Ok? ==> |SplitFiles(lines).value| <= |lines|
  {
    if |lines| > 0 {
      var n := |lines| - 1;
      SplitFilesShape(lines[..n]);
      if SplitFiles(lines[..n]).Ok? {
        StepShape(SplitFiles(lines[..n]).value, lines[n], n);
      }
    }
  }

  /** An error names one of the reply's lines. */
  lemma SplitResponseShape(resp: string)
    ensures SplitResponse(resp).Err? ==> SplitResponse(resp).error.line < |SplitLines(resp)|
  {
    SplitFilesShape(SplitLines(resp));
  }

  /* ---------------------------------------------------------------------
     What the splitter computes
     --------------------------------------------------------------------- */

  /** `hits` are strictly increasing positions below `n`. */
  predicate Positions(hits: seq<nat>, n: nat) {
    && (forall k :: 0 <= k < |hits| ==> hits[k] < n)
    && (forall k :: 0 <= k < |hits| - 1 ==> hits[k] < hits[k + 1])
  }

  /** The index just past the body of the k-th file: the next header, or the end. */
  function BodyEnd(hits: seq<nat>, k: nat, n: nat): nat
    requires k < |hits|
  {
    if k + 1 < |hits| then hits[k + 1] else n
  }

  /** The lines between the k-th header and the next one (or the end). */
  function Body(lines: seq<string>, hits: seq<nat>, k: nat): seq<string>
    requires Positions(hits, |lines|) && k < |hits|
  {
    lines[hits[k] + 1..BodyEnd(hits, k, |lines|)]
  }

  /** `file` is the one the k-th header of `lines` opens: its path is the
      header's text after the marker, stripped; its content is every line of
      its body, each followed by a newline. */
  predicate FileAt(lines: seq<string>, hits: seq<nat>, k: nat, file: OutputFile)
    requires Positions(hits, |lines|) && k < |hits|
  {
    && IsHeader(lines[hits[k]])
    && file.path == Strip(lines[hits[k]][|Marker|..])
    && file.content == JoinLines(Body(lines, hits, k))
  }

  /** `files` is what `lines` describes, given the positions of its headers. */
  predicate DescribesAt(lines: seq<string>, hits: seq<nat>, files: seq<OutputFile>)
    requires Positions(hits, |lines|)
  {
    && |files| == |hits|
    && forall k :: 0 <= k < |hits| ==> FileAt(lines, hits, k, files[k])
  }

  /** The positions of the header lines are strictly increasing positions. */
  lemma HeaderPositions(lines: seq<string>)
    ensures Positions(Hits(lines, HeaderText), |lines|)
  {
  }

  /** `files` is what the reply `lines` describes: one file per header line, in order. */
  predicate Describes(lines: seq<string>, files: seq<OutputFile>) {
    HeaderPositions(lines);
    DescribesAt(lines, Hits(lines, HeaderText), files)
  }

  /** A line makes the loop fail: a content line before any header (only the
      first line can be one, since later lines follow the first header), or a
      header that does not unpack. */
  predicate Bad(lines: seq<string>, i: nat)
    requires i < |lines|
  {
    (i == 0 && !IsHeader(lines[0])) || Malformed(lines[i])
  }

  /** Appending a header leaves every earlier body unchanged and gives the new
      header an empty body. */
  lemma BodyAfterHeader(init: seq<string>, h: seq<nat>, k: nat, line: string)
    requires Positions(h, |init|) && k <= |h|
    ensures Positions(h + [|init|], |init| + 1)
    ensures (init + [line])[(h + [|init|])[k]] == if k < |h| then init[h[k]] else line
    ensures Body(init + [line], h + [|init|], k) == if k < |h| then Body(init, h, k) else []
  {
    var n := |init|;
    var h' := h + [n];
    var lines := init + [line];
    assert Positions(h', n + 1) by {
      if |h| > 0 {
        assert h'[|h| - 1] == h[|h| - 1] < n;
      }
    }
    if k < |h| {
      var e := BodyEnd(h, k, n);
      assert BodyEnd(h', k, n + 1) == e;
      assert h[k] + 1 <= e <= n;
      assert lines[h[k] + 1..e] == init[h[k] + 1..e];
    }
  }

  /** A header line appended to a described reply opens one more, empty file. */
  lemma DescribesAfterHeader(init: seq<string>, h: seq<nat>, files: seq<OutputFile>, line: string)
    requires Positions(h, |init|) && DescribesAt(init, h, files) && IsHeader(line)
    ensures Positions(h + [|init|], |init| + 1)
    ensures DescribesAt(init + [line], h + [|init|], files + [OutputFile(Strip(line[|Marker|..]), "")])
  {
    var lines := init + [line];
    var h' := h + [|init|];
    var files' := files + [OutputFile(Strip(line[|Marker|..]), "")];
    BodyAfterHeader(init, h, 0, line);
    forall k | 0 <= k < |h'|
      ensures FileAt(lines, h', k, files'[k])
    {
      BodyAfterHeader(init, h, k, line);
      if k < |h| {
        assert FileAt(init, h, k, files[k]);
      }
    }
  }

  /** Appending a line leaves the body of every header but the last unchanged,
      and extends the last body by that line. */
  lemma BodyAfterContent(init: seq<string>, h: seq<nat>, k: nat, line: string)
    requires Positions(h, |init|) && k < |h|
    ensures Positions(h, |init| + 1)
    ensures (init + [line])[h[k]] == init[h[k]]
    ensures Body(init + [line], h, k) == if k + 1 < |h| then Body(init, h, k) else Body(init, h, k) + [line]
  {
    var lines := init + [line];
    var e := BodyEnd(h, k, |init|);
    assert h[k] + 1 <= e <= |init|;
    if k + 1 < |h| {
      assert lines[h[k] + 1..e] == init[h[k] + 1..e];
    } else {
      assert lines[h[k] + 1..|init| + 1] == init[h[k] + 1..|init|] + [line];
    }
  }

  /** A content line appended to a described reply extends the last file. */
  lemma DescribesAfterContent(init: seq<string>, h: seq<nat>, files: seq<OutputFile>, line: string)
    requires Positions(h, |init|) && DescribesAt(init, h, files) && |files| > 0
    ensures Positions(h, |init| + 1)
    ensures var last := files[|files| - 1];
      DescribesAt(init + [line], h, files[..|files| - 1] + [last.(content := last.content + line + "\n")])
  {
    var lines := init + [line];
    var last := files[|files| - 1];
    var files' := files[..|files| - 1] + [last.(content := last.content + line + "\n")];
    forall k | 0 <= k < |h|
      ensures FileAt(lines, h, k, files'[k])
    {
      assert FileAt(init, h, k, files[k]);
      BodyAfterContent(init, h, k, line);
      if k + 1 == |h| {
        JoinLinesAppend(Body(init, h, k), line);
      }
    }
  }

  /** One successful iteration keeps the files what the lines read so far describe. */
  lemma DescribesAfterStep(init: seq<string>, files: seq<OutputFile>, line: string)
    requires Describes(init, files) && Step(files, line, |init|).Ok?
    ensures Describes(init + [line], Step(files, line, |init|).value)
  {
    var n := |init|;
    var lines := init + [line];
    var h := Hits(init, HeaderText);
    HeaderPositions(init);
    HitsSnoc(init, line, HeaderText);
    if IsHeader(line) {
      assert Hits(lines, HeaderText) == h + [n];
      assert Step(files, line, n).value == files + [OutputFile(Strip(line[|Marker|..]), "")] by {
        HeaderKeyOfHeader(line);
      }
      DescribesAfterHeader(init, h, files, line);
    } else {
      assert Hits(lines, HeaderText) == h;
      DescribesAfterContent(init, h, files, line);
    }
  }

  /** On success the files are exactly what the reply describes. */
  lemma {:induction false} SplitFilesDescribes(lines: seq<string>)
    ensures SplitFiles(lines).Ok? ==> Describes(lines, SplitFiles(lines).value)
  {
    if |lines| > 0 && SplitFiles(lines).Ok? {
      var n := |lines| - 1;
      var init := lines[..n];
      SplitFilesDescribes(init);
      assert lines == init + [lines[n]];
      assert SplitFiles(lines) == Step(SplitFiles(init).value, lines[n], n);
      DescribesAfterStep(init, SplitFiles(init).value, lines[n]);
    }
  }

  /** Once the loop has got past a line, some file is open. */
  lemma {:induction false} SplitKeepsFileOpen(lines: seq<string>)
    requires |lines| > 0 && SplitFiles(lines).Ok?
    ensures |SplitFiles(lines).value| > 0
  {
    var n := |lines| - 1;
    if n > 0 {
      SplitKeepsFileOpen(lines[..n]);
    }
  }

  /** Whether a line is bad does not depend on the lines after it. */
  lemma BadInPrefix(lines: seq<string>, n: nat, i: nat)
    requires i < n <= |lines|
    ensures Bad(lines[..n], i) == Bad(lines, i)
  {
    assert lines[..n][i] == lines[i];
    assert lines[..n][0] == lines[0];
  }

  /** The splitter succeeds iff no line is bad. */
  lemma {:induction false} SplitOkIffNoBadLine(lines: seq<string>)
    ensures SplitFiles(lines).Ok? <==> forall i :: 0 <= i < |lines| ==> !Bad(lines, i)
  {
    if |lines| > 0 {
      var n := |lines| - 1;
      var init := lines[..n];
      var line := lines[n];
      SplitOkIffNoBadLine(init);
      if SplitFiles(init).Ok? {
        var files := SplitFiles(init).value;
        assert SplitFiles(lines) == Step(files, line, n);
        if !IsHeader(line) && n > 0 {
          SplitKeepsFileOpen(init);
        }
        assert SplitFiles(lines).Ok? <==> !Bad(lines, n);
        forall i | 0 <= i < n
          ensures !Bad(lines, i)
        {
          BadInPrefix(lines, n, i);
        }
      } else {
        var i :| 0 <= i < n && Bad(init, i);
        BadInPrefix(lines, n, i);
        assert SplitFiles(lines).Err?;
      }
    }
  }

  /** When the splitter fails, it reports the first bad line, with the
      exception that line raises: `NoOpenFile` for content before any header,
      `MalformedHeader` otherwise; never the `+=` failure, which it does not
      commit. */
  lemma {:induction false} SplitErrorIsFirstBadLine(lines: seq<string>)
    ensures SplitFiles(lines).Err? ==>
      var e := SplitFiles(lines).error;
      && !e.ImmutableOutputFile?
      && e.line < |lines| && Bad(lines, e.line)
      && (forall j :: 0 <= j < e.line ==> !Bad(lines, j))
      && (e.NoOpenFile? <==> e.line == 0 && !IsHeader(lines[0]))
  {
    if |lines| > 0 {
      var n := |lines| - 1;
      var init := lines[..n];
      var line := lines[n];
      SplitErrorIsFirstBadLine(init);
      forall i | 0 <= i < n
        ensures Bad(init, i) == Bad(lines, i)
      {
        BadInPrefix(lines, n, i);
      }
      if SplitFiles(init).Ok? {
        SplitOkIffNoBadLine(init);
        var files := SplitFiles(init).value;
        assert SplitFiles(lines) == Step(files, line, n);
        if IsHeader(line) {
          HeaderKeyOfHeader(line);
        } else if n > 0 {
          SplitKeepsFileOpen(init);
        }
      } else {
        assert SplitFiles(lines) == SplitFiles(init).PropagateFailure();
      }
    }
  }

  /* ---------------------------------------------------------------------
     Round trip: a reply written in the prompt's format splits into its files
     --------------------------------------------------------------------- */

  /** A file as the prompt asks for it: a path, then the lines of its content. */
  datatype FileText = FileText(path: string, body: seq<string>)

  /** The path can be written after `%%% ` and read back. */
  predicate PathFits(path: string) {
    Trimmed(path) && !Contains(path, Marker)
  }

  /** `%%% <path>` on one line, then the body, for each file in turn. */
  function FormatLines(files: seq<FileText>): seq<string> {
    if |files| == 0 then []
    else
      var f := files[|files| - 1];
      FormatLines(files[..|files| - 1]) + [Marker + " " + f.path] + f.body
  }

  /** The output files a formatted reply stands for. */
  function Expected(files: seq<FileText>): seq<OutputFile> {
    if |files| == 0 then []
    else
      var f := files[|files| - 1];
      Expected(files[..|files| - 1]) + [OutputFile(f.path, JoinLines(f.body))]
  }

  lemma NoMarkerAfterSpace(path: string)
    requires !Contains(path, Marker)
    ensures !Contains(" " + path, Marker)
  {
    var s := " " + path;
    forall i: nat | i + |Marker| <= |s|
      ensures !OccursAt(s, Marker, i)
    {
      if i == 0 {
        assert s[0] != Marker[0];
        assert s[0..|Marker|][0] == s[0];
      } else {
        assert s[i..i + |Marker|] == path[i - 1..i - 1 + |Marker|];
        assert !OccursAt(path, Marker, i - 1);
      }
    }
  }

  /** A header line for a fitting path opens a file with exactly that path. */
  lemma SplitHeader(lines: seq<string>, path: string)
    requires PathFits(path)
    requires SplitFiles(lines).Ok?
    ensures SplitFiles(lines + [Marker + " " + path]) == Ok(SplitFiles(lines).value + [OutputFile(path, "")])
  {
    var line := Marker + " " + path;
    var lines' := lines + [line];
    assert lines'[..|lines|] == lines;
    assert line[..|Marker|] == Marker;
    assert line[|Marker|..] == " " + path;
    NoMarkerAfterSpace(path);
    HeaderKeyOfHeader(line);
    StripPadded(path);
  }

  /** Body lines are appended, in order, to the file that is open. */
  lemma {:induction false} SplitBody(lines: seq<string>, body: seq<string>)
    requires SplitFiles(lines).Ok? && |SplitFiles(lines).value| > 0
    requires forall j :: 0 <= j < |body| ==> !IsHeader(body[j])
    ensures var files := SplitFiles(lines).value; var last := files[|files| - 1];
      SplitFiles(lines + body) == Ok(files[..|files| - 1] + [last.(content := last.content + JoinLines(body))])
    decreases |body|
  {
    var files := SplitFiles(lines).value;
    var last := files[|files| - 1];
    if |body| == 0 {
      assert lines + body == lines;
      assert last.content + JoinLines(body) == last.content;
      assert last.(content := last.content) == last;
      assert files[..|files| - 1] + [last] == files;
    } else {
      var m := |body| - 1;
      SplitBody(lines, body[..m]);
      var before := files[..|files| - 1] + [last.(content := last.content + JoinLines(body[..m]))];
      var all := lines + body;
      assert all[..|all| - 1] == lines + body[..m];
      assert all[|all| - 1] == body[m];
      JoinLinesAppend(body[..m], body[m]);
      assert body == body[..m] + [body[m]];
      assert before[..|before| - 1] == files[..|files| - 1];
      var lastB := before[|before| - 1];
      assert SplitFiles(all) == Ok(before[..|before| - 1] + [lastB.(content := lastB.content + body[m] + "\n")]);
      assert lastB.content + body[m] + "\n" == last.content + JoinLines(body);
    }
  }

  /** A reply written in the prompt's format splits back into its files:
      one per header, with the header's path and the body's lines as content. */
  lemma {:induction false} SplitFormatted(files: seq<FileText>)
    requires forall k :: 0 <= k < |files| ==> PathFits(files[k].path)
    requires forall k, j :: 0 <= k < |files| && 0 <= j < |files[k].body| ==> !IsHeader(files[k].body[j])
    ensures SplitFiles(FormatLines(files)) == Ok(Expected(files))
  {
    if |files| > 0 {
      var n := |files| - 1;
      var f := files[n];
      SplitFormatted(files[..n]);
      var prefix := FormatLines(files[..n]);
      SplitHeader(prefix, f.path);
      var withPath := prefix + [Marker + " " + f.path];
      var withHeader := Expected(files[..n]) + [OutputFile(f.path, "")];
      SplitBody(withPath, f.body);
      assert FormatLines(files) == withPath + f.body;
      assert withHeader[..|withHeader| - 1] == Expected(files[..n]);
      var newFile := withHeader[|withHeader| - 1];
      assert newFile.(content := newFile.content + JoinLines(f.body)) == OutputFile(f.path, JoinLines(f.body));
      assert Expected(files) == Expected(files[..n]) + [OutputFile(f.path, JoinLines(f.body))];
    }
  }

  /** The same round trip over the reply's text, when no path or body line
      contains a line break. */
  lemma SplitResponseFormatted(files: seq<FileText>)
    requires forall k :: 0 <= k < |files| ==> PathFits(files[k].path) && NoBreaks(files[k].path)
    requires forall k, j :: 0 <= k < |files| && 0 <= j < |files[k].body| ==>
      !IsHeader(files[k].body[j]) && NoBreaks(files[k].body[j])
    ensures SplitResponse(JoinLines(FormatLines(files))) == Ok(Expected(files))
  {
    FormatLinesNoBreaks(files);
    SplitJoinLines(FormatLines(files));
    SplitFormatted(files);
  }

  lemma {:induction false} FormatLinesNoBreaks(files: seq<FileText>)
    requires forall k :: 0 <= k < |files| ==> NoBreaks(files[k].path)
    requires forall k, j :: 0 <= k < |files| && 0 <= j < |files[k].body| ==> NoBreaks(files[k].body[j])
    ensures forall i :: 0 <= i < |FormatLines(files)| ==> NoBreaks(FormatLines(files)[i])
  {
    if |files| > 0 {
      var n := |files| - 1;
      var f := files[n];
      FormatLinesNoBreaks(files[..n]);
      var header := Marker + " " + f.path;
      forall i | 0 <= i < |header|
        ensures !IsLineBreak(header[i])
      {
        if i >= |Marker| + 1 {
          assert header[i] == f.path[i - |Marker| - 1];
        }
      }
      var prefix := FormatLines(files[..n]);
      var all := prefix + [header] + f.body;
      assert FormatLines(files) == all;
      forall i | 0 <= i < |all|
        ensures NoBreaks(all[i])
      {
        if i < |prefix| {
          assert all[i] == prefix[i];
        } else if i > |prefix| {
          assert all[i] == f.body[i - |prefix| - 1];
        }
      }
    }
  }

  /* ---------------------------------------------------------------------
     The loop as written
     --------------------------------------------------------------------- */

  /** One iteration as written: `OutputFile` is an immutable namedtuple, so the
      `+=` on its `content` field raises instead of appending. */
  function StepAsWritten(files: seq<OutputFile>, line: string, i: nat): Result<seq<OutputFile>, SplitError> {
    if IsHeader(line) then
      match HeaderKey(line)
      case None => Err(MalformedHeader(i))
      case Some(key) => Ok(files + [OutputFile(Strip(key), "")])
    else if |files| == 0 then Err(NoOpenFile(i))
    else Err(ImmutableOutputFile(i))
  }

  function SplitFilesAsWritten(lines: seq<string>): Result<seq<OutputFile>, SplitError> {
    if |lines| == 0 then Ok([])
    else
      var n := |lines| - 1;
      var files :- SplitFilesAsWritten(lines[..n]);
      StepAsWritten(files, lines[n], n)
  }

  /** As written, an error names a line of the input, and a surviving reply
      yields exactly one file per line. */
  lemma {:induction false} AsWrittenShape(lines: seq<string>)
    ensures SplitFilesAsWritten(lines).Err? ==> SplitFilesAsWritten(lines).error.line < |lines|
    ensures SplitFilesAsWritten(lines).Ok? ==> |SplitFilesAsWritten(lines).value| == |lines|
  {
    if |lines| > 0 {
      var n := |lines| - 1;
      AsWrittenShape(lines[..n]);
    }
  }

  /** A successful step as written read a header and opened an empty file. */
  lemma AsWrittenStepKey(files: seq<OutputFile>, line: string, i: nat) returns (key: string)
    requires StepAsWritten(files, line, i).Ok?
    ensures IsHeader(line)
    ensures StepAsWritten(files, line, i).value == files + [OutputFile(Strip(key), "")]
  {
    key := HeaderKey(line).value;
  }

  /** A run of the loop as written that ends with a step. */
  lemma AsWrittenLast(lines: seq<string>) returns (init: seq<string>, key: string)
    requires |lines| > 0 && SplitFilesAsWritten(lines).Ok?
    ensures init == lines[..|lines| - 1] && SplitFilesAsWritten(init).Ok?
    ensures IsHeader(lines[|lines| - 1])
    ensures SplitFilesAsWritten(lines).value == SplitFilesAsWritten(init).value + [OutputFile(Strip(key), "")]
  {
    var n := |lines| - 1;
    init := lines[..n];
    var files := SplitFilesAsWritten(init).value;
    assert SplitFilesAsWritten(lines) == StepAsWritten(files, lines[n], n);
    key := AsWrittenStepKey(files, lines[n], n);
  }

  /** A surviving reply as written: its prefix survives and its last line is a header. */
  lemma AsWrittenPrefix(lines: seq<string>)
    requires |lines| > 0 && SplitFilesAsWritten(lines).Ok?
    ensures SplitFilesAsWritten(lines[..|lines| - 1]).Ok?
    ensures IsHeader(lines[|lines| - 1])
  {
    var n := |lines| - 1;
    var key := AsWrittenStepKey(SplitFilesAsWritten(lines[..n]).value, lines[n], n);
  }

  /** As written, a reply survives only if its line `i` is a header. */
  lemma {:induction false} AsWrittenHeaderAt(lines: seq<string>, i: nat)
    requires SplitFilesAsWritten(lines).Ok? && i < |lines|
    ensures IsHeader(lines[i])
  {
    AsWrittenPrefix(lines);
    var n := |lines| - 1;
    if i < n {
      var init := lines[..n];
      AsWrittenHeaderAt(init, i);
      assert init[i] == lines[i];
    }
  }

  /** As written, a reply survives only if every line is a header. */
  lemma AsWrittenOnlyHeaders(lines: seq<string>)
    requires SplitFilesAsWritten(lines).Ok?
    ensures forall i :: 0 <= i < |lines| ==> IsHeader(lines[i])
  {
    forall i | 0 <= i < |lines|
      ensures IsHeader(lines[i])
    {
      AsWrittenHeaderAt(lines, i);
    }
  }

  /** As written, every file a surviving reply yields is empty. */
  lemma {:induction false} AsWrittenEmptyFiles(lines: seq<string>)
    requires SplitFilesAsWritten(lines).Ok?
    ensures forall k :: 0 <= k < |SplitFilesAsWritten(lines).value| ==> SplitFilesAsWritten(lines).value[k].content == ""
  {
    if |lines| > 0 {
      var init, key := AsWrittenLast(lines);
      AsWrittenEmptyFiles(init);
      var files := SplitFilesAsWritten(init).value;
      var files' := files + [OutputFile(Strip(key), "")];
      assert forall k :: 0 <= k < |files| ==> files'[k] == files[k];
      assert files'[|files|].content == "";
    }
  }

  /** As written, a reply survives only if it has no content line at all, and
      then every file it yields is empty. */
  lemma {:induction false} AsWrittenRejectsContent(lines: seq<string>)
    ensures SplitFilesAsWritten(lines).Ok? ==> forall i :: 0 <= i < |lines| ==> IsHeader(lines[i])
    ensures SplitFilesAsWritten(lines).Ok? ==>
      forall k :: 0 <= k < |SplitFilesAsWritten(lines).value| ==> SplitFilesAsWritten(lines).value[k].content == ""
  {
    if SplitFilesAsWritten(lines).Ok? {
      AsWrittenOnlyHeaders(lines);
      AsWrittenEmptyFiles(lines);
    }
  }

  /** The smallest reply with content: `%%% <path>` then one line. As written
      it raises on the content line; the corrected loop yields the file. */
  lemma AsWrittenFailsOnFirstContent(path: string, line: string)
    requires PathFits(path) && !IsHeader(line)
    ensures SplitFilesAsWritten([Marker + " " + path, line]) == Err(ImmutableOutputFile(1))
    ensures SplitFiles([Marker + " " + path, line]) == Ok([OutputFile(path, line + "\n")])
  {
    var header := Marker + " " + path;
    var opened1 := [OutputFile(path, "")];
    SplitOneHeader(path);
    AsWrittenOneHeader(path);
    assert [header, line][..1] == [header];
    assert SplitFiles([header, line]) == Step(opened1, line, 1);
    assert SplitFilesAsWritten([header, line]) == StepAsWritten(opened1, line, 1);
    var last := OutputFile(path, "");
    assert Step(opened1, line, 1) == Ok(opened1[..0] + [last.(content := last.content + line + "\n")]);
    assert last.content + line + "\n" == line + "\n";
    assert opened1[..0] + [OutputFile(path, line + "\n")] == [OutputFile(path, line + "\n")];
  }

  /** A reply of one header line opens one empty file. */
  lemma SplitOneHeader(path: string)
    requires PathFits(path)
    ensures SplitFiles([Marker + " " + path]) == Ok([OutputFile(path, "")])
  {
    var none: seq<string> := [];
    var nofiles: seq<OutputFile> := [];
    assert SplitFiles(none) == Ok(nofiles);
    SplitHeader(none, path);
    assert none + [Marker + " " + path] == [Marker + " " + path];
    assert nofiles + [OutputFile(path, "")] == [OutputFile(path, "")];
  }

  /** The loop as written also opens the file of a lone header. */
  lemma AsWrittenOneHeader(path: string)
    requires PathFits(path)
    ensures SplitFilesAsWritten([Marker + " " + path]) == Ok([OutputFile(path, "")])
  {
    var header := Marker + " " + path;
    var none: seq<string> := [];
    var nofiles: seq<OutputFile> := [];
    assert [header][..0] == none;
    assert SplitFilesAsWritten(none) == Ok(nofiles);
    assert SplitFilesAsWritten([header]) == StepAsWritten(nofiles, header, 0);
    AsWrittenStepOnHeader(nofiles, path);
    assert nofiles + [OutputFile(path, "")] == [OutputFile(path, "")];
  }

  /** A step as written on the header of a fitting path opens its file. */
  lemma AsWrittenStepOnHeader(files: seq<OutputFile>, path: string)
    requires PathFits(path)
    ensures StepAsWritten(files, Marker + " " + path, |files|) == Ok(files + [OutputFile(path, "")])
  {
    var header := Marker + " " + path;
    assert IsHeader(header) by {
      assert header[..|Marker|] == Marker;
    }
    assert HeaderKey(header) == Some(" " + path) by {
      NoMarkerAfterSpace(path);
      assert header[..|Marker|] == Marker;
      assert header[|Marker|..] == " " + path;
      HeaderKeyOfHeader(header);
    }
    StripPadded(path);
  }
}
