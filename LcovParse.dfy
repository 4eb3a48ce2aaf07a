/** CoverageReport.parse as a value: a left-to-right fold over the lines of an lcov
    tracefile whose one piece of state, besides the tree, is the file record that the last
    `SF:` line selected. It has two variants, after the two versions of DirectoryCoverage.get. */
module LcovParse {

  import opened Wrappers
  import opened Strings
  import opened OrderedMap
  import opened CoverageTree

  /** Which version of the lookup `SF:` lines go through. */
  datatype Variant = Current | Legacy

  /** `currentFile`: the record at a path, or anything without the three setters of a
      FileCoverage (undefined before any `SF:`, undefined after an `SF:` that found nothing,
      or a DirectoryCoverage after an `SF:` that named a directory). */
  datatype Cursor = NoFile | FileAt(path: string)

  /** Why `parse` throws: the lookup of an `SF:` line failed, or a `DA:`, `LH:` or `LF:`
      line called a setter that `currentFile` does not have. */
  datatype ParseError = LookupFailed(message: string) | LegacyLookupFailed(cause: GetError) | NoCurrentRecord

  /** The tree, `currentFile`, and the error that stopped the loop, if one did. */
  datatype ParseState = ParseState(root: Directory, cursor: Cursor, error: Option<ParseError>)

  /** The setter calls of FileCoverage. */
  datatype Edit = AddLine(lineNumber: nat) | SetHit(linesHit: nat) | SetFound(linesFound: nat)

  /** addUncoveredLine, setLinesHit, setLinesFound. */
  function ApplyEdit(r: FileRecord, e: Edit): (r': FileRecord)
    ensures r'.filename == r.filename
    ensures r'.uncoveredLines == if e.AddLine? then r.uncoveredLines + [e.lineNumber] else r.uncoveredLines
    ensures r'.linesHit == if e.SetHit? then e.linesHit else r.linesHit
    ensures r'.linesFound == if e.SetFound? then e.linesFound else r.linesFound
  {
    match e
    case AddLine(n) => r.(uncoveredLines := r.uncoveredLines + [n])
    case SetHit(n) => r.(linesHit := n)
    case SetFound(n) => r.(linesFound := n)
  }

  /** The cursor names a record of the tree. */
  predicate CursorValid(st: ParseState) {
    st.cursor.FileAt? ==> RecordOf(st.root, st.cursor.path).Some?
  }

  /** The text after the three-character tag. */
  function LineData(line: string): string {
    Substring(line, 3)
  }

  /** The `,`-separated pieces of a `DA:` line, and whether its hit count is exactly "0". */
  predicate Unhit(line: string) {
    var parts := Split(LineData(line), ',');
    |parts| >= 2 && parts[1] == "0"
  }

  /** The numbers that `Number()` reads are decimal digit strings: the line number of a
      `DA:` line that is unhit, and the payload of `LH:` and `LF:` lines. */
  predicate NumericLine(line: string) {
    (StartsWith(line, "DA:") && Unhit(line) ==> IsDigits(Split(LineData(line), ',')[0])) &&
    (StartsWith(line, "LH:") || StartsWith(line, "LF:") ==> IsDigits(LineData(line)))
  }

  predicate NumericLines(lines: seq<string>) {
    forall k :: 0 <= k < |lines| ==> NumericLine(lines[k])
  }

  /** A setter call on `currentFile`: the record at the cursor gets the edit; with no
      record there, the call throws. */
  function ApplyAtCursor(st: ParseState, e: Edit): (st': ParseState)
    requires CursorValid(st)
    ensures CursorValid(st') && st'.cursor == st.cursor
  {
    match st.cursor
    case NoFile => st.(error := Some(NoCurrentRecord))
    case FileAt(p) =>
      RecordOfSetRecord(st.root, p, ApplyEdit(RecordOf(st.root, p).value, e));
      st.(root := SetRecord(st.root, p, ApplyEdit(RecordOf(st.root, p).value, e)))
  }

  /** `currentFile = this.root.get(lineData)`, where only a FileCoverage counts as a file. */
  function Select(st: ParseState, path: string, v: Variant): (st': ParseState)
    requires CursorValid(st)
    ensures CursorValid(st') && st'.root == st.root
  {
    match v
    case Current =>
      (match Get(st.root, path)
       case Failure(m) => st.(error := Some(LookupFailed(m)))
       case Success(Some(File(_))) => st.(cursor := FileAt(path))
       case Success(_) => st.(cursor := NoFile))
    case Legacy =>
      GetVersionsAgree(st.root, path);
      (match GetLegacy(st.root, path)
       case Failure(g) => st.(error := Some(LegacyLookupFailed(g)))
       case Success(Some(File(_))) => st.(cursor := FileAt(path))
       case Success(_) => st.(cursor := NoFile))
  }

  /** One iteration of the loop body. */
  function Step(st: ParseState, line: string, v: Variant): (st': ParseState)
    requires CursorValid(st) && NumericLine(line)
    ensures CursorValid(st')
  {
    var data := LineData(line);
    if StartsWith(line, "SF:") then Select(st, data, v)
    else if StartsWith(line, "DA:") then
      if Unhit(line) then ApplyAtCursor(st, AddLine(ParseNat(Split(data, ',')[0]))) else st
    else if StartsWith(line, "LH:") then ApplyAtCursor(st, SetHit(ParseNat(data)))
    else if StartsWith(line, "LF:") then ApplyAtCursor(st, SetFound(ParseNat(data)))
    else st
  }

  /** The loop from `st` over `lines`; a thrown error ends it and leaves the tree as the
      lines before it made it. */
  function Run(st: ParseState, lines: seq<string>, v: Variant): (st': ParseState)
    requires CursorValid(st) && NumericLines(lines)
    ensures CursorValid(st')
    decreases |lines|
  {
    if lines == [] || st.error.Some? then st
    else
      assert NumericLine(lines[0]);
      Run(Step(st, lines[0], v), lines[1..], v)
  }

  /** The start of `parse`: `currentFile` undefined. */
  function Start(root: Directory): ParseState {
    ParseState(root, NoFile, None)
  }

  /** `parse(lcovInfo)` on the tree `root`. */
  function Parse(root: Directory, lcov: string, v: Variant): (st: ParseState)
    requires NumericLines(Split(lcov, '\n'))
    ensures CursorValid(st) && Shape(st.root) == Shape(root)
  {
    RunKeepsShape(Start(root), Split(lcov, '\n'), v);
    Run(Start(root), Split(lcov, '\n'), v)
  }

  // ---------------------------------------------------------------------------
  // One line at a time

  /** A line with none of the four tags changes nothing. */
  lemma OtherLinesIgnored(st: ParseState, line: string, v: Variant)
    requires CursorValid(st) && NumericLine(line)
    requires !StartsWith(line, "SF:") && !StartsWith(line, "DA:") && !StartsWith(line, "LH:") && !StartsWith(line, "LF:")
    ensures Step(st, line, v) == st
  {
  }

  /** `SF:` changes no record: it only moves the cursor to the file that `get` finds (and
      to no file when `get` finds nothing or a directory), or throws the lookup's error. */
  lemma SourceFileLine(st: ParseState, line: string)
    requires CursorValid(st) && NumericLine(line) && StartsWith(line, "SF:")
    ensures var st' := Step(st, line, Current);
      st'.root == st.root &&
      match Get(st.root, LineData(line))
      case Failure(m) => st'.error == Some(LookupFailed(NotFoundMessage(LineData(line))))
      case Success(found) =>
        st'.error == st.error &&
        st'.cursor == if found.Some? && found.value.File? then FileAt(LineData(line)) else NoFile
  {
  }

  /** `DA:n,h` appends `n` to the current record's uncovered lines exactly when `h` is
      "0", and does nothing else. */
  lemma DataLine(st: ParseState, line: string, v: Variant, p: string)
    requires CursorValid(st) && NumericLine(line) && StartsWith(line, "DA:")
    requires st.cursor == FileAt(p)
    ensures var st' := Step(st, line, v);
      var r := RecordOf(st.root, p).value;
      st'.error == st.error && st'.cursor == st.cursor &&
      RecordOf(st'.root, p) == Some(
        if Unhit(line) then r.(uncoveredLines := r.uncoveredLines + [ParseNat(Split(LineData(line), ',')[0])]) else r)
  {
    NotTwoTags(line, "DA:", "SF:");
    if Unhit(line) {
      var r := RecordOf(st.root, p).value;
      RecordOfSetRecord(st.root, p, ApplyEdit(r, AddLine(ParseNat(Split(LineData(line), ',')[0]))));
    }
  }

  /** `LH:n` sets the current record's hit count to `n`, `LF:n` its line count. */
  lemma CountLines(st: ParseState, line: string, v: Variant, p: string)
    requires CursorValid(st) && NumericLine(line) && (StartsWith(line, "LH:") || StartsWith(line, "LF:"))
    requires st.cursor == FileAt(p)
    ensures var st' := Step(st, line, v);
      var r := RecordOf(st.root, p).value;
      var n := ParseNat(LineData(line));
      st'.error == st.error && st'.cursor == st.cursor &&
      RecordOf(st'.root, p) == Some(if StartsWith(line, "LH:") then r.(linesHit := n) else r.(linesFound := n))
  {
    var r := RecordOf(st.root, p).value;
    var n := ParseNat(LineData(line));
    if StartsWith(line, "LH:") {
      NotTwoTags(line, "LH:", "SF:");
      NotTwoTags(line, "LH:", "DA:");
      RecordOfSetRecord(st.root, p, ApplyEdit(r, SetHit(n)));
    } else {
      NotTwoTags(line, "LF:", "SF:");
      NotTwoTags(line, "LF:", "DA:");
      NotTwoTags(line, "LF:", "LH:");
      RecordOfSetRecord(st.root, p, ApplyEdit(r, SetFound(n)));
    }
  }

  /** No line starts with two different three-character tags. */
  lemma NotTwoTags(line: string, a: string, b: string)
    requires |a| == 3 && |b| == 3 && a != b && StartsWith(line, a)
    ensures !StartsWith(line, b)
  {
  }

  /** A `DA:`, `LH:` or `LF:` line with no current file record throws. */
  lemma NoCurrentFileThrows(st: ParseState, line: string, v: Variant)
    requires CursorValid(st) && NumericLine(line) && st.cursor == NoFile
    requires StartsWith(line, "LH:") || StartsWith(line, "LF:") || (StartsWith(line, "DA:") && Unhit(line))
    ensures Step(st, line, v).error == Some(NoCurrentRecord)
  {
    if StartsWith(line, "LH:") {
      NotTwoTags(line, "LH:", "SF:");
      NotTwoTags(line, "LH:", "DA:");
    } else if StartsWith(line, "LF:") {
      NotTwoTags(line, "LF:", "SF:");
      NotTwoTags(line, "LF:", "DA:");
      NotTwoTags(line, "LF:", "LH:");
    } else {
      NotTwoTags(line, "DA:", "SF:");
    }
  }

  /** Only the current record changes: every other path finds what it found before, and
      the tree keeps its names, order, directories and memos. */
  lemma {:induction false} OnlyCurrentRecordChanges(st: ParseState, line: string, v: Variant, q: string)
    requires CursorValid(st) && NumericLine(line)
    requires st.cursor.FileAt? ==> q != st.cursor.path
    ensures RecordOf(Step(st, line, v).root, q) == RecordOf(st.root, q)
    ensures Shape(Step(st, line, v).root) == Shape(st.root)
  {
    var st' := Step(st, line, v);
    if st'.root != st.root {
      var p := st.cursor.path;
      var e :| st'.root == SetRecord(st.root, p, ApplyEdit(RecordOf(st.root, p).value, e));
      RecordOfSetRecordOther(st.root, p, ApplyEdit(RecordOf(st.root, p).value, e), q);
    }
  }

  /** Of two `LH:` lines in a row, or two `LF:` lines, the last one wins. */
  lemma {:induction false} LastCountWins(st: ParseState, first: string, second: string, v: Variant)
    requires CursorValid(st) && NumericLine(first) && NumericLine(second)
    requires (StartsWith(first, "LH:") && StartsWith(second, "LH:")) || (StartsWith(first, "LF:") && StartsWith(second, "LF:"))
    requires st.error.None?
    ensures Step(Step(st, first, v), second, v) == Step(st, second, v)
  {
    match st.cursor
    case NoFile =>
    case FileAt(p) =>
      var tag := first[..3];
      assert second[..3] == tag;
      NotTwoTags(first, tag, "SF:");
      NotTwoTags(first, tag, "DA:");
      NotTwoTags(second, tag, "SF:");
      NotTwoTags(second, tag, "DA:");
      var r := RecordOf(st.root, p).value;
      var n1, n2 := ParseNat(LineData(first)), ParseNat(LineData(second));
      var e1, e2 := if tag == "LH:" then SetHit(n1) else SetFound(n1), if tag == "LH:" then SetHit(n2) else SetFound(n2);
      if tag == "LF:" {
        NotTwoTags(first, tag, "LH:");
        NotTwoTags(second, tag, "LH:");
      }
      assert Step(st, first, v) == ApplyAtCursor(st, e1);
      assert Step(Step(st, first, v), second, v) == ApplyAtCursor(ApplyAtCursor(st, e1), e2);
      assert Step(st, second, v) == ApplyAtCursor(st, e2);
      var r1 := ApplyEdit(r, e1);
      RecordOfSetRecord(st.root, p, r1);
      assert ApplyEdit(r1, e2) == ApplyEdit(r, e2);
      SetRecordTwice(st.root, p, r1, ApplyEdit(r, e2));
  }

  // ---------------------------------------------------------------------------
  // The whole loop

  /** The loop never changes the tree's names, order, directories or memos. */
  lemma {:induction false} RunKeepsShape(st: ParseState, lines: seq<string>, v: Variant)
    requires CursorValid(st) && NumericLines(lines)
    ensures Shape(Run(st, lines, v).root) == Shape(st.root)
    decreases |lines|
  {
    if lines != [] && st.error.None? {
      assert NumericLine(lines[0]);
      var q := if st.cursor.FileAt? then st.cursor.path + "/" else "";
      OnlyCurrentRecordChanges(st, lines[0], v, q);
      RunKeepsShape(Step(st, lines[0], v), lines[1..], v);
    }
  }

  /** The loop over `a + b` is the loop over `a` followed by the loop over `b`. */
  lemma {:induction false} RunAppend(st: ParseState, a: seq<string>, b: seq<string>, v: Variant)
    requires CursorValid(st) && NumericLines(a) && NumericLines(b) && NumericLines(a + b)
    ensures Run(st, a + b, v) == Run(Run(st, a, v), b, v)
    decreases |a|
  {
    if a != [] && st.error.None? {
      assert NumericLine(a[0]);
      assert (a + b)[0] == a[0] && (a + b)[1..] == a[1..] + b;
      assert NumericLines(a[1..]) by {
        forall k | 0 <= k < |a[1..]| ensures NumericLine(a[1..][k]) {
          assert a[1..][k] == a[k + 1];
        }
      }
      RunAppend(Step(st, a[0], v), a[1..], b, v);
    } else if a == [] {
      assert a + b == b;
    }
  }

  /** A line that is not an `LH:` line keeps every record's `linesHit`, one that is not an
      `LF:` line its `linesFound`, and no line makes a record disappear. */
  lemma StepKeepsCounts(st: ParseState, line: string, v: Variant, q: string)
    requires CursorValid(st) && NumericLine(line) && RecordOf(st.root, q).Some?
    ensures RecordOf(Step(st, line, v).root, q).Some?
    ensures !StartsWith(line, "LH:") ==> RecordOf(Step(st, line, v).root, q).value.linesHit == RecordOf(st.root, q).value.linesHit
    ensures !StartsWith(line, "LF:") ==> RecordOf(Step(st, line, v).root, q).value.linesFound == RecordOf(st.root, q).value.linesFound
  {
    var st' := Step(st, line, v);
    if st'.root != st.root {
      var p := st.cursor.path;
      var r := RecordOf(st.root, p).value;
      var e: Edit;
      if StartsWith(line, "DA:") {
        e := AddLine(ParseNat(Split(LineData(line), ',')[0]));
      } else if StartsWith(line, "LH:") {
        e := SetHit(ParseNat(LineData(line)));
      } else {
        e := SetFound(ParseNat(LineData(line)));
      }
      assert st'.root == SetRecord(st.root, p, ApplyEdit(r, e));
      if q == p {
        RecordOfSetRecord(st.root, p, ApplyEdit(r, e));
      } else {
        RecordOfSetRecordOther(st.root, p, ApplyEdit(r, e), q);
      }
    }
  }

  /** Every line of `lines` tagged `tag` is read while `currentFile` is not the record at
      `q`. */
  ghost predicate CursorOffAt(st: ParseState, lines: seq<string>, v: Variant, tag: string, q: string)
    requires CursorValid(st) && NumericLines(lines)
  {
    forall k :: 0 <= k < |lines| && StartsWith(lines[k], tag) ==> Run(st, lines[..k], v).cursor != FileAt(q)
  }

  /** What holds of the lines also holds of the lines after the first. */
  lemma CursorOffTail(st: ParseState, lines: seq<string>, v: Variant, tag: string, q: string)
    requires CursorValid(st) && NumericLines(lines) && lines != [] && st.error.None?
    requires CursorOffAt(st, lines, v, tag, q)
    ensures NumericLine(lines[0]) && CursorOffAt(Step(st, lines[0], v), lines[1..], v, tag, q)
  {
    assert NumericLine(lines[0]);
    var st1 := Step(st, lines[0], v);
    forall k | 0 <= k < |lines[1..]| && StartsWith(lines[1..][k], tag)
      ensures Run(st1, lines[1..][..k], v).cursor != FileAt(q)
    {
      assert lines[1..][k] == lines[k + 1];
      assert lines[..k + 1][0] == lines[0] && lines[..k + 1][1..] == lines[1..][..k];
    }
  }

  /** A record's `linesHit` changes only through an `LH:` line read while `currentFile` is
      that record, and its `linesFound` only through such an `LF:` line; no line makes a
      record disappear. */
  lemma {:induction false} RunKeepsCounts(st: ParseState, lines: seq<string>, v: Variant, q: string)
    requires CursorValid(st) && NumericLines(lines) && RecordOf(st.root, q).Some?
    ensures RecordOf(Run(st, lines, v).root, q).Some?
    ensures CursorOffAt(st, lines, v, "LH:", q) ==>
      RecordOf(Run(st, lines, v).root, q).value.linesHit == RecordOf(st.root, q).value.linesHit
    ensures CursorOffAt(st, lines, v, "LF:", q) ==>
      RecordOf(Run(st, lines, v).root, q).value.linesFound == RecordOf(st.root, q).value.linesFound
    decreases |lines|
  {
    if lines != [] && st.error.None? {
      assert NumericLine(lines[0]);
      var st1 := Step(st, lines[0], v);
      StepKeepsCounts(st, lines[0], v, q);
      assert lines[..0] == [];
      if st.cursor != FileAt(q) {
        OnlyCurrentRecordChanges(st, lines[0], v, q);
      }
      if CursorOffAt(st, lines, v, "LH:", q) {
        CursorOffTail(st, lines, v, "LH:", q);
      }
      if CursorOffAt(st, lines, v, "LF:", q) {
        CursorOffTail(st, lines, v, "LF:", q);
      }
      RunKeepsCounts(st1, lines[1..], v, q);
    }
  }

  /** The last `LH:` line read for a file sets its `linesHit`, and the last `LF:` line its
      `linesFound`: once `line` has been read with the cursor on `p`, the lines after it,
      whatever `DA:` and `SF:` lines they hold and whatever other records they set, leave
      that count alone unless they read another line of the same tag for `p`. */
  lemma LastCountWinsOverall(st: ParseState, before: seq<string>, line: string, after: seq<string>, v: Variant)
    requires CursorValid(st) && NumericLines(before) && NumericLine(line) && NumericLines(after)
    requires NumericLines(before + [line] + after)
    requires StartsWith(line, "LH:") || StartsWith(line, "LF:")
    requires Run(st, before, v).error.None? && Run(st, before, v).cursor.FileAt?
    requires CursorOffAt(Step(Run(st, before, v), line, v), after, v, line[..3], Run(st, before, v).cursor.path)
    ensures var p := Run(st, before, v).cursor.path;
      var r := RecordOf(Run(st, before + [line] + after, v).root, p);
      r.Some? &&
      (StartsWith(line, "LH:") ==> r.value.linesHit == ParseNat(LineData(line))) &&
      (StartsWith(line, "LF:") ==> r.value.linesFound == ParseNat(LineData(line)))
  {
    var mid := Run(st, before, v);
    var p := mid.cursor.path;
    assert NumericLines([line] + after) by {
      forall k | 0 <= k < |[line] + after| ensures NumericLine(([line] + after)[k]) {
        if k > 0 { assert ([line] + after)[k] == after[k - 1]; }
      }
    }
    assert before + [line] + after == before + ([line] + after);
    RunAppend(st, before, [line] + after, v);
    assert ([line] + after)[0] == line && ([line] + after)[1..] == after;
    assert Run(mid, [line] + after, v) == Run(Step(mid, line, v), after, v);
    CountLines(mid, line, v, p);
    RunKeepsCounts(Step(mid, line, v), after, v, p);
  }

  /** The two variants of `get` make the loop do the same: the same tree and cursor after
      every line, and a thrown error on the same line. */
  lemma {:induction false} VariantsAgree(st: ParseState, lines: seq<string>)
    requires CursorValid(st) && NumericLines(lines)
    ensures Run(st, lines, Current).root == Run(st, lines, Legacy).root
    ensures Run(st, lines, Current).cursor == Run(st, lines, Legacy).cursor
    ensures Run(st, lines, Current).error.Some? <==> Run(st, lines, Legacy).error.Some?
    decreases |lines|
  {
    if lines != [] && st.error.None? {
      assert NumericLine(lines[0]);
      var a, b := Step(st, lines[0], Current), Step(st, lines[0], Legacy);
      StepVariantsAgree(st, lines[0]);
      if a.error.None? {
        assert a == b;
        VariantsAgree(a, lines[1..]);
      }
    }
  }

  lemma StepVariantsAgree(st: ParseState, line: string)
    requires CursorValid(st) && NumericLine(line) && st.error.None?
    ensures Step(st, line, Current).error.None? ==> Step(st, line, Current) == Step(st, line, Legacy)
    ensures Step(st, line, Current).error.Some? <==> Step(st, line, Legacy).error.Some?
    ensures Step(st, line, Current).root == Step(st, line, Legacy).root
    ensures Step(st, line, Current).cursor == Step(st, line, Legacy).cursor
  {
    if StartsWith(line, "SF:") {
      GetVersionsAgree(st.root, LineData(line));
    }
  }
}
