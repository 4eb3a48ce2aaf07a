/** The uncovered-line text of FileCoverage._getUncoveredLinesPretty (src/coverage-report.js,
    identical in coverage-report.js): the ascending numeric sort of the line numbers, the
    single scan that merges runs of consecutive numbers into ranges, and the rendering of the
    ranges as "n" or "n-m" joined with ", ". */
module Ranges {

  import opened Wrappers
  import opened Strings
  import opened TextFormat

  // ---------------------------------------------------------------------------
  // Sorting: `uncoveredLines.sort((a, b) => a - b)`

  predicate Sorted(s: seq<nat>) {
    forall i, j :: 0 <= i < j < |s| ==> s[i] <= s[j]
  }

  function Insert(x: nat, s: seq<nat>): (r: seq<nat>)
    requires Sorted(s)
    ensures Sorted(r) && multiset(r) == multiset(s) + multiset{x}
    decreases |s|
  {
    if s == [] || x <= s[0] then [x] + s
    else
      var t := Insert(x, s[1..]);
      InsertBehind(x, s, t);
      [s[0]] + t
  }

  /** The head of `s` goes before the insertion of a larger `x` into the rest of `s`. */
  lemma InsertBehind(x: nat, s: seq<nat>, t: seq<nat>)
    requires Sorted(s) && s != [] && s[0] < x
    requires Sorted(t) && multiset(t) == multiset(s[1..]) + multiset{x}
    ensures Sorted([s[0]] + t) && multiset([s[0]] + t) == multiset(s) + multiset{x}
  {
    assert s == [s[0]] + s[1..];
    forall i | 0 <= i < |t| ensures s[0] <= t[i] {
      assert t[i] in multiset(t);
      if t[i] != x {
        assert t[i] in multiset(s);
        SortedHeadLeast(s, t[i]);
      }
    }
  }

  /** The numbers in ascending order, each as often as in `s`. */
  function Sort(s: seq<nat>): (r: seq<nat>)
    ensures Sorted(r) && multiset(r) == multiset(s)
    decreases |s|
  {
    if s == [] then [] else
      assert s == [s[0]] + s[1..];
      Insert(s[0], Sort(s[1..]))
  }

  lemma SortedHeadLeast(s: seq<nat>, x: nat)
    requires Sorted(s) && x in multiset(s)
    ensures s[0] <= x
  {
    assert x in s;
    var i :| 0 <= i < |s| && s[i] == x;
  }

  lemma SortedTail(s: seq<nat>)
    requires Sorted(s) && s != []
    ensures Sorted(s[1..]) && multiset(s[1..]) == multiset(s) - multiset{s[0]}
  {
    assert s == [s[0]] + s[1..];
  }

  /** A sorted sequence is determined by its multiset, so any correct numeric sort (the
      engine's sort algorithm is not part of the model) leaves the same array behind. */
  lemma {:induction false} SortedUnique(a: seq<nat>, b: seq<nat>)
    requires Sorted(a) && Sorted(b) && multiset(a) == multiset(b)
    ensures a == b
    decreases |a|
  {
    if a != [] {
      SameHead(a, b);
      SortedUnique(a[1..], b[1..]);
      assert a == [a[0]] + a[1..] && b == [b[0]] + b[1..];
    }
  }

  /** Two sorted sequences with the same multiset start with the same least element. */
  lemma SameHead(a: seq<nat>, b: seq<nat>)
    requires Sorted(a) && Sorted(b) && multiset(a) == multiset(b) && a != []
    ensures b != [] && a[0] == b[0]
    ensures Sorted(a[1..]) && Sorted(b[1..]) && multiset(a[1..]) == multiset(b[1..])
  {
    assert a[0] in multiset(a);
    assert b != [] by { assert a[0] in multiset(b); }
    assert b[0] in multiset(b);
    SortedHeadLeast(b, a[0]);
    SortedHeadLeast(a, b[0]);
    SortedTail(a);
    SortedTail(b);
  }

  // ---------------------------------------------------------------------------
  // The range scan

  /** An inclusive run of line numbers [start, end]. */
  datatype Range = Range(start: nat, end: nat)

  /** The scan's state: the ranges flushed so far and the open run, `None` while `start` and
      `end` are still null. */
  datatype ScanState = ScanState(done: seq<Range>, open: Option<Range>)

  /** One iteration of the loop: open a run, extend it by `end + 1`, or flush it and open a
      new one. */
  function ScanStep(st: ScanState, line: nat): ScanState {
    match st.open
    case None => ScanState(st.done, Some(Range(line, line)))
    case Some(r) =>
      if line == r.end + 1 then ScanState(st.done, Some(Range(r.start, line)))
      else ScanState(st.done + [r], Some(Range(line, line)))
  }

  /** The state after the loop has visited every element of `lines`, left to right. */
  function Scan(lines: seq<nat>): ScanState
    decreases |lines|
  {
    if lines == [] then ScanState([], None)
    else ScanStep(Scan(lines[..|lines| - 1]), lines[|lines| - 1])
  }

  function OpenRuns(open: Option<Range>): seq<Range> {
    match open
    case None => []
    case Some(r) => [r]
  }

  /** The ranges the scan emits, the open run flushed at the end. */
  function Compress(lines: seq<nat>): seq<Range> {
    Flushed(Scan(lines))
  }

  /** The numbers a range stands for. */
  function Span(r: Range): seq<nat>
    decreases r.end - r.start
  {
    if r.end < r.start then []
    else if r.start == r.end then [r.start]
    else [r.start] + Span(Range(r.start + 1, r.end))
  }

  function Expand(rs: seq<Range>): seq<nat>
    decreases |rs|
  {
    if rs == [] then [] else Expand(rs[..|rs| - 1]) + Span(rs[|rs| - 1])
  }

  predicate WellFormed(rs: seq<Range>) {
    forall k :: 0 <= k < |rs| ==> rs[k].start <= rs[k].end
  }

  /** No range could have been extended by the next one: a break only where the next number
      is not `end + 1`. */
  predicate Maximal(rs: seq<Range>) {
    forall k :: 0 <= k < |rs| - 1 ==> rs[k + 1].start != rs[k].end + 1
  }

  /** Increasing ranges with at least one missing number between neighbours. */
  predicate Separated(rs: seq<Range>) {
    forall k :: 0 <= k < |rs| - 1 ==> rs[k].end + 2 <= rs[k + 1].start
  }

  predicate StrictlyIncreasing(s: seq<nat>) {
    forall i :: 0 <= i < |s| - 1 ==> s[i] < s[i + 1]
  }

  lemma SpanExtend(r: Range)
    requires r.start <= r.end
    ensures Span(Range(r.start, r.end + 1)) == Span(r) + [r.end + 1]
    decreases r.end - r.start
  {
    if r.start < r.end {
      SpanExtend(Range(r.start + 1, r.end));
    }
  }

  lemma ExpandAppend(rs: seq<Range>, r: Range)
    ensures Expand(rs + [r]) == Expand(rs) + Span(r)
  {
    assert (rs + [r])[..|rs|] == rs;
  }

  /** The ranges a state stands for once the open run is flushed. */
  function Flushed(st: ScanState): seq<Range> {
    st.done + OpenRuns(st.open)
  }

  /** What the loop keeps true after visiting `lines`: the ranges spell out exactly the
      numbers visited, every range is well formed and maximal, and the open run, present
      once anything was visited, ends at the last number visited. */
  predicate ScanInv(st: ScanState, lines: seq<nat>) {
    && Expand(Flushed(st)) == lines
    && WellFormed(Flushed(st))
    && Maximal(Flushed(st))
    && (st.open.None? <==> lines == [])
    && (st.open.None? ==> st.done == [])
    && (st.open.Some? ==> st.open.value.end == lines[|lines| - 1])
  }

  lemma ScanStartInv(x: nat)
    ensures ScanInv(ScanStep(ScanState([], None), x), [x])
  {
    ExpandAppend([], Range(x, x));
  }

  /** The run extends by `end + 1`: only the last range's end changes. */
  lemma ScanExtendInv(st: ScanState, lines: seq<nat>, x: nat)
    requires ScanInv(st, lines) && st.open.Some? && x == st.open.value.end + 1
    ensures ScanInv(ScanStep(st, x), lines + [x])
  {
    var r := st.open.value;
    var r' := Range(r.start, x);
    SpanExtend(r);
    ExpandAppend(st.done, r);
    ExpandAppend(st.done, r');
    var before, after := st.done + [r], st.done + [r'];
    assert Flushed(ScanStep(st, x)) == after;
    assert after == before[|st.done| := r'];
    assert Maximal(after) by {
      forall k | 0 <= k < |after| - 1 ensures after[k + 1].start != after[k].end + 1 {
        assert after[k + 1].start == before[k + 1].start;
        assert after[k] == before[k];
      }
    }
  }

  /** Any other number flushes the run and opens a new one. */
  lemma ScanBreakInv(st: ScanState, lines: seq<nat>, x: nat)
    requires ScanInv(st, lines) && st.open.Some? && x != st.open.value.end + 1
    ensures ScanInv(ScanStep(st, x), lines + [x])
  {
    var r := st.open.value;
    var before := st.done + [r];
    var after := before + [Range(x, x)];
    ExpandAppend(before, Range(x, x));
    assert Flushed(ScanStep(st, x)) == after;
    assert Maximal(after) by {
      forall k | 0 <= k < |after| - 1 ensures after[k + 1].start != after[k].end + 1 {
        if k < |before| - 1 {
          assert after[k + 1] == before[k + 1] && after[k] == before[k];
        }
      }
    }
  }

  lemma ScanStepInv(st: ScanState, lines: seq<nat>, x: nat)
    requires ScanInv(st, lines)
    ensures ScanInv(ScanStep(st, x), lines + [x])
  {
    if st.open.None? {
      ScanStartInv(x);
    } else if x == st.open.value.end + 1 {
      ScanExtendInv(st, lines, x);
    } else {
      ScanBreakInv(st, lines, x);
    }
  }

  lemma {:induction false} ScanInvariant(lines: seq<nat>)
    ensures ScanInv(Scan(lines), lines)
    decreases |lines|
  {
    if lines != [] {
      var prefix := lines[..|lines| - 1];
      assert lines == prefix + [lines[|lines| - 1]];
      ScanInvariant(prefix);
      ScanStepInv(Scan(prefix), prefix, lines[|lines| - 1]);
    }
  }

  /** Re-expanding the compressed ranges gives back exactly the numbers, in order and with
      their repetitions: compression loses nothing, and merges only runs of `n, n + 1`. */
  lemma CompressRoundTrip(lines: seq<nat>)
    ensures Expand(Compress(lines)) == lines
    ensures WellFormed(Compress(lines)) && Maximal(Compress(lines))
    ensures lines == [] <==> Compress(lines) == []
  {
    ScanInvariant(lines);
  }

  /** Separation is kept by a step over a larger number. */
  lemma ScanStepSeparated(st: ScanState, lines: seq<nat>, x: nat)
    requires ScanInv(st, lines) && Separated(Flushed(st))
    requires lines != [] ==> lines[|lines| - 1] < x
    ensures Separated(Flushed(ScanStep(st, x)))
  {
    if st.open.Some? {
      var r := st.open.value;
      var before := st.done + [r];
      if x == r.end + 1 {
        var after := st.done + [Range(r.start, x)];
        assert Flushed(ScanStep(st, x)) == after;
        forall k | 0 <= k < |after| - 1 ensures after[k].end + 2 <= after[k + 1].start {
          assert after[k] == before[k] && after[k + 1].start == before[k + 1].start;
        }
      } else {
        var after := before + [Range(x, x)];
        assert Flushed(ScanStep(st, x)) == after;
        forall k | 0 <= k < |after| - 1 ensures after[k].end + 2 <= after[k + 1].start {
          if k < |before| - 1 {
            assert after[k + 1] == before[k + 1] && after[k] == before[k];
          }
        }
      }
    }
  }

  lemma {:induction false} ScanSeparated(lines: seq<nat>)
    requires StrictlyIncreasing(lines)
    ensures Separated(Flushed(Scan(lines)))
    decreases |lines|
  {
    if lines != [] {
      var prefix := lines[..|lines| - 1];
      assert lines == prefix + [lines[|lines| - 1]];
      assert StrictlyIncreasing(prefix) by {
        forall i | 0 <= i < |prefix| - 1 ensures prefix[i] < prefix[i + 1] {
          assert prefix[i] == lines[i] && prefix[i + 1] == lines[i + 1];
        }
      }
      ScanSeparated(prefix);
      ScanInvariant(prefix);
      ScanStepSeparated(Scan(prefix), prefix, lines[|lines| - 1]);
    }
  }

  /** On a strictly increasing list the ranges are increasing and at least one number
      apart. */
  lemma CompressSeparated(lines: seq<nat>)
    requires StrictlyIncreasing(lines)
    ensures Separated(Compress(lines))
  {
    ScanSeparated(lines);
  }

  lemma DuplicatesKept()
    ensures Compress([4, 4, 5]) == [Range(4, 4), Range(4, 5)]
  {
    assert [4, 4, 5][..2] == [4, 4];
    assert [4, 4][..1] == [4];
    assert [4][..0] == [];
  }

  // ---------------------------------------------------------------------------
  // Rendering and reading back

  /** "n" for a run of one number, "n-m" otherwise. */
  function RenderRange(r: Range): string {
    if r.start == r.end then NatToString(r.start)
    else NatToString(r.start) + "-" + NatToString(r.end)
  }

  function RenderRanges(rs: seq<Range>): (pieces: seq<string>)
    ensures |pieces| == |rs|
    ensures forall k :: 0 <= k < |rs| ==> pieces[k] == RenderRange(rs[k])
    decreases |rs|
  {
    if rs == [] then [] else [RenderRange(rs[0])] + RenderRanges(rs[1..])
  }

  /** Reads one piece back: digits, optionally a dash and more digits. */
  function DecodeRange(piece: string): Option<Range> {
    var parts := Split(piece, '-');
    if |parts| == 1 && parts[0] != "" && IsDigits(parts[0]) then
      Some(Range(ParseNat(parts[0]), ParseNat(parts[0])))
    else if |parts| == 2 && parts[0] != "" && parts[1] != "" && IsDigits(parts[0]) && IsDigits(parts[1]) then
      Some(Range(ParseNat(parts[0]), ParseNat(parts[1])))
    else None
  }

  /** Reads a ", "-joined list of pieces back. */
  function DecodeRanges(text: string): Option<seq<Range>> {
    DecodePieces(Split(text, ','), true)
  }

  function DecodePieces(pieces: seq<string>, first: bool): Option<seq<Range>>
    decreases |pieces|
  {
    if pieces == [] then Some([])
    else
      var p := pieces[0];
      if !first && (p == "" || p[0] != ' ') then None
      else
        match DecodeRange(if first then p else p[1..])
        case None => None
        case Some(r) =>
          match DecodePieces(pieces[1..], false)
          case None => None
          case Some(rest) => Some([r] + rest)
  }

  lemma DigitsHaveNoDash(s: string)
    requires IsDigits(s)
    ensures '-' !in s
  {
    forall i | 0 <= i < |s| ensures s[i] != '-' {
      assert IsDigit(s[i]);
    }
  }

  /** A rendered piece reads back as the range it came from; a single number is never
      written "n-n". */
  lemma DecodeRenderRange(r: Range)
    ensures DecodeRange(RenderRange(r)) == Some(r)
    ensures ',' !in RenderRange(r)
    ensures RenderRange(r) != "" && RenderRange(r)[0] != ' '
    ensures r.start == r.end <==> '-' !in RenderRange(r)
  {
    var a, b := NatToString(r.start), NatToString(r.end);
    DigitsHaveNoDash(a);
    DigitsHaveNoDash(b);
    DigitsHaveNoComma(a);
    DigitsHaveNoComma(b);
    ParseNatToString(r.start);
    ParseNatToString(r.end);
    if r.start == r.end {
      SplitNoSep(a, '-');
    } else {
      SplitNoSep(b, '-');
      SplitConcat(a, '-', b);
      assert RenderRange(r) == a + ['-'] + b;
      assert RenderRange(r)[|a|] == '-';
      assert IsDigit(a[0]);
    }
  }

  lemma DecodePiecesCons(p: string, rest: seq<string>, first: bool, r: Range, tail: seq<Range>)
    requires first || (p != "" && p[0] == ' ')
    requires DecodeRange(if first then p else p[1..]) == Some(r)
    requires DecodePieces(rest, false) == Some(tail)
    ensures DecodePieces([p] + rest, first) == Some([r] + tail)
  {
    assert ([p] + rest)[0] == p && ([p] + rest)[1..] == rest;
  }

  /** A rendered piece after the optional leading space the separator ", " leaves. */
  lemma LeadPiece(lead: string, r: Range)
    requires lead == "" || lead == " "
    ensures ',' !in lead + RenderRange(r)
    ensures lead == " " ==> (lead + RenderRange(r))[0] == ' '
    ensures DecodeRange(if lead == "" then lead + RenderRange(r) else (lead + RenderRange(r))[1..]) == Some(r)
  {
    DecodeRenderRange(r);
    if lead == "" {
      assert lead + RenderRange(r) == RenderRange(r);
    } else {
      assert (lead + RenderRange(r))[1..] == RenderRange(r);
    }
  }

  lemma LastPiece(lead: string, r: Range)
    requires lead == "" || lead == " "
    ensures DecodePieces(Split(lead + RenderRange(r), ','), lead == "") == Some([r])
  {
    var head := lead + RenderRange(r);
    LeadPiece(lead, r);
    SplitNoSep(head, ',');
    DecodePiecesCons(head, [], lead == "", r, []);
    assert [head] + [] == [head];
    assert [r] + [] == [r];
  }

  lemma JoinRenderCons(rs: seq<Range>)
    requires |rs| > 1
    ensures Join(RenderRanges(rs), ", ") == RenderRange(rs[0]) + [','] + (" " + Join(RenderRanges(rs[1..]), ", "))
  {
    assert RenderRanges(rs)[1..] == RenderRanges(rs[1..]);
  }

  lemma SplitJoinedCons(lead: string, rs: seq<Range>)
    requires |rs| > 1
    requires lead == "" || lead == " "
    ensures Split(lead + Join(RenderRanges(rs), ", "), ',') ==
      [lead + RenderRange(rs[0])] + Split(" " + Join(RenderRanges(rs[1..]), ", "), ',')
  {
    var head := lead + RenderRange(rs[0]);
    var tail := " " + Join(RenderRanges(rs[1..]), ", ");
    LeadPiece(lead, rs[0]);
    JoinRenderCons(rs);
    assert lead + Join(RenderRanges(rs), ", ") == head + [','] + tail;
    SplitConcat(head, ',', tail);
  }

  lemma {:induction false} DecodeJoined(rs: seq<Range>, lead: string)
    requires |rs| > 0
    requires lead == "" || lead == " "
    ensures DecodePieces(Split(lead + Join(RenderRanges(rs), ", "), ','), lead == "") == Some(rs)
    decreases |rs|
  {
    if |rs| == 1 {
      assert Join(RenderRanges(rs), ", ") == RenderRange(rs[0]);
      LastPiece(lead, rs[0]);
      assert rs == [rs[0]];
    } else {
      LeadPiece(lead, rs[0]);
      SplitJoinedCons(lead, rs);
      DecodeJoined(rs[1..], " ");
      DecodePiecesCons(lead + RenderRange(rs[0]), Split(" " + Join(RenderRanges(rs[1..]), ", "), ','),
        lead == "", rs[0], rs[1..]);
      assert rs == [rs[0]] + rs[1..];
    }
  }

  /** The rendered list reads back as the ranges it was made from. */
  lemma DecodeRenderRanges(rs: seq<Range>)
    requires |rs| > 0
    ensures DecodeRanges(Join(RenderRanges(rs), ", ")) == Some(rs)
  {
    DecodeJoined(rs, "");
    assert "" + Join(RenderRanges(rs), ", ") == Join(RenderRanges(rs), ", ");
  }

  // ---------------------------------------------------------------------------
  // The text of _getUncoveredLinesPretty

  const MissingCoverage := "This file is missing coverage."

  /** The text returned for a record with `linesHit` lines hit and the given uncovered lines:
      the missing-coverage error when nothing was hit, else "None" for no uncovered line,
      else the ranges of the sorted lines as a warning. */
  function UncoveredText(linesHit: nat, uncoveredLines: seq<nat>): string {
    if linesHit == 0 then FormatErrorText(MissingCoverage)
    else if |uncoveredLines| > 0 then FormatWarningText(Join(RenderRanges(Compress(Sort(uncoveredLines))), ", "))
    else FormatSuccessText("None")
  }

  /** Reads the uncovered-lines text back into the line numbers it lists, one entry per
      occurrence; `None` for the other two texts. */
  function ListedLines(text: string): Option<seq<nat>> {
    match Undecorate(text)
    case Some((Warning, body)) =>
      (match DecodeRanges(body) case Some(rs) => Some(Expand(rs)) case None => None)
    case _ => None
  }

  /** The three outcomes, each in both directions: with no line hit the text is the
      missing-coverage message whatever the list holds; otherwise "None" exactly when the list
      is empty, and else a warning that lists exactly the sorted uncovered lines. */
  lemma UncoveredTextMeaning(linesHit: nat, uncoveredLines: seq<nat>)
    ensures UncoveredText(linesHit, uncoveredLines) == FormatErrorText(MissingCoverage) <==> linesHit == 0
    ensures UncoveredText(linesHit, uncoveredLines) == FormatSuccessText("None") <==>
      linesHit != 0 && uncoveredLines == []
    ensures linesHit != 0 && uncoveredLines != [] ==>
      ListedLines(UncoveredText(linesHit, uncoveredLines)) == Some(Sort(uncoveredLines))
  {
    var text := UncoveredText(linesHit, uncoveredLines);
    var missing, none := Decorate(Failing, MissingCoverage), Decorate(Passing, "None");
    if linesHit != 0 && uncoveredLines != [] {
      var sorted := Sort(uncoveredLines);
      assert |sorted| == |multiset(sorted)| == |multiset(uncoveredLines)| == |uncoveredLines|;
      var rs := Compress(sorted);
      CompressRoundTrip(sorted);
      var body := Join(RenderRanges(rs), ", ");
      DecodeRenderRanges(rs);
      var listed := Decorate(Warning, body);
    }
  }

  /** Sorting an already sorted list changes nothing. */
  lemma SortOfSorted(s: seq<nat>)
    requires Sorted(s)
    ensures Sort(s) == s
  {
    SortedUnique(Sort(s), s);
  }

  lemma CompressFixture1()
    ensures Compress([4, 6, 7, 8]) == [Range(4, 4), Range(6, 8)]
  {
    assert [4, 6, 7, 8][..3] == [4, 6, 7];
    assert [4, 6, 7][..2] == [4, 6];
    assert [4, 6][..1] == [4];
    assert [4][..0] == [];
  }

  lemma CompressFixture2()
    ensures Compress([1, 4, 5, 6, 7, 10, 12, 123]) ==
      [Range(1, 1), Range(4, 7), Range(10, 10), Range(12, 12), Range(123, 123)]
  {
    var s: seq<nat> := [1, 4, 5, 6, 7, 10, 12, 123];
    assert s[..0] == [];
    ScanNext(s, 0, ScanState([], None));
    ScanNext(s, 1, ScanState([], Some(Range(1, 1))));
    ScanNext(s, 2, ScanState([Range(1, 1)], Some(Range(4, 4))));
    ScanNext(s, 3, ScanState([Range(1, 1)], Some(Range(4, 5))));
    ScanNext(s, 4, ScanState([Range(1, 1)], Some(Range(4, 6))));
    ScanNext(s, 5, ScanState([Range(1, 1)], Some(Range(4, 7))));
    ScanNext(s, 6, ScanState([Range(1, 1), Range(4, 7)], Some(Range(10, 10))));
    ScanNext(s, 7, ScanState([Range(1, 1), Range(4, 7), Range(10, 10)], Some(Range(12, 12))));
    assert s[..8] == s;
  }

  /** One more visited number: the state after `k + 1` numbers is one step from the state
      after `k`. */
  lemma ScanNext(s: seq<nat>, k: nat, st: ScanState)
    requires k < |s| && Scan(s[..k]) == st
    ensures Scan(s[..k + 1]) == ScanStep(st, s[k])
  {
    assert s[..k + 1][..k] == s[..k];
  }

  lemma RenderFixture1()
    ensures Join(RenderRanges([Range(4, 4), Range(6, 8)]), ", ") == "4, 6-8"
  {
    assert RenderRange(Range(4, 4)) == "4";
    assert RenderRange(Range(6, 8)) == "6-8";
    assert RenderRanges([Range(4, 4), Range(6, 8)]) == ["4", "6-8"];
  }

  lemma RenderPieces2()
    ensures RenderRanges([Range(1, 1), Range(4, 7), Range(10, 10), Range(12, 12), Range(123, 123)]) ==
      ["1", "4-7", "10", "12", "123"]
  {
    assert NatToString(10) == "10";
    assert NatToString(12) == "12";
    assert NatToString(123) == "123";
    assert RenderRange(Range(1, 1)) == "1";
    assert RenderRange(Range(4, 7)) == "4-7";
  }

  lemma JoinPieces2()
    ensures Join(["1", "4-7", "10", "12", "123"], ", ") == "1, 4-7, 10, 12, 123"
  {
    var pieces := ["1", "4-7", "10", "12", "123"];
    assert pieces[3..][1..] == pieces[4..];
    assert Join(pieces[3..], ", ") == "12, 123";
    assert pieces[2..][1..] == pieces[3..];
    assert Join(pieces[2..], ", ") == "10, 12, 123";
    assert pieces[1..][1..] == pieces[2..];
    assert Join(pieces[1..], ", ") == "4-7, 10, 12, 123";
  }

  lemma UncoveredWarning(linesHit: nat, uncoveredLines: seq<nat>, text: string)
    requires linesHit != 0 && uncoveredLines != []
    requires Join(RenderRanges(Compress(Sort(uncoveredLines))), ", ") == text
    ensures UncoveredText(linesHit, uncoveredLines) == FormatWarningText(text)
  {
  }

  /** The two fixtures of the engine's test: a record with 4 lines hit and lines 4, 6, 7, 8
      uncovered, and one with 5 lines hit and lines 1, 4-7, 10, 12, 123 uncovered. (The lines
      are a parameter so that the solver does not evaluate the sort on a literal.) */
  lemma UncoveredTextFixture1(lines: seq<nat>)
    requires lines == [4, 6, 7, 8]
    ensures UncoveredText(4, lines) == FormatWarningText("4, 6-8")
  {
    assert Sort(lines) == lines by { SortOfSorted(lines); }
    assert Compress(lines) == [Range(4, 4), Range(6, 8)] by { CompressFixture1(); }
    RenderFixture1();
    UncoveredWarning(4, lines, "4, 6-8");
  }

  lemma UncoveredTextFixture2(lines: seq<nat>)
    requires lines == [1, 4, 5, 6, 7, 10, 12, 123]
    ensures UncoveredText(5, lines) == FormatWarningText("1, 4-7, 10, 12, 123")
  {
    RangesFixture2(lines);
    UncoveredWarning(5, lines, "1, 4-7, 10, 12, 123");
  }

  lemma RangesFixture2(lines: seq<nat>)
    requires lines == [1, 4, 5, 6, 7, 10, 12, 123]
    ensures Join(RenderRanges(Compress(Sort(lines))), ", ") == "1, 4-7, 10, 12, 123"
  {
    FixtureSorted2(lines);
    SortOfSorted(lines);
    CompressFixture2();
    RenderFixture2();
  }

  lemma FixtureSorted2(lines: seq<nat>)
    requires lines == [1, 4, 5, 6, 7, 10, 12, 123]
    ensures Sorted(lines)
  {
  }

  lemma RenderFixture2()
    ensures Join(RenderRanges([Range(1, 1), Range(4, 7), Range(10, 10), Range(12, 12), Range(123, 123)]), ", ")
      == "1, 4-7, 10, 12, 123"
  {
    RenderPieces2();
    JoinPieces2();
  }
}
