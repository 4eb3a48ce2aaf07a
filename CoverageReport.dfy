/** src/coverage-report.js: the classes FileCoverage, DirectoryCoverage and CoverageReport
    over the heap, each method proved to compute what the value model of CoverageTree,
    TreeBuild and LcovParse says; and getFormattedCoveragePercentage. */
module CoverageReport {

  import opened Wrappers
  import opened Strings
  import opened OrderedMap
  import opened TextFormat
  import opened Ranges
  import opened CoverageTree
  import opened TreeBuild
  import LcovParse

  /** The coverage record of one source file. */
  class FileCoverage {
    const filename: string
    var linesFound: nat
    var linesHit: nat
    var uncoveredLines: seq<nat>

    /** The fields as a value. */
    function Value(): FileRecord
      reads this
    {
      FileRecord(filename, linesFound, linesHit, uncoveredLines)
    }

    constructor(filename: string, linesFound: nat)
      ensures Value() == FileRecord(filename, linesFound, 0, [])
    {
      this.filename := filename;
      this.linesFound := linesFound;
      this.uncoveredLines := [];
      this.linesHit := 0;
    }

    /** `this.uncoveredLines.push(Number(lineNumber))`. */
    method AddUncoveredLine(lineNumber: string)
      requires IsDigits(lineNumber)
      modifies this`uncoveredLines
      ensures uncoveredLines == old(uncoveredLines) + [ParseNat(lineNumber)]
    {
      uncoveredLines := uncoveredLines + [ParseNat(lineNumber)];
    }

    method SetLinesHit(linesHit: string)
      requires IsDigits(linesHit)
      modifies this`linesHit
      ensures this.linesHit == ParseNat(linesHit)
    {
      this.linesHit := ParseNat(linesHit);
    }

    method SetLinesFound(linesFound: string)
      requires IsDigits(linesFound)
      modifies this`linesFound
      ensures this.linesFound == ParseNat(linesFound)
    {
      this.linesFound := ParseNat(linesFound);
    }

    /** The setter that a `DA:`, `LH:` or `LF:` line calls, with the text it passes. */
    method Apply(e: LcovParse.Edit, arg: string)
      requires IsDigits(arg)
      requires e == LcovParse.AddLine(ParseNat(arg)) || e == LcovParse.SetHit(ParseNat(arg)) || e == LcovParse.SetFound(ParseNat(arg))
      modifies this
      ensures Value() == LcovParse.ApplyEdit(old(Value()), e)
    {
      match e {
        case AddLine(_) => AddUncoveredLine(arg);
        case SetHit(_) => SetLinesHit(arg);
        case SetFound(_) => SetLinesFound(arg);
      }
    }

    /** `{ linesFound, linesHit }`. */
    function GetMetrics(): (m: Metrics)
      reads this`linesFound, this`linesHit
      ensures m.linesFound == linesFound && m.linesHit == linesHit
    {
      Metrics(linesFound, linesHit)
    }

    /** _getUncoveredLinesPretty: with no line hit, the missing-coverage message and no
        change; otherwise the uncovered lines are sorted in place and scanned once for runs
        of consecutive numbers, and the runs are listed (or "None" for no uncovered line). */
    method UncoveredLinesPretty() returns (text: string)
      modifies this`uncoveredLines
      ensures text == UncoveredText(old(linesHit), old(uncoveredLines))
      ensures uncoveredLines == if linesHit == 0 then old(uncoveredLines) else Sort(old(uncoveredLines))
    {
      if linesHit == 0 {
        return FormatErrorText(MissingCoverage);
      }
      ghost var before := uncoveredLines;
      uncoveredLines := Sort(uncoveredLines);
      var lines := uncoveredLines;
      var combinedLines: seq<string> := [];
      var start: Option<nat> := None;
      var end: Option<nat> := None;
      for k := 0 to |lines|
        invariant uncoveredLines == lines
        invariant combinedLines == RenderRanges(Scan(lines[..k]).done)
        invariant start == OpenStart(Scan(lines[..k]).open) && end == OpenEnd(Scan(lines[..k]).open)
      {
        var line := lines[k];
        ScanPrefix(lines, k);
        if start.None? {
          start, end := Some(line), Some(line);
        } else if line == end.value + 1 {
          end := Some(line);
        } else {
          FlushPiece(Scan(lines[..k]).done, start.value, end.value);
          combinedLines := combinedLines + [Piece(start, end)];
          start, end := Some(line), Some(line);
        }
      }
      FinalPiece(lines, combinedLines, start, end);
      combinedLines := combinedLines + [Piece(start, end)];
      SortedLength(before);
      if |lines| > 0 {
        text := FormatWarningText(Join(combinedLines, ", "));
      } else {
        text := FormatSuccessText("None");
      }
    }
  }

  /** What the method pushes for the run from `start` to `end`: `${start}` when they are
      the same, else `${start}-${end}`. */
  function Piece(start: Option<nat>, end: Option<nat>): string {
    if start == end then Interpolate(start) else Interpolate(start) + "-" + Interpolate(end)
  }

  lemma ScanPrefix(lines: seq<nat>, k: nat)
    requires k < |lines|
    ensures Scan(lines[..k + 1]) == ScanStep(Scan(lines[..k]), lines[k])
  {
    assert lines[..k + 1][..k] == lines[..k];
  }

  /** Flushing a run pushes its rendered range. */
  lemma FlushPiece(done: seq<Range>, start: nat, end: nat)
    ensures RenderRanges(done) + [Piece(Some(start), Some(end))] == RenderRanges(done + [Range(start, end)])
  {
    RenderRangesAppend(done, Range(start, end));
  }

  /** After the loop, the last push completes the rendered ranges of the whole list (for an
      empty list it pushes "null", which the result does not use). */
  lemma FinalPiece(lines: seq<nat>, combinedLines: seq<string>, start: Option<nat>, end: Option<nat>)
    requires combinedLines == RenderRanges(Scan(lines[..|lines|]).done)
    requires start == OpenStart(Scan(lines[..|lines|]).open) && end == OpenEnd(Scan(lines[..|lines|]).open)
    ensures |lines| > 0 ==> combinedLines + [Piece(start, end)] == RenderRanges(Compress(lines))
  {
    assert lines[..|lines|] == lines;
    if |lines| > 0 {
      var r := Scan(lines).open.value;
      FlushPiece(Scan(lines).done, r.start, r.end);
    }
  }

  /** A value of a DirectoryCoverage's Map. */
  datatype Entry = FileEntry(file: FileCoverage) | DirEntry(sub: DirectoryCoverage)

  /** The mutable state below a directory, as values: the fields of each record and the
      memo of each directory. */
  datatype View = View(records: map<FileCoverage, FileRecord>, memos: map<DirectoryCoverage, Option<Metrics>>)

  /** A directory of the coverage tree: its path, the Map from entry names to records and
      subdirectories, and the memo of getMetrics. `Repr` holds this directory and every
      directory below it, `Files` every file record below it. */
  class DirectoryCoverage {
    const dir: string
    var cache: seq<(string, Entry)>
    var metrics: Option<Metrics>
    ghost var Repr: set<DirectoryCoverage>
    ghost var Files: set<FileCoverage>

    /** `new DirectoryCoverage(dir)`: an empty Map and no memo. */
    constructor(dir: string)
      ensures this.dir == dir && cache == [] && metrics == None
      ensures Valid() && Repr == {this} && Files == {}
    {
      this.dir := dir;
      cache := [];
      metrics := None;
      Repr := {this};
      Files := {};
    }

    /** The entry lies inside this directory's footprint. */
    ghost predicate Within(e: Entry)
      reads this`Repr, this`Files, Repr`Repr, Repr`Files
    {
      match e
      case FileEntry(f) => f in Files
      case DirEntry(c) => c in Repr && c.Repr <= Repr && this !in c.Repr && c.Files <= Files
    }

    /** Two entries share no directory and no file record. */
    ghost predicate Apart(a: Entry, b: Entry)
      requires Within(a) && Within(b)
      reads this`Repr, this`Files, Repr`Repr, Repr`Files
    {
      match a
      case FileEntry(f) => (match b case FileEntry(g) => f != g case DirEntry(d) => f !in d.Files)
      case DirEntry(c) => (match b case FileEntry(g) => g !in c.Files case DirEntry(d) => c.Repr !! d.Repr && c.Files !! d.Files)
    }

    /** The Map is a tree: no record or directory is reachable along two paths. */
    ghost predicate Valid()
      reads this`Repr, this`Files, this`cache, Repr`Repr, Repr`Files, Repr`cache
      decreases Repr
    {
      this in Repr &&
      (forall i :: 0 <= i < |cache| ==> Within(cache[i].1)) &&
      (forall i, j :: 0 <= i < |cache| && 0 <= j < |cache| && i != j ==> Apart(cache[i].1, cache[j].1)) &&
      (forall i :: 0 <= i < |cache| && cache[i].1.DirEntry? ==> cache[i].1.sub.Valid())
    }

    /** `m` has a record for every file and a memo for every directory below. */
    ghost predicate Covers(m: View)
      reads this`Repr, this`Files
    {
      Files <= m.records.Keys && Repr <= m.memos.Keys
    }

    /** The tree as a value, each file record and each memo read from `m`. */
    ghost function AbsWith(m: View): (d: Directory)
      requires Valid() && Covers(m)
      reads this`Repr, this`Files, this`cache, Repr`Repr, Repr`Files, Repr`cache
      ensures d.dir == dir && d.metrics == m.memos[this]
      ensures |d.cache| == |cache| && forall i {:trigger d.cache[i]} :: 0 <= i < |cache| ==> d.cache[i] == (cache[i].0, EntryAbs(i, m))
      decreases Repr, 1
    {
      Directory(dir, AbsCache(m, |cache|), m.memos[this])
    }

    ghost function AbsCache(m: View, k: nat): (c: seq<(string, Node)>)
      requires Valid() && Covers(m) && k <= |cache|
      reads this`Repr, this`Files, this`cache, Repr`Repr, Repr`Files, Repr`cache
      ensures |c| == k && forall i {:trigger c[i]} :: 0 <= i < k ==> c[i] == (cache[i].0, EntryAbs(i, m))
      decreases Repr, 0, k
    {
      if k == 0 then [] else AbsCache(m, k - 1) + [(cache[k - 1].0, EntryAbs(k - 1, m))]
    }

    /** The `i`th value of the Map as a value. */
    ghost function EntryAbs(i: nat, m: View): Node
      requires Valid() && Covers(m) && i < |cache|
      reads this`Repr, this`Files, this`cache, Repr`Repr, Repr`Files, Repr`cache
      decreases Repr, 0, 0
    {
      assert Within(cache[i].1);
      match cache[i].1
      case FileEntry(f) => File(m.records[f])
      case DirEntry(c) => Dir(c.AbsWith(m))
    }

    /** The fields of every file record and the memo of every directory below. */
    ghost function Snapshot(): (m: View)
      reads this`Files, this`Repr, Files, Repr`metrics
      ensures Covers(m)
    {
      View(Records(), Memos())
    }

    /** The memo `metrics` of every directory below. */
    ghost function Memos(): (r: map<DirectoryCoverage, Option<Metrics>>)
      reads this`Repr, Repr`metrics
      ensures r.Keys == Repr
    {
      map d | d in Repr :: d.metrics
    }

    /** The fields of every file record below. */
    ghost function Records(): (r: map<FileCoverage, FileRecord>)
      reads this`Files, Files
      ensures r.Keys == Files
    {
      map f | f in Files :: f.Value()
    }

    /** The whole tree as a value. */
    ghost function Abs(): Directory
      requires Valid()
      reads this`Repr, this`Files, this`cache, Repr`Repr, Repr`Files, Repr`cache, Files, Repr`metrics
    {
      AbsWith(Snapshot())
    }

    /** The entry is the record `f` or a directory holding it. */
    ghost predicate Holds(e: Entry, f: FileCoverage)
      reads if e.DirEntry? then {e.sub} else {}
    {
      match e
      case FileEntry(g) => g == f
      case DirEntry(c) => f in c.Files
    }

    /** The tree seen through two views that agree on every record and memo below is the same. */
    lemma {:induction false} AbsWithAgree(m1: View, m2: View)
      requires Valid() && Covers(m1) && Covers(m2)
      requires forall f :: f in Files ==> m1.records[f] == m2.records[f]
      requires forall d :: d in Repr ==> m1.memos[d] == m2.memos[d]
      ensures AbsWith(m1) == AbsWith(m2)
      decreases Repr, 1
    {
      ChildrenAgree(m1, m2);
    }

    /** The values of the Map only depend on the records and memos strictly below. */
    lemma {:induction false} ChildrenAgree(m1: View, m2: View)
      requires Valid() && Covers(m1) && Covers(m2)
      requires forall f :: f in Files ==> m1.records[f] == m2.records[f]
      requires forall d :: d in Repr && d != this ==> m1.memos[d] == m2.memos[d]
      ensures AbsWith(m1).cache == AbsWith(m2).cache
      decreases Repr, 0
    {
      forall i | 0 <= i < |cache| ensures EntryAbs(i, m1) == EntryAbs(i, m2) {
        assert Within(cache[i].1);
        match cache[i].1
        case FileEntry(f) =>
        case DirEntry(c) => c.AbsWithAgree(m1, m2);
      }
    }

    /** Changing one record `f` leaves every entry that does not hold it as it was. */
    lemma OthersAgree(m: View, f: FileCoverage, r: FileRecord, j: nat)
      requires Valid() && Covers(m) && j < |cache| && Holds(cache[j].1, f)
      ensures forall i :: 0 <= i < |cache| && i != j ==> EntryAbs(i, m.(records := m.records[f := r])) == EntryAbs(i, m)
    {
      forall i | 0 <= i < |cache| && i != j ensures EntryAbs(i, m.(records := m.records[f := r])) == EntryAbs(i, m) {
        assert Within(cache[i].1) && Within(cache[j].1) && Apart(cache[i].1, cache[j].1);
        match cache[i].1
        case FileEntry(g) =>
        case DirEntry(c) =>
          assert f !in c.Files;
          c.AbsWithAgree(m.(records := m.records[f := r]), m);
      }
    }

    /** DirectoryCoverage.get of src/coverage-report.js. */
    function Get(filepath: string): (r: Result<Option<Entry>, string>)
      requires Valid()
      reads this`Repr, this`Files, this`cache, Repr`Repr, Repr`Files, Repr`cache
      ensures r.Failure? ==> r.error == NotFoundMessage(filepath)
      decreases |filepath|
    {
      var i := IndexOf(filepath, '/');
      if i == -1 then Success(Lookup(cache, filepath))
      else
        var j := IndexOfKey(cache, filepath[..i]);
        if j >= 0 && cache[j].1.DirEntry? then
          assert Within(cache[j].1);
          Lift(cache[j].1.sub.Get(filepath[i + 1..]), filepath)
        else Failure(NotFoundMessage(filepath))
    }

    /** DirectoryCoverage.get of coverage-report.js. */
    function GetLegacy(filepath: string): (r: Result<Option<Entry>, GetError>)
      requires Valid()
      reads this`Repr, this`Files, this`cache, Repr`Repr, Repr`Files, Repr`cache
      ensures '/' !in filepath ==> r.Success?
      ensures r.Failure? ==> var segs := Split(filepath, '/'); |segs| > 1 && r.error.name in segs[..|segs| - 1]
      decreases |filepath|
    {
      var i := IndexOf(filepath, '/');
      SegmentsOfPath(filepath);
      if i == -1 then Success(Lookup(cache, filepath))
      else
        var head := filepath[..i];
        assert Split(filepath, '/')[..|Split(filepath, '/')| - 1][0] == head;
        var j := IndexOfKey(cache, head);
        if j == -1 then Failure(MissingDirectory(head))
        else
          match cache[j].1
          case FileEntry(_) => Failure(NotADirectory(head))
          case DirEntry(sub) =>
            assert Within(cache[j].1);
            var r := sub.GetLegacy(filepath[i + 1..]);
            assert r.Failure? ==> var segs := Split(filepath[i + 1..], '/');
              Split(filepath, '/')[..|Split(filepath, '/')| - 1] == [head] + segs[..|segs| - 1];
            r
    }

    /** The heap lookup and the value lookup on the tree agree: the same outcome and error,
        the record's fields for a file, and for a directory that directory's own tree. */
    lemma GetAbs(m: View, p: string)
      requires Valid() && Covers(m)
      ensures Observes(Get(p), CoverageTree.Get(AbsWith(m), p), m)
      ensures FoundDir(Get(p)) ==> var c := Get(p).value.value.sub;
        c.Valid() && c.Covers(m) && CoverageTree.Get(AbsWith(m), p) == Success(Some(Dir(c.AbsWith(m))))
    {
      GetObserves(m, p);
      if FoundDir(Get(p)) {
        GetDirAbs(m, p, Get(p).value.value.sub);
      }
    }

    lemma GetObserves(m: View, p: string)
      requires Valid() && Covers(m)
      ensures Observes(Get(p), CoverageTree.Get(AbsWith(m), p), m)
      decreases |p|, 1
    {
      if IndexOf(p, '/') == -1 {
        GetAbsHere(m, p);
      } else {
        var j := IndexOfKey(cache, p[..IndexOf(p, '/')]);
        if j >= 0 && cache[j].1.DirEntry? {
          GetAbsThrough(m, p, j);
        } else {
          GetAbsBlocked(m, p, j);
        }
      }
    }

    lemma GetAbsHere(m: View, p: string)
      requires Valid() && Covers(m) && IndexOf(p, '/') == -1
      ensures Observes(Get(p), CoverageTree.Get(AbsWith(m), p), m)
    {
      var a := AbsWith(m);
      SameKeys(cache, a.cache, p);
      var j := IndexOfKey(cache, p);
      if j >= 0 {
        assert Within(cache[j].1);
      }
    }

    /** A first segment that names nothing or a file record fails both lookups. */
    lemma GetAbsBlocked(m: View, p: string, j: int)
      requires Valid() && Covers(m) && IndexOf(p, '/') >= 0
      requires j == IndexOfKey(cache, p[..IndexOf(p, '/')]) && (j == -1 || cache[j].1.FileEntry?)
      ensures Get(p) == Failure(NotFoundMessage(p)) && CoverageTree.Get(AbsWith(m), p) == Failure(NotFoundMessage(p))
    {
      var a := AbsWith(m);
      var i := IndexOf(p, '/');
      SameKeys(cache, a.cache, p[..i]);
      if j >= 0 {
        assert Within(cache[j].1);
        assert a.cache[j].1.File?;
      }
      GetBlocked(p, j);
      GetBlockedDir(a, p);
    }

    lemma GetBlocked(p: string, j: int)
      requires Valid() && IndexOf(p, '/') >= 0
      requires j == IndexOfKey(cache, p[..IndexOf(p, '/')]) && (j == -1 || cache[j].1.FileEntry?)
      ensures Get(p) == Failure(NotFoundMessage(p))
    {
    }

    lemma GetAbsThrough(m: View, p: string, j: nat)
      requires Valid() && Covers(m) && IndexOf(p, '/') >= 0
      requires j == IndexOfKey(cache, p[..IndexOf(p, '/')]) && j < |cache| && cache[j].1.DirEntry?
      ensures Observes(Get(p), CoverageTree.Get(AbsWith(m), p), m)
      decreases |p|, 0
    {
      var a := AbsWith(m);
      var i := IndexOf(p, '/');
      SplitAtSlash(p);
      assert Within(cache[j].1);
      var c := cache[j].1.sub;
      var rest := p[i + 1..];
      assert a.cache[j] == (cache[j].0, Dir(c.AbsWith(m)));
      SameKeys(cache, a.cache, p[..i]);
      assert Child(a, p[..i]) == Some(Dir(c.AbsWith(m)));
      c.GetObserves(m, rest);
      LiftObserves(c.Get(rest), CoverageTree.Get(c.AbsWith(m), rest), m, p);
      GetThrough(p, j);
      GetThroughDir(a, p, c.AbsWith(m));
    }

    /** Through a subdirectory, get(p) is that subdirectory's answer for the rest. */
    lemma GetThrough(p: string, j: nat)
      requires Valid() && IndexOf(p, '/') >= 0
      requires j == IndexOfKey(cache, p[..IndexOf(p, '/')]) && j < |cache| && cache[j].1.DirEntry?
      ensures Within(cache[j].1) && cache[j].1.sub.Valid()
      ensures Get(p) == Lift(cache[j].1.sub.Get(p[IndexOf(p, '/') + 1..]), p)
    {
      var i := IndexOf(p, '/');
      assert Within(cache[j].1);
      var c := cache[j].1.sub;
      assert c.Valid();
      var k := IndexOfKey(cache, p[..i]);
      assert k == j && cache[k].1.DirEntry?;
    }

    /** The same agreement for the older lookup, error included. */
    lemma GetLegacyAbs(m: View, p: string)
      requires Valid() && Covers(m)
      ensures Observes(GetLegacy(p), CoverageTree.GetLegacy(AbsWith(m), p), m)
      ensures FoundDir(GetLegacy(p)) ==> var c := GetLegacy(p).value.value.sub;
        c.Valid() && c.Covers(m) && CoverageTree.GetLegacy(AbsWith(m), p) == Success(Some(Dir(c.AbsWith(m))))
    {
      LegacyObserves(m, p);
      if FoundDir(GetLegacy(p)) {
        var c := GetLegacy(p).value.value.sub;
        LegacyFound(p, Some(DirEntry(c)));
        GetDirAbs(m, p, c);
        GetVersionsAgree(AbsWith(m), p);
      }
    }

    lemma LegacyObserves(m: View, p: string)
      requires Valid() && Covers(m)
      ensures Observes(GetLegacy(p), CoverageTree.GetLegacy(AbsWith(m), p), m)
      decreases |p|, 1
    {
      if IndexOf(p, '/') == -1 {
        GetAbsHere(m, p);
      } else {
        GetLegacyAbsDeeper(m, p);
      }
    }

    lemma GetLegacyAbsDeeper(m: View, p: string)
      requires Valid() && Covers(m) && IndexOf(p, '/') >= 0
      ensures Observes(GetLegacy(p), CoverageTree.GetLegacy(AbsWith(m), p), m)
      decreases |p|, 0
    {
      var a := AbsWith(m);
      var i := IndexOf(p, '/');
      SplitAtSlash(p);
      SameKeys(cache, a.cache, p[..i]);
      var j := IndexOfKey(cache, p[..i]);
      if j >= 0 {
        assert Within(cache[j].1);
        if cache[j].1.DirEntry? {
          cache[j].1.sub.LegacyObserves(m, p[i + 1..]);
        }
      }
    }

    /** A directory that `get(p)` finds is seen, in the tree as a value, as its own tree. */
    lemma GetDirAbs(m: View, p: string, c: DirectoryCoverage)
      requires Valid() && Covers(m) && Get(p) == Success(Some(DirEntry(c)))
      ensures c.Valid() && c.Covers(m) && CoverageTree.Get(AbsWith(m), p) == Success(Some(Dir(c.AbsWith(m))))
      decreases |p|, 1
    {
      if IndexOf(p, '/') == -1 {
        var a := AbsWith(m);
        SameKeys(cache, a.cache, p);
        var j := IndexOfKey(cache, p);
        assert Within(cache[j].1);
        assert a.cache[j] == (cache[j].0, Dir(c.AbsWith(m)));
      } else {
        GetDirAbsDeeper(m, p, c);
      }
    }

    lemma GetDirAbsDeeper(m: View, p: string, c: DirectoryCoverage)
      requires Valid() && Covers(m) && IndexOf(p, '/') >= 0 && Get(p) == Success(Some(DirEntry(c)))
      ensures c.Valid() && c.Covers(m) && CoverageTree.Get(AbsWith(m), p) == Success(Some(Dir(c.AbsWith(m))))
      decreases |p|, 0
    {
      var a := AbsWith(m);
      var i := IndexOf(p, '/');
      SplitAtSlash(p);
      var j := IndexOfKey(cache, p[..i]);
      if j >= 0 && cache[j].1.DirEntry? {
        GetThrough(p, j);
        var s := cache[j].1.sub;
        assert Within(cache[j].1);
        s.GetDirAbs(m, p[i + 1..], c);
        assert a.cache[j] == (cache[j].0, Dir(s.AbsWith(m)));
        SameKeys(cache, a.cache, p[..i]);
        GetThroughDir(a, p, s.AbsWith(m));
      } else {
        GetBlocked(p, j);
      }
    }

    /** A record that `get(p)` finds lies in this directory's footprint. */
    lemma FoundIsBelow(p: string, f: FileCoverage)
      requires Valid() && Get(p) == Success(Some(FileEntry(f)))
      ensures f in Files
      decreases |p|, 1
    {
      if IndexOf(p, '/') == -1 {
        var j := IndexOfKey(cache, p);
        assert Within(cache[j].1);
      } else {
        FoundIsBelowDeeper(p, f);
      }
    }

    lemma FoundIsBelowDeeper(p: string, f: FileCoverage)
      requires Valid() && IndexOf(p, '/') >= 0 && Get(p) == Success(Some(FileEntry(f)))
      ensures f in Files
      decreases |p|, 0
    {
      var i := IndexOf(p, '/');
      SplitAtSlash(p);
      var j := IndexOfKey(cache, p[..i]);
      assert Within(cache[j].1);
      cache[j].1.sub.FoundIsBelow(p[i + 1..], f);
    }

    /** Giving the record that `get(p)` finds the fields `r` is `SetRecord` at `p` on the
        value. */
    lemma AbsWithUpdate(m: View, p: string, f: FileCoverage, r: FileRecord)
      requires Valid() && Covers(m) && Get(p) == Success(Some(FileEntry(f)))
      ensures AbsWith(m.(records := m.records[f := r])) == SetRecord(AbsWith(m), p, r)
      decreases |p|, 1
    {
      if IndexOf(p, '/') == -1 {
        AbsWithUpdateHere(m, p, f, r);
      } else {
        var j := DescendFound(p, f);
        AbsWithUpdateThrough(m, p, f, r, j);
      }
    }

    lemma AbsWithUpdateHere(m: View, p: string, f: FileCoverage, r: FileRecord)
      requires Valid() && Covers(m) && IndexOf(p, '/') == -1 && Get(p) == Success(Some(FileEntry(f)))
      ensures AbsWith(m.(records := m.records[f := r])) == SetRecord(AbsWith(m), p, r)
    {
      var a, a' := AbsWith(m), AbsWith(m.(records := m.records[f := r]));
      SameKeys(cache, a.cache, p);
      var j := IndexOfKey(cache, p);
      assert cache[j].1 == FileEntry(f);
      assert Within(cache[j].1);
      OthersAgree(m, f, r, j);
      assert a'.cache == a.cache[j := (p, File(r))];
    }

    lemma AbsWithUpdateThrough(m: View, p: string, f: FileCoverage, r: FileRecord, j: nat)
      requires Valid() && Covers(m) && IndexOf(p, '/') >= 0
      requires j == IndexOfKey(cache, p[..IndexOf(p, '/')]) && j < |cache| && cache[j].1.DirEntry?
      requires Within(cache[j].1) && cache[j].1.sub.Valid()
      requires cache[j].1.sub.Get(p[IndexOf(p, '/') + 1..]) == Success(Some(FileEntry(f)))
      ensures AbsWith(m.(records := m.records[f := r])) == SetRecord(AbsWith(m), p, r)
      decreases |p|, 0
    {
      var i := IndexOf(p, '/');
      SplitAtSlash(p);
      var c := cache[j].1.sub;
      c.AbsWithUpdate(m, p[i + 1..], f, r);
      c.FoundIsBelow(p[i + 1..], f);
      AbsWithReplace(m, f, r, j);
      var a := AbsWith(m);
      assert a.cache[j] == (cache[j].0, Dir(c.AbsWith(m)));
      SameKeys(cache, a.cache, p[..i]);
      SetRecordThrough(a, p, r, j);
    }

    /** A record found through a `/` is found by the subdirectory the first segment names. */
    lemma DescendFound(p: string, f: FileCoverage) returns (j: nat)
      requires Valid() && IndexOf(p, '/') >= 0 && Get(p) == Success(Some(FileEntry(f)))
      ensures j == IndexOfKey(cache, p[..IndexOf(p, '/')]) && j < |cache| && cache[j].1.DirEntry?
      ensures Within(cache[j].1) && cache[j].1.sub.Valid()
      ensures |p[IndexOf(p, '/') + 1..]| < |p|
      ensures cache[j].1.sub.Get(p[IndexOf(p, '/') + 1..]) == Success(Some(FileEntry(f)))
    {
      j := IndexOfKey(cache, p[..IndexOf(p, '/')]);
      assert Within(cache[j].1);
    }

    /** Changing a record below the `j`th value changes only that subdirectory's tree. */
    lemma AbsWithReplace(m: View, f: FileCoverage, r: FileRecord, j: nat)
      requires Valid() && Covers(m) && j < |cache| && cache[j].1.DirEntry? && f in cache[j].1.sub.Files
      ensures Within(cache[j].1)
      ensures AbsWith(m.(records := m.records[f := r])) == AbsWith(m).(cache := AbsWith(m).cache[j := (cache[j].0, Dir(cache[j].1.sub.AbsWith(m.(records := m.records[f := r]))))])
    {
      assert Within(cache[j].1);
      OthersAgree(m, f, r, j);
    }

    /** DirectoryCoverage.getMetrics: a directory without a memo asks every value of its Map
        for its metrics, sums them and memoises the sum; one with a memo returns it and
        changes nothing. */
    method GetMetrics() returns (r: Metrics)
      requires Valid()
      modifies Repr`metrics
      ensures Valid()
      ensures r == DirMetrics(old(Abs()))
      ensures Abs() == Memoize(old(Abs()))
      decreases Repr, 3
    {
      if metrics.Some? {
        return metrics.value;
      }
      var ms := AllMetrics();
      ghost var mid := Snapshot();
      ghost var before := old(Abs());
      ghost var children := AbsWith(mid).cache;
      assert children == MemoizeChildren(before);
      metrics := Some(SumMetrics(ms));
      r := metrics.value;
      assert Valid();
      assert AbsWith(mid).cache == children;
      MemoStored(mid, before);
    }

    /** Once the children are memoised and the memo is stored here, the tree is `before`
        memoised. */
    lemma MemoStored(mid: View, before: Directory)
      requires Valid() && Covers(mid) && before.dir == dir && before.metrics == None
      requires AbsWith(mid).cache == MemoizeChildren(before)
      requires metrics == Some(DirMetrics(before))
      requires forall f :: f in Files ==> f.Value() == mid.records[f]
      requires forall d :: d in Repr && d != this ==> d.metrics == mid.memos[d]
      ensures Abs() == Memoize(before)
    {
      var now := Snapshot();
      ChildrenAgree(now, mid);
      MemoizeFresh(before);
    }

    /** `Array.from(this.cache.values()).map(coverage => coverage.getMetrics())`: the metrics
        of the values in insertion order; every subdirectory is memoised on the way. */
    method AllMetrics() returns (ms: seq<Metrics>)
      requires Valid()
      modifies (Repr - {this})`metrics
      ensures Valid() && unchanged(Files)
      ensures ms == ChildMetrics(old(Abs()))
      ensures Abs().cache == MemoizeChildren(old(Abs()))
      decreases Repr, 2
    {
      ghost var before := Abs().cache;
      ms := [];
      for k := 0 to |cache|
        invariant Valid() && unchanged(Files)
        invariant |ms| == k
        invariant forall i :: 0 <= i < k ==> ms[i] == NodeMetrics(before[i].1)
        invariant forall i :: 0 <= i < |cache| ==>
          EntryAbs(i, Snapshot()) == if i < k then MemoizeNode(before[i].1) else before[i].1
      {
        var cm := MetricsOf(k);
        ms := ms + [cm];
      }
    }

    /** `coverage.getMetrics()` on the `k`th value: a record's fields, or a subdirectory's
        metrics, which memoises that subdirectory and nothing else. */
    method MetricsOf(k: nat) returns (cm: Metrics)
      requires Valid() && k < |cache|
      modifies (Repr - {this})`metrics
      ensures Valid() && unchanged(Files)
      ensures cm == NodeMetrics(old(EntryAbs(k, Snapshot())))
      ensures EntryAbs(k, Snapshot()) == MemoizeNode(old(EntryAbs(k, Snapshot())))
      ensures forall i :: 0 <= i < |cache| && i != k ==> EntryAbs(i, Snapshot()) == old(EntryAbs(i, Snapshot()))
      decreases Repr, 1
    {
      assert Within(cache[k].1);
      match cache[k].1
      case FileEntry(f) =>
        cm := f.GetMetrics();
      case DirEntry(c) =>
        cm := SubMetrics(k, c);
    }

    /** `getMetrics()` on the subdirectory `c` stored as the `k`th value. */
    method SubMetrics(k: nat, c: DirectoryCoverage) returns (cm: Metrics)
      requires Valid() && k < |cache| && cache[k].1 == DirEntry(c)
      modifies (Repr - {this})`metrics
      ensures Valid() && unchanged(Files)
      ensures cm == NodeMetrics(old(EntryAbs(k, Snapshot())))
      ensures EntryAbs(k, Snapshot()) == MemoizeNode(old(EntryAbs(k, Snapshot())))
      ensures forall i :: 0 <= i < |cache| && i != k ==> EntryAbs(i, Snapshot()) == old(EntryAbs(i, Snapshot()))
      decreases Repr, 0
    {
      ghost var v1 := Snapshot();
      assert Within(cache[k].1);
      c.AbsWithAgree(c.Snapshot(), v1);
      cm := c.GetMetrics();
      ghost var v2 := Snapshot();
      c.AbsWithAgree(c.Snapshot(), v2);
      assert forall d :: d in Repr && d !in c.Repr ==> v2.memos[d] == v1.memos[d];
      SiblingsAgree(v1, v2, k);
    }

    /** Memos that change only below the `k`th value leave every other value as it was. */
    lemma SiblingsAgree(m1: View, m2: View, k: nat)
      requires Valid() && Covers(m1) && Covers(m2) && k < |cache| && cache[k].1.DirEntry?
      requires forall f :: f in Files ==> m1.records[f] == m2.records[f]
      requires forall d :: d in Repr && d !in cache[k].1.sub.Repr ==> m1.memos[d] == m2.memos[d]
      ensures forall i :: 0 <= i < |cache| && i != k ==> EntryAbs(i, m2) == EntryAbs(i, m1)
    {
      forall i | 0 <= i < |cache| && i != k ensures EntryAbs(i, m2) == EntryAbs(i, m1) {
        assert Within(cache[i].1) && Within(cache[k].1) && Apart(cache[i].1, cache[k].1);
        match cache[i].1
        case FileEntry(_) =>
        case DirEntry(d) => d.AbsWithAgree(m1, m2);
      }
    }

    /** The entry shares no directory and no record with this tree. */
    ghost predicate Separate(e: Entry)
      reads this`Repr, this`Files, if e.DirEntry? then {e.sub} else {}
    {
      match e
      case FileEntry(f) => f !in Files
      case DirEntry(c) => c.Repr !! Repr && c.Files !! Files
    }

    /** The Map holds, name by name and in order, the values `acc`, each read from its own
        objects. */
    ghost predicate Mirrors(acc: seq<(string, Node)>)
      requires Valid()
      reads this`Repr, this`Files, this`cache, Repr, Files
    {
      |cache| == |acc| &&
      forall i :: 0 <= i < |cache| ==> cache[i].0 == acc[i].0 && EntryNode(cache[i].1) == acc[i].1
    }

    /** A Map that mirrors `acc` is the tree's Map. */
    lemma MirrorsAbs(acc: seq<(string, Node)>)
      requires Valid() && Mirrors(acc)
      ensures Abs().cache == acc
    {
      var m := Snapshot();
      forall i | 0 <= i < |cache| ensures Abs().cache[i] == acc[i] {
        assert Within(cache[i].1);
        if cache[i].1.DirEntry? {
          cache[i].1.sub.AbsWithAgree(cache[i].1.sub.Snapshot(), m);
        }
      }
    }

    /** `this.cache.set(name, e)` for a record or a subdirectory that shares nothing with this
        tree: the value under `name` is replaced in place, or appended when `name` is new, and
        the footprint grows by what the entry brings. */
    method Set(name: string, e: Entry)
      requires Valid() && Separate(e) && (e.DirEntry? ==> e.sub.Valid())
      modifies this`cache, this`Repr, this`Files
      ensures Valid() && cache == Put(old(cache), name, e)
      ensures Repr == old(Repr) + EntryRepr(e) && Files == old(Files) + EntryFiles(e)
    {
      ghost var c0 := cache;
      cache, Repr, Files := Put(cache, name, e), Repr + EntryRepr(e), Files + EntryFiles(e);
      forall i | 0 <= i < |c0| ensures Within(c0[i].1) && Apart(c0[i].1, e) && Apart(e, c0[i].1) {
        assert old(Within(c0[i].1));
      }
      SetValid(c0, name, e);
    }

    /** A Map whose old values are a tree and whose new value shares nothing with them is a
        tree after `set`. */
    lemma SetValid(c0: seq<(string, Entry)>, name: string, e: Entry)
      requires this in Repr && cache == Put(c0, name, e)
      requires forall i :: 0 <= i < |c0| ==> Within(c0[i].1)
      requires forall i, j :: 0 <= i < |c0| && 0 <= j < |c0| && i != j ==> Apart(c0[i].1, c0[j].1)
      requires forall i :: 0 <= i < |c0| && c0[i].1.DirEntry? ==> c0[i].1.sub.Valid()
      requires Within(e) && (e.DirEntry? ==> e.sub.Valid())
      requires forall i :: 0 <= i < |c0| ==> Apart(c0[i].1, e) && Apart(e, c0[i].1)
      ensures Valid()
    {
      var k := IndexOfKey(c0, name);
      assert forall i :: 0 <= i < |cache| ==> if i == k || i == |c0| then cache[i] == (name, e) else cache[i] == c0[i];
    }

    /** After `set`, the Map mirrors `set` on the values. */
    lemma MirrorsPut(acc: seq<(string, Node)>, c0: seq<(string, Entry)>, name: string, e: Entry)
      requires Valid() && cache == Put(c0, name, e) && |acc| == |c0| && (e.DirEntry? ==> e.sub.Valid())
      requires forall i :: 0 <= i < |c0| ==> c0[i].0 == acc[i].0
      requires forall i :: 0 <= i < |c0| && i != IndexOfKey(c0, name) ==> (c0[i].1.DirEntry? ==> c0[i].1.sub.Valid()) && EntryNode(c0[i].1) == acc[i].1
      ensures Mirrors(Put(acc, name, EntryNode(e)))
    {
      SameKeys(c0, acc, name);
      var k := IndexOfKey(c0, name);
      assert forall i :: 0 <= i < |cache| ==> if i == k || i == |c0| then cache[i] == (name, e) else cache[i] == c0[i];
    }

    /** One turn of the `forEach` of findFiles, on the entry `name` of this directory, which
        is `child`, with the Map mirroring `acc` so far. The patterns decide first: a
        selected file becomes a fresh record, a selected directory makes `readFileSync`
        throw; only an entry they reject is asked whether it is a directory, and a directory
        is kept when its own Map is non-empty. */
    method VisitEntry(name: string, child: FsNode, includes: string -> bool, excludes: string -> bool, ghost acc: seq<(string, Node)>)
      returns (err: Option<FsError>)
      requires Valid() && Mirrors(acc)
      modifies this`cache, this`Repr, this`Files
      ensures Valid() && old(Repr) <= Repr && fresh(Repr - old(Repr)) && old(Files) <= Files && fresh(Files - old(Files))
      ensures match Visit(dir, acc, name, child, includes, excludes)
        case Failure(x) => err == Some(x)
        case Success(acc') => err == None && Mirrors(acc')
      decreases child, 3
    {
      var full := dir + "/" + name;
      err := None;
      if includes(full) && !excludes(full) {
        match child
        case FsDir(_) =>
          err := Some(IsADirectory(full));
        case FsFile(content) =>
          AddRecord(name, full, content, acc);
        case FsLocked(_) =>
          err := Some(PermissionDenied(full));
        case FsDangling =>
          err := Some(NoSuchEntry(full));
      } else if child.FsDir? {
        err := AddSubdirectory(name, full, child, includes, excludes, acc);
      } else if child.FsDangling? {
        err := Some(NoSuchEntry(full));
      } else if child.FsLocked? && child.directory {
        err := Some(PermissionDenied(full));
      }
    }

    /** A selected file: `new FileCoverage(truncatedPath, linesInFile)` stored under its name. */
    method AddRecord(name: string, full: string, content: string, ghost acc: seq<(string, Node)>)
      requires Valid() && Mirrors(acc)
      modifies this`cache, this`Repr, this`Files
      ensures Valid() && Repr == old(Repr) && old(Files) <= Files && fresh(Files - old(Files))
      ensures Mirrors(Put(acc, name, File(NewRecord(full, content))))
    {
      var f := new FileCoverage(RemoveFirst(full, "./"), |Split(content, '\n')|);
      Attach(name, FileEntry(f), File(NewRecord(full, content)), acc);
    }

    /** An unselected directory: a new DirectoryCoverage for it finds its own files, and is
        stored under its name when its Map is non-empty. */
    method AddSubdirectory(name: string, full: string, child: FsNode, includes: string -> bool, excludes: string -> bool, ghost acc: seq<(string, Node)>)
      returns (err: Option<FsError>)
      requires Valid() && Mirrors(acc) && child.FsDir?
      modifies this`cache, this`Repr, this`Files
      ensures Valid() && old(Repr) <= Repr && fresh(Repr - old(Repr)) && old(Files) <= Files && fresh(Files - old(Files))
      ensures match Build(full, child, |child.entries|, includes, excludes)
        case Failure(x) => err == Some(x)
        case Success(sub) => err == None && Mirrors(if |sub| > 0 then Put(acc, name, Dir(Directory(full, sub, None))) else acc)
      decreases child, 2
    {
      var sub;
      sub, err := Scan(full, child, includes, excludes);
      if err.None? && |sub.cache| > 0 {
        ghost var built := Build(full, child, |child.entries|, includes, excludes).value;
        assert sub.Abs() == Directory(full, built, None);
        Attach(name, DirEntry(sub), Dir(Directory(full, built, None)), acc);
      }
    }

    /** `new DirectoryCoverage(fullPath)` followed by its findFiles. */
    static method Scan(full: string, child: FsNode, includes: string -> bool, excludes: string -> bool)
      returns (sub: DirectoryCoverage, err: Option<FsError>)
      requires child.FsDir?
      ensures fresh(sub) && sub.Valid() && fresh(sub.Repr) && fresh(sub.Files)
      ensures match BuildDir(full, child, includes, excludes)
        case Failure(x) => err == Some(x)
        case Success(d) => err == None && sub.Abs() == d
      decreases child, 1
    {
      sub := new DirectoryCoverage(full);
      err := sub.FindFiles(child, includes, excludes);
    }

    /** `set` of a new record or subdirectory, seen on the values. */
    method Attach(name: string, e: Entry, ghost node: Node, ghost acc: seq<(string, Node)>)
      requires Valid() && Mirrors(acc) && Separate(e) && (e.DirEntry? ==> e.sub.Valid()) && EntryNode(e) == node
      modifies this`cache, this`Repr, this`Files
      ensures Valid() && Repr == old(Repr) + EntryRepr(e) && Files == old(Files) + EntryFiles(e)
      ensures Mirrors(Put(acc, name, node))
    {
      ghost var c0 := cache;
      assert forall i :: 0 <= i < |c0| ==> EntryNode(c0[i].1) == acc[i].1;
      SetKeeping(name, e);
      MirrorsPut(acc, c0, name, e);
    }

    /** `set`, with the values of the old entries and of the new one unchanged by it. */
    method SetKeeping(name: string, e: Entry)
      requires Valid() && Separate(e) && (e.DirEntry? ==> e.sub.Valid())
      modifies this`cache, this`Repr, this`Files
      ensures Valid() && cache == Put(old(cache), name, e)
      ensures Repr == old(Repr) + EntryRepr(e) && Files == old(Files) + EntryFiles(e)
      ensures forall i :: 0 <= i < |old(cache)| ==> (old(cache)[i].1.DirEntry? ==> old(cache)[i].1.sub.Valid()) && EntryNode(old(cache)[i].1) == old(EntryNode(cache[i].1))
      ensures (e.DirEntry? ==> e.sub.Valid()) && EntryNode(e) == old(EntryNode(e))
    {
      Outside(e);
      assert e.DirEntry? ==> this !in e.sub.Repr;
      Set(name, e);
    }

    /** A new entry is none of the values of the Map, and the footprint of none of them
        holds this directory. */
    lemma Outside(e: Entry)
      requires Valid() && Separate(e) && (e.DirEntry? ==> e.sub.Valid())
      ensures forall i :: 0 <= i < |cache| ==> cache[i].1 != e && (cache[i].1.DirEntry? ==> this !in cache[i].1.sub.Repr && cache[i].1.sub in cache[i].1.sub.Repr)
    {
      forall i | 0 <= i < |cache| ensures cache[i].1 != e && (cache[i].1.DirEntry? ==> this !in cache[i].1.sub.Repr && cache[i].1.sub in cache[i].1.sub.Repr) {
        assert Within(cache[i].1);
      }
    }

    /** findFiles on a directory just constructed, whose path names the directory `node`:
        the entries are visited in `readdirSync` order and the first exception ends it. */
    method FindFiles(node: FsNode, includes: string -> bool, excludes: string -> bool) returns (err: Option<FsError>)
      requires node.FsDir? && Valid() && cache == [] && metrics == None
      modifies this`cache, this`Repr, this`Files
      ensures Valid() && old(Repr) <= Repr && fresh(Repr - old(Repr)) && old(Files) <= Files && fresh(Files - old(Files))
      ensures match BuildDir(dir, node, includes, excludes)
        case Failure(x) => err == Some(x)
        case Success(d) => err == None && Abs() == d
      decreases node, 0
    {
      err := None;
      for k := 0 to |node.entries|
        invariant Valid() && old(Repr) <= Repr && fresh(Repr - old(Repr)) && old(Files) <= Files && fresh(Files - old(Files))
        invariant err == None && Build(dir, node, k, includes, excludes).Success? && Mirrors(Build(dir, node, k, includes, excludes).value)
      {
        assert node.entries[k] in node.entries;
        err := VisitEntry(node.entries[k].0, node.entries[k].1, includes, excludes, Build(dir, node, k, includes, excludes).value);
        if err.Some? {
          BuildFailureSticks(dir, node, k + 1, includes, excludes);
          return;
        }
      }
      ghost var acc := Build(dir, node, |node.entries|, includes, excludes).value;
      MirrorsAbs(acc);
      assert Snapshot().memos[this] == None;
    }

    /** A setter call on the record `f` that `get(p)` finds: the tree is the old one with
        that record edited, and nothing else changes. */
    method EditRecord(ghost p: string, f: FileCoverage, e: LcovParse.Edit, arg: string)
      requires Valid() && Get(p) == Success(Some(FileEntry(f))) && IsDigits(arg)
      requires e == LcovParse.AddLine(ParseNat(arg)) || e == LcovParse.SetHit(ParseNat(arg)) || e == LcovParse.SetFound(ParseNat(arg))
      modifies f
      ensures Valid() && Get(p) == Success(Some(FileEntry(f)))
      ensures RecordOf(old(Abs()), p) == Some(old(f.Value()))
      ensures Abs() == SetRecord(old(Abs()), p, LcovParse.ApplyEdit(old(f.Value()), e))
    {
      ghost var m := Snapshot();
      RecordFound(m, p, f);
      ApplyBelow(p, m, f, e, arg);
      assert Memos() == m.memos;
      assert Records() == m.records[f := f.Value()];
      Edited(m, p, f, f.Value());
    }

    /** The setter call on a record below this directory changes that record's fields in
        the view and nothing else. */
    method ApplyBelow(ghost p: string, ghost m: View, f: FileCoverage, e: LcovParse.Edit, arg: string)
      requires Valid() && f in Files && m == Snapshot() && IsDigits(arg)
      requires e == LcovParse.AddLine(ParseNat(arg)) || e == LcovParse.SetHit(ParseNat(arg)) || e == LcovParse.SetFound(ParseNat(arg))
      modifies f
      ensures Valid() && Get(p) == old(Get(p)) && AbsWith(m) == old(AbsWith(m))
      ensures f.Value() == LcovParse.ApplyEdit(old(f.Value()), e)
    {
      f.Apply(e, arg);
    }

    /** The record that `get(p)` finds is below this directory, and the tree has its fields
        at `p`. */
    lemma RecordFound(m: View, p: string, f: FileCoverage)
      requires Valid() && Covers(m) && Get(p) == Success(Some(FileEntry(f)))
      ensures f in Files && RecordOf(AbsWith(m), p) == Some(m.records[f])
    {
      GetObserves(m, p);
      FoundIsBelow(p, f);
    }

    /** What the older `get` finds, the current one finds too. */
    lemma LegacyFound(p: string, found: Option<Entry>)
      requires Valid() && GetLegacy(p) == Success(found)
      ensures Get(p) == Success(found)
      decreases |p|
    {
      var i := IndexOf(p, '/');
      if i >= 0 {
        SplitAtSlash(p);
        var j := IndexOfKey(cache, p[..i]);
        assert j >= 0 && cache[j].1.DirEntry?;
        GetThrough(p, j);
        var c := cache[j].1.sub;
        assert c.GetLegacy(p[i + 1..]) == Success(found);
        c.LegacyFound(p[i + 1..], found);
      }
    }

    /** After the setter call on the record `f` that `get(p)` finds, which gave it the fields
        `r`, the tree is `SetRecord` at `p` of the tree before. */
    lemma Edited(m: View, p: string, f: FileCoverage, r: FileRecord)
      requires Valid() && Covers(m) && Get(p) == Success(Some(FileEntry(f)))
      requires Snapshot() == m.(records := m.records[f := r])
      ensures Abs() == SetRecord(AbsWith(m), p, r)
    {
      FoundIsBelow(p, f);
      AbsWithUpdate(m, p, f, r);
    }
  }


  /** The directories an entry brings with it. */
  ghost function EntryRepr(e: Entry): set<DirectoryCoverage>
    reads if e.DirEntry? then {e.sub} else {}
  {
    if e.DirEntry? then e.sub.Repr else {}
  }

  /** The records an entry brings with it. */
  ghost function EntryFiles(e: Entry): set<FileCoverage>
    reads if e.DirEntry? then {e.sub} else {}
  {
    match e
    case FileEntry(f) => {f}
    case DirEntry(c) => c.Files
  }

  /** A value of a Map as a value: a record's fields or a subdirectory's tree. */
  ghost function EntryNode(e: Entry): Node
    requires e.DirEntry? ==> e.sub.Valid()
    reads if e.FileEntry? then {e.file} else {}
    reads if e.DirEntry? then {e.sub} else {}, if e.DirEntry? then e.sub.Repr else {}, if e.DirEntry? then e.sub.Files else {}
  {
    match e
    case FileEntry(f) => File(f.Value())
    case DirEntry(c) => Dir(c.Abs())
  }

  lemma LiftObserves(found: Result<Option<Entry>, string>, seen: Result<Option<Node>, string>, m: View, p: string)
    requires Observes(found, seen, m)
    ensures Observes(Lift(found, p), Lift(seen, p), m)
  {
  }

  /** The lookup found a directory. */
  predicate FoundDir<E>(found: Result<Option<Entry>, E>) {
    found.Success? && found.value.Some? && found.value.value.DirEntry?
  }

  /** What a lookup on the heap finds, seen as a value: the same outcome, the same error,
      and for a file record the fields `m` holds for it. */
  ghost predicate Observes<E>(found: Result<Option<Entry>, E>, seen: Result<Option<Node>, E>, m: View)
  {
    match found
    case Failure(e) => seen == Failure(e)
    case Success(None) => seen == Success(None)
    case Success(Some(FileEntry(f))) => f in m.records && seen == Success(Some(File(m.records[f])))
    case Success(Some(DirEntry(_))) => seen.Success? && seen.value.Some? && seen.value.value.Dir?
  }

  /** `${x}` for `start` and `end`, which are null until the first line. */
  function Interpolate(x: Option<nat>): string {
    match x
    case None => "null"
    case Some(n) => NatToString(n)
  }

  /** The loop variables `start` and `end` for an open run of the scan. */
  function OpenStart(open: Option<Range>): Option<nat> {
    match open
    case None => None
    case Some(r) => Some(r.start)
  }

  function OpenEnd(open: Option<Range>): Option<nat> {
    match open
    case None => None
    case Some(r) => Some(r.end)
  }

  lemma RenderRangesAppend(rs: seq<Range>, r: Range)
    ensures RenderRanges(rs + [r]) == RenderRanges(rs) + [RenderRange(r)]
  {
    assert |RenderRanges(rs + [r])| == |RenderRanges(rs) + [RenderRange(r)]|;
    assert forall k :: 0 <= k < |rs| ==> (rs + [r])[k] == rs[k];
  }

  lemma SortedLength(s: seq<nat>)
    ensures |Sort(s)| == |s|
  {
    assert |Sort(s)| == |multiset(Sort(s))| == |multiset(s)| == |s|;
  }


  /** generateCoverageRoot: the directory "." with findFiles run on the working directory
      `cwd`; an exception of findFiles propagates. */
  method GenerateCoverageRoot(cwd: FsNode, includes: string -> bool, excludes: string -> bool)
    returns (r: Result<DirectoryCoverage, FsError>)
    requires WorkingDirectory(cwd)
    ensures match BuildRoot(cwd, includes, excludes)
      case Failure(e) => r == Failure(e)
      case Success(d) => r.Success? && fresh(r.value) && r.value.Valid() && r.value.Abs() == d
  {
    if !cwd.FsDir? {
      return Failure(PermissionDenied("."));
    }
    var root, err := DirectoryCoverage.Scan(".", cwd, includes, excludes);
    if err.Some? {
      return Failure(err.value);
    }
    return Success(root);
  }

  /** `new CoverageReport()`: the report over the tree of generateCoverageRoot. */
  method NewCoverageReport(cwd: FsNode, includes: string -> bool, excludes: string -> bool)
    returns (r: Result<CoverageReport, FsError>)
    requires WorkingDirectory(cwd)
    ensures match BuildRoot(cwd, includes, excludes)
      case Failure(e) => r == Failure(e)
      case Success(d) => r.Success? && fresh(r.value) && r.value.root.Valid() && r.value.root.Abs() == d
  {
    var root := GenerateCoverageRoot(cwd, includes, excludes);
    match root
    case Failure(e) =>
      return Failure(e);
    case Success(dir) =>
      var report := new CoverageReport(dir);
      return Success(report);
  }

  /** The report: the root of the tree, which `parse` fills in from an lcov tracefile. */
  class CoverageReport {
    const root: DirectoryCoverage

    constructor(root: DirectoryCoverage)
      ensures this.root == root
    {
      this.root := root;
    }

    /** The local `currentFile` of parse stands for the cursor: a FileCoverage exactly
        when the cursor names a path, and then the one that `get` finds there. */
    ghost predicate Tracks(current: Option<Entry>, cursor: LcovParse.Cursor)
      requires root.Valid()
      reads root, root.Repr
    {
      match cursor
      case NoFile => !(current.Some? && current.value.FileEntry?)
      case FileAt(p) => current.Some? && current.value.FileEntry? && root.Get(p) == Success(current)
    }

    /** parse: the loop over the lines of `lcovInfo` does to the records what the fold
        LcovParse.Parse does to the tree, and throws where the fold stops with an error. */
    method Parse(lcovInfo: string, v: LcovParse.Variant) returns (error: Option<LcovParse.ParseError>)
      requires root.Valid() && LcovParse.NumericLines(Split(lcovInfo, '\n'))
      modifies root.Files
      ensures root.Valid()
      ensures root.Abs() == LcovParse.Parse(old(root.Abs()), lcovInfo, v).root
      ensures error == LcovParse.Parse(old(root.Abs()), lcovInfo, v).error
    {
      var lines := Split(lcovInfo, '\n');
      ghost var st := LcovParse.Start(root.Abs());
      ghost var final := LcovParse.Run(st, lines, v);
      var current: Option<Entry> := None;
      error := None;
      for k := 0 to |lines|
        invariant root.Valid() && LcovParse.CursorValid(st) && st.error == None && st.root == root.Abs()
        invariant Tracks(current, st.cursor) && error == None
        invariant LcovParse.NumericLines(lines[k..]) && LcovParse.Run(st, lines[k..], v) == final
      {
        assert lines[k..][0] == lines[k] && lines[k..][1..] == lines[k + 1..];
        current, error := ParseLine(lines[k], current, v, st);
        st := LcovParse.Step(st, lines[k], v);
        if error.Some? {
          assert LcovParse.Run(st, lines[k + 1..], v) == st;
          return;
        }
      }
    }

    /** One turn of the loop of parse. */
    method ParseLine(line: string, current: Option<Entry>, v: LcovParse.Variant, ghost st: LcovParse.ParseState)
      returns (current': Option<Entry>, error: Option<LcovParse.ParseError>)
      requires root.Valid() && LcovParse.CursorValid(st) && st.error == None && st.root == root.Abs()
      requires Tracks(current, st.cursor) && LcovParse.NumericLine(line)
      modifies root.Files
      ensures root.Valid()
      ensures root.Abs() == LcovParse.Step(st, line, v).root && error == LcovParse.Step(st, line, v).error
      ensures error.None? ==> Tracks(current', LcovParse.Step(st, line, v).cursor)
    {
      if StartsWith(line, "SF:") {
        current', error := SelectFile(Substring(line, 3), v, st);
      } else {
        current' := current;
        error := RecordLine(line, current, v, st);
      }
    }

    /** The `DA:`, `LH:` and `LF:` branches of the loop body, and the lines it ignores. */
    method RecordLine(line: string, current: Option<Entry>, v: LcovParse.Variant, ghost st: LcovParse.ParseState)
      returns (error: Option<LcovParse.ParseError>)
      requires root.Valid() && LcovParse.CursorValid(st) && st.error == None && st.root == root.Abs()
      requires Tracks(current, st.cursor) && LcovParse.NumericLine(line) && !StartsWith(line, "SF:")
      modifies root.Files
      ensures root.Valid() && Tracks(current, st.cursor)
      ensures root.Abs() == LcovParse.Step(st, line, v).root && error == LcovParse.Step(st, line, v).error
    {
      var lineData := Substring(line, 3);
      error := None;
      if StartsWith(line, "DA:") {
        var parts := Split(lineData, ',');
        if |parts| >= 2 && parts[1] == "0" {
          error := CallSetter(current, LcovParse.AddLine(ParseNat(parts[0])), parts[0], st);
        }
      } else if StartsWith(line, "LH:") {
        error := CallSetter(current, LcovParse.SetHit(ParseNat(lineData)), lineData, st);
      } else if StartsWith(line, "LF:") {
        error := CallSetter(current, LcovParse.SetFound(ParseNat(lineData)), lineData, st);
      }
    }

    /** `currentFile = this.root.get(lineData)` of an `SF:` line: the heap lookup moves the
        cursor as the value lookup does, and throws the same error. */
    method SelectFile(path: string, v: LcovParse.Variant, ghost st: LcovParse.ParseState)
      returns (current: Option<Entry>, error: Option<LcovParse.ParseError>)
      requires root.Valid() && LcovParse.CursorValid(st) && st.error == None && st.root == root.Abs()
      ensures error == LcovParse.Select(st, path, v).error
      ensures error.None? ==> Tracks(current, LcovParse.Select(st, path, v).cursor)
    {
      if v == LcovParse.Current {
        current, error := SelectCurrent(path, st);
      } else {
        current, error := SelectLegacy(path, st);
      }
    }

    /** The lookup of the current DirectoryCoverage.get, whose failure is the error it
        throws from its catch. */
    method SelectCurrent(path: string, ghost st: LcovParse.ParseState)
      returns (current: Option<Entry>, error: Option<LcovParse.ParseError>)
      requires root.Valid() && LcovParse.CursorValid(st) && st.error == None && st.root == root.Abs()
      ensures error == LcovParse.Select(st, path, LcovParse.Current).error
      ensures error.None? ==> Tracks(current, LcovParse.Select(st, path, LcovParse.Current).cursor)
    {
      var r := root.Get(path);
      root.GetAbs(root.Snapshot(), path);
      if r.Failure? {
        current, error := None, Some(LcovParse.LookupFailed(r.error));
      } else {
        current, error := r.value, None;
      }
    }

    /** The lookup of the DirectoryCoverage.get of coverage-report.js, whose failure is the
        TypeError of a step through a missing name or a file. */
    method SelectLegacy(path: string, ghost st: LcovParse.ParseState)
      returns (current: Option<Entry>, error: Option<LcovParse.ParseError>)
      requires root.Valid() && LcovParse.CursorValid(st) && st.error == None && st.root == root.Abs()
      ensures error == LcovParse.Select(st, path, LcovParse.Legacy).error
      ensures error.None? ==> Tracks(current, LcovParse.Select(st, path, LcovParse.Legacy).cursor)
    {
      var r := root.GetLegacy(path);
      root.GetLegacyAbs(root.Snapshot(), path);
      if r.Failure? {
        current, error := None, Some(LcovParse.LegacyLookupFailed(r.error));
      } else {
        current, error := r.value, None;
        if r.value.Some? && r.value.value.FileEntry? {
          root.LegacyFound(path, r.value);
        }
      }
    }

    /** The setter call of a `DA:`, `LH:` or `LF:` line; it throws when `currentFile` is no
        FileCoverage. */
    method CallSetter(current: Option<Entry>, e: LcovParse.Edit, arg: string, ghost st: LcovParse.ParseState)
      returns (error: Option<LcovParse.ParseError>)
      requires root.Valid() && LcovParse.CursorValid(st) && st.error == None && st.root == root.Abs()
      requires Tracks(current, st.cursor) && IsDigits(arg)
      requires e == LcovParse.AddLine(ParseNat(arg)) || e == LcovParse.SetHit(ParseNat(arg)) || e == LcovParse.SetFound(ParseNat(arg))
      modifies root.Files
      ensures root.Valid() && Tracks(current, st.cursor)
      ensures root.Abs() == LcovParse.ApplyAtCursor(st, e).root && error == LcovParse.ApplyAtCursor(st, e).error
    {
      if current.Some? && current.value.FileEntry? {
        root.FoundIsBelow(st.cursor.path, current.value.file);
        root.EditRecord(st.cursor.path, current.value.file, e, arg);
        error := None;
      } else {
        error := Some(LcovParse.NoCurrentRecord);
      }
    }
  }

}
