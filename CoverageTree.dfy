/** The coverage tree of src/coverage-report.js as values: the records of FileCoverage, the
    Map of a DirectoryCoverage with its memoised metrics, the path lookup `get` (in both
    variants), the aggregation `getMetrics`, the construction `findFiles` over a directory
    tree given as a value, and the lcov fold `parse`. The classes of CoverageReport are proved
    to compute exactly these values. */
module CoverageTree {

  import opened Wrappers
  import opened Strings
  import opened OrderedMap

  /** The `{ linesFound, linesHit }` object of `getMetrics`. */
  datatype Metrics = Metrics(linesFound: nat, linesHit: nat)

  /** The fields of a FileCoverage. */
  datatype FileRecord = FileRecord(filename: string, linesFound: nat, linesHit: nat, uncoveredLines: seq<nat>)

  /** A value of a DirectoryCoverage's Map: a file record or a subdirectory. */
  datatype Node = File(record: FileRecord) | Dir(directory: Directory)

  /** The fields of a DirectoryCoverage: its path, its Map in insertion order, and the memo
      `metrics`, `None` while undefined. */
  datatype Directory = Directory(dir: string, cache: seq<(string, Node)>, metrics: Option<Metrics>)

  // ---------------------------------------------------------------------------
  // Paths

  /** A path with a `/` is its text before the first `/`, the `/`, and the rest. */
  lemma SplitAtSlash(p: string)
    requires IndexOf(p, '/') >= 0
    ensures var i := IndexOf(p, '/');
      p == p[..i] + ['/'] + p[i + 1..] && '/' !in p[..i] && |p[i + 1..]| < |p|
  {
    var i := IndexOf(p, '/');
    assert p == p[..i] + [p[i]] + p[i + 1..];
  }

  /** The path's segments, as `split('/')` gives them: the text up to the first `/` is the
      first segment, and the rest are the segments of the text after it. */
  lemma SegmentsOfPath(p: string)
    ensures IndexOf(p, '/') == -1 ==> Split(p, '/') == [p]
    ensures IndexOf(p, '/') >= 0 ==> var i := IndexOf(p, '/');
      Split(p, '/') == [p[..i]] + Split(p[i + 1..], '/')
  {
    var i := IndexOf(p, '/');
    if i == -1 {
      SplitNoSep(p, '/');
    } else {
      SplitAtSlash(p);
      SplitConcat(p[..i], '/', p[i + 1..]);
    }
  }

  // ---------------------------------------------------------------------------
  // get

  /** `this.cache.get(name)`. */
  function Child(d: Directory, name: string): Option<Node> {
    Lookup(d.cache, name)
  }

  function NotFoundMessage(filepath: string): string {
    "Could not find a coverage record for file: " + filepath
      + "\n\nTry adjusting your include_pattern and exclude_pattern settings."
  }

  /** DirectoryCoverage.get of src/coverage-report.js: a path without `/` is looked up in
      this Map (undefined when absent, never an error); otherwise the text before the first
      `/` must name a subdirectory, which is asked for the rest. Any failure below, and a
      missing or non-directory segment here, throws the error that names this path. */
  function Get(d: Directory, filepath: string): (r: Result<Option<Node>, string>)
    ensures r.Failure? ==> r.error == NotFoundMessage(filepath)
    ensures '/' !in filepath ==> r == Success(Child(d, filepath))
    decreases |filepath|
  {
    var i := IndexOf(filepath, '/');
    if i == -1 then Success(Child(d, filepath))
    else
      match Child(d, filepath[..i])
      case Some(Dir(sub)) =>
        (match Get(sub, filepath[i + 1..])
         case Success(found) => Success(found)
         case Failure(_) => Failure(NotFoundMessage(filepath)))
      case _ => Failure(NotFoundMessage(filepath))
  }

  /** What `get(p)` makes of the answer its subdirectory gives for the rest of the path:
      the answer itself, or the error naming `p`. */
  function Lift<T>(found: Result<Option<T>, string>, p: string): Result<Option<T>, string> {
    match found
    case Success(x) => Success(x)
    case Failure(_) => Failure(NotFoundMessage(p))
  }

  lemma GetThroughDir(d: Directory, p: string, sub: Directory)
    requires IndexOf(p, '/') >= 0 && Child(d, p[..IndexOf(p, '/')]) == Some(Dir(sub))
    ensures Get(d, p) == Lift(Get(sub, p[IndexOf(p, '/') + 1..]), p)
  {
  }

  /** A first segment that names nothing or a file fails with the error naming `p`. */
  lemma GetBlockedDir(d: Directory, p: string)
    requires IndexOf(p, '/') >= 0
    requires var c := Child(d, p[..IndexOf(p, '/')]); c.None? || c.value.File?
    ensures Get(d, p) == Failure(NotFoundMessage(p))
  {
  }

  /** A reference reading of a lookup over the path's segments: every segment but the last
      must name a subdirectory; the last is looked up in the directory reached. `None` is
      the failure. */
  function Resolve(d: Directory, segments: seq<string>): Option<Option<Node>>
    requires |segments| > 0
    decreases |segments|
  {
    if |segments| == 1 then Some(Child(d, segments[0]))
    else
      match Child(d, segments[0])
      case Some(Dir(sub)) => Resolve(sub, segments[1..])
      case _ => None
  }

  /** `get` is the segment lookup of `p.split('/')`, with every failure reported as the
      error naming the whole path `p`. */
  lemma {:induction false} GetResolve(d: Directory, p: string)
    ensures Get(d, p) == Answer(Resolve(d, Split(p, '/')), p)
    decreases |p|
  {
    SegmentsOfPath(p);
    var i := IndexOf(p, '/');
    if i >= 0 {
      var rest := p[i + 1..];
      SplitAtSlash(p);
      var segs := Split(p, '/');
      assert segs[0] == p[..i] && segs[1..] == Split(rest, '/');
      ResolveStep(d, segs);
      var c := Child(d, p[..i]);
      if c.Some? && c.value.Dir? {
        var sub := c.value.directory;
        GetResolve(sub, rest);
        GetThroughDir(d, p, sub);
        LiftAnswer(Resolve(sub, segs[1..]), rest, p);
      } else {
        GetBlockedDir(d, p);
        assert Resolve(d, segs) == None;
      }
    }
  }

  /** How `get(p)` reports the outcome of the segment lookup. */
  function Answer(found: Option<Option<Node>>, p: string): Result<Option<Node>, string> {
    match found
    case Some(x) => Success(x)
    case None => Failure(NotFoundMessage(p))
  }

  lemma LiftAnswer(found: Option<Option<Node>>, rest: string, p: string)
    ensures Lift(Answer(found, rest), p) == Answer(found, p)
  {
  }

  lemma ResolveStep(d: Directory, segments: seq<string>)
    requires |segments| > 1
    ensures Resolve(d, segments) == match Child(d, segments[0])
      case Some(Dir(sub)) => Resolve(sub, segments[1..])
      case _ => None
  {
  }

  /** Why the older `get` of coverage-report.js fails: the TypeError of calling `get` on
      undefined, or on a FileCoverage, which has no `get`. */
  datatype GetError = MissingDirectory(name: string) | NotADirectory(name: string)

  /** DirectoryCoverage.get of coverage-report.js: the same walk without the
      try/catch, so the failure of the innermost step surfaces unchanged. */
  function GetLegacy(d: Directory, filepath: string): (r: Result<Option<Node>, GetError>)
    ensures '/' !in filepath ==> r.Success?
    ensures r.Failure? ==> var segs := Split(filepath, '/'); |segs| > 1 && r.error.name in segs[..|segs| - 1]
    decreases |filepath|
  {
    var i := IndexOf(filepath, '/');
    SegmentsOfPath(filepath);
    if i == -1 then Success(Child(d, filepath))
    else
      var head := filepath[..i];
      assert Split(filepath, '/')[..|Split(filepath, '/')| - 1][0] == head;
      match Child(d, head)
      case Some(Dir(sub)) =>
        var r := GetLegacy(sub, filepath[i + 1..]);
        assert r.Failure? ==> var segs := Split(filepath[i + 1..], '/');
          Split(filepath, '/')[..|Split(filepath, '/')| - 1] == [head] + segs[..|segs| - 1];
        r
      case Some(File(_)) => Failure(NotADirectory(head))
      case None => Failure(MissingDirectory(head))
  }

  /** The two versions find the same things and fail on the same paths; only the error
      differs, and the newer one always names the path it was given. */
  lemma {:induction false} GetVersionsAgree(d: Directory, p: string)
    ensures Get(d, p).Success? <==> GetLegacy(d, p).Success?
    ensures Get(d, p).Success? ==> Get(d, p).value == GetLegacy(d, p).value
    decreases |p|
  {
    var i := IndexOf(p, '/');
    if i >= 0 {
      SplitAtSlash(p);
      match Child(d, p[..i])
      case Some(Dir(sub)) => GetVersionsAgree(sub, p[i + 1..]);
      case _ =>
    }
  }

  /** The record found at a path, if the path names a file. */
  function RecordOf(d: Directory, p: string): Option<FileRecord> {
    match Get(d, p)
    case Success(Some(File(r))) => Some(r)
    case _ => None
  }

  // ---------------------------------------------------------------------------
  // Updating the record at a path

  /** The tree after the FileCoverage that `get(p)` finds has been given the fields `r`;
      unchanged when `p` names no file. Map entries are replaced in place. */
  function SetRecord(d: Directory, p: string, r: FileRecord): (d': Directory)
    ensures Shape(d') == Shape(d)
    decreases |p|
  {
    var i := IndexOf(p, '/');
    if i == -1 then
      match Child(d, p)
      case Some(File(_)) =>
        ShapePut(d, p, File(r), IndexOfKey(d.cache, p));
        d.(cache := Put(d.cache, p, File(r)))
      case _ => d
    else
      var head := p[..i];
      match Child(d, head)
      case Some(Dir(sub)) =>
        var sub' := SetRecord(sub, p[i + 1..], r);
        ShapePut(d, head, Dir(sub'), IndexOfKey(d.cache, head));
        d.(cache := Put(d.cache, head, Dir(sub')))
      case _ => d
  }

  /** Through a subdirectory, SetRecord replaces that subdirectory in place. */
  lemma SetRecordThrough(d: Directory, p: string, r: FileRecord, j: nat)
    requires IndexOf(p, '/') >= 0
    requires j == IndexOfKey(d.cache, p[..IndexOf(p, '/')]) && d.cache[j].1.Dir?
    ensures SetRecord(d, p, r) == d.(cache := d.cache[j := (d.cache[j].0, Dir(SetRecord(d.cache[j].1.directory, p[IndexOf(p, '/') + 1..], r)))])
  {
  }

  /** A path with a `/` finds its record in the subdirectory its first segment names. */
  lemma RecordOfDescend(d: Directory, p: string)
    requires IndexOf(p, '/') >= 0
    ensures var i := IndexOf(p, '/');
      RecordOf(d, p) == match Child(d, p[..i]) case Some(Dir(sub)) => RecordOf(sub, p[i + 1..]) case _ => None
  {
  }

  /** The record at `p` is now `r` on every path where there was one. */
  lemma {:induction false} RecordOfSetRecord(d: Directory, p: string, r: FileRecord)
    ensures RecordOf(SetRecord(d, p, r), p) == if RecordOf(d, p).Some? then Some(r) else None
    decreases |p|, 1
  {
    var i := IndexOf(p, '/');
    var head := if i == -1 then p else p[..i];
    match Child(d, head)
    case Some(File(_)) =>
      if i == -1 {
        RecordOfSetFile(d, p, r);
      } else {
        assert SetRecord(d, p, r) == d;
        RecordOfDescend(d, p);
      }
    case Some(Dir(sub)) =>
      if i == -1 {
        assert SetRecord(d, p, r) == d;
      } else {
        RecordOfSetDir(d, p, r, sub);
      }
    case None =>
      assert SetRecord(d, p, r) == d;
  }

  lemma RecordOfSetFile(d: Directory, p: string, r: FileRecord)
    requires IndexOf(p, '/') == -1 && Child(d, p).Some? && Child(d, p).value.File?
    ensures RecordOf(SetRecord(d, p, r), p) == Some(r) && RecordOf(d, p).Some?
  {
    LookupPut(d.cache, p, File(r), p);
  }

  lemma {:induction false} RecordOfSetDir(d: Directory, p: string, r: FileRecord, sub: Directory)
    requires IndexOf(p, '/') >= 0
    requires Child(d, p[..IndexOf(p, '/')]) == Some(Dir(sub))
    ensures RecordOf(SetRecord(d, p, r), p) == if RecordOf(d, p).Some? then Some(r) else None
    decreases |p|, 0
  {
    var i := IndexOf(p, '/');
    SplitAtSlash(p);
    var head, rest := p[..i], p[i + 1..];
    var sub' := SetRecord(sub, rest, r);
    var d' := d.(cache := Put(d.cache, head, Dir(sub')));
    assert SetRecord(d, p, r) == d';
    LookupPut(d.cache, head, Dir(sub'), head);
    RecordOfSetRecord(sub, rest, r);
    RecordOfDescend(d', p);
    RecordOfDescend(d, p);
  }

  /** Nothing else is touched: every other path finds the record it found before. */
  lemma {:induction false} RecordOfSetRecordOther(d: Directory, p: string, r: FileRecord, q: string)
    requires q != p
    ensures RecordOf(SetRecord(d, p, r), q) == RecordOf(d, q)
    decreases |p|
  {
    var i := IndexOf(p, '/');
    var hp := if i == -1 then p else p[..i];
    if i >= 0 { SplitAtSlash(p); }
    match Child(d, hp)
    case Some(File(_)) =>
      if i == -1 {
        RecordOfSetFileOther(d, p, r, q);
      } else {
        assert SetRecord(d, p, r) == d;
      }
    case Some(Dir(sub)) =>
      if i >= 0 {
        RecordOfSetDirOther(d, p, r, q, sub);
      } else {
        assert SetRecord(d, p, r) == d;
      }
    case None =>
      assert SetRecord(d, p, r) == d;
  }

  lemma RecordOfSetFileOther(d: Directory, p: string, r: FileRecord, q: string)
    requires q != p && IndexOf(p, '/') == -1 && Child(d, p).Some? && Child(d, p).value.File?
    ensures RecordOf(SetRecord(d, p, r), q) == RecordOf(d, q)
  {
    var d' := d.(cache := Put(d.cache, p, File(r)));
    assert SetRecord(d, p, r) == d';
    var j := IndexOf(q, '/');
    if j == -1 {
      LookupPut(d.cache, p, File(r), q);
    } else {
      SplitAtSlash(q);
      LookupPut(d.cache, p, File(r), q[..j]);
      RecordOfDescend(d', q);
      RecordOfDescend(d, q);
    }
  }

  lemma {:induction false} RecordOfSetDirOther(d: Directory, p: string, r: FileRecord, q: string, sub: Directory)
    requires q != p && IndexOf(p, '/') >= 0
    requires Child(d, p[..IndexOf(p, '/')]) == Some(Dir(sub))
    ensures RecordOf(SetRecord(d, p, r), q) == RecordOf(d, q)
    decreases |p|, 0
  {
    var i := IndexOf(p, '/');
    SplitAtSlash(p);
    var hp, rp := p[..i], p[i + 1..];
    var sub' := SetRecord(sub, rp, r);
    var d' := d.(cache := Put(d.cache, hp, Dir(sub')));
    assert SetRecord(d, p, r) == d';
    var j := IndexOf(q, '/');
    if j == -1 {
      LookupPut(d.cache, hp, Dir(sub'), q);
    } else {
      SplitAtSlash(q);
      var hq, rq := q[..j], q[j + 1..];
      LookupPut(d.cache, hp, Dir(sub'), hq);
      RecordOfDescend(d', q);
      RecordOfDescend(d, q);
      if hq == hp {
        assert rp != rq by {
          assert p == hp + ['/'] + rp && q == hq + ['/'] + rq;
        }
        RecordOfSetRecordOther(sub, rp, r, rq);
      }
    }
  }

  /** Setting the record at a path twice leaves only the second setting. */
  lemma {:induction false} SetRecordTwice(d: Directory, p: string, r1: FileRecord, r2: FileRecord)
    ensures SetRecord(SetRecord(d, p, r1), p, r2) == SetRecord(d, p, r2)
    decreases |p|
  {
    var i := IndexOf(p, '/');
    var head := if i == -1 then p else p[..i];
    if i >= 0 { SplitAtSlash(p); }
    match Child(d, head)
    case Some(File(_)) =>
      if i == -1 {
        LookupPut(d.cache, p, File(r1), p);
        PutTwice(d.cache, p, File(r1), File(r2));
      } else {
        assert SetRecord(d, p, r1) == d;
      }
    case Some(Dir(sub)) =>
      if i >= 0 {
        var rest := p[i + 1..];
        var d1 := d.(cache := Put(d.cache, head, Dir(SetRecord(sub, rest, r1))));
        assert SetRecord(d, p, r1) == d1;
        LookupPut(d.cache, head, Dir(SetRecord(sub, rest, r1)), head);
        assert SetRecord(d1, p, r2) == d1.(cache := Put(d1.cache, head, Dir(SetRecord(SetRecord(sub, rest, r1), rest, r2))));
        SetRecordTwice(sub, rest, r1, r2);
        PutTwice(d.cache, head, Dir(SetRecord(sub, rest, r1)), Dir(SetRecord(sub, rest, r2)));
      } else {
        assert SetRecord(d, p, r1) == d;
      }
    case None =>
      assert SetRecord(d, p, r1) == d;
  }

  /** The tree with every record blanked: its names, order, directories and memos. */
  function Shape(d: Directory): Directory
    decreases d
  {
    Directory(d.dir, seq(|d.cache|, k requires 0 <= k < |d.cache| => (d.cache[k].0, ShapeOf(d.cache[k].1))), d.metrics)
  }

  function ShapeOf(n: Node): Node
    decreases n
  {
    match n
    case File(_) => File(FileRecord("", 0, 0, []))
    case Dir(sub) => Dir(Shape(sub))
  }

  lemma ShapePut(d: Directory, k: string, n: Node, i: int)
    requires i == IndexOfKey(d.cache, k) && i >= 0 && ShapeOf(n) == ShapeOf(d.cache[i].1)
    ensures Shape(d.(cache := Put(d.cache, k, n))) == Shape(d)
  {
    var c' := Put(d.cache, k, n);
    assert forall t :: 0 <= t < |c'| ==> c'[t].0 == d.cache[t].0 && ShapeOf(c'[t].1) == ShapeOf(d.cache[t].1);
  }

  // ---------------------------------------------------------------------------
  // getMetrics

  function Add(a: Metrics, b: Metrics): Metrics {
    Metrics(a.linesFound + b.linesFound, a.linesHit + b.linesHit)
  }

  /** The `reduce` of getMetrics: element-wise sums from `{ linesFound: 0, linesHit: 0 }`,
      left to right. */
  function SumMetrics(ms: seq<Metrics>): Metrics
    decreases |ms|
  {
    if ms == [] then Metrics(0, 0) else Add(SumMetrics(ms[..|ms| - 1]), ms[|ms| - 1])
  }

  /** FileCoverage.getMetrics. */
  function RecordMetrics(r: FileRecord): Metrics {
    Metrics(r.linesFound, r.linesHit)
  }

  /** What `getMetrics()` on a Map value returns. */
  function NodeMetrics(n: Node): Metrics
    decreases n
  {
    match n
    case File(r) => RecordMetrics(r)
    case Dir(sub) => DirMetrics(sub)
  }

  function ChildMetrics(d: Directory): (ms: seq<Metrics>)
    decreases d, 0
  {
    seq(|d.cache|, k requires 0 <= k < |d.cache| => NodeMetrics(d.cache[k].1))
  }

  /** DirectoryCoverage.getMetrics: the memo once there is one, else the sum over the
      children in insertion order. */
  function DirMetrics(d: Directory): Metrics
    decreases d, 1
  {
    match d.metrics
    case Some(m) => m
    case None => SumMetrics(ChildMetrics(d))
  }

  /** The tree after getMetrics: a directory without a memo memoises every child first,
      then records the sum; one with a memo is left exactly as it is. */
  function Memoize(d: Directory): (d': Directory)
    ensures d'.metrics.Some? && d'.dir == d.dir && |d'.cache| == |d.cache|
    decreases d, 1
  {
    if d.metrics.Some? then d
    else
      var c := MemoizeChildren(d);
      Directory(d.dir, c, Some(SumMetrics(ChildMetrics(Directory(d.dir, c, None)))))
  }

  /** The Map after every value has been asked for its metrics. */
  function MemoizeChildren(d: Directory): (c: seq<(string, Node)>)
    ensures |c| == |d.cache|
    ensures forall k :: 0 <= k < |d.cache| ==> c[k] == (d.cache[k].0, MemoizeNode(d.cache[k].1))
    decreases d, 0
  {
    seq(|d.cache|, k requires 0 <= k < |d.cache| => (d.cache[k].0, MemoizeNode(d.cache[k].1)))
  }

  function MemoizeNode(n: Node): Node
    decreases n
  {
    match n
    case File(r) => File(r)
    case Dir(sub) => Dir(Memoize(sub))
  }

  /** Memoising changes no answer: getMetrics returns the same value before and after. */
  lemma {:induction false} MemoizeMetrics(d: Directory)
    ensures DirMetrics(Memoize(d)) == DirMetrics(d)
    decreases d
  {
    if d.metrics.None? {
      var d' := Memoize(d);
      forall k | 0 <= k < |d.cache| ensures NodeMetrics(d'.cache[k].1) == NodeMetrics(d.cache[k].1) {
        assert d.cache[k] in d.cache;
        assert d'.cache[k].1 == MemoizeNode(d.cache[k].1);
        match d.cache[k].1
        case File(_) =>
        case Dir(sub) => MemoizeMetrics(sub);
      }
      assert ChildMetrics(Directory(d.dir, d'.cache, None)) == ChildMetrics(d);
    }
  }

  /** Without a memo, memoising stores the sum of the children's metrics as they were. */
  lemma MemoizeFresh(d: Directory)
    requires d.metrics.None?
    ensures Memoize(d) == Directory(d.dir, MemoizeChildren(d), Some(DirMetrics(d)))
  {
    MemoizeMetrics(d);
  }

  /** The total the memo stands for: the live sum over the records, ignoring memos. */
  function Total(d: Directory): Metrics
    decreases d, 1
  {
    SumMetrics(ChildTotals(d))
  }

  function ChildTotals(d: Directory): seq<Metrics>
    decreases d, 0
  {
    seq(|d.cache|, k requires 0 <= k < |d.cache| => NodeTotal(d.cache[k].1))
  }

  function NodeTotal(n: Node): Metrics
    decreases n
  {
    match n
    case File(r) => RecordMetrics(r)
    case Dir(sub) => Total(sub)
  }

  /** No directory of the tree has a memo yet, as after findFiles. */
  predicate NoMemos(d: Directory)
    decreases d
  {
    d.metrics.None? &&
    forall k :: 0 <= k < |d.cache| ==> (d.cache[k].1.Dir? ==> NoMemos(d.cache[k].1.directory))
  }

  /** Without memos, getMetrics is the live total. */
  lemma {:induction false} FreshMetricsAreTotals(d: Directory)
    requires NoMemos(d)
    ensures DirMetrics(d) == Total(d)
    decreases d
  {
    forall k | 0 <= k < |d.cache| ensures NodeMetrics(d.cache[k].1) == NodeTotal(d.cache[k].1) {
      assert d.cache[k] in d.cache;
      match d.cache[k].1
      case File(_) =>
      case Dir(sub) => FreshMetricsAreTotals(sub);
    }
    assert ChildMetrics(d) == ChildTotals(d);
  }

  /** The memo is never refreshed: once a directory has one, its getMetrics stays the memo
      whatever records are later changed below it. */
  lemma StaleMemo(d: Directory, p: string, r: FileRecord)
    requires d.metrics.Some?
    ensures DirMetrics(SetRecord(d, p, r)) == DirMetrics(d) == d.metrics.value
  {
    assert Shape(SetRecord(d, p, r)).metrics == Shape(d).metrics;
  }

  lemma SumMetricsAppend(a: seq<Metrics>, b: seq<Metrics>)
    ensures SumMetrics(a + b) == Add(SumMetrics(a), SumMetrics(b))
    decreases |b|
  {
    if b == [] {
      assert a + b == a;
    } else {
      assert (a + b)[..|a + b| - 1] == a + b[..|b| - 1];
      assert (a + b)[|a + b| - 1] == b[|b| - 1];
      SumMetricsAppend(a, b[..|b| - 1]);
    }
  }

  /** The records of the tree, depth first in insertion order. */
  function Records(d: Directory): seq<FileRecord>
    decreases d, 1
  {
    RecordsFrom(d, |d.cache|)
  }

  function RecordsFrom(d: Directory, k: nat): seq<FileRecord>
    requires k <= |d.cache|
    decreases d, 0, k
  {
    if k == 0 then []
    else
      assert d.cache[k - 1] in d.cache;
      RecordsFrom(d, k - 1) + NodeRecords(d.cache[k - 1].1)
  }

  function RecordTotals(rs: seq<FileRecord>): (ms: seq<Metrics>)
    ensures |ms| == |rs| && forall k :: 0 <= k < |rs| ==> ms[k] == RecordMetrics(rs[k])
  {
    seq(|rs|, k requires 0 <= k < |rs| => RecordMetrics(rs[k]))
  }

  lemma RecordTotalsAppend(a: seq<FileRecord>, b: seq<FileRecord>)
    ensures RecordTotals(a + b) == RecordTotals(a) + RecordTotals(b)
  {
  }

  /** The records contributed by one Map value. */
  function NodeRecords(n: Node): seq<FileRecord>
    decreases n, 2
  {
    match n
    case File(r) => [r]
    case Dir(sub) => Records(sub)
  }

  lemma SumSingleton(m: Metrics)
    ensures SumMetrics([m]) == m
  {
    assert [m][..0] == [];
  }

  lemma {:induction false} TotalFrom(d: Directory, k: nat)
    requires k <= |d.cache|
    ensures SumMetrics(ChildTotals(d)[..k]) == SumMetrics(RecordTotals(RecordsFrom(d, k)))
    decreases d, 0, k
  {
    if k > 0 {
      var ts := ChildTotals(d);
      assert d.cache[k - 1] in d.cache;
      var n := d.cache[k - 1].1;
      var before, here := RecordsFrom(d, k - 1), NodeRecords(n);
      TotalFrom(d, k - 1);
      NodeTotalIsSum(n);
      calc {
        SumMetrics(ts[..k]);
        { assert ts[..k] == ts[..k - 1] + [ts[k - 1]];
          SumMetricsAppend(ts[..k - 1], [ts[k - 1]]);
          SumSingleton(ts[k - 1]); }
        Add(SumMetrics(ts[..k - 1]), NodeTotal(n));
        Add(SumMetrics(RecordTotals(before)), SumMetrics(RecordTotals(here)));
        { SumMetricsAppend(RecordTotals(before), RecordTotals(here)); }
        SumMetrics(RecordTotals(before) + RecordTotals(here));
        { RecordTotalsAppend(before, here); }
        SumMetrics(RecordTotals(before + here));
      }
      assert RecordsFrom(d, k) == before + here;
    }
  }

  lemma {:induction false} NodeTotalIsSum(n: Node)
    ensures NodeTotal(n) == SumMetrics(RecordTotals(NodeRecords(n)))
    decreases n, 3
  {
    match n
    case File(r) =>
      assert RecordTotals([r]) == [RecordMetrics(r)];
      SumSingleton(RecordMetrics(r));
    case Dir(sub) =>
      TotalFrom(sub, |sub.cache|);
      assert ChildTotals(sub)[..|sub.cache|] == ChildTotals(sub);
  }

  /** The total of a directory is the element-wise sum over every record beneath it; no
      record is counted twice or left out. With no memo anywhere, getMetrics returns it. */
  lemma TotalIsSumOfRecords(d: Directory)
    ensures Total(d) == SumMetrics(RecordTotals(Records(d)))
    ensures NoMemos(d) ==> DirMetrics(d) == SumMetrics(RecordTotals(Records(d)))
  {
    TotalFrom(d, |d.cache|);
    assert ChildTotals(d)[..|d.cache|] == ChildTotals(d);
    if NoMemos(d) {
      FreshMetricsAreTotals(d);
    }
  }

  /** An empty directory reports `{ linesFound: 0, linesHit: 0 }`. */
  lemma EmptyMetrics(d: Directory)
    requires d.metrics.None? && d.cache == []
    ensures DirMetrics(d) == Metrics(0, 0)
  {
  }
}
