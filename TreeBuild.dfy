/** DirectoryCoverage.findFiles as a value: the coverage tree built from a directory tree.
    The file system is an `FsNode` value (what `readdirSync`, `readFileSync` and `statSync`
    report), and the include and exclude regular expressions are predicates on the full
    path (what `RegExp.prototype.test` answers). */
module TreeBuild {

  import opened Wrappers
  import opened Strings
  import opened OrderedMap
  import opened CoverageTree

  /** A file with its text; a directory with its entries in `readdirSync` order; an entry
      that exists but may not be read, whose `statSync` still tells whether it is a
      directory; or a symbolic link to nothing, which neither `readFileSync` nor `statSync`
      can follow. */
  datatype FsNode =
    | FsFile(content: string)
    | FsDir(entries: seq<(string, FsNode)>)
    | FsLocked(directory: bool)
    | FsDangling

  /** What the file system calls throw: `readFileSync` on a directory that the patterns
      selected as a file (EISDIR), `readFileSync` or `readdirSync` on an entry that may not
      be read (EACCES), and `readFileSync` or `statSync` on a dangling link (ENOENT). */
  datatype FsError = IsADirectory(path: string) | PermissionDenied(path: string) | NoSuchEntry(path: string)

  /** What the working directory can be: a directory, readable or not. */
  predicate WorkingDirectory(cwd: FsNode) {
    cwd.FsDir? || cwd == FsLocked(true)
  }

  /** The test that decides whether an entry becomes a file record: the exclude pattern
      wins over the include pattern. */
  predicate Selected(full: string, includes: string -> bool, excludes: string -> bool) {
    includes(full) && !excludes(full)
  }

  /** The record a selected file starts with: its path without the first `./`, one line
      more than it has newlines, nothing hit, nothing uncovered. */
  function NewRecord(full: string, content: string): FileRecord {
    FileRecord(RemoveFirst(full, "./"), |Split(content, '\n')|, 0, [])
  }

  /** The Map that `findFiles` leaves after visiting the first `k` entries of the directory
      `node` at path `dir`, or the error thrown on the way. */
  function Build(dir: string, node: FsNode, k: nat, includes: string -> bool, excludes: string -> bool)
    : (r: Result<seq<(string, Node)>, FsError>)
    requires node.FsDir? && k <= |node.entries|
    ensures r.Success? ==> |r.value| <= k
    decreases node, k
  {
    if k == 0 then Success([])
    else
      match Build(dir, node, k - 1, includes, excludes)
      case Failure(e) => Failure(e)
      case Success(acc) =>
        assert node.entries[k - 1] in node.entries;
        Visit(dir, acc, node.entries[k - 1].0, node.entries[k - 1].1, includes, excludes)
  }

  /** One turn of the `forEach`: the entry `name` of the directory `dir` is `child`. */
  function Visit(dir: string, acc: seq<(string, Node)>, name: string, child: FsNode, includes: string -> bool, excludes: string -> bool)
    : (r: Result<seq<(string, Node)>, FsError>)
    ensures r.Success? ==> |acc| <= |r.value| <= |acc| + 1
    ensures r.Success? ==> forall i :: 0 <= i < |acc| ==> r.value[i].0 == acc[i].0
    decreases child, if child.FsDir? then |child.entries| + 1 else 0
  {
    var full := dir + "/" + name;
    match child
    case FsFile(content) =>
      if Selected(full, includes, excludes) then Success(Put(acc, name, File(NewRecord(full, content))))
      else Success(acc)
    case FsLocked(directory) =>
      // a selected entry is opened by `readFileSync`, an unselected directory listed by
      // the `readdirSync` of its own findFiles; an unselected file is only stat'ed
      if Selected(full, includes, excludes) || directory then Failure(PermissionDenied(full))
      else Success(acc)
    case FsDangling =>
      Failure(NoSuchEntry(full))
    case FsDir(es) =>
      if Selected(full, includes, excludes) then Failure(IsADirectory(full))
      else
        match Build(full, child, |es|, includes, excludes)
        case Failure(e) => Failure(e)
        case Success(sub) =>
          if |sub| > 0 then Success(Put(acc, name, Dir(Directory(full, sub, None)))) else Success(acc)
  }

  /** The whole directory `dir` visited. */
  function BuildDir(dir: string, node: FsNode, includes: string -> bool, excludes: string -> bool)
    : (r: Result<Directory, FsError>)
    requires node.FsDir?
    ensures r.Success? ==> r.value.dir == dir && r.value.metrics.None? && |r.value.cache| <= |node.entries|
  {
    match Build(dir, node, |node.entries|, includes, excludes)
    case Failure(e) => Failure(e)
    case Success(cache) => Success(Directory(dir, cache, None))
  }

  /** generateCoverageRoot: the tree below the working directory `.`, whose `readdirSync`
      fails when it may not be read. */
  function BuildRoot(cwd: FsNode, includes: string -> bool, excludes: string -> bool): (r: Result<Directory, FsError>)
    requires WorkingDirectory(cwd)
    ensures !cwd.FsDir? ==> r == Failure(PermissionDenied("."))
    ensures r.Success? ==> r.value.dir == "." && r.value.metrics.None? && |r.value.cache| <= |cwd.entries|
  {
    if cwd.FsDir? then BuildDir(".", cwd, includes, excludes) else Failure(PermissionDenied("."))
  }

  /** An exception ends the `forEach`: once a visit throws, the whole directory fails with
      that error. */
  lemma {:induction false} BuildFailureSticks(dir: string, node: FsNode, k: nat, includes: string -> bool, excludes: string -> bool)
    requires node.FsDir? && k <= |node.entries| && Build(dir, node, k, includes, excludes).Failure?
    ensures Build(dir, node, |node.entries|, includes, excludes) == Build(dir, node, k, includes, excludes)
    decreases |node.entries| - k
  {
    if k < |node.entries| {
      assert Build(dir, node, k + 1, includes, excludes) == Build(dir, node, k, includes, excludes);
      BuildFailureSticks(dir, node, k + 1, includes, excludes);
    }
  }

  // ---------------------------------------------------------------------------
  // What every built tree looks like

  /** Every record is named after its path and starts unhit with nothing uncovered, every
      subdirectory carries its own path and is non-empty, and no directory has a memo. */
  predicate Built(d: Directory)
    decreases d
  {
    d.metrics.None? &&
    forall k :: 0 <= k < |d.cache| ==>
      match d.cache[k].1
      case File(r) =>
        r.filename == RemoveFirst(d.dir + "/" + d.cache[k].0, "./") && r.linesHit == 0 && r.uncoveredLines == []
      case Dir(sub) =>
        sub.dir == d.dir + "/" + d.cache[k].0 && |sub.cache| > 0 && Built(sub)
  }

  /** Every entry of a Map under construction satisfies the condition of `Built`. */
  predicate BuiltEntries(dir: string, acc: seq<(string, Node)>) {
    forall k :: 0 <= k < |acc| ==>
      match acc[k].1
      case File(r) =>
        r.filename == RemoveFirst(dir + "/" + acc[k].0, "./") && r.linesHit == 0 && r.uncoveredLines == []
      case Dir(sub) =>
        sub.dir == dir + "/" + acc[k].0 && |sub.cache| > 0 && Built(sub)
  }

  lemma BuiltEntriesPut(dir: string, acc: seq<(string, Node)>, name: string, n: Node)
    requires BuiltEntries(dir, acc) && BuiltEntries(dir, [(name, n)])
    ensures BuiltEntries(dir, Put(acc, name, n))
  {
    var r := Put(acc, name, n);
    assert [(name, n)][0] == (name, n);
    forall k | 0 <= k < |r| ensures r[k] == (name, n) || r[k] == acc[k] {
    }
  }

  /** A successful build satisfies `Built`. */
  lemma {:induction false} BuildIsBuilt(dir: string, node: FsNode, k: nat, includes: string -> bool, excludes: string -> bool)
    requires node.FsDir? && k <= |node.entries|
    requires Build(dir, node, k, includes, excludes).Success?
    ensures BuiltEntries(dir, Build(dir, node, k, includes, excludes).value)
    decreases node, k
  {
    if k > 0 {
      BuildIsBuilt(dir, node, k - 1, includes, excludes);
      assert node.entries[k - 1] in node.entries;
      VisitIsBuilt(dir, Build(dir, node, k - 1, includes, excludes).value, node.entries[k - 1].0, node.entries[k - 1].1, includes, excludes);
    }
  }

  lemma {:induction false} VisitIsBuilt(dir: string, acc: seq<(string, Node)>, name: string, child: FsNode, includes: string -> bool, excludes: string -> bool)
    requires BuiltEntries(dir, acc) && Visit(dir, acc, name, child, includes, excludes).Success?
    ensures BuiltEntries(dir, Visit(dir, acc, name, child, includes, excludes).value)
    decreases child, if child.FsDir? then |child.entries| + 1 else 0
  {
    var full := dir + "/" + name;
    match child
    case FsFile(content) =>
      if Selected(full, includes, excludes) {
        BuiltEntriesPut(dir, acc, name, File(NewRecord(full, content)));
      }
    case FsDir(es) =>
      BuildIsBuilt(full, child, |es|, includes, excludes);
      var sub := Build(full, child, |es|, includes, excludes).value;
      if |sub| > 0 {
        assert Built(Directory(full, sub, None));
        BuiltEntriesPut(dir, acc, name, Dir(Directory(full, sub, None)));
      }
    case _ =>
  }

  /** The tree findFiles builds: no memo anywhere, no empty subdirectory, every file
      record unhit and named after its path below `dir`. */
  lemma BuildDirBuilt(dir: string, node: FsNode, includes: string -> bool, excludes: string -> bool)
    requires node.FsDir? && BuildDir(dir, node, includes, excludes).Success?
    ensures Built(BuildDir(dir, node, includes, excludes).value)
    ensures NoMemos(BuildDir(dir, node, includes, excludes).value)
  {
    BuildIsBuilt(dir, node, |node.entries|, includes, excludes);
    BuiltNoMemos(BuildDir(dir, node, includes, excludes).value);
  }

  lemma {:induction false} BuiltNoMemos(d: Directory)
    requires Built(d)
    ensures NoMemos(d)
    decreases d
  {
    forall k | 0 <= k < |d.cache| && d.cache[k].1.Dir? ensures NoMemos(d.cache[k].1.directory) {
      assert d.cache[k] in d.cache;
      BuiltNoMemos(d.cache[k].1.directory);
    }
  }

  /** In a built tree, the record that `get(p)` finds is named `p` prefixed with the
      directory's path, less the first `./`. */
  lemma {:induction false} BuiltRecordName(d: Directory, p: string)
    requires Built(d) && RecordOf(d, p).Some?
    ensures RecordOf(d, p).value.filename == RemoveFirst(d.dir + "/" + p, "./")
    decreases |p|
  {
    var i := IndexOf(p, '/');
    if i == -1 {
      var j := IndexOfKey(d.cache, p);
      assert d.cache[j].0 == p;
    } else {
      SplitAtSlash(p);
      RecordOfDescend(d, p);
      var head, rest := p[..i], p[i + 1..];
      var j := IndexOfKey(d.cache, head);
      assert j >= 0 && d.cache[j].1.Dir?;
      var sub := d.cache[j].1.directory;
      assert RecordOf(d, p) == RecordOf(sub, rest);
      BuiltChild(d, j);
      BuiltRecordName(sub, rest);
      JoinPath(d.dir, head, rest, p);
    }
  }

  /** A subdirectory of a built tree is built and carries its parent's path and its name. */
  lemma BuiltChild(d: Directory, j: nat)
    requires Built(d) && j < |d.cache| && d.cache[j].1.Dir?
    ensures d.cache[j].1.directory.dir == d.dir + "/" + d.cache[j].0 && Built(d.cache[j].1.directory)
  {
  }

  lemma JoinPath(dir: string, head: string, rest: string, p: string)
    requires p == head + ['/'] + rest
    ensures (dir + "/" + head) + "/" + rest == dir + "/" + p
  {
  }

  /** So every record of the root tree is found under exactly the name it carries: an lcov
      `SF:` line naming a file relative to the working directory finds that file's record. */
  lemma RootRecordName(cwd: FsNode, includes: string -> bool, excludes: string -> bool, p: string)
    requires cwd.FsDir? && BuildRoot(cwd, includes, excludes).Success?
    requires RecordOf(BuildRoot(cwd, includes, excludes).value, p).Some?
    ensures RecordOf(BuildRoot(cwd, includes, excludes).value, p).value.filename == p
  {
    var d := BuildRoot(cwd, includes, excludes).value;
    BuildDirBuilt(".", cwd, includes, excludes);
    BuiltRecordName(d, p);
    assert d.dir + "/" + p == "./" + p;
    RemoveFirstLeading("./" + p, "./");
  }

  // ---------------------------------------------------------------------------
  // Which entries become children

  /** The names of a directory's entries. */
  ghost predicate DistinctNames(node: FsNode)
    requires node.FsDir?
  {
    forall i, j :: 0 <= i < j < |node.entries| ==> node.entries[i].0 != node.entries[j].0
  }

  /** No entry among the first `k` is called `name`. */
  predicate Unlisted(name: string, node: FsNode, k: nat)
    requires node.FsDir? && k <= |node.entries|
  {
    forall i :: 0 <= i < k ==> node.entries[i].0 != name
  }

  /** The Map `acc` has no key but the first `k` entries' names, and holds under each what
      `EntryRule` says. */
  ghost predicate ChildrenFollowRule(dir: string, node: FsNode, k: nat, includes: string -> bool, excludes: string -> bool, acc: seq<(string, Node)>)
    requires node.FsDir? && k <= |node.entries|
  {
    (forall name :: Unlisted(name, node, k) ==> Lookup(acc, name) == None) &&
    forall i :: 0 <= i < k ==> EntryRule(dir, node.entries[i], includes, excludes, Lookup(acc, node.entries[i].0))
  }

  /** With distinct entry names (as `readdirSync` reports them), every entry is stored
      under its name as `EntryRule` says, and nothing else is stored. */
  lemma {:induction false} BuildChildren(dir: string, node: FsNode, k: nat, includes: string -> bool, excludes: string -> bool)
    requires node.FsDir? && k <= |node.entries| && DistinctNames(node)
    requires Build(dir, node, k, includes, excludes).Success?
    ensures ChildrenFollowRule(dir, node, k, includes, excludes, Build(dir, node, k, includes, excludes).value)
    decreases k
  {
    if k > 0 {
      BuildChildren(dir, node, k - 1, includes, excludes);
      var prev := Build(dir, node, k - 1, includes, excludes).value;
      assert node.entries[k - 1] in node.entries;
      var name, child := node.entries[k - 1].0, node.entries[k - 1].1;
      assert Build(dir, node, k, includes, excludes) == Visit(dir, prev, name, child, includes, excludes);
      assert Unlisted(name, node, k - 1);
      VisitLookup(dir, prev, name, child, includes, excludes);
      ChildrenStep(dir, node, k, includes, excludes, prev, Build(dir, node, k, includes, excludes).value);
    }
  }

  lemma ChildrenStep(dir: string, node: FsNode, k: nat, includes: string -> bool, excludes: string -> bool,
                     prev: seq<(string, Node)>, acc: seq<(string, Node)>)
    requires node.FsDir? && 0 < k <= |node.entries| && DistinctNames(node)
    requires ChildrenFollowRule(dir, node, k - 1, includes, excludes, prev)
    requires EntryRule(dir, node.entries[k - 1], includes, excludes, Lookup(acc, node.entries[k - 1].0))
    requires forall q :: q != node.entries[k - 1].0 ==> Lookup(acc, q) == Lookup(prev, q)
    ensures ChildrenFollowRule(dir, node, k, includes, excludes, acc)
  {
    var name := node.entries[k - 1].0;
    forall i | 0 <= i < k - 1 ensures node.entries[i].0 != name {
    }
  }

  /** What `findFiles` stores under the name of one entry, as `found`: a selected file
      maps to its fresh record; a selected directory has already failed the build; an
      unselected directory maps to the directory built from it when that is non-empty and
      is absent otherwise; an unselected file is absent, readable or not; a dangling link,
      an unlistable directory and a selected unreadable file have failed the build. */
  predicate EntryRule(dir: string, entry: (string, FsNode), includes: string -> bool, excludes: string -> bool, found: Option<Node>) {
    var full := dir + "/" + entry.0;
    match entry.1
    case FsFile(content) =>
      found == if Selected(full, includes, excludes) then Some(File(NewRecord(full, content))) else None
    case FsLocked(directory) =>
      !Selected(full, includes, excludes) && !directory && found == None
    case FsDangling => false
    case FsDir(es) =>
      !Selected(full, includes, excludes) &&
      match Build(full, entry.1, |es|, includes, excludes)
      case Success(sub) => found == if |sub| > 0 then Some(Dir(Directory(full, sub, None))) else None
      case Failure(_) => false
  }

  /** One visit stores what `EntryRule` says under a new name and touches no other key. */
  lemma VisitLookup(dir: string, acc: seq<(string, Node)>, name: string, child: FsNode, includes: string -> bool, excludes: string -> bool)
    requires Lookup(acc, name) == None && Visit(dir, acc, name, child, includes, excludes).Success?
    ensures var r := Visit(dir, acc, name, child, includes, excludes).value;
      EntryRule(dir, (name, child), includes, excludes, Lookup(r, name)) &&
      forall q :: q != name ==> Lookup(r, q) == Lookup(acc, q)
  {
    var full := dir + "/" + name;
    match child
    case FsFile(content) =>
      if Selected(full, includes, excludes) {
        PutLookups(acc, name, File(NewRecord(full, content)));
      }
    case FsDir(es) =>
      var sub := Build(full, child, |es|, includes, excludes).value;
      if |sub| > 0 {
        PutLookups(acc, name, Dir(Directory(full, sub, None)));
      }
    case _ =>
  }

  lemma PutLookups(acc: seq<(string, Node)>, name: string, n: Node)
    ensures Lookup(Put(acc, name, n), name) == Some(n)
    ensures forall q :: q != name ==> Lookup(Put(acc, name, n), q) == Lookup(acc, q)
  {
    LookupPut(acc, name, n, name);
    forall q | q != name ensures Lookup(Put(acc, name, n), q) == Lookup(acc, q) {
      LookupPut(acc, name, n, q);
    }
  }

  /** An entry is a file record exactly when it is a file that the include pattern
      matches and the exclude pattern does not. */
  lemma FileLeafRule(dir: string, node: FsNode, includes: string -> bool, excludes: string -> bool, i: nat)
    requires node.FsDir? && i < |node.entries| && DistinctNames(node)
    requires BuildDir(dir, node, includes, excludes).Success?
    ensures var found := Child(BuildDir(dir, node, includes, excludes).value, node.entries[i].0);
      var full := dir + "/" + node.entries[i].0;
      (found.Some? && found.value.File?) <==> node.entries[i].1.FsFile? && includes(full) && !excludes(full)
  {
    BuildChildren(dir, node, |node.entries|, includes, excludes);
    assert ChildrenFollowRule(dir, node, |node.entries|, includes, excludes, Build(dir, node, |node.entries|, includes, excludes).value);
    assert EntryRule(dir, node.entries[i], includes, excludes,
      Lookup(Build(dir, node, |node.entries|, includes, excludes).value, node.entries[i].0));
  }

  /** A file record starts with one more line than its file has newlines: an empty file
      has one line. */
  lemma NewRecordLines(full: string, content: string)
    ensures NewRecord(full, content).linesFound == Count(content, '\n') + 1
    ensures NewRecord("./tmp_test_files/file2", "").linesFound == 1
  {
    SplitLength(content, '\n');
  }

  /** A build that succeeds met no directory that the patterns select as a file: such a
      directory makes `readFileSync` throw. */
  lemma SelectedDirectoryFails(dir: string, node: FsNode, includes: string -> bool, excludes: string -> bool, i: nat)
    requires node.FsDir? && i < |node.entries| && DistinctNames(node)
    requires BuildDir(dir, node, includes, excludes).Success?
    ensures node.entries[i].1.FsDir? ==> !Selected(dir + "/" + node.entries[i].0, includes, excludes)
  {
    BuildChildren(dir, node, |node.entries|, includes, excludes);
    assert ChildrenFollowRule(dir, node, |node.entries|, includes, excludes, Build(dir, node, |node.entries|, includes, excludes).value);
    assert EntryRule(dir, node.entries[i], includes, excludes,
      Lookup(Build(dir, node, |node.entries|, includes, excludes).value, node.entries[i].0));
  }

  /** A build that succeeds met no dangling link, no directory it may not list, and no
      selected file it may not read: each of those makes a file system call throw. */
  lemma UnreadableEntriesFail(dir: string, node: FsNode, includes: string -> bool, excludes: string -> bool, i: nat)
    requires node.FsDir? && i < |node.entries| && DistinctNames(node)
    requires BuildDir(dir, node, includes, excludes).Success?
    ensures !node.entries[i].1.FsDangling?
    ensures node.entries[i].1.FsLocked? ==>
      !node.entries[i].1.directory && !Selected(dir + "/" + node.entries[i].0, includes, excludes)
  {
    BuildChildren(dir, node, |node.entries|, includes, excludes);
    assert ChildrenFollowRule(dir, node, |node.entries|, includes, excludes, Build(dir, node, |node.entries|, includes, excludes).value);
    assert EntryRule(dir, node.entries[i], includes, excludes,
      Lookup(Build(dir, node, |node.entries|, includes, excludes).value, node.entries[i].0));
  }
}
