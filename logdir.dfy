/**
 * The phases every log-directory resolver goes through, shared by the host
 * and service resolvers of both source copies:
 *   1. take the entries of the data directory whose names are version tags,
 *   2. walk each of them recursively, choosing a directory by a marker rule,
 *   3. list the chosen directory's regular `.log` files.
 */
module LogDir {
  import opened Wrappers
  import opened FileTree
  import opened Versions
  import opened Markers

  /** The outcome of a resolver: an error message ("" on success) and the paths it appended. */
  datatype Resolution = Resolution(error: string, appended: seq<Path>)

  function Failed(message: string): Resolution {
    Resolution(message, [])
  }

  /** Why the platform's writable data directory could not be determined. */
  datatype RootFailure =
    | WindowsAppDataUnavailable   // the local application-data folder query failed (Vista and later)
    | WinXpAppDataUnavailable     // the same query failed on older Windows
    | AppSupportUnavailable       // the user's Application Support folder could not be found (macOS)

  function RootMessage(f: RootFailure): (message: string)
    ensures message != ""
  {
    match f
    case WindowsAppDataUnavailable => "couldn't determine windows AppData directory"
    case WinXpAppDataUnavailable => "couldn't determine winxp AppData directory"
    case AppSupportUnavailable => "couldn't find user scoped application support directory"
  }

  /**
   * The platform's per-user writable data directory, as the platform query
   * delivered it: its path (possibly empty) and the filesystem node there.
   */
  datatype PlatformRoot = Unavailable(failure: RootFailure) | Available(path: Path, node: Node)

  /** The host application's data directory below the platform root. */
  const BrowserPlusDir: seq<string> := ["Yahoo!", "BrowserPlus"]

  /** The directory holding one data directory per service. */
  const CoreletDataDir: seq<string> := ["Yahoo!", "BrowserPlus", "CoreletData"]

  /** A version directory to be walked: its path and its node. */
  datatype Candidate = Candidate(path: Path, node: Node)

  /** The entries of `l` whose names `rule` accepts, in enumeration order. */
  function Candidates(l: Listing, rule: Rule, parse: Parser): (cs: seq<Candidate>)
    ensures |cs| <= |l.entries|
    decreases |l.entries|
  {
    if l.entries == [] then []
    else
      var last := l.entries[|l.entries| - 1];
      var before := Candidates(Listing(l.path, l.entries[..|l.entries| - 1], l.broken), rule, parse);
      if Accepts(rule, parse, last.name) then before + [Candidate(l.path + [last.name], last)] else before
  }

  /** The candidates are exactly the accepted immediate entries, each at its own path. */
  lemma {:induction false} CandidatesExactly(l: Listing, rule: Rule, parse: Parser, c: Candidate)
    ensures c in Candidates(l, rule, parse) <==>
            c.node in l.entries && Accepts(rule, parse, c.node.name) && c.path == l.path + [c.node.name]
    decreases |l.entries|
  {
    if l.entries != [] {
      var n := |l.entries| - 1;
      var shorter := Listing(l.path, l.entries[..n], l.broken);
      CandidatesExactly(shorter, rule, parse, c);
      assert l.entries == l.entries[..n] + [l.entries[n]];
    }
  }

  /** The candidates among `cs` whose names `rule` accepts, in order. */
  function Retain(cs: seq<Candidate>, rule: Rule, parse: Parser): seq<Candidate>
    decreases |cs|
  {
    if cs == [] then []
    else
      var last := cs[|cs| - 1];
      Retain(cs[..|cs| - 1], rule, parse) + (if Accepts(rule, parse, last.node.name) then [last] else [])
  }

  /**
   * The service resolvers' major-only filter only narrows the host
   * resolvers' filter: its candidates are the host candidates whose
   * version is major-only, in the same order.
   */
  lemma {:induction false} MajorOnlyNarrowsCandidates(l: Listing, parse: Parser)
    ensures Candidates(l, MajorOnly, parse) == Retain(Candidates(l, AnyVersion, parse), MajorOnly, parse)
    decreases |l.entries|
  {
    if l.entries != [] {
      var n := |l.entries| - 1;
      var last := l.entries[n];
      var shorter := Listing(l.path, l.entries[..n], l.broken);
      MajorOnlyNarrowsCandidates(shorter, parse);
      var before := Candidates(shorter, AnyVersion, parse);
      if Accepts(AnyVersion, parse, last.name) {
        var c := Candidate(l.path + [last.name], last);
        assert (before + [c])[..|before|] == before;
      }
    }
  }

  /**
   * The non-recursive first pass: every entry of `l` whose name is a version
   * tag under `rule` is kept.  Fails when the enumeration of `l` fails.
   */
  method CollectVersionDirs(l: Listing, rule: Rule, parse: Parser) returns (ok: bool, versionDirs: seq<Candidate>)
    ensures ok == !l.broken
    ensures versionDirs == Candidates(l, rule, parse)
  {
    versionDirs := [];
    var i := 0;
    while i < |l.entries|
      invariant 0 <= i <= |l.entries|
      invariant versionDirs == Candidates(Listing(l.path, l.entries[..i], l.broken), rule, parse)
    {
      var e := l.entries[i];
      assert l.entries[..i + 1][..i] == l.entries[..i];
      if Accepts(rule, parse, e.name) {
        versionDirs := versionDirs + [Candidate(l.path + [e.name], e)];
      }
      i := i + 1;
    }
    assert l.entries[..i] == l.entries;
    ok := !l.broken;
  }

  /** Everything the recursive walks of `versionDirs` yield, in order, up to the first failing walk. */
  function AllVisits(versionDirs: seq<Candidate>): Traversal
    decreases |versionDirs|
  {
    if versionDirs == [] then Traversal([], false)
    else
      var before := AllVisits(versionDirs[..|versionDirs| - 1]);
      if before.failed then before
      else
        var last := versionDirs[|versionDirs| - 1];
        var t := Walk(last.path, last.node);
        Traversal(before.visits + t.visits, t.failed)
  }

  lemma AllVisitsSnoc(versionDirs: seq<Candidate>, i: nat)
    requires i < |versionDirs| && !AllVisits(versionDirs[..i]).failed
    ensures var t := Walk(versionDirs[i].path, versionDirs[i].node);
            AllVisits(versionDirs[..i + 1]) == Traversal(AllVisits(versionDirs[..i]).visits + t.visits, t.failed)
  {
    assert versionDirs[..i + 1][..i] == versionDirs[..i];
  }

  /** Once a walk has failed, the later version directories cannot undo it. */
  lemma {:induction false} FailurePersists(versionDirs: seq<Candidate>, i: nat)
    requires i <= |versionDirs| && AllVisits(versionDirs[..i]).failed
    ensures AllVisits(versionDirs) == AllVisits(versionDirs[..i])
    decreases |versionDirs|
  {
    if i < |versionDirs| {
      var n := |versionDirs| - 1;
      assert versionDirs[..n][..i] == versionDirs[..i];
      FailurePersists(versionDirs[..n], i);
    } else {
      assert versionDirs[..i] == versionDirs;
    }
  }

  /** When no walk failed, every directory that produced a visit was enumerated without error. */
  lemma {:induction false} AllVisitsComplete(versionDirs: seq<Candidate>)
    requires !AllVisits(versionDirs).failed
    ensures forall v :: v in AllVisits(versionDirs).visits ==> !v.parent.broken
    decreases |versionDirs|
  {
    if versionDirs != [] {
      var n := |versionDirs| - 1;
      AllVisitsComplete(versionDirs[..n]);
      var last := versionDirs[n];
      if last.node.Dir? {
        WalkListingsComplete(last.path, last.node, 0);
      }
    }
  }

  /** Every visit of the walks lies at or below one of the version directories walked. */
  lemma {:induction false} AllVisitsBelowCandidates(versionDirs: seq<Candidate>)
    ensures forall v :: v in AllVisits(versionDirs).visits ==>
                        exists c :: c in versionDirs && Below(v.parent.path, c.path)
    decreases |versionDirs|
  {
    if versionDirs != [] {
      var n := |versionDirs| - 1;
      var prefix := versionDirs[..n];
      AllVisitsBelowCandidates(prefix);
      var last := versionDirs[n];
      if last.node.Dir? {
        WalkStaysBelow(last.path, last.node, 0);
      }
      forall v | v in AllVisits(versionDirs).visits
        ensures exists c :: c in versionDirs && Below(v.parent.path, c.path)
      {
        if v in AllVisits(prefix).visits {
          var c :| c in prefix && Below(v.parent.path, c.path);
          assert c in versionDirs;
        } else {
          assert last in versionDirs;
        }
      }
    }
  }

  /** The directory a marker rule chooses lies at or below one of the version directories. */
  lemma ChosenLiesBelowCandidate(versionDirs: seq<Candidate>, m: Marker)
    requires Winner(AllVisits(versionDirs).visits, m).Some?
    ensures exists c :: c in versionDirs && Below(Winner(AllVisits(versionDirs).visits, m).value.path, c.path)
  {
    var vs := AllVisits(versionDirs).visits;
    WinnerWasSeen(vs, m);
    AllVisitsBelowCandidates(versionDirs);
    var j :| 0 <= j < |vs| && IsMarker(m, vs[j].entry.name) && vs[j].parent == Winner(vs, m).value;
    assert vs[j] in vs;
  }

  /** A directory chosen from a walk that did not fail lists without error. */
  lemma ChosenIsComplete(versionDirs: seq<Candidate>, m: Marker)
    requires !AllVisits(versionDirs).failed && Winner(AllVisits(versionDirs).visits, m).Some?
    ensures !Winner(AllVisits(versionDirs).visits, m).value.broken
  {
    var vs := AllVisits(versionDirs).visits;
    WinnerWasSeen(vs, m);
    AllVisitsComplete(versionDirs);
    var j :| 0 <= j < |vs| && IsMarker(m, vs[j].entry.name) && vs[j].parent == Winner(vs, m).value;
    assert vs[j] in vs;
  }

  /**
   * The test applied to one marker: written after the threshold it replaces
   * the choice; with an unreadable time it is taken only when nothing is
   * chosen yet.  The threshold is the scan's `lastWrite`, which stays 0.
   */
  method Consider(logDir: Option<Listing>, v: Visit, lastWrite: int) returns (next: Option<Listing>)
    requires lastWrite == InitialLastWrite
    ensures next == Adopt(logDir, v.entry.mtime, v.parent)
  {
    next := logDir;
    match v.entry.mtime
    case Written(time) =>
      var curWrite := time;
      if curWrite > lastWrite {
        curWrite := lastWrite;
        next := Some(v.parent);
      }
    case Unreadable =>
      if next.None? {
        next := Some(v.parent);
      }
  }

  /**
   * One recursive walk of the scan: every marker among `visits` is
   * considered in turn, starting from the choice made over `seen`.
   */
  method ScanWalk(logDir: Option<Listing>, ghost seen: seq<Visit>, visits: seq<Visit>, m: Marker, lastWrite: int)
    returns (next: Option<Listing>)
    requires lastWrite == InitialLastWrite && logDir == Winner(seen, m)
    ensures next == Winner(seen + visits, m)
  {
    next := logDir;
    ghost var done := seen;
    var k := 0;
    while k < |visits|
      invariant 0 <= k <= |visits|
      invariant done == seen + visits[..k]
      invariant next == Winner(done, m)
    {
      var v := visits[k];
      WinnerSnoc(done, v, m);
      if IsMarker(m, v.entry.name) {
        next := Consider(next, v, lastWrite);
      }
      TakeOneMore(visits, k);
      done := done + [v];
      k := k + 1;
    }
    assert visits[..k] == visits;
  }

  /**
   * The recursive pass with a single marker rule: walks every version
   * directory in order and keeps the directory chosen by `m`.
   * `ok` is false when some walk failed.
   */
  method ScanOne(versionDirs: seq<Candidate>, m: Marker) returns (ok: bool, logDir: Option<Listing>)
    ensures ok == !AllVisits(versionDirs).failed
    ensures ok ==> logDir == Winner(AllVisits(versionDirs).visits, m)
  {
    logDir := None;
    var lastWrite := InitialLastWrite;
    var i := 0;
    while i < |versionDirs|
      invariant 0 <= i <= |versionDirs|
      invariant !AllVisits(versionDirs[..i]).failed
      invariant logDir == Winner(AllVisits(versionDirs[..i]).visits, m)
    {
      var vd := versionDirs[i];
      AllVisitsSnoc(versionDirs, i);
      var t := Walk(vd.path, vd.node);
      logDir := ScanWalk(logDir, AllVisits(versionDirs[..i]).visits, t.visits, m, lastWrite);
      if t.failed {
        FailurePersists(versionDirs, i + 1);
        return false, logDir;
      }
      i := i + 1;
    }
    assert versionDirs[..i] == versionDirs;
    ok := true;
  }

  predicate IsLogFile(e: Node) {
    e.File? && e.regular && Extension(e.name) == LogExtension
  }

  /** The paths of the regular `.log` files among `entries`, in enumeration order. */
  function LogFiles(dir: Path, entries: seq<Node>): seq<Path>
    decreases |entries|
  {
    if entries == [] then []
    else
      var last := entries[|entries| - 1];
      LogFiles(dir, entries[..|entries| - 1]) + (if IsLogFile(last) then [dir + [last.name]] else [])
  }

  /** Listing is not recursive: a path is listed exactly when it names a regular `.log` entry of `dir`. */
  lemma {:induction false} LogFilesExactly(dir: Path, entries: seq<Node>, p: Path)
    ensures p in LogFiles(dir, entries) <==>
            exists e :: e in entries && IsLogFile(e) && p == dir + [e.name]
    decreases |entries|
  {
    if entries != [] {
      var n := |entries| - 1;
      LogFilesExactly(dir, entries[..n], p);
      assert entries == entries[..n] + [entries[n]];
    }
  }

  /** Every listed path lies directly in `dir`. */
  lemma {:induction false} LogFilesInDir(dir: Path, entries: seq<Node>)
    ensures forall p :: p in LogFiles(dir, entries) ==> |p| == |dir| + 1 && p[..|dir|] == dir
    ensures |LogFiles(dir, entries)| <= |entries|
    decreases |entries|
  {
    if entries != [] {
      LogFilesInDir(dir, entries[..|entries| - 1]);
    }
  }

  /**
   * The final pass: appends to `paths` the regular `.log` files of `dir`, in
   * enumeration order.  When the enumeration fails (after the entries it did
   * produce), `ok` is false and what was appended stays appended.
   */
  method ListLogFiles(dir: Listing, paths: seq<Path>) returns (ok: bool, out: seq<Path>)
    ensures ok == !dir.broken
    ensures out == paths + LogFiles(dir.path, dir.entries)
  {
    out := paths;
    var i := 0;
    while i < |dir.entries|
      invariant 0 <= i <= |dir.entries|
      invariant out == paths + LogFiles(dir.path, dir.entries[..i])
    {
      var e := dir.entries[i];
      assert dir.entries[..i + 1][..i] == dir.entries[..i];
      if e.File? && e.regular {
        if Extension(e.name) == LogExtension {
          out := out + [dir.path + [e.name]];
        }
      }
      i := i + 1;
    }
    assert dir.entries[..i] == dir.entries;
    ok := !dir.broken;
  }

  lemma OnlyLowerCaseLogIsListed(t: Stamp)
    ensures IsLogFile(File("a.log", t, true))
    ensures !IsLogFile(File("a.LOG", t, true)) && !IsLogFile(File("a.txt", t, true))
  {
    LogExtensionIsSuffix("a.log");
    LogExtensionIsSuffix("a.LOG");
    LogExtensionIsSuffix("a.txt");
    assert "a.log"[1..] == ".log";
    assert "a.LOG"[2] == 'L' && "a.txt"[2] == 't';
  }

  /** Of three entries of which only the first is a log file, only the first is listed. */
  lemma OnlyFirstOfThreeListed(dir: Path, good: Node, upper: Node, other: Node)
    requires IsLogFile(good) && !IsLogFile(upper) && !IsLogFile(other)
    ensures LogFiles(dir, [good, upper, other]) == [dir + [good.name]]
  {
    var one, two, three := [good], [good, upper], [good, upper, other];
    assert one[..0] == [];
    assert LogFiles(dir, one) == [dir + [good.name]];
    assert two[..1] == one;
    assert LogFiles(dir, two) == LogFiles(dir, one);
    assert three[..2] == two;
    assert LogFiles(dir, three) == LogFiles(dir, two);
  }

  /** File names are compared exactly: `a.log` is listed, `a.LOG` and `a.txt` are not. */
  lemma ListingIsCaseSensitive(dir: Path, t: Stamp)
    ensures LogFiles(dir, [File("a.log", t, true), File("a.LOG", t, true), File("a.txt", t, true)])
            == [dir + ["a.log"]]
  {
    OnlyLowerCaseLogIsListed(t);
    OnlyFirstOfThreeListed(dir, File("a.log", t, true), File("a.LOG", t, true), File("a.txt", t, true));
  }
}
