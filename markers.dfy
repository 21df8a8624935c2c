/**
 * Marker files and the rule that picks the log directory from them.
 *
 * During the scan the resolver keeps the directory of a marker it has seen.
 * Its threshold `lastWrite` starts at 0 and is never raised (the assignment
 * after a match writes the local copy instead), so every marker written
 * after time 0 replaces the current choice, and a marker whose time cannot
 * be read is taken only while nothing has been chosen.
 */
module Markers {
  import opened Wrappers
  import opened FileTree

  const CoreLogName := "BrowserPlusCore.log"
  const ConfigName := "BrowserPlus.config"
  const LogExtension := ".log"

  /** The threshold the scan compares write times with; it keeps its initial value. */
  const InitialLastWrite: int := 0

  datatype Marker =
    | CoreLog      // an entry named BrowserPlusCore.log
    | ConfigFile   // an entry named BrowserPlus.config
    | AnyLog       // any entry whose extension is .log

  predicate IsMarker(m: Marker, name: string) {
    match m
    case CoreLog => name == CoreLogName
    case ConfigFile => name == ConfigName
    case AnyLog => Extension(name) == LogExtension
  }

  /** The choice after one marker with write time `stamp` found in `dir`. */
  function Adopt(chosen: Option<Listing>, stamp: Stamp, dir: Listing): (r: Option<Listing>)
    ensures chosen.Some? ==> r.Some?
    ensures r == chosen || r == Some(dir)
  {
    match stamp
    case Written(t) => if t > InitialLastWrite then Some(dir) else chosen
    case Unreadable => if chosen.None? then Some(dir) else chosen
  }

  /** The choice after the scan has looked at one more entry `v`. */
  function Step(chosen: Option<Listing>, v: Visit, m: Marker): Option<Listing> {
    if IsMarker(m, v.entry.name) then Adopt(chosen, v.entry.mtime, v.parent) else chosen
  }

  /** The directory chosen after the scan has seen `visits`, in order. */
  function Winner(visits: seq<Visit>, m: Marker): Option<Listing>
    decreases |visits|
  {
    if visits == [] then None
    else Step(Winner(visits[..|visits| - 1], m), visits[|visits| - 1], m)
  }

  /** A marker written after the threshold. */
  predicate Fresh(m: Marker, v: Visit) {
    IsMarker(m, v.entry.name) && v.entry.mtime.Written? && v.entry.mtime.time > InitialLastWrite
  }

  /** A marker whose write time cannot be read. */
  predicate Blind(m: Marker, v: Visit) {
    IsMarker(m, v.entry.name) && v.entry.mtime.Unreadable?
  }

  lemma WinnerSnoc(visits: seq<Visit>, v: Visit, m: Marker)
    ensures Winner(visits + [v], m) == Step(Winner(visits, m), v, m)
  {
    assert (visits + [v])[..|visits|] == visits;
  }

  lemma TakeOneMore(visits: seq<Visit>, k: nat)
    requires k < |visits|
    ensures visits[..k + 1] == visits[..k] + [visits[k]]
  {
  }

  /** Looking at the `k`-th of `visits` after `seen` and the visits before it. */
  lemma WinnerExtend(seen: seq<Visit>, visits: seq<Visit>, k: nat, m: Marker)
    requires k < |visits|
    ensures Winner(seen + visits[..k + 1], m) == Step(Winner(seen + visits[..k], m), visits[k], m)
  {
    assert visits[..k + 1] == visits[..k] + [visits[k]];
    assert seen + visits[..k + 1] == (seen + visits[..k]) + [visits[k]];
    WinnerSnoc(seen + visits[..k], visits[k], m);
  }

  lemma WinnerUnfold(visits: seq<Visit>, m: Marker)
    requires visits != []
    ensures Winner(visits, m) == Step(Winner(visits[..|visits| - 1], m), visits[|visits| - 1], m)
  {
  }

  /** The last fresh marker in traversal order wins, whatever comes after it. */
  lemma {:induction false} WinnerIsLastFresh(visits: seq<Visit>, m: Marker, i: nat)
    requires i < |visits| && Fresh(m, visits[i])
    requires forall j :: i < j < |visits| ==> !Fresh(m, visits[j])
    ensures Winner(visits, m) == Some(visits[i].parent)
    decreases |visits|
  {
    var n := |visits| - 1;
    var prefix := visits[..n];
    WinnerUnfold(visits, m);
    if i < n {
      assert prefix[i] == visits[i];
      assert forall j :: i < j < |prefix| ==> prefix[j] == visits[j];
      WinnerIsLastFresh(prefix, m, i);
      assert !Fresh(m, visits[n]);
    }
  }

  /** With no fresh marker and no unreadable one, nothing is chosen. */
  lemma {:induction false} WinnerNone(visits: seq<Visit>, m: Marker)
    requires forall j :: 0 <= j < |visits| ==> !Fresh(m, visits[j]) && !Blind(m, visits[j])
    ensures Winner(visits, m) == None
    decreases |visits|
  {
    if visits != [] {
      var n := |visits| - 1;
      var prefix := visits[..n];
      WinnerUnfold(visits, m);
      assert forall j :: 0 <= j < |prefix| ==> prefix[j] == visits[j];
      WinnerNone(prefix, m);
      assert !Fresh(m, visits[n]) && !Blind(m, visits[n]);
    }
  }

  /** With no fresh marker, the first unreadable marker wins. */
  lemma {:induction false} WinnerIsFirstBlind(visits: seq<Visit>, m: Marker, i: nat)
    requires forall j :: 0 <= j < |visits| ==> !Fresh(m, visits[j])
    requires i < |visits| && Blind(m, visits[i])
    requires forall j :: 0 <= j < i ==> !Blind(m, visits[j])
    ensures Winner(visits, m) == Some(visits[i].parent)
    decreases |visits|
  {
    var n := |visits| - 1;
    var prefix := visits[..n];
    assert visits == prefix + [visits[n]];
    WinnerSnoc(prefix, visits[n], m);
    assert forall j :: 0 <= j < |prefix| ==> prefix[j] == visits[j];
    assert !Fresh(m, visits[n]);
    if i < n {
      assert prefix[i] == visits[i];
      WinnerIsFirstBlind(prefix, m, i);
    } else {
      WinnerNone(prefix, m);
    }
  }

  /** Whatever is chosen is the directory of some marker that was seen. */
  lemma {:induction false} WinnerWasSeen(visits: seq<Visit>, m: Marker)
    requires Winner(visits, m).Some?
    ensures exists j :: 0 <= j < |visits| && IsMarker(m, visits[j].entry.name) &&
                        visits[j].parent == Winner(visits, m).value
    decreases |visits|
  {
    var n := |visits| - 1;
    var prefix := visits[..n];
    WinnerUnfold(visits, m);
    if Winner(visits, m) == Winner(prefix, m) {
      WinnerWasSeen(prefix, m);
      var j :| 0 <= j < |prefix| && IsMarker(m, prefix[j].entry.name) &&
               prefix[j].parent == Winner(prefix, m).value;
      assert visits[j] == prefix[j];
    } else {
      assert visits[n].parent == Winner(visits, m).value;
    }
  }

  /**
   * The choice is not the newest marker: an older directory written at
   * `newer` loses to one found later in traversal order written at `older`.
   */
  lemma NewestNeedNotWin(first: Listing, second: Listing, newer: int, older: int)
    requires newer > older > InitialLastWrite && first != second
    ensures Winner([Visit(first, File(CoreLogName, Written(newer), true)),
                    Visit(second, File(CoreLogName, Written(older), true))], CoreLog)
            == Some(second)
  {
    var vs := [Visit(first, File(CoreLogName, Written(newer), true)),
               Visit(second, File(CoreLogName, Written(older), true))];
    WinnerIsLastFresh(vs, CoreLog, 1);
  }
}
