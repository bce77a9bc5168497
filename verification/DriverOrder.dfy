/** When a run of the path driver visits no entry twice: exactly when its paths are in order. */
module DriverOrder {
  import opened Common
  import opened Editor
  import opened PathDriver
  import opened DriverRules

  ghost predicate DistinctPaths(visits: seq<Visit>) {
    forall i, j :: 0 <= i < j < |visits| ==> visits[i].path != visits[j].path
  }

  /** The callback opens, adds or deletes something at every path. */
  ghost predicate AlwaysActs(visits: seq<Visit>) {
    forall i :: 0 <= i < |visits| ==> !visits[i].action.Nothing?
  }

  // --------------------------------------------------- calls a step must contain

  lemma {:induction false} OpenCallsHave(dir: Path, k: nat, m: nat)
    requires k < m <= |dir|
    ensures OpenDirectory(dir[..m]) in OpenCalls(dir, k)
    decreases |dir| - k
  {
    if m > k + 1 {
      OpenCallsHave(dir, k + 1, m);
    }
  }

  /** A step below a directory that is not open opens it. */
  lemma StepOpens(cur: Option<Path>, v: Visit, p: Path)
    requires p != [] && p <= Parent(v.path) && !(cur.Some? && p <= cur.value)
    ensures OpenDirectory(p) in StepCalls(cur, v)
  {
    var dir := Parent(v.path);
    var from := if cur.None? then [] else cur.value;
    var k := CommonLen(from, dir);
    if |p| <= k {
      PrefixOfShared(p, from, dir);
    }
    OpenCallsHave(dir, k, |p|);
    assert dir[..|p|] == p;
  }

  lemma {:induction false} PrefixOfShared(p: Path, from: Path, dir: Path)
    requires p <= dir && |p| <= CommonLen(from, dir)
    ensures p <= from
  {
    var k := CommonLen(from, dir);
    assert p == dir[..|p|] == dir[..k][..|p|] == from[..k][..|p|] == from[..|p|];
  }

  predicate Touches(c: Call, p: Path) {
    EntersPath(c, p) || DeletesPath(c, p)
  }

  /** The callback's own call at a path: it enters the entry, or deletes it. */
  lemma CallbackTouches(cur: Option<Path>, v: Visit) returns (c: Call)
    requires v.path != [] && !v.action.Nothing?
    ensures c in StepCalls(cur, v) && Touches(c, v.path)
  {
    match v.action
    case DeleteIt => c := DeleteEntry(v.path);
    case Directory(how, _) => c := EntryCalls(v.path, how, false)[0];
    case File(how, _) => c := EntryCalls(v.path, how, true)[0];
    assert c in CallbackCalls(v);
  }

  // ------------------------------------------------------- where the calls come

  lemma {:induction false} StepsPrefix(visits: seq<Visit>, k: nat)
    requires k <= |visits|
    ensures Steps(visits[..k]) <= Steps(visits)
  {
    if k < |visits| {
      StepsPrefix(Init(visits), k);
      assert Init(visits)[..k] == visits[..k];
    } else {
      assert visits[..k] == visits;
    }
  }

  /** A call of step `m` in the whole drive: it comes after all earlier steps. */
  lemma CallOfStep(visits: seq<Visit>, m: nat, c: Call) returns (at: nat)
    requires m < |visits| && c in StepCalls(Innermost(visits[..m]), visits[m])
    ensures |Steps(visits[..m])| <= at < |Steps(visits[..m + 1])| <= |FullDrive(visits)|
    ensures FullDrive(visits)[at] == c
  {
    hide StepCalls, Innermost;
    var calls := StepCalls(Innermost(visits[..m]), visits[m]);
    var i :| 0 <= i < |calls| && calls[i] == c;
    at := |Steps(visits[..m])| + i;
    assert visits[..m + 1] == visits[..m] + [visits[m]];
    StepsOneMore(visits[..m], visits[m]);
    StepsPrefix(visits, m + 1);
    assert Steps(visits[..m + 1])[at] == c;
  }

  /** What is open after step `m - 1`. */
  lemma InnermostIs(visits: seq<Visit>, m: nat)
    requires m <= |visits|
    ensures Innermost(visits[..m]) == if m == 0 then None else Some(NextDir(visits[m - 1]))
  {
  }

  /** A directory that step `k` works below has been opened or added by then. */
  lemma {:induction false} EnteredBefore(visits: seq<Visit>, k: nat, p: Path) returns (at: nat)
    requires k < |visits| && p != [] && p <= Parent(visits[k].path)
    ensures at < |Steps(visits[..k + 1])| <= |FullDrive(visits)| && EntersPath(FullDrive(visits)[at], p)
  {
    hide StepCalls, Steps, FullDrive, Parent;
    InnermostIs(visits, k);
    if k > 0 && p <= NextDir(visits[k - 1]) {
      StepsGrow(visits, k);
      if p <= Parent(visits[k - 1].path) {
        at := EnteredBefore(visits, k - 1, p);
      } else {
        at := DirectoryEntered(visits, k - 1, p);
      }
    } else {
      StepOpens(Innermost(visits[..k]), visits[k], p);
      at := CallOfStep(visits, k, OpenDirectory(p));
    }
  }

  lemma StepsGrow(visits: seq<Visit>, k: nat)
    requires k < |visits|
    ensures |Steps(visits[..k])| <= |Steps(visits[..k + 1])| <= |FullDrive(visits)|
  {
    hide StepCalls;
    assert visits[..k + 1] == visits[..k] + [visits[k]];
    StepsOneMore(visits[..k], visits[k]);
    StepsPrefix(visits, k + 1);
  }

  /** The directory a step leaves open, if it is the path visited, has been entered by it. */
  lemma DirectoryEntered(visits: seq<Visit>, k: nat, p: Path) returns (at: nat)
    requires k < |visits| && p != [] && p <= NextDir(visits[k]) && !(p <= Parent(visits[k].path))
    ensures at < |Steps(visits[..k + 1])| <= |FullDrive(visits)| && EntersPath(FullDrive(visits)[at], p)
  {
    var v := visits[k];
    assert p == v.path && v.action.Directory?;
    var how := v.action.how;
    var c := if how.Open? then OpenDirectory(p) else AddDirectory(p);
    assert c in EntryCalls(p, how, false) by {
      assert EntryCalls(p, how, false)[if how.Replace? then 1 else 0] == c;
    }
    assert c in CallbackCalls(v);
    at := CallOfStep(visits, k, c);
  }

  /** The path of a step has been entered or deleted by it. */
  lemma TouchedBefore(visits: seq<Visit>, k: nat) returns (at: nat)
    requires k < |visits| && visits[k].path != [] && !visits[k].action.Nothing?
    ensures at < |Steps(visits[..k + 1])| <= |FullDrive(visits)| && Touches(FullDrive(visits)[at], visits[k].path)
    ensures at >= |Steps(visits[..k])|
  {
    hide StepCalls, Steps, FullDrive;
    var c := CallbackTouches(Innermost(visits[..k]), visits[k]);
    at := CallOfStep(visits, k, c);
  }

  // ------------------------------------------------------------ out of order

  lemma {:induction false} StepsGrowTo(visits: seq<Visit>, k: nat, m: nat)
    requires k <= m <= |visits|
    ensures |Steps(visits[..k])| <= |Steps(visits[..m])| <= |FullDrive(visits)|
    decreases m - k
  {
    hide FullDrive, Steps;
    if k < m {
      StepsGrow(visits, k);
      StepsGrowTo(visits, k + 1, m);
    } else {
      StepsWithin(visits, k);
    }
  }

  lemma StepsWithin(visits: seq<Visit>, k: nat)
    requires k <= |visits|
    ensures |Steps(visits[..k])| <= |FullDrive(visits)|
  {
    StepsPrefix(visits, k);
  }

  /** A drive in order does not enter an entry and then, in a later step, touch it again. */
  lemma NoSecondTouch(visits: seq<Visit>, i: nat, a: nat, m: nat, b: nat, p: Path)
    requires WellOrdered(true, FullDrive(visits)) && i < m < |visits|
    requires a < |Steps(visits[..i + 1])| <= |FullDrive(visits)|
    requires |Steps(visits[..m])| <= b < |FullDrive(visits)|
    requires Touches(FullDrive(visits)[a], p) && Touches(FullDrive(visits)[b], p)
    ensures DeletesPath(FullDrive(visits)[a], p) && !FullDrive(visits)[b].OpenDirectory?
  {
    hide FullDrive, Steps;
    StepsGrowTo(visits, i + 1, m);
    EntriesVisitedOnce(Start, FullDrive(visits), a, b, p);
  }

  /** Once a path has been worked on and left, the drive does not come back below it. */
  lemma NotOpenedAgain(visits: seq<Visit>, i: nat, a: nat, m: nat, p: Path)
    requires WellOrdered(true, FullDrive(visits)) && i < m < |visits| && p != []
    requires a < |Steps(visits[..i + 1])| <= |FullDrive(visits)| && Touches(FullDrive(visits)[a], p)
    requires p <= Parent(visits[m].path)
    ensures p <= NextDir(visits[m - 1])
  {
    hide FullDrive, Steps, StepCalls;
    InnermostIs(visits, m);
    if !(p <= NextDir(visits[m - 1])) {
      StepOpens(Innermost(visits[..m]), visits[m], p);
      var b := CallOfStep(visits, m, OpenDirectory(p));
      NoSecondTouch(visits, i, a, m, b, p);
    }
  }

  /** No later path is an ancestor of an earlier one. */
  lemma DescendantsLater(visits: seq<Visit>, i: nat, j: nat)
    requires WellOrdered(true, FullDrive(visits)) && AllObey(visits) && DistinctPaths(visits) && AlwaysActs(visits)
    requires i < j < |visits|
    ensures !(visits[j].path <= visits[i].path)
  {
    hide FullDrive, Steps;
    var p := visits[j].path;
    assert CallbackObeys(false, visits[j]);
    if p <= visits[i].path {
      assert p <= Parent(visits[i].path);
      var a := EnteredBefore(visits, i, p);
      var b := TouchedBefore(visits, j);
      NoSecondTouch(visits, i, a, j, b, p);
    }
  }

  /** What has been touched and is not open is not an ancestor of a later path. */
  lemma {:induction false} NotBelowAgain(visits: seq<Visit>, i: nat, a: nat, j: nat, k: nat, p: Path)
    requires WellOrdered(true, FullDrive(visits)) && AllObey(visits) && DistinctPaths(visits) && AlwaysActs(visits)
    requires i <= j < k < |visits| && p != [] && p <= visits[i].path
    requires a < |Steps(visits[..i + 1])| <= |FullDrive(visits)| && Touches(FullDrive(visits)[a], p)
    requires p != visits[i].path ==> EntersPath(FullDrive(visits)[a], p)
    requires !(p <= NextDir(visits[j]))
    ensures !(p <= visits[k].path)
    decreases k
  {
    hide FullDrive, Steps;
    if p <= visits[k].path {
      if k - 1 > j {
        NotBelowAgain(visits, i, a, j, k - 1, p);
        NextIsPrefix(visits[k - 1]);
        NotBelow(p, NextDir(visits[k - 1]), visits[k - 1].path);
      }
      if p == visits[k].path {
        var b := TouchedBefore(visits, k);
        NoSecondTouch(visits, i, a, k, b, p);
      } else {
        NotOpenedAgain(visits, i, a, k, p);
      }
    }
  }

  lemma NextIsPrefix(v: Visit)
    ensures NextDir(v) <= v.path
  {
  }

  lemma NotBelow(p: Path, a: Path, b: Path)
    requires a <= b && !(p <= b)
    ensures !(p <= a)
  {
    if p <= a {
      PrefixTransitive(p, a, b);
    }
  }

  /** Between two paths below a directory all paths are below it. */
  lemma StretchKept(visits: seq<Visit>, i: nat, j: nat, k: nat)
    requires WellOrdered(true, FullDrive(visits)) && AllObey(visits) && DistinctPaths(visits) && AlwaysActs(visits)
    requires i < j < k < |visits|
    ensures visits[k].path[..CommonLen(visits[i].path, visits[k].path)] <= visits[j].path
  {
    hide FullDrive, Steps;
    var n := CommonLen(visits[i].path, visits[k].path);
    var p := visits[k].path[..n];
    if p != [] && !(p <= visits[j].path) {
      assert p == visits[i].path[..n] <= visits[i].path;
      NextIsPrefix(visits[j]);
      NotBelow(p, NextDir(visits[j]), visits[j].path);
      var a := FirstTouch(visits, i, p);
      NotBelowAgain(visits, i, a, j, k, p);
    }
  }

  lemma FirstTouch(visits: seq<Visit>, i: nat, p: Path) returns (a: nat)
    requires i < |visits| && p != [] && p <= visits[i].path && !visits[i].action.Nothing?
    ensures a < |Steps(visits[..i + 1])| <= |FullDrive(visits)| && Touches(FullDrive(visits)[a], p)
    ensures p != visits[i].path ==> EntersPath(FullDrive(visits)[a], p)
  {
    hide FullDrive, Steps;
    if p == visits[i].path {
      a := TouchedBefore(visits, i);
    } else {
      a := EnteredBefore(visits, i, p);
    }
  }

  /** Nothing listed lies below a deleted node or a file. */
  lemma LeavesAreBare(visits: seq<Visit>, i: nat, j: nat)
    requires WellOrdered(true, FullDrive(visits)) && AllObey(visits) && DistinctPaths(visits) && AlwaysActs(visits)
    requires i < j < |visits| && visits[i].path <= visits[j].path
    ensures visits[i].action.Directory?
  {
    hide FullDrive, Steps;
    var p := visits[i].path;
    assert CallbackObeys(i == 0, visits[i]);
    if !visits[i].action.Directory? {
      var a := FirstTouch(visits, i, p);
      NotBelowAgain(visits, i, a, i, j, p);
    }
  }

  /** A drive that visits no entry twice has its paths in order. */
  lemma VisitsOnceIsOrderly(visits: seq<Visit>)
    requires WellOrdered(true, FullDrive(visits)) && AllObey(visits) && DistinctPaths(visits) && AlwaysActs(visits)
    ensures Orderly(visits)
  {
    hide FullDrive, WellOrdered, AllObey, DistinctPaths, AlwaysActs;
    var paths := Paths(visits);
    forall i, j | 0 <= i < j < |paths|
      ensures !(paths[j] <= paths[i])
    {
      DescendantsLater(visits, i, j);
    }
    forall i, j, k | 0 <= i < j < k < |paths|
      ensures paths[k][..CommonLen(paths[i], paths[k])] <= paths[j]
    {
      StretchKept(visits, i, j, k);
    }
    forall i, j | 0 <= i < j < |visits| && visits[i].path <= visits[j].path
      ensures visits[i].action.Directory?
    {
      LeavesAreBare(visits, i, j);
    }
  }

  /**
   * For distinct paths, at each of which the callback acts: the drive keeps rule 1 if and only if
   * every directory comes before what is below it, all of that in one stretch, and nothing listed
   * lies below a deleted node or a file.
   */
  lemma OnceExactlyIfOrderly(visits: seq<Visit>)
    requires AllObey(visits) && DistinctPaths(visits) && AlwaysActs(visits)
    ensures CompleteDrive(true, FullDrive(visits)) <==> Orderly(visits)
  {
    if CompleteDrive(true, FullDrive(visits)) {
      VisitsOnceIsOrderly(visits);
    }
    if Orderly(visits) {
      DriverVisitsOnce(visits);
    }
  }

  // ---------------------------------------------------------- the exact condition

  /** The call by which step `i` enters `p`; only an addition may follow a deletion. */
  lemma StepEnters(visits: seq<Visit>, i: nat, p: Path) returns (c: Call)
    requires EntersAt(visits, i, p)
    ensures c in StepCalls(Innermost(visits[..i]), visits[i]) && EntersPath(c, p)
    ensures !AddsAt(visits, i, p) ==> c == OpenFile(p) || c == OpenDirectory(p)
  {
    var v, cur := visits[i], Innermost(visits[..i]);
    InnermostIs(visits, i);
    if OpensOnWay(visits, i, p) {
      c := OpenDirectory(p);
      StepOpens(cur, v, p);
      assert |p| < |v.path|;
    } else {
      var calls := EntryCalls(p, v.action.how, v.action.File?);
      c := Last(calls);
      assert calls[|calls| - 1] == c;
      assert c in CallbackCalls(v);
    }
  }

  lemma StepDeletes(visits: seq<Visit>, i: nat, p: Path)
    requires DeletesAt(visits, i, p)
    ensures DeleteEntry(p) in StepCalls(Innermost(visits[..i]), visits[i])
  {
    var v := visits[i];
    if !v.action.DeleteIt? {
      assert EntryCalls(p, v.action.how, v.action.File?)[0] == DeleteEntry(p);
    }
    assert DeleteEntry(p) in CallbackCalls(v);
  }

  /** A call of an earlier step, and one of a later step. */
  lemma InTurn(visits: seq<Visit>, i: nat, j: nat, c: Call, e: Call, p: Path)
    requires WellOrdered(true, FullDrive(visits)) && i < j < |visits|
    requires c in StepCalls(Innermost(visits[..i]), visits[i])
    requires e in StepCalls(Innermost(visits[..j]), visits[j])
    ensures EntersPath(c, p) ==> !EntersPath(e, p) && !DeletesPath(e, p)
    ensures DeletesPath(c, p) ==> !DeletesPath(e, p) && e != OpenFile(p) && e != OpenDirectory(p)
  {
    hide FullDrive, Steps, StepCalls;
    var a := CallOfStep(visits, i, c);
    var b := CallOfStep(visits, j, e);
    StepsGrowTo(visits, i + 1, j);
    EntriesVisitedOnce(Start, FullDrive(visits), a, b, p);
  }

  lemma NothingRevisited(visits: seq<Visit>, i: nat, j: nat, p: Path)
    requires WellOrdered(true, FullDrive(visits))
    ensures !Revisits(visits, i, j, p)
  {
    hide FullDrive, StepCalls, EntersAt, DeletesAt, AddsAt;
    StepInRange(visits, p);
    if Revisits(visits, i, j, p) {
      var c: Call;
      if EntersAt(visits, i, p) {
        c := StepEnters(visits, i, p);
      } else {
        StepDeletes(visits, i, p);
        c := DeleteEntry(p);
      }
      if DeletesAt(visits, j, p) {
        StepDeletes(visits, j, p);
        InTurn(visits, i, j, c, DeleteEntry(p), p);
      } else {
        var e := StepEnters(visits, j, p);
        InTurn(visits, i, j, c, e, p);
      }
    }
  }

  /**
   * For any visits, also of paths listed twice or not acted on: the drive keeps rule 1 if and only
   * if no step opens, adds or deletes what an earlier one has, other than to add what was deleted.
   */
  lemma OnceExactly(visits: seq<Visit>)
    requires AllObey(visits)
    ensures CompleteDrive(true, FullDrive(visits)) <==> VisitsOnce(visits)
  {
    hide FullDrive, Revisits;
    if CompleteDrive(true, FullDrive(visits)) {
      forall i: nat, j: nat, p
        ensures !Revisits(visits, i, j, p)
      {
        NothingRevisited(visits, i, j, p);
      }
    }
    if VisitsOnce(visits) {
      DriverCompletes(true, visits);
    }
  }

  /** Without the order only nesting is left: here directory "a" is opened twice. */
  lemma UnsortedVisitsTwice()
    ensures var look := File(Open, []);
      var visits := [Visit(["a", "x"], look), Visit(["b"], look), Visit(["a", "y"], look)];
      AllObey(visits) && DistinctPaths(visits) && !WellOrdered(true, FullDrive(visits))
  {
    hide FullDrive, WellOrdered;
    var look := File(Open, []);
    var visits := [Visit(["a", "x"], look), Visit(["b"], look), Visit(["a", "y"], look)];
    assert Revisits(visits, 0, 2, ["a"]) by {
      assert OpensOnWay(visits, 0, ["a"]);
      assert OpensOnWay(visits, 2, ["a"]);
    }
    assert visits[0].path[1] == "x" && visits[2].path[1] == "y";
    if WellOrdered(true, FullDrive(visits)) {
      NothingRevisited(visits, 0, 2, ["a"]);
    }
  }

  /** What has been deleted may be added again, and a path that is not acted on may come first. */
  lemma DeletedThenAdded()
    ensures var visits := [Visit(["a"], DeleteIt), Visit(["a"], Nothing), Visit(["a"], File(Add, []))];
      AllObey(visits) && !DistinctPaths(visits) && CompleteDrive(true, FullDrive(visits))
  {
    hide FullDrive, CompleteDrive;
    var visits := [Visit(["a"], DeleteIt), Visit(["a"], Nothing), Visit(["a"], File(Add, []))];
    assert visits[0].path == visits[1].path;
    assert forall i :: 0 <= i < 3 ==> Parent(visits[i].path) == [];
    OnceExactly(visits);
  }
}
