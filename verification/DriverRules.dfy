/** Every run of the path driver keeps the editor's rules. */
module DriverRules {
  import opened Common
  import opened Editor
  import opened PathDriver

  predicate Enters(a: Action) {
    a.Directory? || a.File?
  }

  predicate Deletes(a: Action) {
    a.DeleteIt? || ((a.Directory? || a.File?) && a.how.Replace?)
  }

  /** Distinct paths, each directory before what is below it, and all of that in one stretch. */
  predicate Clustered(paths: seq<Path>) {
    && (forall i, j :: 0 <= i < j < |paths| ==> !(paths[j] <= paths[i]))
    && (forall i, j, k :: 0 <= i < j < k < |paths| ==>
          paths[k][..CommonLen(paths[i], paths[k])] <= paths[j])
  }

  function Paths(visits: seq<Visit>): (r: seq<Path>)
    ensures |r| == |visits| && forall i :: 0 <= i < |r| ==> r[i] == visits[i].path
  {
    seq(|visits|, i requires 0 <= i < |visits| => visits[i].path)
  }

  /** The callback leaves no listed path below a node it deleted or a file. */
  predicate NothingBelowLeaves(visits: seq<Visit>) {
    forall i, j :: 0 <= i < j < |visits| && visits[i].path <= visits[j].path ==>
      visits[i].action.Directory? || visits[i].action.Nothing?
  }

  // -------------------------------------------------------------- invariant

  /** Between calls: the open directories are `cur` and its ancestors, and no file is open. */
  ghost predicate At(d: Drive, cur: Option<Path>) {
    && !d.done && d.current.NoFile? && d.deferred == {}
    && (d.rootOpened <==> cur.Some?)
    && (match cur
        case None => d.stack == []
        case Some(dir) => ChainOf(d.stack, dir))
  }

  ghost predicate ChainOf(stack: seq<Dir>, dir: Path) {
    && |stack| == |dir| + 1
    && forall i :: 0 <= i <= |dir| ==> stack[i].path == dir[..i] && !stack[i].phase.PastSubdirs?
  }

  ghost predicate Fresh(d: Drive, p: Path) {
    p !in d.entered && p !in d.deleted
  }

  /** The callback's action keeps rule 1. */
  predicate MayAct(once: bool, d: Drive, v: Visit) {
    if Deletes(v.action) then MayDelete(once, d, v.path)
    else if Enters(v.action) then MayEnter(once, d, v.path, v.action.how != Open)
    else true
  }

  lemma MayActDeletes(once: bool, d: Drive, v: Visit)
    requires MayAct(once, d, v) && v.action.DeleteIt?
    ensures MayDelete(once, d, v.path)
  {
  }

  lemma {:induction false} CloseRun(once: bool, d: Drive, cur: Path, k: nat)
    requires At(d, Some(cur)) && k <= |cur|
    ensures var r := Run(once, d, CloseCalls(cur, k));
      r.Some? && At(r.value, Some(cur[..k])) && r.value.entered == d.entered && r.value.deleted == d.deleted
    decreases |cur|
  {
    if |cur| > k {
      var c := CloseDirectory(cur);
      assert cur[..|cur|] == cur;
      assert Last(d.stack).path == cur;
      var next := d.(begun := true, stack := Init(d.stack));
      assert Step(once, d, c) == Some(next);
      assert forall i :: 0 <= i <= |Init(cur)| ==> Init(cur)[..i] == cur[..i];
      CloseRun(once, next, Init(cur), k);
      assert CloseCalls(cur, k)[1..] == CloseCalls(Init(cur), k);
      assert Init(cur)[..k] == cur[..k];
    } else {
      assert cur[..k] == cur;
    }
  }

  lemma EnterRun(once: bool, d: Drive, dir: Path, name: string, add: bool)
    requires At(d, Some(dir)) && MayEnter(once, d, dir + [name], add)
    ensures var path := dir + [name];
      var r := Step(once, d, if add then AddDirectory(path) else OpenDirectory(path));
      r.Some? && At(r.value, Some(path)) && r.value.entered == d.entered + {path} && r.value.deleted == d.deleted
  {
    var path := dir + [name];
    assert Init(path) == dir && dir[..|dir|] == dir && path[..|path|] == path;
    assert Last(d.stack).path == dir;
    assert forall i :: 0 <= i <= |dir| ==> path[..i] == dir[..i];
  }

  lemma {:induction false} OpenRun(once: bool, d: Drive, dir: Path, k: nat)
    requires k <= |dir| && At(d, Some(dir[..k]))
    requires once ==> forall p :: p <= dir && k < |p| ==> Fresh(d, p)
    ensures var r := Run(once, d, OpenCalls(dir, k));
      && r.Some? && At(r.value, Some(dir))
      && (forall p :: p in r.value.entered ==> p in d.entered || (p <= dir && k < |p|))
      && r.value.deleted == d.deleted
    decreases |dir| - k
  {
    if k < |dir| {
      var path := dir[..k + 1];
      assert path == dir[..k] + [dir[k]];
      assert path <= dir;
      EnterRun(once, d, dir[..k], dir[k], false);
      var next := Step(once, d, OpenDirectory(path)).value;
      forall p | once && p <= dir && k + 1 < |p|
        ensures Fresh(next, p)
      {
        assert Fresh(d, p);
      }
      OpenRun(once, next, dir, k + 1);
      assert OpenCalls(dir, k)[1..] == OpenCalls(dir, k + 1);
    } else {
      assert dir[..k] == dir;
    }
  }

  lemma {:induction false} DirPropsRun(once: bool, d: Drive, dir: Path, props: seq<Prop>)
    requires At(d, Some(dir)) && Last(d.stack).phase.NoSubdirYet?
    ensures var r := Run(once, d, DirPropCalls(dir, props));
      r.Some? && At(r.value, Some(dir)) && r.value.entered == d.entered && r.value.deleted == d.deleted
    decreases |props|
  {
    if props != [] {
      assert dir[..|dir|] == dir;
      var next := d.(begun := true);
      assert Step(once, d, ChangeDirProp(dir, props[0])) == Some(next);
      DirPropsRun(once, next, dir, props[1..]);
      assert DirPropCalls(dir, props)[1..] == DirPropCalls(dir, props[1..]);
    }
  }

  lemma {:induction false} FileEditsRun(once: bool, d: Drive, path: Path, edits: seq<FileEdit>)
    requires !d.done && d.begun && d.stack != [] && d.current.Editing? && d.current.path == path
    ensures var r := Run(once, d, FileEditCalls(path, edits) + [CloseFile(path)]);
      r == Some(d.(current := NoFile))
    decreases |edits|
  {
    var calls := FileEditCalls(path, edits) + [CloseFile(path)];
    if edits == [] {
      assert calls == [CloseFile(path)];
      assert Run(once, d.(current := NoFile), calls[1..]) == Some(d.(current := NoFile));
    } else {
      var next := Step(once, d, calls[0]).value;
      assert calls[1..] == FileEditCalls(path, edits[1..]) + [CloseFile(path)];
      FileEditsRun(once, next, path, edits[1..]);
    }
  }

  lemma {:induction false} MoveRun(once: bool, d: Drive, cur: Option<Path>, dir: Path)
    requires At(d, cur)
    requires once ==> forall p :: p <= dir && !(cur.Some? && p <= cur.value) && p != [] ==> Fresh(d, p)
    ensures var r := Run(once, d, MoveCalls(cur, dir));
      && r.Some? && At(r.value, Some(dir))
      && (forall p :: p in r.value.entered ==>
            p in d.entered || p == [] || (p <= dir && !(cur.Some? && p <= cur.value)))
      && r.value.deleted == d.deleted
  {
    hide Step;
    var from := if cur.None? then [] else cur.value;
    var k := CommonLen(from, dir);
    var a := if cur.None? then [OpenRoot] else [];
    RootRun(once, d, cur);
    var d1 := Run(once, d, a).value;
    CloseRun(once, d1, from, k);
    var d2 := Run(once, d1, CloseCalls(from, k)).value;
    RunConcat(once, d, a, CloseCalls(from, k));
    forall p | p <= dir && k < |p|
      ensures !(p <= from) && (once ==> Fresh(d2, p))
    {
      PrefixOfCommon(p, from, dir);
      assert once ==> Fresh(d, p);
    }
    OpenRun(once, d2, dir, k);
    RunConcat(once, d, a + CloseCalls(from, k), OpenCalls(dir, k));
    assert [] <= dir;
  }

  lemma RootRun(once: bool, d: Drive, cur: Option<Path>)
    requires At(d, cur)
    ensures var r := Run(once, d, if cur.None? then [OpenRoot] else []);
      && r.Some? && At(r.value, if cur.None? then Some([]) else cur)
      && (cur.None? ==> Last(r.value.stack).phase.NoSubdirYet?)
      && r.value.deleted == d.deleted
      && r.value.entered == if cur.None? then d.entered + {[]} else d.entered
  {
    if cur.None? {
      var calls := [OpenRoot];
      var next := Step(once, d, OpenRoot).value;
      assert calls[1..] == [] && Run(once, d, calls) == Run(once, next, []);
    }
  }

  /** The callback's calls at a path below the root, whose parent is the innermost directory. */
  lemma {:induction false} CallbackRun(once: bool, d: Drive, v: Visit)
    requires v.path != [] && At(d, Some(Parent(v.path)))
    requires MayAct(once, d, v)
    ensures var r := Run(once, d, CallbackCalls(v));
      && r.Some? && At(r.value, Some(NextDir(v)))
      && (forall p :: p in r.value.entered ==> p in d.entered || (p == v.path && Enters(v.action)))
      && (forall p :: p in r.value.deleted ==> p in d.deleted || (p == v.path && Deletes(v.action)))
  {
    hide MayAct;
    var parent := Parent(v.path);
    assert parent[..|parent|] == parent;
    assert IsOpen(d, parent) by { assert d.stack[|parent|].path == parent; }
    match v.action
    case Nothing =>
    case DeleteIt =>
      MayActDeletes(once, d, v);
      OneCall(once, d, DeleteEntry(v.path));
    case Directory(how, props) => DirectoryCallback(once, d, v);
    case File(how, edits) => FileCallback(once, d, v);
  }

  lemma {:induction false} DirectoryCallback(once: bool, d: Drive, v: Visit)
    requires v.path != [] && At(d, Some(Parent(v.path))) && IsOpen(d, Parent(v.path))
    requires v.action.Directory? && MayAct(once, d, v)
    ensures var r := Run(once, d, CallbackCalls(v));
      && r.Some? && At(r.value, Some(v.path)) && r.value.entered == d.entered + {v.path}
      && (forall p :: p in r.value.deleted ==> p in d.deleted || (p == v.path && v.action.how.Replace?))
  {
    var how := v.action.how;
    var d0, enter := AfterDelete(once, d, v.path, how, false);
    assert v.path == Parent(v.path) + [Last(v.path)];
    EnterRun(once, d0, Parent(v.path), Last(v.path), how != Open);
    var d1 := Step(once, d0, enter).value;
    assert Last(d1.stack).phase.NoSubdirYet?;
    DirPropsRun(once, d1, v.path, v.action.props);
    RunConcat(once, d, EntryCalls(v.path, how, false), DirPropCalls(v.path, v.action.props));
  }

  lemma {:induction false} FileCallback(once: bool, d: Drive, v: Visit)
    requires v.path != [] && At(d, Some(Parent(v.path))) && IsOpen(d, Parent(v.path))
    requires v.action.File? && MayAct(once, d, v)
    ensures var r := Run(once, d, CallbackCalls(v));
      && r.Some? && At(r.value, Some(Parent(v.path))) && r.value.entered == d.entered + {v.path}
      && (forall p :: p in r.value.deleted ==> p in d.deleted || (p == v.path && v.action.how.Replace?))
  {
    var how := v.action.how;
    var d0, enter := AfterDelete(once, d, v.path, how, true);
    var d1 := Step(once, d0, enter).value;
    FileEditsRun(once, d1, v.path, v.action.edits);
    var tail := FileEditCalls(v.path, v.action.edits) + [CloseFile(v.path)];
    RunConcat(once, d, EntryCalls(v.path, how, true), tail);
    assert CallbackCalls(v) == EntryCalls(v.path, how, true) + tail;
  }

  /** The state in which the entry is opened or added, after a replaced node is deleted. */
  lemma AfterDelete(once: bool, d: Drive, path: Path, how: Entry, file: bool) returns (e: Drive, enter: Call)
    requires path != [] && At(d, Some(Init(path))) && IsOpen(d, Init(path))
    requires if how.Replace? then MayDelete(once, d, path) else MayEnter(once, d, path, how != Open)
    ensures At(e, Some(Init(path))) && e.begun && e.stack == d.stack && e.entered == d.entered
    ensures e.deleted == if how == Replace then d.deleted + {path} else d.deleted
    ensures MayEnter(once, e, path, how != Open)
    ensures enter == if file then (if how == Open then OpenFile(path) else AddFile(path))
      else (if how == Open then OpenDirectory(path) else AddDirectory(path))
    ensures Run(once, d, EntryCalls(path, how, file)) == Step(once, e, enter)
  {
    var calls := EntryCalls(path, how, file);
    enter := Last(calls);
    e := if how == Replace then Step(once, d, DeleteEntry(path)).value else d.(begun := true);
    if how == Replace {
      assert calls[1..] == [enter];
      OneCall(once, e, enter);
    } else {
      OneCall(once, d, enter);
    }
  }

  lemma {:induction false} OneCall(once: bool, d: Drive, c: Call)
    ensures Run(once, d, [c]) == Step(once, d, c)
  {
    assert [c][1..] == [];
  }

  /** One step of the driver. */
  lemma {:induction false} StepRun(once: bool, d: Drive, cur: Option<Path>, v: Visit)
    requires At(d, cur) && CallbackObeys(cur.None?, v)
    requires v.path != [] ==> MayAct(once, d, v)
    requires once ==> forall p :: p <= Parent(v.path) && !(cur.Some? && p <= cur.value) && p != [] ==> Fresh(d, p)
    ensures var r := Run(once, d, StepCalls(cur, v));
      && r.Some? && At(r.value, Some(NextDir(v)))
      && (forall p :: p in r.value.entered ==>
            p in d.entered || p == [] || (p <= Parent(v.path) && !(cur.Some? && p <= cur.value))
            || (p == v.path && Enters(v.action)))
      && (forall p :: p in r.value.deleted ==> p in d.deleted || (p == v.path && Deletes(v.action)))
  {
    if cur.None? && v.path == [] {
      RootRun(once, d, cur);
      var d1 := Run(once, d, [OpenRoot]).value;
      DirPropsRun(once, d1, [], v.action.props);
      RunConcat(once, d, [OpenRoot], DirPropCalls([], v.action.props));
      assert StepCalls(cur, v) == [OpenRoot] + DirPropCalls([], v.action.props);
    } else {
      MoveRun(once, d, cur, Parent(v.path));
      var d1 := Run(once, d, MoveCalls(cur, Parent(v.path))).value;
      RunConcat(once, d, MoveCalls(cur, Parent(v.path)), CallbackCalls(v));
      if v.path != [] {
        assert v.path in d1.entered ==> v.path in d.entered;
        CallbackRun(once, d1, v);
      }
    }
  }

  // ------------------------------------------------------ what the steps visit

  /** On its way to its path, step `i` opens directory `p`. */
  predicate OpensOnWay(visits: seq<Visit>, i: nat, p: Path) {
    i < |visits| && p != [] && p <= Parent(visits[i].path) && !(i > 0 && p <= NextDir(visits[i - 1]))
  }

  predicate EntersAt(visits: seq<Visit>, i: nat, p: Path) {
    i < |visits| && p != [] && (OpensOnWay(visits, i, p) || (p == visits[i].path && Enters(visits[i].action)))
  }

  predicate DeletesAt(visits: seq<Visit>, i: nat, p: Path) {
    i < |visits| && p != [] && p == visits[i].path && Deletes(visits[i].action)
  }

  predicate AddsAt(visits: seq<Visit>, i: nat, p: Path) {
    i < |visits| && p == visits[i].path && Enters(visits[i].action) && visits[i].action.how != Open
  }

  /** Step `j` visits what step `i` has visited; only adding what has been deleted is allowed. */
  predicate Revisits(visits: seq<Visit>, i: nat, j: nat, p: Path) {
    i < j &&
    if EntersAt(visits, i, p) then EntersAt(visits, j, p) || DeletesAt(visits, j, p)
    else DeletesAt(visits, i, p) && (DeletesAt(visits, j, p) || (EntersAt(visits, j, p) && !AddsAt(visits, j, p)))
  }

  ghost predicate VisitsOnce(visits: seq<Visit>) {
    forall i, j, p :: !Revisits(visits, i, j, p)
  }

  /** `p` has been opened or added by one of the steps. */
  ghost predicate EnteredBy(visits: seq<Visit>, p: Path) {
    exists i :: 0 <= i < |visits| &&
      (p <= Parent(visits[i].path) || (p == visits[i].path && Enters(visits[i].action)))
  }

  ghost predicate DeletedBy(visits: seq<Visit>, p: Path) {
    exists i :: 0 <= i < |visits| && p == visits[i].path && Deletes(visits[i].action)
  }

  ghost predicate Orderly(visits: seq<Visit>) {
    Clustered(Paths(visits)) && NothingBelowLeaves(visits)
  }

  /** In an orderly run, what the next step enters has not been visited. */
  lemma NextIsFresh(visits: seq<Visit>, v: Visit, p: Path)
    requires Orderly(visits + [v])
    requires p <= v.path && !(visits != [] && p <= NextDir(Last(visits)))
    ensures !EnteredBy(visits, p) && !DeletedBy(visits, p)
  {
    var all := visits + [v];
    var paths := Paths(all);
    var n := |visits|;
    forall i | 0 <= i < n
      ensures !(p <= visits[i].path && (p != visits[i].path || Enters(visits[i].action) || Deletes(visits[i].action)))
    {
      assert all[i] == visits[i] && all[n] == v && all[n - 1] == Last(visits);
      if p <= visits[i].path {
        // v and visit i lie below p, so does the visit just before v; since p is not open, it
        // is that visit's own path, and nothing was entered or deleted there
        StretchReaches(paths, i, n, p);
        assert i < n - 1 ==> !(paths[n - 1] <= paths[i]);
        assert p == all[n - 1].path ==> all[n - 1].path <= all[n].path;
        OpenOrLeaf(Last(visits), p);
      }
    }
    PrefixOfParent(visits, p);
  }

  lemma StretchReaches(paths: seq<Path>, i: nat, n: nat, p: Path)
    requires Clustered(paths) && i < n < |paths|
    requires p <= paths[i] && p <= paths[n]
    ensures p <= paths[n - 1]
  {
    PrefixOfCommon(p, paths[i], paths[n]);
    if i < n - 1 {
      assert paths[n][..CommonLen(paths[i], paths[n])] <= paths[n - 1];
      PrefixTransitive(p, paths[n][..CommonLen(paths[i], paths[n])], paths[n - 1]);
    }
  }

  lemma OpenOrLeaf(v: Visit, p: Path)
    requires p <= v.path && !(p <= NextDir(v))
    ensures p == v.path && !v.action.Directory?
  {
    assert p != v.path ==> p <= Parent(v.path);
  }

  lemma PrefixOfParent(visits: seq<Visit>, p: Path)
    requires forall i :: 0 <= i < |visits| ==>
      !(p <= visits[i].path && (p != visits[i].path || Enters(visits[i].action) || Deletes(visits[i].action)))
    requires p != [] || forall i :: 0 <= i < |visits| ==> visits[i].path != []
    ensures !EnteredBy(visits, p) && !DeletedBy(visits, p)
  {
    forall i | 0 <= i < |visits|
      ensures !(p <= Parent(visits[i].path))
    {
      if p <= Parent(visits[i].path) {
        PrefixTransitive(p, Parent(visits[i].path), visits[i].path);
      }
    }
  }

  lemma PrefixTransitive(a: Path, b: Path, c: Path)
    requires a <= b && b <= c
    ensures a <= c
  {
    assert a == b[..|a|] == c[..|b|][..|a|] == c[..|a|];
  }

  lemma {:induction false} PrefixOfCommon(p: Path, a: Path, b: Path)
    requires p <= b
    ensures p <= a ==> p <= b[..CommonLen(a, b)]
  {
    if p != [] && p <= a {
      assert p[0] == a[0] == b[0];
      PrefixOfCommon(p[1..], a[1..], b[1..]);
      assert b[..CommonLen(a, b)] == [b[0]] + b[1..][..CommonLen(a[1..], b[1..])];
    }
  }

  // ----------------------------------------------------------- main results

  lemma {:induction false} StepsRun(once: bool, visits: seq<Visit>)
    requires AllObey(visits) && (once ==> VisitsOnce(visits))
    ensures var r := Run(once, Start, Steps(visits));
      && r.Some? && At(r.value, Innermost(visits))
      && (forall p :: p in r.value.entered ==> EnteredSoFar(visits, p) || p == [])
      && (forall p :: p in r.value.deleted && p != [] ==> DeletedSoFar(visits, p))
  {
    if visits != [] {
      hide StepCalls, EnteredSoFar, DeletedSoFar, VisitsOnce, Step, NextDir, Parent;
      var before, v := Init(visits), Last(visits);
      assert visits == before + [v];
      if once {
        VisitsOncePrefix(before, v);
      }
      StepsRun(once, before);
      var d := Run(once, Start, Steps(before)).value;
      var cur := Innermost(before);
      NextFits(once, before, v, d, cur);
      StepRun(once, d, cur, v);
      RunConcat(once, Start, Steps(before), StepCalls(cur, v));
      forall p {
        VisitedGrows(before, v, p);
      }
    }
  }

  ghost predicate EnteredSoFar(visits: seq<Visit>, p: Path) {
    exists i :: EntersAt(visits, i, p)
  }

  ghost predicate DeletedSoFar(visits: seq<Visit>, p: Path) {
    exists i :: DeletesAt(visits, i, p)
  }

  /** What a step does is told by the visits up to it. */
  lemma SameStep(visits: seq<Visit>, v: Visit, i: nat, p: Path)
    requires i < |visits|
    ensures EntersAt(visits + [v], i, p) == EntersAt(visits, i, p)
    ensures DeletesAt(visits + [v], i, p) == DeletesAt(visits, i, p)
    ensures AddsAt(visits + [v], i, p) == AddsAt(visits, i, p)
  {
    var all := visits + [v];
    assert all[i] == visits[i] && (i > 0 ==> all[i - 1] == visits[i - 1]);
  }

  lemma VisitsOncePrefix(visits: seq<Visit>, v: Visit)
    requires VisitsOnce(visits + [v])
    ensures VisitsOnce(visits)
  {
    forall i: nat, j: nat, p
      ensures !Revisits(visits, i, j, p)
    {
      assert !Revisits(visits + [v], i, j, p);
      if i < j < |visits| {
        SameStep(visits, v, i, p);
        SameStep(visits, v, j, p);
      }
    }
  }

  lemma VisitedGrows(visits: seq<Visit>, v: Visit, p: Path)
    ensures EnteredSoFar(visits, p) ==> EnteredSoFar(visits + [v], p)
    ensures DeletedSoFar(visits, p) ==> DeletedSoFar(visits + [v], p)
    ensures var cur := Innermost(visits);
      p != [] && ((p <= Parent(v.path) && !(cur.Some? && p <= cur.value)) || (p == v.path && Enters(v.action)))
      ==> EnteredSoFar(visits + [v], p)
    ensures p != [] && p == v.path && Deletes(v.action) ==> DeletedSoFar(visits + [v], p)
  {
    var all := visits + [v];
    if i: nat :| EntersAt(visits, i, p) {
      SameStep(visits, v, i, p);
      assert EntersAt(all, i, p);
    }
    if i: nat :| DeletesAt(visits, i, p) {
      SameStep(visits, v, i, p);
      assert DeletesAt(all, i, p);
    }
    LastStep(visits, v, p);
  }

  lemma LastStep(visits: seq<Visit>, v: Visit, p: Path)
    ensures var cur := Innermost(visits);
      EntersAt(visits + [v], |visits|, p) <==>
      p != [] && ((p <= Parent(v.path) && !(cur.Some? && p <= cur.value)) || (p == v.path && Enters(v.action)))
    ensures DeletesAt(visits + [v], |visits|, p) <==> p != [] && p == v.path && Deletes(v.action)
    ensures AddsAt(visits + [v], |visits|, p) <==> p == v.path && Enters(v.action) && v.action.how != Open
  {
    var all := visits + [v];
    assert all[|visits|] == v && (visits != [] ==> all[|visits| - 1] == Last(visits));
  }

  /** What the next step enters or deletes keeps rule 1. */
  lemma NextIsAllowed(visits: seq<Visit>, v: Visit, p: Path)
    requires VisitsOnce(visits + [v])
    ensures EntersAt(visits + [v], |visits|, p) || DeletesAt(visits + [v], |visits|, p) ==> !EnteredSoFar(visits, p)
    ensures DeletesAt(visits + [v], |visits|, p) ==> !DeletedSoFar(visits, p)
    ensures EntersAt(visits + [v], |visits|, p) && !AddsAt(visits + [v], |visits|, p) ==> !DeletedSoFar(visits, p)
  {
    hide EntersAt, DeletesAt, AddsAt;
    var n := |visits|;
    if i: nat :| i < n && EntersAt(visits, i, p) {
      SameStep(visits, v, i, p);
      assert !Revisits(visits + [v], i, n, p);
    }
    if i: nat :| i < n && DeletesAt(visits, i, p) {
      SameStep(visits, v, i, p);
      assert !Revisits(visits + [v], i, n, p);
    }
    StepInRange(visits, p);
  }

  lemma StepInRange(visits: seq<Visit>, p: Path)
    ensures forall i: nat :: EntersAt(visits, i, p) || DeletesAt(visits, i, p) ==> i < |visits|
  {
  }

  /** The next step may be taken from the state the steps so far have led to. */
  lemma NextFits(once: bool, visits: seq<Visit>, v: Visit, d: Drive, cur: Option<Path>)
    requires AllObey(visits + [v]) && (once ==> VisitsOnce(visits + [v]))
    requires cur == Innermost(visits)
    requires forall p :: p in d.entered ==> EnteredSoFar(visits, p) || p == []
    requires forall p :: p in d.deleted && p != [] ==> DeletedSoFar(visits, p)
    ensures CallbackObeys(cur.None?, v)
    ensures v.path != [] ==> MayAct(once, d, v)
    ensures once ==> forall p :: p <= Parent(v.path) && !(cur.Some? && p <= cur.value) && p != [] ==> Fresh(d, p)
  {
    hide EnteredSoFar, DeletedSoFar, VisitsOnce, NextDir, EntersAt, DeletesAt, AddsAt;
    var all := visits + [v];
    assert CallbackObeys(|visits| == 0, all[|visits|]);
    if once && v.path != [] {
      LastStep(visits, v, v.path);
      NextIsAllowed(visits, v, v.path);
    }
    forall p | once && p <= Parent(v.path) && !(cur.Some? && p <= cur.value) && p != []
      ensures Fresh(d, p)
    {
      LastStep(visits, v, p);
      NextIsAllowed(visits, v, p);
      assert p != v.path;
    }
  }

  /** Visits in order revisit nothing. */
  lemma OrderlyVisitsOnce(visits: seq<Visit>)
    requires Orderly(visits)
    ensures VisitsOnce(visits)
  {
    hide Orderly, EnteredBy, DeletedBy, EntersAt, DeletesAt, AddsAt;
    forall i: nat, j: nat, p
      ensures !Revisits(visits, i, j, p)
    {
      if i < j < |visits| {
        OrderlyUpTo(visits, j);
        StepIsVisit(visits, i, j, p);
        StepIsNext(visits, j, p);
        if visits[j].path == p {
          PathIsFresh(visits[..j], visits[j]);
        } else if OpensOnWay(visits, j, p) {
          PrefixTransitive(p, Parent(visits[j].path), visits[j].path);
          NextIsFresh(visits[..j], visits[j], p);
        }
      }
      OutOfRange(visits, j, p);
    }
  }

  lemma OutOfRange(visits: seq<Visit>, j: nat, p: Path)
    ensures j >= |visits| ==> !EntersAt(visits, j, p) && !DeletesAt(visits, j, p)
  {
  }

  lemma StepIsVisit(visits: seq<Visit>, i: nat, j: nat, p: Path)
    requires i < j < |visits|
    ensures EntersAt(visits, i, p) ==> EnteredBy(visits[..j], p)
    ensures DeletesAt(visits, i, p) ==> DeletedBy(visits[..j], p)
  {
    assert visits[..j][i] == visits[i];
  }

  lemma StepIsNext(visits: seq<Visit>, j: nat, p: Path)
    requires j < |visits|
    ensures EntersAt(visits, j, p) || DeletesAt(visits, j, p) ==> visits[j].path == p || OpensOnWay(visits, j, p)
    ensures OpensOnWay(visits, j, p) ==>
      p <= Parent(visits[j].path) <= visits[j].path && !(visits[..j] != [] && p <= NextDir(Last(visits[..j])))
  {
  }

  lemma OrderlyUpTo(visits: seq<Visit>, j: nat)
    requires Orderly(visits) && j < |visits|
    ensures Orderly(visits[..j] + [visits[j]])
  {
    hide Clustered, NothingBelowLeaves;
    var all := visits[..j] + [visits[j]];
    assert all == visits[..j + 1];
    assert Paths(all) == Paths(visits)[..j + 1];
    ClusteredUpTo(Paths(visits), j + 1);
    BareUpTo(visits, j + 1);
  }

  lemma ClusteredUpTo(paths: seq<Path>, n: nat)
    requires Clustered(paths) && n <= |paths|
    ensures Clustered(paths[..n])
  {
  }

  lemma BareUpTo(visits: seq<Visit>, n: nat)
    requires NothingBelowLeaves(visits) && n <= |visits|
    ensures NothingBelowLeaves(visits[..n])
  {
  }

  /** In an orderly run the next path itself has been neither entered nor deleted. */
  lemma PathIsFresh(visits: seq<Visit>, v: Visit)
    requires Orderly(visits + [v])
    ensures !EnteredBy(visits, v.path) && !DeletedBy(visits, v.path)
  {
    var all := visits + [v];
    var paths, n := Paths(all), |visits|;
    forall i | 0 <= i < n
      ensures !(v.path <= visits[i].path)
    {
      assert !(paths[n] <= paths[i]) && all[i] == visits[i] && all[n] == v;
    }
    if v.path != [] || visits == [] {
      PrefixOfParent(visits, v.path);
    }
  }

  lemma {:induction false} FinishRun(once: bool, d: Drive, cur: Option<Path>)
    requires At(d, cur)
    ensures var r := Run(once, d, FinishCalls(cur)); r.Some? && r.value.done
  {
    match cur
    case None => OneCall(once, d, CloseEdit);
    case Some(dir) =>
      CloseRun(once, d, dir, 0);
      var d1 := Run(once, d, CloseCalls(dir, 0)).value;
      var d2 := Step(once, d1, CloseDirectory([])).value;
      OneCall(once, d2, CloseEdit);
      assert [CloseDirectory([]), CloseEdit][1..] == [CloseEdit];
      assert Run(once, d1, [CloseDirectory([]), CloseEdit]) == Run(once, d2, [CloseEdit]);
      RunConcat(once, d, CloseCalls(dir, 0), [CloseDirectory([]), CloseEdit]);
  }

  lemma DriverCompletes(once: bool, visits: seq<Visit>)
    requires AllObey(visits) && (once ==> VisitsOnce(visits))
    ensures CompleteDrive(once, FullDrive(visits))
  {
    StepsRun(once, visits);
    FinishRun(once, Run(once, Start, Steps(visits)).value, Innermost(visits));
    RunConcat(once, Start, Steps(visits), FinishCalls(Innermost(visits)));
  }

  /**
   * For any sequence of paths, sorted or not, the driver's calls nest: every rule but the
   * first is kept, and at the end everything has been closed before the edit.
   */
  lemma DriverAlwaysNests(visits: seq<Visit>)
    requires AllObey(visits)
    ensures CompleteDrive(false, FullDrive(visits))
  {
    DriverCompletes(false, visits);
  }

  /** With the paths in order, no entry is visited twice: all six rules are kept. */
  lemma DriverVisitsOnce(visits: seq<Visit>)
    requires AllObey(visits) && Orderly(visits)
    ensures CompleteDrive(true, FullDrive(visits))
  {
    OrderlyVisitsOnce(visits);
    DriverCompletes(true, visits);
  }

  /** The first call opens the root, whoever makes it, and no other call does. */
  lemma {:induction false} RootOpenedFirstAndOnce(visits: seq<Visit>)
    requires AllObey(visits) && visits != []
    ensures var calls := FullDrive(visits);
      calls[0] == OpenRoot && forall i :: 1 <= i < |calls| ==> calls[i] != OpenRoot
  {
    hide Step;
    StartsWithRoot(visits);
    var calls := FullDrive(visits);
    DriverCompletes(false, visits);
    var first := Step(false, Start, OpenRoot).value;
    assert first.rootOpened && Run(false, first, calls[1..]).Some? by {
      RootFirstOpens(calls);
    }
    forall i | 1 <= i < |calls|
      ensures calls[i] != OpenRoot
    {
      NoSecondRoot(first, calls[1..], i - 1);
    }
  }

  lemma RootFirstOpens(calls: seq<Call>)
    requires calls != [] && calls[0] == OpenRoot && WellOrdered(false, calls)
    ensures Step(false, Start, OpenRoot).Some? && Step(false, Start, OpenRoot).value.rootOpened
    ensures Run(false, Step(false, Start, OpenRoot).value, calls[1..]).Some?
  {
  }

  lemma {:induction false} StartsWithRoot(visits: seq<Visit>)
    requires AllObey(visits) && visits != []
    ensures Steps(visits) != [] && Steps(visits)[0] == OpenRoot
  {
    if |visits| > 1 {
      assert forall i :: 0 <= i < |Init(visits)| ==> Init(visits)[i] == visits[i];
      StartsWithRoot(Init(visits));
    } else {
      assert Steps(Init(visits)) == [];
      assert visits[0] == Last(visits);
    }
  }

  lemma {:induction false} NoSecondRoot(d: Drive, calls: seq<Call>, i: nat)
    requires d.rootOpened && i < |calls| && Run(false, d, calls).Some?
    ensures calls[i] != OpenRoot
    decreases |calls|
  {
    if i > 0 {
      NoSecondRoot(Step(false, d, calls[0]).value, calls[1..], i - 1);
    }
  }
}
