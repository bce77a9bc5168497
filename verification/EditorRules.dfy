/** The rules on the order of calls, as statements about two or three calls of a drive. */
module EditorRules {
  import opened Common
  import opened Editor

  // -------------------------------------------------------------- states of a drive

  /** The state when `n` calls have been made. */
  function StateAt(once: bool, calls: seq<Call>, n: nat): Drive
    requires n <= |calls| && WellOrdered(once, calls) && Run(once, Start, calls[..n]).Some?
  {
    Run(once, Start, calls[..n]).value
  }

  lemma {:induction false} PrefixRuns(once: bool, calls: seq<Call>, n: nat)
    requires WellOrdered(once, calls) && n <= |calls|
    ensures Run(once, Start, calls[..n]).Some?
  {
    assert calls == calls[..n] + calls[n..];
    RunConcat(once, Start, calls[..n], calls[n..]);
  }

  lemma {:induction false} NextState(once: bool, calls: seq<Call>, n: nat)
    requires WellOrdered(once, calls) && n < |calls|
    ensures Run(once, Start, calls[..n]).Some? && Run(once, Start, calls[..n + 1]).Some?
    ensures Step(once, StateAt(once, calls, n), calls[n]) == Some(StateAt(once, calls, n + 1))
  {
    hide Step;
    PrefixRuns(once, calls, n);
    PrefixRuns(once, calls, n + 1);
    assert calls[..n + 1] == calls[..n] + [calls[n]];
    RunConcat(once, Start, calls[..n], [calls[n]]);
    assert [calls[n]][1..] == [];
  }

  /** The open directories are a path from the root down. */
  ghost predicate Chain(d: Drive) {
    && (d.stack != [] ==> d.rootOpened)
    && forall i :: 0 <= i < |d.stack| ==>
         |d.stack[i].path| == i && (i > 0 ==> Init(d.stack[i].path) == d.stack[i - 1].path)
  }

  /** What a call does to the open directories. */
  lemma StackStep(once: bool, d: Drive, c: Call)
    requires Step(once, d, c).Some?
    ensures var e := Step(once, d, c).value;
      match c
      case OpenRoot => !d.rootOpened && e.rootOpened && e.stack == [Dir([], NoSubdirYet)]
      case AddDirectory(p) => e.rootOpened == d.rootOpened && Entered(d.stack, p, e.stack)
      case OpenDirectory(p) => e.rootOpened == d.rootOpened && Entered(d.stack, p, e.stack)
      case ChangeDirProp(p, _) =>
        && e.rootOpened == d.rootOpened && d.stack != [] && Last(d.stack).path == p
        && e.stack == if Last(d.stack).phase.NoSubdirYet? then d.stack else SetTop(d.stack, PastSubdirs)
      case CloseDirectory(p) =>
        e.rootOpened == d.rootOpened && d.stack != [] && Last(d.stack).path == p && e.stack == Init(d.stack)
      case _ => e.rootOpened == d.rootOpened && e.stack == d.stack
  {
  }

  predicate Entered(s: seq<Dir>, p: Path, t: seq<Dir>) {
    && p != [] && s != [] && Last(s).path == Init(p) && !Last(s).phase.PastSubdirs?
    && t == SetTop(s, AmongSubdirs) + [Dir(p, NoSubdirYet)]
  }

  lemma ChainStep(once: bool, d: Drive, c: Call)
    requires Chain(d) && Step(once, d, c).Some?
    ensures Chain(Step(once, d, c).value)
  {
    hide Step;
    StackStep(once, d, c);
  }

  lemma {:induction false} ChainAt(once: bool, calls: seq<Call>, n: nat)
    requires WellOrdered(once, calls) && n <= |calls|
    ensures Run(once, Start, calls[..n]).Some? && Chain(StateAt(once, calls, n))
  {
    hide Step;
    PrefixRuns(once, calls, n);
    if n > 0 {
      ChainAt(once, calls, n - 1);
      NextState(once, calls, n - 1);
      ChainStep(once, StateAt(once, calls, n - 1), calls[n - 1]);
    } else {
      assert calls[..0] == [];
    }
  }

  // -------------------------------------------------------------- open directories

  predicate Opens(c: Call, p: Path) {
    if p == [] then c == OpenRoot else c == OpenDirectory(p) || c == AddDirectory(p)
  }

  predicate HeldOpen(d: Drive, p: Path) {
    |p| < |d.stack| && d.stack[|p|].path == p
  }

  /** A directory is open after the call that opens it, and until one that closes it. */
  lemma HeldStep(once: bool, d: Drive, c: Call, p: Path)
    requires Chain(d) && Step(once, d, c).Some?
    ensures var e := Step(once, d, c).value;
      HeldOpen(e, p) <==> Opens(c, p) || (HeldOpen(d, p) && c != CloseDirectory(p))
    ensures Opens(c, p) ==> !HeldOpen(d, p)
    ensures Opens(c, p) && p != [] ==> d.stack != [] && Last(d.stack).path == Init(p)
    ensures c == CloseDirectory(p) ==> d.stack != [] && Last(d.stack).path == p
  {
    hide Step;
    StackStep(once, d, c);
    assert p != [] ==> |Init(p)| < |p|;
  }

  /** The ancestors of an open directory are open. */
  lemma {:induction false} AncestorsHeld(d: Drive, p: Path, q: Path)
    requires Chain(d) && HeldOpen(d, p) && q <= p
    ensures HeldOpen(d, q)
    decreases |p|
  {
    if q != p {
      assert q <= Init(p);
      AncestorsHeld(d, Init(p), q);
    }
  }

  /** Once opened, a directory stays open as long as it is not closed. */
  lemma {:induction false} StaysOpen(once: bool, calls: seq<Call>, i: nat, n: nat, p: Path)
    requires WellOrdered(once, calls) && i < n <= |calls|
    requires Opens(calls[i], p) && forall k :: i < k < n ==> calls[k] != CloseDirectory(p)
    ensures Run(once, Start, calls[..n]).Some? && HeldOpen(StateAt(once, calls, n), p)
    decreases n
  {
    hide Step;
    ChainAt(once, calls, n - 1);
    NextState(once, calls, n - 1);
    HeldStep(once, StateAt(once, calls, n - 1), calls[n - 1], p);
    if i < n - 1 {
      StaysOpen(once, calls, i, n - 1, p);
    }
  }

  /** An open directory has been opened, and not closed since. */
  lemma {:induction false} OpenedAt(once: bool, calls: seq<Call>, n: nat, p: Path) returns (i: nat)
    requires WellOrdered(once, calls) && n <= |calls|
    requires Run(once, Start, calls[..n]).Some? && HeldOpen(StateAt(once, calls, n), p)
    ensures i < n && Opens(calls[i], p) && forall k :: i < k < n ==> calls[k] != CloseDirectory(p)
    decreases n
  {
    hide Step;
    NothingAtStart(once, calls, p);
    ChainAt(once, calls, n - 1);
    NextState(once, calls, n - 1);
    HeldStep(once, StateAt(once, calls, n - 1), calls[n - 1], p);
    if Opens(calls[n - 1], p) {
      i := n - 1;
    } else {
      i := OpenedAt(once, calls, n - 1, p);
    }
  }

  lemma {:induction false} NothingAtStart(once: bool, calls: seq<Call>, p: Path)
    requires WellOrdered(once, calls)
    ensures Run(once, Start, calls[..0]).Some? && !HeldOpen(StateAt(once, calls, 0), p)
  {
    assert calls[..0] == [];
  }

  // ------------------------------------------------------------------- rule 2

  /** A directory is closed only after its subdirectories. */
  lemma {:induction false} SubdirectoriesClosedFirst(
      once: bool, calls: seq<Call>, i: nat, j: nat, p: Path, q: Path)
    requires WellOrdered(once, calls) && i < j < |calls| && q < p
    requires calls[i] == OpenDirectory(p) || calls[i] == AddDirectory(p)
    requires calls[j] == CloseDirectory(q)
    ensures exists k :: i < k < j && calls[k] == CloseDirectory(p)
  {
    hide Step;
    if forall k :: i < k < j ==> calls[k] != CloseDirectory(p) {
      StaysOpen(once, calls, i, j, p);
      ChainAt(once, calls, j);
      NextState(once, calls, j);
      HeldStep(once, StateAt(once, calls, j), calls[j], q);
    }
  }

  // ------------------------------------------------------------------- rule 3

  /**
   * A directory is opened or added in the directory opened last of those that are open: its parent
   * was opened before and not closed since, and what has been opened since has been closed.
   */
  lemma {:induction false} OpenedInnermost(once: bool, calls: seq<Call>, j: nat, p: Path) returns (i: nat)
    requires WellOrdered(once, calls) && j < |calls| && p != []
    requires calls[j] == OpenDirectory(p) || calls[j] == AddDirectory(p)
    ensures i < j
    ensures var q := Init(p); if q == [] then calls[i] == OpenRoot else calls[i] in {OpenDirectory(q), AddDirectory(q)}
    ensures forall k :: i < k < j ==> calls[k] != CloseDirectory(Init(p))
    ensures forall k, r :: i < k < j && (calls[k] == OpenDirectory(r) || calls[k] == AddDirectory(r)) ==>
              exists m :: k < m < j && calls[m] == CloseDirectory(r)
  {
    hide Step;
    ChainAt(once, calls, j);
    NextState(once, calls, j);
    var d := StateAt(once, calls, j);
    HeldStep(once, d, calls[j], p);
    i := OpenedAt(once, calls, j, Init(p));
    forall k, r | i < k < j && (calls[k] == OpenDirectory(r) || calls[k] == AddDirectory(r))
      ensures exists m :: k < m < j && calls[m] == CloseDirectory(r)
    {
      ClosedAgain(once, calls, i, k, j, Init(p), r);
    }
  }

  /** What is opened while `q` is open is closed again by the time `q` is innermost. */
  lemma {:induction false} ClosedAgain(
      once: bool, calls: seq<Call>, i: nat, k: nat, j: nat, q: Path, r: Path)
    requires WellOrdered(once, calls) && i < k < j < |calls|
    requires Opens(calls[i], q) && forall m :: i < m < j ==> calls[m] != CloseDirectory(q)
    requires calls[k] == OpenDirectory(r) || calls[k] == AddDirectory(r)
    requires Run(once, Start, calls[..j]).Some?
    requires var d := StateAt(once, calls, j); d.stack != [] && Last(d.stack).path == q
    ensures exists m :: k < m < j && calls[m] == CloseDirectory(r)
  {
    hide Step;
    ChainAt(once, calls, k);
    NextState(once, calls, k);
    var e := StateAt(once, calls, k);
    StaysOpen(once, calls, i, k, q);
    RootNotEntered(once, e, calls[k], r);
    HeldStep(once, e, calls[k], r);
    if forall m :: k < m < j ==> calls[m] != CloseDirectory(r) {
      StaysOpen(once, calls, k, j, r);
      ChainAt(once, calls, j);
      HeldBelow(StateAt(once, calls, j), q, r);
      AncestorsHeld(e, q, r);
    }
  }

  lemma RootNotEntered(once: bool, d: Drive, c: Call, r: Path)
    requires Step(once, d, c).Some? && (c == OpenDirectory(r) || c == AddDirectory(r))
    ensures r != []
  {
  }

  /** What is open is the innermost directory or above it. */
  lemma {:induction false} HeldBelow(d: Drive, q: Path, r: Path)
    requires Chain(d) && d.stack != [] && Last(d.stack).path == q && HeldOpen(d, r)
    ensures r <= q
  {
    AboveInnermost(d, |d.stack| - 1, |r|);
  }

  lemma {:induction false} AboveInnermost(d: Drive, i: nat, k: nat)
    requires Chain(d) && k <= i < |d.stack|
    ensures d.stack[k].path <= d.stack[i].path
    decreases i
  {
    if k < i {
      AboveInnermost(d, i - 1, k);
      var a, b := d.stack[i - 1].path, d.stack[i].path;
      assert b == a + [Last(b)];
    }
  }

  /** A call on an entry names a directory that is open. */
  lemma {:induction false} ParentIsOpen(once: bool, calls: seq<Call>, j: nat, p: Path) returns (i: nat)
    requires WellOrdered(once, calls) && j < |calls| && p != []
    requires calls[j] in {OpenFile(p), AddFile(p), DeleteEntry(p), AbsentFile(p), AbsentDirectory(p)}
    ensures i < j
    ensures var q := Init(p); if q == [] then calls[i] == OpenRoot else calls[i] in {OpenDirectory(q), AddDirectory(q)}
    ensures forall k :: i < k < j ==> calls[k] != CloseDirectory(Init(p))
  {
    hide Step;
    ChainAt(once, calls, j);
    NextState(once, calls, j);
    EntryNeedsParent(once, StateAt(once, calls, j), calls[j], p);
    i := OpenedAt(once, calls, j, Init(p));
  }

  lemma EntryNeedsParent(once: bool, d: Drive, c: Call, p: Path)
    requires Chain(d) && Step(once, d, c).Some?
    requires c in {OpenFile(p), AddFile(p), DeleteEntry(p), AbsentFile(p), AbsentDirectory(p)}
    ensures p != [] && HeldOpen(d, Init(p))
  {
  }

  // ------------------------------------------------------------------- rule 4

  predicate PastFirst(d: Drive, p: Path) {
    HeldOpen(d, p) && !d.stack[|p|].phase.NoSubdirYet?
  }

  predicate PastAll(d: Drive, p: Path) {
    HeldOpen(d, p) && d.stack[|p|].phase.PastSubdirs?
  }

  lemma PhaseStep(once: bool, d: Drive, c: Call, p: Path)
    requires Chain(d) && Step(once, d, c).Some? && c != CloseDirectory(p)
    ensures var e := Step(once, d, c).value;
      && (PastFirst(d, p) ==> PastFirst(e, p))
      && (PastAll(d, p) ==> PastAll(e, p))
      && (c.OpenDirectory? || c.AddDirectory? ==>
            c.path != [] && (Init(c.path) == p ==> !PastAll(d, p) && PastFirst(e, p)))
      && (c.ChangeDirProp? && c.path == p && PastFirst(d, p) ==> PastAll(e, p))
  {
    hide Step;
    StackStep(once, d, c);
  }

  /**
   * Properties of a directory are not changed between two calls that open its subdirectories,
   * unless it has been closed in between.
   */
  lemma {:induction false} NoPropsInTheMiddle(
      once: bool, calls: seq<Call>, i: nat, j: nat, k: nat, p: Path, prop: Prop, a: string, b: string)
    requires WellOrdered(once, calls) && i < j < k < |calls|
    requires calls[i] == OpenDirectory(p + [a]) || calls[i] == AddDirectory(p + [a])
    requires calls[k] == OpenDirectory(p + [b]) || calls[k] == AddDirectory(p + [b])
    requires calls[j] == ChangeDirProp(p, prop)
    ensures exists m :: i < m < k && calls[m] == CloseDirectory(p)
  {
    hide Step, PastFirst, PastAll;
    assert Init(p + [a]) == p && Init(p + [b]) == p;
    if forall m :: i < m < k ==> calls[m] != CloseDirectory(p) {
      NextState(once, calls, i);
      ChainAt(once, calls, i);
      PhaseStep(once, StateAt(once, calls, i), calls[i], p);
      PhaseLasts(once, calls, i + 1, j, p);
      NextState(once, calls, j);
      ChainAt(once, calls, j);
      PhaseStep(once, StateAt(once, calls, j), calls[j], p);
      PhaseLasts(once, calls, j + 1, k, p);
      NextState(once, calls, k);
      ChainAt(once, calls, k);
      PhaseStep(once, StateAt(once, calls, k), calls[k], p);
    }
  }

  lemma {:induction false} PhaseLasts(once: bool, calls: seq<Call>, n: nat, m: nat, p: Path)
    requires WellOrdered(once, calls) && n <= m <= |calls|
    requires forall k :: n <= k < m ==> calls[k] != CloseDirectory(p)
    ensures Run(once, Start, calls[..n]).Some? && Run(once, Start, calls[..m]).Some?
    ensures PastFirst(StateAt(once, calls, n), p) ==> PastFirst(StateAt(once, calls, m), p)
    ensures PastAll(StateAt(once, calls, n), p) ==> PastAll(StateAt(once, calls, m), p)
    decreases m
  {
    hide Step, PastFirst, PastAll;
    PrefixRuns(once, calls, n);
    if n < m {
      PhaseLasts(once, calls, n, m - 1, p);
      ChainAt(once, calls, m - 1);
      NextState(once, calls, m - 1);
      PhaseStep(once, StateAt(once, calls, m - 1), calls[m - 1], p);
    }
  }

  // ------------------------------------------------------------- rules 5 and 6

  predicate OnFileBaton(c: Call, p: Path) {
    (c.ChangeFileProp? || c.ApplyTextdelta? || c.CloseFile?) && c.path == p
  }

  predicate TextSent(d: Drive, p: Path) {
    d.begun && d.current == Editing(p, true)
  }

  lemma TextStep(once: bool, d: Drive, c: Call, p: Path)
    requires Step(once, d, c).Some?
    ensures var e := Step(once, d, c).value;
      && (c.ApplyTextdelta? && c.path == p ==> TextSent(e, p))
      && (TextSent(d, p) ==> OnFileBaton(c, p) && (c == CloseFile(p) || TextSent(e, p)))
  {
  }

  /** Once the text of a file has been sent, the file is closed before any call that is not on it. */
  lemma {:induction false} TextThenClose(once: bool, calls: seq<Call>, i: nat, j: nat, p: Path)
    requires WellOrdered(once, calls) && i < j < |calls|
    requires calls[i].ApplyTextdelta? && calls[i].path == p
    requires !((calls[j].ChangeFileProp? || calls[j].ApplyTextdelta? || calls[j].CloseFile?) && calls[j].path == p)
    ensures exists k :: i < k < j && calls[k] == CloseFile(p)
  {
    hide Step;
    if forall k :: i < k < j ==> calls[k] != CloseFile(p) {
      TextLasts(once, calls, i, j, p);
      NextState(once, calls, j);
      TextStep(once, StateAt(once, calls, j), calls[j], p);
    }
  }

  lemma {:induction false} TextLasts(once: bool, calls: seq<Call>, i: nat, n: nat, p: Path)
    requires WellOrdered(once, calls) && i < n <= |calls|
    requires calls[i].ApplyTextdelta? && calls[i].path == p
    requires forall k :: i < k < n ==> calls[k] != CloseFile(p)
    ensures Run(once, Start, calls[..n]).Some? && TextSent(StateAt(once, calls, n), p)
    decreases n
  {
    hide Step, TextSent;
    NextState(once, calls, n - 1);
    TextStep(once, StateAt(once, calls, n - 1), calls[n - 1], p);
    if i < n - 1 {
      TextLasts(once, calls, i, n - 1, p);
    }
  }

  /** The file is not the one being edited. */
  predicate Away(d: Drive, p: Path) {
    !(d.current.Editing? && d.current.path == p)
  }

  lemma AwayStep(once: bool, d: Drive, c: Call, p: Path)
    requires Chain(d) && Step(once, d, c).Some?
    ensures var e := Step(once, d, c).value;
      && (!OnFileBaton(c, p) && c != OpenFile(p) && c != AddFile(p) && !c.SetTargetRevision? ==> Away(e, p))
      && (c.SetTargetRevision? ==> e.current == d.current && !d.begun)
      && (Away(d, p) && OnFileBaton(c, p) ==> d.rootOpened && d.stack == [] && !c.ChangeFileProp?)
      && (d.begun ==> e.begun) && (!c.SetTargetRevision? ==> e.begun)
      && (d.rootOpened && d.stack == [] ==> e.stack == [] && e.rootOpened)
      && (c.ChangeFileProp? ==> d.stack != [])
  {
  }

  /**
   * A file that is left before it is closed is finished after the root has been closed, and by its
   * text and its closing only.
   */
  lemma {:induction false} LeftUntilTheEnd(once: bool, calls: seq<Call>, i: nat, j: nat, k: nat, p: Path)
    requires WellOrdered(once, calls) && i < j < k < |calls|
    requires calls[i] == OpenFile(p) || calls[i] == AddFile(p)
    requires forall m :: i < m <= k ==> calls[m] != OpenFile(p) && calls[m] != AddFile(p)
    requires !((calls[j].ChangeFileProp? || calls[j].ApplyTextdelta? || calls[j].CloseFile?) && calls[j].path == p)
    requires (calls[k].ChangeFileProp? || calls[k].ApplyTextdelta? || calls[k].CloseFile?) && calls[k].path == p
    ensures !calls[k].ChangeFileProp?
    ensures exists m :: i < m < k && calls[m] == CloseDirectory([])
  {
    hide Step, Away;
    RootHeldAtFile(once, calls, i, p);
    Begun(once, calls, i, j);
    NextState(once, calls, j);
    ChainAt(once, calls, j);
    AwayStep(once, StateAt(once, calls, j), calls[j], p);
    AwayLasts(once, calls, j + 1, k, p);
    NextState(once, calls, k);
    ChainAt(once, calls, k);
    AwayStep(once, StateAt(once, calls, k), calls[k], p);
    RootClosed(once, calls, i, k);
  }

  /** While a file is entered the root is open. */
  lemma {:induction false} RootHeldAtFile(once: bool, calls: seq<Call>, i: nat, p: Path)
    requires WellOrdered(once, calls) && i < |calls| && (calls[i] == OpenFile(p) || calls[i] == AddFile(p))
    ensures Run(once, Start, calls[..i + 1]).Some? && HeldOpen(StateAt(once, calls, i + 1), [])
  {
    hide Step;
    NextState(once, calls, i);
    ChainAt(once, calls, i);
    var d := StateAt(once, calls, i);
    EntryNeedsParent(once, d, calls[i], p);
    AncestorsHeld(d, Init(p), []);
    HeldStep(once, d, calls[i], []);
  }

  /** If the root was open and has been closed, a call has closed it; when all is closed, it was. */
  lemma {:induction false} RootClosed(once: bool, calls: seq<Call>, i: nat, k: nat)
    requires WellOrdered(once, calls) && i < k <= |calls|
    requires Run(once, Start, calls[..i + 1]).Some? && Run(once, Start, calls[..k]).Some?
    requires HeldOpen(StateAt(once, calls, i + 1), [])
    ensures StateAt(once, calls, k).stack == [] ==> exists m :: i < m < k && calls[m] == CloseDirectory([])
    ensures (forall m :: i < m < k ==> calls[m] != CloseDirectory([])) ==> HeldOpen(StateAt(once, calls, k), [])
    decreases k
  {
    hide Step;
    if i + 1 < k {
      PrefixRuns(once, calls, k - 1);
      RootClosed(once, calls, i, k - 1);
      ChainAt(once, calls, k - 1);
      NextState(once, calls, k - 1);
      HeldStep(once, StateAt(once, calls, k - 1), calls[k - 1], []);
    }
  }

  /** After a call other than to set the target revision, that call is not made any more. */
  lemma {:induction false} Begun(once: bool, calls: seq<Call>, i: nat, n: nat)
    requires WellOrdered(once, calls) && i < n < |calls| && !calls[i].SetTargetRevision?
    ensures !calls[n].SetTargetRevision?
    ensures Run(once, Start, calls[..n]).Some? && StateAt(once, calls, n).begun
    decreases n
  {
    hide Step, Away;
    NextState(once, calls, n - 1);
    ChainAt(once, calls, n - 1);
    AwayStep(once, StateAt(once, calls, n - 1), calls[n - 1], []);
    if i < n - 1 {
      Begun(once, calls, i, n - 1);
    }
    NextState(once, calls, n);
    ChainAt(once, calls, n);
    AwayStep(once, StateAt(once, calls, n), calls[n], []);
  }

  /** A file that has been left is not edited as long as the root is open. */
  lemma {:induction false} AwayLasts(once: bool, calls: seq<Call>, n: nat, m: nat, p: Path)
    requires WellOrdered(once, calls) && 0 < n <= m < |calls| && !calls[n - 1].SetTargetRevision?
    requires forall k :: n <= k < m ==> calls[k] != OpenFile(p) && calls[k] != AddFile(p)
    requires Run(once, Start, calls[..n]).Some? && Away(StateAt(once, calls, n), p)
    ensures Run(once, Start, calls[..m]).Some?
    ensures var d := StateAt(once, calls, m); Away(d, p) || (d.rootOpened && d.stack == [])
    decreases m
  {
    hide Step, Away;
    if n < m {
      AwayLasts(once, calls, n, m - 1, p);
      Begun(once, calls, n - 1, m - 1);
      ChainAt(once, calls, m - 1);
      NextState(once, calls, m - 1);
      AwayStep(once, StateAt(once, calls, m - 1), calls[m - 1], p);
    }
  }

  // -------------------------------------------------------- what the rules allow

  /**
   * A drive that uses what the rules leave open: properties of a directory before and after its
   * subdirectories, and a file left open and finished after the root has been closed.
   */
  lemma {:induction false} AllowedDrive(
      f: string, g: string, before: Prop, after: Prop, fileProp: Prop, text: seq<byte>, rev: int)
    requires f != g
    ensures CompleteDrive(true, [
              SetTargetRevision(rev), OpenRoot, ChangeDirProp([], before), AddFile([f]), ChangeFileProp([f], fileProp),
              OpenDirectory([g]), CloseDirectory([g]), ChangeDirProp([], after), CloseDirectory([]),
              ApplyTextdelta([f], text), CloseFile([f]), CloseEdit])
  {
    hide Step, Run;
    var d3 := AllowedBeginning(f, before, fileProp, rev);
    var d6 := AllowedMiddle(d3, f, g, after);
    AllowedEnd(d6, f, text);
    var a :=
      [SetTargetRevision(rev), OpenRoot, ChangeDirProp([], before), AddFile([f]), ChangeFileProp([f], fileProp)];
    var b := [OpenDirectory([g]), CloseDirectory([g]), ChangeDirProp([], after), CloseDirectory([])];
    var c := [ApplyTextdelta([f], text), CloseFile([f]), CloseEdit];
    assert a + b + c == [
      SetTargetRevision(rev), OpenRoot, ChangeDirProp([], before), AddFile([f]), ChangeFileProp([f], fileProp),
      OpenDirectory([g]), CloseDirectory([g]), ChangeDirProp([], after), CloseDirectory([]),
      ApplyTextdelta([f], text), CloseFile([f]), CloseEdit];
    RunConcat(true, Start, a, b);
    RunConcat(true, Start, a + b, c);
  }

  lemma {:induction false} RunFirst(d: Drive, c: Call, rest: seq<Call>)
    requires Step(true, d, c).Some?
    ensures Run(true, d, [c] + rest) == Run(true, Step(true, d, c).value, rest)
  {
    assert ([c] + rest)[1..] == rest;
  }

  lemma {:induction false} AllowedBeginning(f: string, before: Prop, fileProp: Prop, rev: int) returns (d: Drive)
    ensures Run(true, Start,
              [SetTargetRevision(rev), OpenRoot, ChangeDirProp([], before), AddFile([f]),
               ChangeFileProp([f], fileProp)])
            == Some(d)
    ensures d == Drive(true, true, [Dir([], NoSubdirYet)], Editing([f], false), {}, {[], [f]}, {}, false)
  {
    hide Run;
    var d1 := Step(true, Start, SetTargetRevision(rev)).value;
    var d2 := Step(true, d1, OpenRoot).value;
    var d3 := Step(true, d2, ChangeDirProp([], before)).value;
    assert Init([f]) == [] && d3.stack[0].path == [];
    var d4 := Step(true, d3, AddFile([f])).value;
    d := Step(true, d4, ChangeFileProp([f], fileProp)).value;
    RunFirst(Start, SetTargetRevision(rev),
             [OpenRoot, ChangeDirProp([], before), AddFile([f]), ChangeFileProp([f], fileProp)]);
    RunFirst(d1, OpenRoot, [ChangeDirProp([], before), AddFile([f]), ChangeFileProp([f], fileProp)]);
    RunFirst(d2, ChangeDirProp([], before), [AddFile([f]), ChangeFileProp([f], fileProp)]);
    RunFirst(d3, AddFile([f]), [ChangeFileProp([f], fileProp)]);
    RunFirst(d4, ChangeFileProp([f], fileProp), []);
    RunNothing(d);
    Grouped5(SetTargetRevision(rev), OpenRoot, ChangeDirProp([], before), AddFile([f]), ChangeFileProp([f], fileProp));
  }

  lemma Grouped5(a: Call, b: Call, c: Call, d: Call, e: Call)
    ensures [a, b, c, d, e] == [a] + [b, c, d, e] && [b, c, d, e] == [b] + [c, d, e]
    ensures [c, d, e] == [c] + [d, e] && [d, e] == [d] + [e] && [e] == [e] + []
  {
  }

  lemma {:induction false} RunNothing(d: Drive)
    ensures Run(true, d, []) == Some(d)
  {
  }

  lemma {:induction false} AllowedMiddle(d: Drive, f: string, g: string, after: Prop) returns (e: Drive)
    requires d == Drive(true, true, [Dir([], NoSubdirYet)], Editing([f], false), {}, {[], [f]}, {}, false) && f != g
    ensures Run(true, d, [OpenDirectory([g]), CloseDirectory([g]), ChangeDirProp([], after), CloseDirectory([])])
            == Some(e)
    ensures e == Drive(true, true, [], NoFile, {[f]}, {[], [f], [g]}, {}, false)
  {
    hide Run, Step;
    var root := Dir([], AmongSubdirs);
    var d1 := Drive(true, true, [root, Dir([g], NoSubdirYet)], NoFile, {[f]}, {[], [f], [g]}, {}, false);
    var d2, d3 := d1.(stack := [root]), d1.(stack := [Dir([], PastSubdirs)]);
    e := d1.(stack := []);
    AllowedOpen(d, f, g);
    AllowedClose(d1, g, [root]);
    AllowedProp(d2, after);
    AllowedClose(d3, "", []);
    RunFirst(d, OpenDirectory([g]), [CloseDirectory([g]), ChangeDirProp([], after), CloseDirectory([])]);
    RunFirst(d1, CloseDirectory([g]), [ChangeDirProp([], after), CloseDirectory([])]);
    RunFirst(d2, ChangeDirProp([], after), [CloseDirectory([])]);
    RunFirst(d3, CloseDirectory([]), []);
    RunNothing(e);
    Grouped5(OpenRoot, OpenDirectory([g]), CloseDirectory([g]), ChangeDirProp([], after), CloseDirectory([]));
  }

  lemma AllowedOpen(d: Drive, f: string, g: string)
    requires d == Drive(true, true, [Dir([], NoSubdirYet)], Editing([f], false), {}, {[], [f]}, {}, false) && f != g
    ensures Step(true, d, OpenDirectory([g])) == Some(Drive(
              true, true, [Dir([], AmongSubdirs), Dir([g], NoSubdirYet)], NoFile, {[f]}, {[], [f], [g]}, {}, false))
  {
    assert Init([g]) == [] && [f][0] == f && [g][0] == g;
    var free := d.(current := NoFile, deferred := {[f]});
    assert {} + {[f]} == {[f]} && Leave(d) == Some(free);
    assert IsInnermost(free, []) && [g] !in free.entered;
    assert SetTop(d.stack, AmongSubdirs) + [Dir([g], NoSubdirYet)] == [Dir([], AmongSubdirs), Dir([g], NoSubdirYet)];
    assert {[], [f]} + {[g]} == {[], [f], [g]};
  }

  lemma AllowedClose(d: Drive, g: string, left: seq<Dir>)
    requires d.begun && !d.done && d.current.NoFile?
    requires d.stack != [] && Init(d.stack) == left && Last(d.stack).path == if left == [] then [] else [g]
    ensures Step(true, d, CloseDirectory(Last(d.stack).path)) == Some(d.(stack := left))
  {
  }

  lemma AllowedProp(d: Drive, prop: Prop)
    requires d.begun && !d.done && d.current.NoFile? && d.stack == [Dir([], AmongSubdirs)]
    ensures Step(true, d, ChangeDirProp([], prop)) == Some(d.(stack := [Dir([], PastSubdirs)]))
  {
    assert SetTop(d.stack, PastSubdirs) == [Dir([], PastSubdirs)];
  }

  lemma {:induction false} AllowedEnd(d: Drive, f: string, text: seq<byte>)
    requires d.begun && d.rootOpened && d.stack == [] && d.current.NoFile? && d.deferred == {[f]} && !d.done
    ensures var r := Run(true, d, [ApplyTextdelta([f], text), CloseFile([f]), CloseEdit]);
      r.Some? && r.value.done
  {
    hide Run;
    var d1 := Step(true, d, ApplyTextdelta([f], text)).value;
    var d2 := Step(true, d1, CloseFile([f])).value;
    var d3 := Step(true, d2, CloseEdit).value;
    RunFirst(d, ApplyTextdelta([f], text), [CloseFile([f]), CloseEdit]);
    RunFirst(d1, CloseFile([f]), [CloseEdit]);
    RunFirst(d2, CloseEdit, []);
    RunNothing(d3);
    Grouped5(OpenRoot, OpenRoot, ApplyTextdelta([f], text), CloseFile([f]), CloseEdit);
  }
}
