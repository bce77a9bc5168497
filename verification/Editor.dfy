/** The tree delta editor: its calls, and the rules on the order of the calls. */
module Editor {
  import opened Common

  /** A relpath, as its components. A directory or file baton stands for the path it was opened on. */
  type Path = seq<string>

  datatype Prop = Prop(name: string, value: Option<string>)

  datatype Call =
    | SetTargetRevision(rev: int)
    | OpenRoot
    | DeleteEntry(path: Path)
    | AddDirectory(path: Path)
    | OpenDirectory(path: Path)
    | ChangeDirProp(path: Path, prop: Prop)
    | CloseDirectory(path: Path)
    | AbsentDirectory(path: Path)
    | AddFile(path: Path)
    | OpenFile(path: Path)
    | ChangeFileProp(path: Path, prop: Prop)
    | ApplyTextdelta(path: Path, text: seq<byte>)
    | CloseFile(path: Path)
    | AbsentFile(path: Path)
    | CloseEdit

  /** How far the traversal of a directory's subdirectories has got (rule 4). */
  datatype Phase = NoSubdirYet | AmongSubdirs | PastSubdirs

  datatype Dir = Dir(path: Path, phase: Phase)

  /** The file being edited right now, and whether its text has been sent. */
  datatype Current = NoFile | Editing(path: Path, textSent: bool)

  datatype Drive = Drive(
    begun: bool,
    rootOpened: bool,
    stack: seq<Dir>,        // open directories, the root first
    current: Current,
    deferred: set<Path>,    // files left open, to be finished after the last directory
    entered: set<Path>,     // entries opened or added so far (rule 1)
    deleted: set<Path>,     // entries deleted so far (rule 1)
    done: bool)

  const Start := Drive(false, false, [], NoFile, {}, {}, {}, false)

  /** The entry may be opened or added now (rule 1). */
  predicate MayEnter(once: bool, d: Drive, path: Path, add: bool) {
    once ==> path !in d.entered && (!add ==> path !in d.deleted)
  }

  predicate MayDelete(once: bool, d: Drive, path: Path) {
    once ==> path !in d.entered && path !in d.deleted
  }

  predicate IsOpen(d: Drive, path: Path) {
    exists i :: 0 <= i < |d.stack| && d.stack[i].path == path
  }

  predicate IsInnermost(d: Drive, path: Path) {
    d.stack != [] && Last(d.stack).path == path
  }

  /** Going on to another file or directory defers the current file (rule 5). */
  function Leave(d: Drive): Option<Drive> {
    match d.current
    case NoFile => Some(d)
    case Editing(path, textSent) =>
      if textSent then None
      else Some(d.(current := NoFile, deferred := d.deferred + {path}))
  }

  function SetTop(stack: seq<Dir>, phase: Phase): seq<Dir>
    requires stack != []
  {
    Init(stack) + [Last(stack).(phase := phase)]
  }

  function EnterDirectory(once: bool, d: Drive, path: Path, add: bool): Option<Drive> {
    if path != [] && IsInnermost(d, Init(path)) && Last(d.stack).phase != PastSubdirs
       && MayEnter(once, d, path, add)
    then Some(d.(stack := SetTop(d.stack, AmongSubdirs) + [Dir(path, NoSubdirYet)], entered := d.entered + {path}))
    else None
  }

  function EnterFile(once: bool, d: Drive, path: Path, add: bool): Option<Drive> {
    if path != [] && IsOpen(d, Init(path)) && MayEnter(once, d, path, add)
    then Some(d.(current := Editing(path, false), entered := d.entered + {path}))
    else None
  }

  /** A call that ends the attention given to the current file. */
  function StepDirectory(once: bool, d: Drive, c: Call): Option<Drive> {
    match c
    case OpenRoot =>
      if d.rootOpened then None
      else Some(d.(rootOpened := true, stack := [Dir([], NoSubdirYet)], entered := d.entered + {[]}))
    case DeleteEntry(path) =>
      if path != [] && IsOpen(d, Init(path)) && MayDelete(once, d, path)
      then Some(d.(deleted := d.deleted + {path})) else None
    case AddDirectory(path) => EnterDirectory(once, d, path, true)
    case OpenDirectory(path) => EnterDirectory(once, d, path, false)
    case ChangeDirProp(path, _) =>
      if !IsInnermost(d, path) then None
      else if Last(d.stack).phase == NoSubdirYet then Some(d)
      else Some(d.(stack := SetTop(d.stack, PastSubdirs)))
    case CloseDirectory(path) =>
      if IsInnermost(d, path) then Some(d.(stack := Init(d.stack))) else None
    case AbsentDirectory(path) =>
      if path != [] && IsOpen(d, Init(path)) then Some(d) else None
    case AbsentFile(path) =>
      if path != [] && IsOpen(d, Init(path)) then Some(d) else None
    case AddFile(path) => EnterFile(once, d, path, true)
    case OpenFile(path) => EnterFile(once, d, path, false)
    case CloseEdit =>
      if d.stack == [] && d.deferred == {} then Some(d.(done := true)) else None
    case _ => None
  }

  /** A call on a file baton. */
  function StepFile(d: Drive, c: Call): Option<Drive>
    requires c.ChangeFileProp? || c.ApplyTextdelta? || c.CloseFile?
  {
    var now := d.current.Editing? && d.current.path == c.path;
    var postfix := d.rootOpened && d.stack == [] && d.current.NoFile? && c.path in d.deferred;
    match c
    case ChangeFileProp(path, _) => if now && d.stack != [] then Some(d) else None
    case ApplyTextdelta(path, _) =>
      if now then Some(d.(current := Editing(path, true)))
      else if postfix then Some(d.(current := Editing(path, true), deferred := d.deferred - {path}))
      else None
    case CloseFile(path) =>
      if now then Some(d.(current := NoFile))
      else if postfix then Some(d.(deferred := d.deferred - {path}))
      else None
  }

  /**
   * One call. `once` tells whether rule 1, that no entry is visited twice, is enforced; all
   * the other rules always are.
   */
  function Step(once: bool, d: Drive, c: Call): Option<Drive> {
    if d.done then None
    else if c.SetTargetRevision? then
      if d.begun then None else Some(d.(begun := true))
    else
      var b := d.(begun := true);
      if c.ChangeFileProp? || c.ApplyTextdelta? || c.CloseFile? then StepFile(b, c)
      else
        match Leave(b)
        case None => None
        case Some(free) => StepDirectory(once, free, c)
  }

  function Run(once: bool, d: Drive, calls: seq<Call>): Option<Drive>
    decreases |calls|
  {
    if calls == [] then Some(d)
    else
      match Step(once, d, calls[0])
      case None => None
      case Some(next) => Run(once, next, calls[1..])
  }

  /** The calls keep every rule so far. */
  predicate WellOrdered(once: bool, calls: seq<Call>) {
    Run(once, Start, calls).Some?
  }

  /** The calls keep every rule and finish the edit: nothing is left open. */
  predicate CompleteDrive(once: bool, calls: seq<Call>) {
    WellOrdered(once, calls) && Run(once, Start, calls).value.done
  }

  lemma {:induction false} RunConcat(once: bool, d: Drive, a: seq<Call>, b: seq<Call>)
    ensures Run(once, d, a + b) ==
      match Run(once, d, a)
      case None => None
      case Some(mid) => Run(once, mid, b)
    decreases |a|
  {
    if a == [] {
      assert a + b == b;
    } else {
      assert (a + b)[0] == a[0] && (a + b)[1..] == a[1..] + b;
      match Step(once, d, a[0])
      case None =>
      case Some(next) => RunConcat(once, next, a[1..], b);
    }
  }

  lemma OnceStep(d: Drive, c: Call)
    requires Step(true, d, c).Some?
    ensures Step(false, d, c) == Step(true, d, c)
  {
  }

  /** A drive that keeps rule 1 too is a drive without it, in the same state. */
  lemma {:induction false} OnceIsStricter(d: Drive, calls: seq<Call>)
    requires Run(true, d, calls).Some?
    ensures Run(false, d, calls) == Run(true, d, calls)
    decreases |calls|
  {
    hide Step;
    if calls != [] {
      OnceStep(d, calls[0]);
      OnceIsStricter(Step(true, d, calls[0]).value, calls[1..]);
    }
  }

  ghost predicate DoneClean(d: Drive) {
    d.done ==> d.stack == [] && d.current.NoFile? && d.deferred == {}
  }

  lemma DoneCleanStep(once: bool, d: Drive, c: Call)
    requires DoneClean(d) && Step(once, d, c).Some?
    ensures DoneClean(Step(once, d, c).value)
  {
  }

  /** A finished drive has closed every baton it opened. */
  lemma {:induction false} DoneMeansClosed(once: bool, d: Drive, calls: seq<Call>)
    requires DoneClean(d)
    requires Run(once, d, calls).Some? && Run(once, d, calls).value.done
    ensures var e := Run(once, d, calls).value;
      e.stack == [] && e.current.NoFile? && e.deferred == {}
    decreases |calls|
  {
    hide Step;
    if calls != [] {
      DoneCleanStep(once, d, calls[0]);
      DoneMeansClosed(once, Step(once, d, calls[0]).value, calls[1..]);
    }
  }
  // ------------------------------------------- the rules, read off the calls

  predicate EntersPath(c: Call, p: Path) {
    (c.AddDirectory? || c.OpenDirectory? || c.AddFile? || c.OpenFile?) && c.path == p
  }

  predicate DeletesPath(c: Call, p: Path) {
    c.DeleteEntry? && c.path == p
  }

  lemma VisitedStays(d: Drive, c: Call, p: Path)
    requires Step(true, d, c).Some?
    ensures var e := Step(true, d, c).value;
      && (p in d.entered || EntersPath(c, p) ==> p in e.entered)
      && (p in d.deleted || DeletesPath(c, p) ==> p in e.deleted)
      && (p in d.entered ==> !EntersPath(c, p) && !DeletesPath(c, p))
      && (p in d.deleted ==> !DeletesPath(c, p) && c != OpenFile(p) && c != OpenDirectory(p))
  {
  }

  lemma {:induction false} NoVisitAfter(d: Drive, calls: seq<Call>, j: nat, p: Path)
    requires Run(true, d, calls).Some? && j < |calls|
    ensures p in d.entered ==> !EntersPath(calls[j], p) && !DeletesPath(calls[j], p)
    ensures p in d.deleted ==>
      !DeletesPath(calls[j], p) && calls[j] != OpenFile(p) && calls[j] != OpenDirectory(p)
    decreases |calls|
  {
    hide Step;
    VisitedStays(d, calls[0], p);
    if j > 0 {
      NoVisitAfter(Step(true, d, calls[0]).value, calls[1..], j - 1, p);
    }
  }

  /**
   * Rule 1, as a statement about two calls of a well-ordered drive: an entry is opened or
   * added at most once and deleted at most once, is not deleted after that, and a deleted
   * entry is at most added again.
   */
  lemma {:induction false} EntriesVisitedOnce(d: Drive, calls: seq<Call>, i: nat, j: nat, p: Path)
    requires Run(true, d, calls).Some? && i < j < |calls|
    ensures EntersPath(calls[i], p) ==> !EntersPath(calls[j], p) && !DeletesPath(calls[j], p)
    ensures DeletesPath(calls[i], p) ==>
      !DeletesPath(calls[j], p) && calls[j] != OpenFile(p) && calls[j] != OpenDirectory(p)
    decreases |calls|
  {
    hide Step;
    var next := Step(true, d, calls[0]).value;
    if i == 0 {
      VisitedStays(d, calls[0], p);
      NoVisitAfter(next, calls[1..], j - 1, p);
    } else {
      EntriesVisitedOnce(next, calls[1..], i - 1, j - 1, p);
    }
  }
}
