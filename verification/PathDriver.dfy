/** The resumable path driver: start, one step for each path, finish. */
module PathDriver {
  import opened Common
  import opened Editor

  // ----------------------------------------------------------- the callback

  datatype Entry = Open | Add | Replace

  datatype FileEdit = SetProp(prop: Prop) | SendText(text: seq<byte>)

  /** What the callback does with the path it is given. A file is closed at once. */
  datatype Action =
    | Nothing
    | DeleteIt
    | Directory(how: Entry, props: seq<Prop>)
    | File(how: Entry, edits: seq<FileEdit>)

  datatype Visit = Visit(path: Path, action: Action)

  function DirPropCalls(path: Path, props: seq<Prop>): seq<Call> {
    if props == [] then [] else [ChangeDirProp(path, props[0])] + DirPropCalls(path, props[1..])
  }

  function FileEditCalls(path: Path, edits: seq<FileEdit>): seq<Call> {
    if edits == [] then [] else
      [match edits[0] case SetProp(p) => ChangeFileProp(path, p) case SendText(t) => ApplyTextdelta(path, t)]
      + FileEditCalls(path, edits[1..])
  }

  function EntryCalls(path: Path, how: Entry, file: bool): seq<Call> {
    match how
    case Open => [if file then OpenFile(path) else OpenDirectory(path)]
    case Add => [if file then AddFile(path) else AddDirectory(path)]
    case Replace => [DeleteEntry(path), if file then AddFile(path) else AddDirectory(path)]
  }

  /** The editor calls the callback makes. At the root it is the callback that opens the root. */
  function CallbackCalls(v: Visit): seq<Call> {
    match v.action
    case Nothing => []
    case DeleteIt => [DeleteEntry(v.path)]
    case Directory(how, props) =>
      (if v.path == [] then [OpenRoot] else EntryCalls(v.path, how, false)) + DirPropCalls(v.path, props)
    case File(how, edits) =>
      EntryCalls(v.path, how, true) + FileEditCalls(v.path, edits) + [CloseFile(v.path)]
  }

  /** What the callback owes the driver at the root of the edit. */
  predicate CallbackObeys(first: bool, v: Visit) {
    v.path == [] ==> if first then v.action.Directory? && v.action.how.Open? else v.action.Nothing?
  }

  predicate AllObey(visits: seq<Visit>) {
    forall i :: 0 <= i < |visits| ==> CallbackObeys(i == 0, visits[i])
  }

  // ------------------------------------------------------ calls of the driver

  /** Closes directories from `cur` upwards until one of depth `k` is innermost. */
  function CloseCalls(cur: Path, k: nat): seq<Call> {
    if |cur| <= k then [] else [CloseDirectory(cur)] + CloseCalls(Init(cur), k)
  }

  /** Opens the directories below depth `k` down to `dir`. */
  function OpenCalls(dir: Path, k: nat): seq<Call>
    decreases |dir| - k
  {
    if k >= |dir| then [] else [OpenDirectory(dir[..k + 1])] + OpenCalls(dir, k + 1)
  }

  function Parent(path: Path): Path {
    if path == [] then [] else Init(path)
  }

  /** Moves from the innermost open directory to `dir`, opening the root if nothing is open. */
  function MoveCalls(cur: Option<Path>, dir: Path): seq<Call> {
    var from := if cur.None? then [] else cur.value;
    var k := CommonLen(from, dir);
    (if cur.None? then [OpenRoot] else []) + CloseCalls(from, k) + OpenCalls(dir, k)
  }

  /** All the calls of one step, the callback's among them; `cur` is the innermost open directory. */
  function StepCalls(cur: Option<Path>, v: Visit): seq<Call> {
    (if cur.None? && v.path == [] then [] else MoveCalls(cur, Parent(v.path))) + CallbackCalls(v)
  }

  function NextDir(v: Visit): Path {
    if v.action.Directory? then v.path else Parent(v.path)
  }

  function Innermost(visits: seq<Visit>): Option<Path> {
    if visits == [] then None else Some(NextDir(Last(visits)))
  }

  function Steps(visits: seq<Visit>): seq<Call> {
    if visits == [] then [] else Steps(Init(visits)) + StepCalls(Innermost(Init(visits)), Last(visits))
  }

  lemma {:induction false} StepsOneMore(visits: seq<Visit>, v: Visit)
    ensures Steps(visits + [v]) == Steps(visits) + StepCalls(Innermost(visits), v)
    ensures Innermost(visits + [v]) == Some(NextDir(v))
  {
    assert Init(visits + [v]) == visits;
  }

  function FinishCalls(cur: Option<Path>): seq<Call> {
    if cur.None? then [CloseEdit] else CloseCalls(cur.value, 0) + [CloseDirectory([]), CloseEdit]
  }

  function FullDrive(visits: seq<Visit>): seq<Call> {
    Steps(visits) + FinishCalls(Innermost(visits))
  }

  // ----------------------------------------------------- the calls, one by one

  /** The directories from `cur` up, as long as they are deeper than `k`, are closed, the deepest first. */
  lemma {:induction false} Closings(cur: Path, k: nat)
    requires k <= |cur|
    ensures CloseCalls(cur, k) ==
            seq(|cur| - k, i requires 0 <= i < |cur| - k => CloseDirectory(cur[..|cur| - i]))
    decreases |cur|
  {
    var all := seq(|cur| - k, i requires 0 <= i < |cur| - k => CloseDirectory(cur[..|cur| - i]));
    if |cur| > k {
      Closings(Init(cur), k);
      var n := |cur| - 1;
      assert cur[..|cur|] == cur;
      assert all[1..] == CloseCalls(Init(cur), k) by {
        forall i | 0 <= i < n - k
          ensures all[1..][i] == CloseDirectory(Init(cur)[..n - i])
        {
          assert cur[..|cur| - (i + 1)] == Init(cur)[..n - i];
        }
      }
      assert all == [all[0]] + all[1..];
    }
  }

  /** The directories deeper than `k` down to `dir` are opened, the deepest last. */
  lemma {:induction false} Openings(dir: Path, k: nat)
    requires k <= |dir|
    ensures OpenCalls(dir, k) ==
            seq(|dir| - k, i requires 0 <= i < |dir| - k => OpenDirectory(dir[..k + 1 + i]))
    decreases |dir| - k
  {
    var all := seq(|dir| - k, i requires 0 <= i < |dir| - k => OpenDirectory(dir[..k + 1 + i]));
    if k < |dir| {
      Openings(dir, k + 1);
      assert all[1..] == OpenCalls(dir, k + 1);
      assert all == [all[0]] + all[1..];
    }
  }

  /**
   * The calls of a step: at a root visited first, the callback's alone. Otherwise the root is opened
   * if nothing is open, what is open and does not hold the path is closed from the inside out, its
   * directories that are not open are opened from the outside in, and then the callback acts.
   */
  lemma StepSends(cur: Option<Path>, v: Visit, k: nat)
    requires var open: Path := if cur.None? then [] else cur.value;
             var dir: Path := if v.path == [] then [] else Init(v.path);
             && k <= |open| && k <= |dir| && open[..k] == dir[..k]
             && (k < |open| && k < |dir| ==> open[k] != dir[k])
    ensures var open: Path := if cur.None? then [] else cur.value;
            var dir: Path := if v.path == [] then [] else Init(v.path);
            StepCalls(cur, v) ==
              if cur.None? && v.path == [] then CallbackCalls(v)
              else
                (if cur.None? then [OpenRoot] else [])
                + seq(|open| - k, i requires 0 <= i < |open| - k => CloseDirectory(open[..|open| - i]))
                + seq(|dir| - k, i requires 0 <= i < |dir| - k => OpenDirectory(dir[..k + 1 + i]))
                + CallbackCalls(v)
  {
    hide CallbackCalls;
    var open: Path := if cur.None? then [] else cur.value;
    var dir: Path := if v.path == [] then [] else Init(v.path);
    SharedLength(open, dir, k);
    Closings(open, k);
    Openings(dir, k);
  }

  lemma {:induction false} SharedLength(a: Path, b: Path, k: nat)
    requires k <= |a| && k <= |b| && a[..k] == b[..k] && (k < |a| && k < |b| ==> a[k] != b[k])
    ensures CommonLen(a, b) == k
  {
    SameUpTo(a, b, k);
    SameUpTo(a, b, CommonLen(a, b));
  }

  lemma SameUpTo(a: Path, b: Path, k: nat)
    requires k <= |a| && k <= |b| && a[..k] == b[..k]
    ensures forall i :: 0 <= i < k ==> a[i] == b[i]
  {
    forall i | 0 <= i < k
      ensures a[i] == b[i]
    {
      assert a[i] == a[..k][i];
    }
  }

  /** At the end everything open is closed from the inside out, the root last, and then the edit. */
  lemma FinishSends(cur: Option<Path>)
    ensures cur.None? ==> FinishCalls(cur) == [CloseEdit]
    ensures cur.Some? ==>
              FinishCalls(cur) ==
              seq(|cur.value|, i requires 0 <= i < |cur.value| => CloseDirectory(cur.value[..|cur.value| - i]))
              + [CloseDirectory([]), CloseEdit]
  {
    if cur.Some? {
      Closings(cur.value, 0);
      var a := seq(|cur.value| - 0, i requires 0 <= i < |cur.value| - 0 =>
        CloseDirectory(cur.value[..|cur.value| - i]));
      assert a == seq(|cur.value|, i requires 0 <= i < |cur.value| => CloseDirectory(cur.value[..|cur.value| - i]));
    }
  }

  /** What the callback sends: the entry is opened, added or replaced first, and a file is closed at the end. */
  lemma CallbackSends(v: Visit)
    ensures v.action == Nothing ==> CallbackCalls(v) == []
    ensures v.action == DeleteIt ==> CallbackCalls(v) == [DeleteEntry(v.path)]
    ensures v.action.Directory? ==>
              CallbackCalls(v) ==
              (if v.path == [] then [OpenRoot]
               else match v.action.how
                 case Open => [OpenDirectory(v.path)]
                 case Add => [AddDirectory(v.path)]
                 case Replace => [DeleteEntry(v.path), AddDirectory(v.path)])
              + seq(|v.action.props|, i requires 0 <= i < |v.action.props| => ChangeDirProp(v.path, v.action.props[i]))
    ensures v.action.File? ==>
              CallbackCalls(v) ==
              (match v.action.how
               case Open => [OpenFile(v.path)]
               case Add => [AddFile(v.path)]
               case Replace => [DeleteEntry(v.path), AddFile(v.path)])
              + seq(|v.action.edits|, i requires 0 <= i < |v.action.edits| =>
                  match v.action.edits[i]
                  case SetProp(p) => ChangeFileProp(v.path, p)
                  case SendText(t) => ApplyTextdelta(v.path, t))
              + [CloseFile(v.path)]
  {
    match v.action
    case Directory(_, props) => PropsSent(v.path, props);
    case File(_, edits) => EditsSent(v.path, edits);
    case _ =>
  }

  lemma {:induction false} PropsSent(path: Path, props: seq<Prop>)
    ensures DirPropCalls(path, props) ==
            seq(|props|, i requires 0 <= i < |props| => ChangeDirProp(path, props[i]))
  {
    if props != [] {
      PropsSent(path, props[1..]);
    }
  }

  lemma {:induction false} EditsSent(path: Path, edits: seq<FileEdit>)
    ensures FileEditCalls(path, edits) ==
            seq(|edits|, i requires 0 <= i < |edits| =>
              match edits[i]
              case SetProp(p) => ChangeFileProp(path, p)
              case SendText(t) => ApplyTextdelta(path, t))
  {
    if edits != [] {
      EditsSent(path, edits[1..]);
    }
  }

  // -------------------------------------------------------------- the object

  /** The driver state: the open directories, and the calls the editor has received. */
  class Driver {
    var stack: seq<Path>
    var calls: seq<Call>
    ghost var visits: seq<Visit>

    ghost predicate Valid()
      reads this
    {
      && calls == Steps(visits)
      && match Innermost(visits)
         case None => stack == []
         case Some(cur) => IsChain(stack, cur)
    }

    /** The open directories are the ancestors of `cur`, root first, and `cur` itself. */
    static predicate IsChain(stack: seq<Path>, cur: Path) {
      |stack| == |cur| + 1 && forall i :: 0 <= i <= |cur| ==> stack[i] == cur[..i]
    }

    constructor ()
      ensures Valid() && visits == [] && calls == []
    {
      stack, calls, visits := [], [], [];
    }

    /** Visits one path: closes and opens directories as needed, then lets the callback act. */
    method Step(v: Visit)
      requires Valid() && CallbackObeys(visits == [], v)
      modifies this
      ensures Valid() && visits == old(visits) + [v]
      ensures calls == old(calls) + StepCalls(old(Innermost(visits)), v)
    {
      hide Steps, MoveCalls, CallbackCalls;
      StepsOneMore(visits, v);
      if stack == [] && v.path == [] {
        calls := calls + CallbackCalls(v);
        stack := [[]];
      } else {
        MoveTo(Parent(v.path), Innermost(visits));
        calls := calls + CallbackCalls(v);
        if v.action.Directory? && v.path != [] {
          stack := stack + [v.path];
        }
      }
      visits := visits + [v];
    }

    method MoveTo(dir: Path, ghost cur: Option<Path>)
      requires match cur case None => stack == [] case Some(c) => IsChain(stack, c)
      modifies this`stack, this`calls
      ensures IsChain(stack, dir)
      ensures calls == old(calls) + MoveCalls(cur, dir)
    {
      hide CloseCalls, OpenCalls;
      ghost var before := calls;
      assert cur.Some? ==> cur.value[..|cur.value|] == cur.value;
      if stack == [] {
        calls := calls + [OpenRoot];
        stack := [[]];
      }
      ghost var from := Last(stack);
      var k := CommonLen(Last(stack), dir);
      CloseTo(k);
      assert from[..k] == dir[..k];
      OpenTo(dir);
      assert calls == before + (if cur.None? then [OpenRoot] else []) + CloseCalls(from, k) + OpenCalls(dir, k);
    }

    method CloseTo(k: nat)
      requires stack != [] && IsChain(stack, Last(stack)) && k <= |Last(stack)|
      modifies this`stack, this`calls
      ensures IsChain(stack, old(Last(stack))[..k])
      ensures calls == old(calls + CloseCalls(Last(stack), k))
    {
      ghost var goal := calls + CloseCalls(Last(stack), k);
      while |stack| > k + 1
        invariant k < |stack| && IsChain(stack, Last(stack))
        invariant Last(stack) == old(Last(stack))[..|stack| - 1]
        invariant calls + CloseCalls(Last(stack), k) == goal
      {
        assert Init(Last(stack)) == stack[|stack| - 2];
        calls := calls + [CloseDirectory(Last(stack))];
        stack := Init(stack);
      }
    }

    method OpenTo(dir: Path)
      requires stack != [] && |stack| - 1 <= |dir| && IsChain(stack, dir[..|stack| - 1])
      modifies this`stack, this`calls
      ensures IsChain(stack, dir)
      ensures calls == old(calls + OpenCalls(dir, |stack| - 1))
    {
      ghost var goal := calls + OpenCalls(dir, |stack| - 1);
      while |stack| - 1 < |dir|
        invariant 0 < |stack| <= |dir| + 1 && IsChain(stack, dir[..|stack| - 1])
        invariant calls + OpenCalls(dir, |stack| - 1) == goal
        decreases |dir| - |stack|
      {
        var next := dir[..|stack|];
        calls := calls + [OpenDirectory(next)];
        stack := stack + [next];
      }
    }

    /** Closes everything, then the edit. */
    method Finish()
      requires Valid()
      modifies this
      ensures calls == FullDrive(visits) && visits == old(visits) && stack == []
    {
      hide Steps, CloseCalls;
      ghost var before, cur := calls, Innermost(visits);
      assert cur.Some? ==> cur.value[..|cur.value|] == cur.value;
      if stack != [] {
        CloseTo(0);
        calls := calls + [CloseDirectory([])];
        stack := [];
      }
      calls := calls + [CloseEdit];
      assert calls == before + FinishCalls(cur);
    }
  }

  /** Start, a step for each path, finish. */
  method DrivePaths(visits: seq<Visit>) returns (calls: seq<Call>)
    requires AllObey(visits)
    ensures calls == FullDrive(visits)
  {
    hide Steps, StepCalls, FullDrive, Driver.Valid;
    var driver := new Driver();
    for i := 0 to |visits|
      invariant driver.Valid() && driver.visits == visits[..i]
    {
      assert visits[..i + 1] == visits[..i] + [visits[i]];
      driver.Step(visits[i]);
    }
    driver.Finish();
    calls := driver.calls;
    assert visits[..|visits|] == visits;
  }
}
