/** The depth filter keeps drives in order, and restricts the edit to the requested depth. */
module FilterRules {
  import opened Common
  import opened Editor
  import opened DepthFilter

  // -------------------------------------------------- drives stay in order

  /** The number of levels of directories that are in range. */
  function DirLevels(depth: Depth, hasTarget: bool): nat
    requires !depth.Infinity? && !depth.Unknown?
  {
    (if hasTarget then 1 else 0) + (if depth.Immediates? then 2 else 1)
  }

  /** Subdirectory traversal, as the wrapped editor sees it, is never further along. */
  predicate PhaseBehind(f: Phase, d: Phase) {
    match d
    case NoSubdirYet => f.NoSubdirYet?
    case AmongSubdirs => !f.PastSubdirs?
    case PastSubdirs => true
  }

  ghost predicate Nested(stack: seq<Dir>) {
    forall i :: 0 <= i < |stack| ==> |stack[i].path| == i
  }

  /** `f` is where the wrapped editor stands when the filter has been driven to `d`. */
  ghost predicate Follows(levels: nat, d: Drive, f: Drive, inRange: Path -> bool) {
    && (f.begun ==> d.begun)
    && f.rootOpened == d.rootOpened && f.done == d.done
    && f.entered <= d.entered && f.deleted <= d.deleted
    && StacksFollow(levels, d.stack, f.stack)
    && FilesFollow(d, f, inRange)
  }

  ghost predicate StacksFollow(levels: nat, d: seq<Dir>, f: seq<Dir>) {
    && Nested(d)
    && |f| == Min(|d|, levels)
    && (forall i :: 0 <= i < |f| ==> f[i].path == d[i].path && PhaseBehind(f[i].phase, d[i].phase))
  }

  /** The same files in range are open; one may still be current that has been left already. */
  ghost predicate FilesFollow(d: Drive, f: Drive, inRange: Path -> bool) {
    && (forall p :: p in f.deferred ==> p in d.deferred && inRange(p))
    && (forall p :: p in d.deferred && inRange(p) ==>
          p in f.deferred || (f.current == Editing(p, false) && f.current != d.current))
    && (d.current.Editing? && inRange(d.current.path) ==> f.current == d.current)
    && (f.current.Editing? ==> inRange(f.current.path))
    && (f.current.Editing? && f.current != d.current ==>
          !f.current.textSent && f.current.path in d.deferred && d.stack != [])
  }

  lemma BothLeave(levels: nat, d: Drive, f: Drive, inRange: Path -> bool)
    requires Follows(levels, d, f, inRange) && Leave(d).Some?
    ensures Leave(f).Some?
    ensures Follows(levels, Leave(d).value, Leave(f).value, inRange)
    ensures Leave(d).value.current.NoFile? && Leave(f).value.current.NoFile?
  {
    hide StacksFollow;
  }

  lemma OnlyOneLeaves(levels: nat, d: Drive, f: Drive, inRange: Path -> bool)
    requires Follows(levels, d, f, inRange) && Leave(d).Some? && d.stack != []
    ensures Follows(levels, Leave(d).value, f, inRange)
    ensures Leave(d).value.current.NoFile?
  {
    hide StacksFollow;
  }

  predicate FileCall(c: Call) {
    c.ChangeFileProp? || c.ApplyTextdelta? || c.CloseFile?
  }

  lemma FileStep(levels: nat, d: Drive, f: Drive, inRange: Path -> bool, c: Call)
    requires levels > 0 && Follows(levels, d, f, inRange) && FileCall(c) && StepFile(d, c).Some?
    ensures var e := StepFile(d, c).value;
      if inRange(c.path) then StepFile(f, c).Some? && Follows(levels, e, StepFile(f, c).value, inRange)
      else Follows(levels, e, f, inRange)
  {
    hide StacksFollow;
    StackHeights(levels, d.stack, f.stack);
  }

  lemma StackHeights(levels: nat, d: seq<Dir>, f: seq<Dir>)
    requires levels > 0 && StacksFollow(levels, d, f)
    ensures d == [] <==> f == []
  {
  }

  predicate WithinLevels(levels: nat, c: Call) {
    (c.AddDirectory? || c.OpenDirectory? || c.ChangeDirProp? || c.CloseDirectory? || c.AbsentDirectory?
      || c.DeleteEntry?) ==> |c.path| < levels
  }

  // A change at the innermost end of the stack, seen and not seen by the wrapped editor.

  lemma PushFollows(levels: nat, d: seq<Dir>, f: seq<Dir>, path: Path)
    requires levels > 0 && StacksFollow(levels, d, f) && d != []
    requires path != [] && Last(d).path == Init(path) && !Last(d).phase.PastSubdirs?
    ensures var d' := SetTop(d, AmongSubdirs) + [Dir(path, NoSubdirYet)];
      if |path| < levels then
        && f != [] && Last(f).path == Init(path) && !Last(f).phase.PastSubdirs?
        && StacksFollow(levels, d', SetTop(f, AmongSubdirs) + [Dir(path, NoSubdirYet)])
      else StacksFollow(levels, d', f)
  {
    var d' := SetTop(d, AmongSubdirs) + [Dir(path, NoSubdirYet)];
    assert d'[..|d| - 1] == d[..|d| - 1];
    forall i | 0 <= i < |d'|
      ensures |d'[i].path| == i
    {
      assert i < |d| - 1 ==> d'[i] == d[i];
    }
  }

  lemma PropFollows(levels: nat, d: seq<Dir>, f: seq<Dir>)
    requires levels > 0 && StacksFollow(levels, d, f) && d != []
    ensures StacksFollow(levels, SetTop(d, PastSubdirs), f)
    ensures |d| <= levels ==>
      && f != [] && Last(f).path == Last(d).path
      && StacksFollow(levels, d, f)
      && StacksFollow(levels, SetTop(d, PastSubdirs), SetTop(f, PastSubdirs))
      && (Last(d).phase.NoSubdirYet? ==> Last(f).phase.NoSubdirYet?)
  {
    var d', f' := SetTop(d, PastSubdirs), if f == [] then [] else SetTop(f, PastSubdirs);
    assert forall i :: 0 <= i < |d| - 1 ==> d'[i] == d[i];
    assert forall i :: 0 <= i < |f| - 1 ==> f'[i] == f[i];
  }

  lemma PopFollows(levels: nat, d: seq<Dir>, f: seq<Dir>)
    requires levels > 0 && StacksFollow(levels, d, f) && d != []
    ensures if |d| <= levels then f != [] && Last(f).path == Last(d).path && StacksFollow(levels, Init(d), Init(f))
      else StacksFollow(levels, Init(d), f)
  {
  }

  lemma OpenFollows(levels: nat, d: Drive, f: Drive, path: Path)
    requires levels > 0 && StacksFollow(levels, d.stack, f.stack)
    requires IsOpen(d, path) && |path| < levels
    ensures IsOpen(f, path)
  {
    var i :| 0 <= i < |d.stack| && d.stack[i].path == path;
    assert f.stack[i].path == path;
  }

  /** With no current file, only the deferred files and the next file to be opened count. */
  lemma FilesSettled(d: Drive, f: Drive, e: Drive, g: Drive, inRange: Path -> bool)
    requires FilesFollow(d, f, inRange) && d.current.NoFile? && f.current.NoFile?
    requires e.deferred == d.deferred && g.deferred == f.deferred
    requires e.current == g.current && (e.current.Editing? ==> inRange(e.current.path))
    ensures FilesFollow(e, g, inRange)
    ensures d.deferred == {} ==> f.deferred == {}
  {
  }

  /** A call within range, after both sides have left their file. */
  lemma KeptStep(once: bool, levels: nat, d: Drive, f: Drive, inRange: Path -> bool, c: Call)
    requires levels > 0 && Follows(levels, d, f, inRange)
    requires d.current.NoFile? && f.current.NoFile?
    requires StepDirectory(once, d, c).Some?
    requires WithinLevels(levels, c)
    requires OnFile(c) ==> inRange(c.path) && |c.path| <= levels
    ensures StepDirectory(once, f, c).Some?
    ensures Follows(levels, StepDirectory(once, d, c).value, StepDirectory(once, f, c).value, inRange)
  {
    hide StacksFollow, IsOpen, FilesFollow;
    if c.AddDirectory? || c.OpenDirectory? || c.ChangeDirProp? || c.CloseDirectory? {
      KeptOnStack(once, levels, d, f, inRange, c);
    } else {
      StackHeights(levels, d.stack, f.stack);
      if HasPath(c) {
        OpenFollows(levels, d, f, Init(c.path));
      } else {
        RootFollows(levels);
      }
      FilesSettled(d, f, d, f, inRange);
      FilesSettled(d, f, StepDirectory(once, d, c).value, StepDirectory(once, f, c).value, inRange);
    }
  }

  /** The calls that open, change or close the innermost directory. */
  lemma KeptOnStack(once: bool, levels: nat, d: Drive, f: Drive, inRange: Path -> bool, c: Call)
    requires levels > 0 && Follows(levels, d, f, inRange)
    requires d.current.NoFile? && f.current.NoFile?
    requires c.AddDirectory? || c.OpenDirectory? || c.ChangeDirProp? || c.CloseDirectory?
    requires StepDirectory(once, d, c).Some? && |c.path| < levels
    ensures StepDirectory(once, f, c).Some?
    ensures Follows(levels, StepDirectory(once, d, c).value, StepDirectory(once, f, c).value, inRange)
  {
    hide StacksFollow, FilesFollow;
    StackHeights(levels, d.stack, f.stack);
    if c.AddDirectory? || c.OpenDirectory? {
      PushFollows(levels, d.stack, f.stack, c.path);
    } else {
      TopDepth(levels, d.stack, f.stack);
      PropFollows(levels, d.stack, f.stack);
      PopFollows(levels, d.stack, f.stack);
    }
    FilesSettled(d, f, StepDirectory(once, d, c).value, StepDirectory(once, f, c).value, inRange);
  }

  lemma RootFollows(levels: nat)
    requires levels > 0
    ensures StacksFollow(levels, [Dir([], NoSubdirYet)], [Dir([], NoSubdirYet)])
  {
  }

  lemma TopDepth(levels: nat, d: seq<Dir>, f: seq<Dir>)
    requires StacksFollow(levels, d, f) && d != []
    ensures |Last(d).path| == |d| - 1
  {
  }

  /** A call out of range: the drive goes on, the wrapped editor stays where it is. */
  lemma DroppedStep(once: bool, levels: nat, d: Drive, f: Drive, inRange: Path -> bool, c: Call)
    requires levels > 0 && Follows(levels, d, f, inRange)
    requires d.current.NoFile?
    requires StepDirectory(once, d, c).Some? && HasPath(c)
    requires OnFile(c) ==> !inRange(c.path)
    requires c.AddDirectory? || c.OpenDirectory? || c.ChangeDirProp? || c.CloseDirectory? ==> |c.path| >= levels
    ensures Follows(levels, StepDirectory(once, d, c).value, f, inRange)
  {
    hide StacksFollow, IsOpen;
    StackHeights(levels, d.stack, f.stack);
    if c.AddDirectory? || c.OpenDirectory? {
      PushFollows(levels, d.stack, f.stack, c.path);
    } else if c.ChangeDirProp? || c.CloseDirectory? {
      TopDepth(levels, d.stack, f.stack);
      PropFollows(levels, d.stack, f.stack);
      PopFollows(levels, d.stack, f.stack);
    }
  }

  lemma DirectoryOpen(once: bool, b: Drive, d: Drive, c: Call)
    requires StepDirectory(once, d, c).Some? && HasPath(c) && Leave(b) == Some(d)
    ensures b.stack != []
  {
  }

  /** One call through the filter. */
  lemma FilterStep(once: bool, depth: Depth, hasTarget: bool, d: Drive, f: Drive, c: Call)
    requires !depth.Infinity? && !depth.Unknown?
    requires Follows(DirLevels(depth, hasTarget), d, f, p => InRange(depth, hasTarget, p, true))
    requires Step(once, d, c).Some?
    ensures var e := Step(once, d, c).value;
      var levels, inRange := DirLevels(depth, hasTarget), p => InRange(depth, hasTarget, p, true);
      if Keep(depth, hasTarget, c) then
        Step(once, f, c).Some? && Follows(levels, e, Step(once, f, c).value, inRange)
      else Follows(levels, e, f, inRange)
  {
    hide StepDirectory, StepFile, Follows, Leave;
    var levels, inRange := DirLevels(depth, hasTarget), p => InRange(depth, hasTarget, p, true);
    var b, g := d.(begun := true), f.(begun := true);
    StepGoesOn(levels, d, f, inRange);
    if c.SetTargetRevision? {
    } else if FileCall(c) {
      FileStep(levels, b, g, inRange, c);
      FileStep(levels, b, f, inRange, c);
    } else {
      var free := Leave(b).value;
      if Keep(depth, hasTarget, c) {
        BothLeave(levels, b, g, inRange);
        KeptStep(once, levels, free, Leave(g).value, inRange, c);
      } else {
        DirectoryOpen(once, b, free, c);
        OnlyOneLeaves(levels, b, f, inRange);
        DroppedStep(once, levels, free, f, inRange, c);
      }
    }
  }

  lemma StepGoesOn(levels: nat, d: Drive, f: Drive, inRange: Path -> bool)
    requires Follows(levels, d, f, inRange)
    ensures f.done == d.done && (f.begun ==> d.begun)
    ensures Follows(levels, d.(begun := true), f, inRange)
    ensures Follows(levels, d.(begun := true), f.(begun := true), inRange)
  {
    hide StacksFollow;
  }

  lemma {:induction false} FilterRun(
      once: bool, depth: Depth, hasTarget: bool, d: Drive, f: Drive, calls: seq<Call>)
    requires !depth.Infinity? && !depth.Unknown?
    requires Follows(DirLevels(depth, hasTarget), d, f, p => InRange(depth, hasTarget, p, true))
    requires Run(once, d, calls).Some?
    ensures var r := Run(once, f, Filter(depth, hasTarget, calls));
      r.Some? && r.value.done == Run(once, d, calls).value.done
    decreases |calls|
  {
    hide Step, Keep, Follows;
    if calls == [] {
      FollowsDone(DirLevels(depth, hasTarget), d, f, p => InRange(depth, hasTarget, p, true));
    } else {
      var c, rest := calls[0], calls[1..];
      assert calls == [c] + rest;
      FilterOneMore(depth, hasTarget, c, rest);
      FilterStep(once, depth, hasTarget, d, f, c);
      var e := Step(once, d, c).value;
      if Keep(depth, hasTarget, c) {
        FilterRun(once, depth, hasTarget, e, Step(once, f, c).value, rest);
        var out := [c] + Filter(depth, hasTarget, rest);
        assert out[1..] == Filter(depth, hasTarget, rest);
      } else {
        FilterRun(once, depth, hasTarget, e, f, rest);
        assert [] + Filter(depth, hasTarget, rest) == Filter(depth, hasTarget, rest);
      }
    }
  }

  lemma FollowsDone(levels: nat, d: Drive, f: Drive, inRange: Path -> bool)
    requires Follows(levels, d, f, inRange)
    ensures d.done == f.done
  {
  }

  lemma {:induction false} FilterAll(depth: Depth, hasTarget: bool, calls: seq<Call>)
    requires depth.Infinity? || depth.Unknown?
    ensures Filter(depth, hasTarget, calls) == calls
  {
    if calls != [] {
      FilterAll(depth, hasTarget, calls[1..]);
    }
  }

  /** The filter maps well-ordered drives to well-ordered drives, and complete ones to complete ones. */
  lemma {:induction false} FilterKeepsRules(once: bool, depth: Depth, hasTarget: bool, calls: seq<Call>)
    requires WellOrdered(once, calls)
    ensures WellOrdered(once, Filter(depth, hasTarget, calls))
    ensures CompleteDrive(once, calls) ==> CompleteDrive(once, Filter(depth, hasTarget, calls))
  {
    if depth.Infinity? || depth.Unknown? {
      FilterAll(depth, hasTarget, calls);
    } else {
      FilterRun(once, depth, hasTarget, Start, Start, calls);
    }
  }
}
