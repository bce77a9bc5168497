/** Removal, intersection and difference of rangelists, and what becomes of inheritability. */
module RangelistOps {
  import opened Common
  import opened Rangelist
  import opened RangelistRemove

  // ---------------------------------------------------- kinds along runs of revisions

  /** What is said of every revision. */
  type Kinds = int -> nat

  function SaysOf(rl: Rangelist): Kinds {
    r => KindAt(rl, r)
  }

  function Over(range: MergeRange): Kinds {
    r => if Within(range, r) then KindOf(range) else NONE
  }

  /** What the first says, and where it says nothing, what the second says. */
  function OrElse(a: Kinds, b: Kinds): Kinds {
    r => if a(r) != NONE then a(r) else b(r)
  }

  /** Something is said of every revision from one to the other. */
  ghost predicate Unbroken(k: Kinds, r: int, s: int) {
    forall q :: Min(r, s) <= q <= Max(r, s) ==> k(q) != NONE
  }

  /** Some revision of the same unbroken run is inheritable. */
  ghost predicate InRunOfInheritable(k: Kinds, r: int) {
    exists s :: Unbroken(k, r, s) && k(s) == INHERITABLE
  }

  /** What is said once every unbroken run has been combined into one range. */
  ghost function Fused(k: Kinds, r: int): nat {
    if k(r) == NONE then NONE
    else if InRunOfInheritable(k, r) then INHERITABLE
    else NON_INHERITABLE
  }

  /** The second says the same, except that it may have raised revisions as combining their run would. */
  ghost predicate Raised(a: Kinds, b: Kinds) {
    forall r ::
      && (a(r) == NONE <==> b(r) == NONE)
      && (a(r) == INHERITABLE ==> b(r) == INHERITABLE)
      && (b(r) == INHERITABLE ==> InRunOfInheritable(a, r))
  }

  lemma RunsJoin(k: Kinds, r: int, s: int, t: int)
    requires Unbroken(k, r, s) && Unbroken(k, s, t)
    ensures Unbroken(k, r, t)
  {
  }

  lemma SameRuns(a: Kinds, b: Kinds, r: int, s: int)
    requires Raised(a, b)
    ensures Unbroken(a, r, s) <==> Unbroken(b, r, s)
  {
    hide InRunOfInheritable;
  }

  /** Raising leaves what is said of combined runs as it is. */
  lemma RaisedFusesAlike(a: Kinds, b: Kinds, r: int)
    requires Raised(a, b)
    ensures InRunOfInheritable(a, r) <==> InRunOfInheritable(b, r)
  {
    hide Raised, Unbroken;
    if InRunOfInheritable(a, r) {
      var s :| Unbroken(a, r, s) && a(s) == INHERITABLE;
      SameRuns(a, b, r, s);
      RaisedAt(a, b, s);
    }
    if InRunOfInheritable(b, r) {
      var s :| Unbroken(b, r, s) && b(s) == INHERITABLE;
      SameRuns(a, b, r, s);
      RaisedAt(a, b, s);
      var t :| Unbroken(a, s, t) && a(t) == INHERITABLE;
      RunsJoin(a, r, s, t);
    }
  }

  lemma RaisedAt(a: Kinds, b: Kinds, r: int)
    requires Raised(a, b)
    ensures a(r) == NONE <==> b(r) == NONE
    ensures a(r) == INHERITABLE ==> b(r) == INHERITABLE
    ensures b(r) == INHERITABLE ==> InRunOfInheritable(a, r)
  {
    hide InRunOfInheritable;
  }

  lemma RaisedTwice(a: Kinds, b: Kinds, c: Kinds)
    requires Raised(a, b) && Raised(b, c)
    ensures Raised(a, c)
  {
    hide InRunOfInheritable;
    forall r
      ensures InRunOfInheritable(a, r) <==> InRunOfInheritable(b, r)
    {
      RaisedFusesAlike(a, b, r);
    }
  }

  predicate SameKind(a: Kinds, b: Kinds, r: int) {
    a(r) == b(r) <= INHERITABLE
  }

  lemma NotRaised(a: Kinds, b: Kinds)
    requires forall r :: SameKind(a, b, r)
    ensures Raised(a, b)
  {
    hide InRunOfInheritable;
    forall r
      ensures a(r) == b(r)
      ensures b(r) == INHERITABLE ==> InRunOfInheritable(a, r)
    {
      assert SameKind(a, b, r);
      if b(r) == INHERITABLE {
        InOwnRun(a, r);
      }
    }
  }

  lemma RaisedOrElse(a: Kinds, b: Kinds, rest: Kinds)
    requires Raised(a, b)
    ensures Raised(OrElse(a, rest), OrElse(b, rest))
  {
    hide InRunOfInheritable;
    var a1, b1 := OrElse(a, rest), OrElse(b, rest);
    forall r | b1(r) == INHERITABLE
      ensures InRunOfInheritable(a1, r)
    {
      RaisedAt(a, b, r);
      if b(r) != NONE {
        StillInRun(a, rest, r);
      } else {
        InOwnRun(a1, r);
      }
    }
  }

  lemma StillInRun(a: Kinds, rest: Kinds, r: int)
    requires InRunOfInheritable(a, r)
    ensures InRunOfInheritable(OrElse(a, rest), r)
  {
    var s :| Unbroken(a, r, s) && a(s) == INHERITABLE;
    assert Unbroken(OrElse(a, rest), r, s);
  }

  lemma InOwnRun(k: Kinds, r: int)
    requires k(r) == INHERITABLE
    ensures InRunOfInheritable(k, r)
  {
    assert Unbroken(k, r, r);
  }

  // ------------------------------------------------------ combining raises in runs only

  /** The ranges do not even adjoin. */
  ghost predicate Separate(rl: Rangelist) {
    WellFormed(rl) && forall i :: 0 < i < |rl| ==> rl[i - 1].end < rl[i].start
  }

  lemma UnbrokenAt(k: Kinds, r: int, s: int, q: int)
    requires Unbroken(k, r, s)
    ensures Min(r, s) <= q <= Max(r, s) ==> k(q) != NONE
  {
  }

  lemma {:induction false} NothingJustAfter(rl: Rangelist, i: nat)
    requires Separate(rl) && i < |rl|
    ensures KindAt(rl, rl[i].end + 1) == NONE
  {
    assert i + 1 < |rl| ==> rl[(i + 1) - 1].end < rl[i + 1].start;
    SaidInGap(rl, i + 1, rl[i].end + 1);
  }

  /** Of separate ranges one thing is said along every run. */
  lemma {:induction false} OneKindPerRun(rl: Rangelist, r: int, s: int)
    requires Separate(rl) && Unbroken(SaysOf(rl), r, s)
    ensures KindAt(rl, r) == KindAt(rl, s)
  {
    hide KindAt;
    var lo, hi := Min(r, s), Max(r, s);
    UnbrokenAt(SaysOf(rl), r, s, lo);
    var i := RangeOf(rl, lo);
    NothingJustAfter(rl, i);
    UnbrokenAt(SaysOf(rl), r, s, rl[i].end + 1);
    SaidInRange(rl, i, hi);
  }

  /** So what separate ranges say is already combined. */
  lemma {:induction false} SeparateIsFused(rl: Rangelist, r: int)
    requires Separate(rl)
    ensures KindAt(rl, r) == Fused(SaysOf(rl), r)
  {
    hide KindAt;
    var k := SaysOf(rl);
    KindsAreKinds(rl, r);
    if InRunOfInheritable(k, r) {
      var s :| Unbroken(k, r, s) && k(s) == INHERITABLE;
      OneKindPerRun(rl, r, s);
    } else {
      assert k(r) != NONE ==> Unbroken(k, r, r);
    }
  }

  lemma AddSeparate(out: Rangelist, range: MergeRange)
    requires Separate(out) && Ready(out, range.start) && Forward(range)
    ensures Separate(Add(out, range, false))
  {
    AddFits(out, range, false);
    var added := Add(out, range, false);
    forall i | 0 < i < |added|
      ensures added[i - 1].end < added[i].start
    {
      if i < |out| {
        assert out[i - 1].end < out[i].start;
      }
    }
  }

  lemma AddRaises(out: Rangelist, range: MergeRange)
    requires Ready(out, range.start) && Forward(range)
    ensures Raised(OrElse(SaysOf(out), Over(range)), SaysOf(Add(out, range, false)))
  {
    hide KindAt, InRunOfInheritable, WellFormed;
    var a, b := OrElse(SaysOf(out), Over(range)), SaysOf(Add(out, range, false));
    forall r
      ensures a(r) == NONE <==> b(r) == NONE
      ensures a(r) == INHERITABLE ==> b(r) == INHERITABLE
      ensures b(r) == INHERITABLE ==> InRunOfInheritable(a, r)
    {
      AddRaisesAt(out, range, r);
    }
  }

  lemma AddRaisesAt(out: Rangelist, range: MergeRange, r: int)
    requires Ready(out, range.start) && Forward(range)
    ensures var a, b := OrElse(SaysOf(out), Over(range)), SaysOf(Add(out, range, false));
            && (a(r) == NONE <==> b(r) == NONE)
            && (a(r) == INHERITABLE ==> b(r) == INHERITABLE)
            && (b(r) == INHERITABLE ==> InRunOfInheritable(a, r))
  {
    hide KindAt, WellFormed;
    var a, b := OrElse(SaysOf(out), Over(range)), SaysOf(Add(out, range, false));
    KindsAreKinds(out, r);
    SaidOfAppended(out, range, r);
    if out != [] && Combines(Last(out), range, false) {
      var last, both := Last(out), Combined(Last(out), range);
      LastIsForward(out);
      assert out == Init(out) + [last];
      SaidOfAppended(Init(out), last, r);
      SaidOfAppended(Init(out), both, r);
      InitSays(out, r);
      assert last.end == range.start;
      if Within(both, r) && both.inheritable {
        forall q | last.start < q <= range.end
          ensures a(q) != NONE
        {
          SaidOfAppended(Init(out), last, q);
        }
        var s := if last.inheritable then last.end else range.end;
        SaidOfAppended(Init(out), last, s);
        InitSays(out, s);
        if s > last.end {
          NothingAfter(out, s);
        }
        assert Unbroken(a, r, s) && a(s) == INHERITABLE;
      } else if b(r) == INHERITABLE {
        assert Unbroken(a, r, r);
      }
    } else if b(r) == INHERITABLE {
      assert Unbroken(a, r, r);
    }
  }

  lemma LastIsForward(out: Rangelist)
    requires WellFormed(out) && out != []
    ensures Forward(Last(out)) && EndOf(out) == Last(out).end
  {
  }

  // ----------------------------------------------------------- without inheritance

  /** What is to be kept of each revision when inheritance is not considered. */
  function Kept(e: Rangelist, w: Rangelist, remove: bool): Kinds {
    r =>
      if remove then if KindAt(e, r) != NONE then NONE else KindAt(w, r)
      else if KindAt(e, r) != NONE && KindAt(w, r) != NONE then Max(KindAt(e, r), KindAt(w, r))
      else NONE
  }

  /** The range a step adds to the output, if it adds one. */
  function Piece(a: MergeRange, b: MergeRange, remove: bool): Option<MergeRange> {
    if !Overlap(a, b) then if remove && !SortsBefore(a, b) then Some(b) else None
    else if remove then if b.start < a.start then Some(MergeRange(b.start, a.start, b.inheritable)) else None
    else Some(MergeRange(Max(a.start, b.start), Min(a.end, b.end), a.inheritable || b.inheritable))
  }

  lemma StepAddsPiece(out: Rangelist, e: Rangelist, w: Rangelist, remove: bool)
    requires WellFormed(e) && WellFormed(w) && e != [] && w != [] && Ready(out, w[0].start)
    ensures var p := Piece(e[0], w[0], remove);
            && StepOut(out, e, w, remove, false) == (if p.None? then out else Add(out, p.value, false))
            && (p.Some? ==> Forward(p.value) && w[0].start <= p.value.start)
  {
    hide Add, KindAt;
    FirstsForward(e, w);
    var a, b := e[0], w[0];
    if Overlap(a, b) && !remove {
      AddTwice(out, Piece(a, b, remove).value, false);
    }
  }

  /** A revision kept is in the piece added now, or is kept of what is left. */
  lemma KeptIsAddedOrLeft(e: Rangelist, w: Rangelist, remove: bool, r: int)
    requires WellFormed(e) && WellFormed(w) && e != [] && w != []
    ensures var (e1, w1) := Step(e, w, false);
            var p := Piece(e[0], w[0], remove);
            Kept(e, w, remove)(r) ==
            if p.Some? && Within(p.value, r) then KindOf(p.value) else Kept(e1, w1, remove)(r)
  {
    hide KindAt, WellFormed;
    FirstAndRest(e, r);
    FirstAndRest(w, r);
    StepWellFormed(e, w, false);
    var (e1, w1) := Step(e, w, false);
    if w1 != [] && w1[1..] == w[1..] {
      FirstAndRest(w1, r);
    }
    if w[0].end > e[0].end {
      assert ([w[0].(start := e[0].end)] + w[1..])[1..] == w[1..];
    }
  }

  lemma StepRaises(out: Rangelist, e: Rangelist, w: Rangelist, remove: bool)
    requires WellFormed(e) && WellFormed(w) && e != [] && w != [] && Ready(out, w[0].start)
    ensures var (e1, w1) := Step(e, w, false);
            Raised(OrElse(SaysOf(out), Kept(e, w, remove)),
                   OrElse(SaysOf(StepOut(out, e, w, remove, false)), Kept(e1, w1, remove)))
  {
    hide KindAt, WellFormed, Step, Piece, StepOut, Raised, Kept, Add;
    var (e1, w1) := Step(e, w, false);
    var before, left := OrElse(SaysOf(out), Kept(e, w, remove)), Kept(e1, w1, remove);
    var p := Piece(e[0], w[0], remove);
    StepAddsPiece(out, e, w, remove);
    var middle := if p.None? then OrElse(SaysOf(out), left) else OrElse(OrElse(SaysOf(out), Over(p.value)), left);
    forall r
      ensures SameKind(before, middle, r)
    {
      KeptIsAddedOrLeft(e, w, remove, r);
      KindsAreKinds(out, r);
      KeptIsKind(e, w, remove, r);
    }
    NotRaised(before, middle);
    if p.Some? {
      AddRaises(out, p.value);
      RaisedOrElse(OrElse(SaysOf(out), Over(p.value)), SaysOf(Add(out, p.value, false)), left);
      RaisedTwice(before, middle, OrElse(SaysOf(Add(out, p.value, false)), left));
    }
  }

  lemma KeptIsKind(e: Rangelist, w: Rangelist, remove: bool, r: int)
    ensures Kept(e, w, remove)(r) <= INHERITABLE
  {
    KindsAreKinds(e, r);
    KindsAreKinds(w, r);
  }

  lemma StepSeparate(out: Rangelist, e: Rangelist, w: Rangelist, remove: bool)
    requires WellFormed(e) && WellFormed(w) && e != [] && w != [] && Ready(out, w[0].start) && Separate(out)
    ensures Separate(StepOut(out, e, w, remove, false))
  {
    hide WellFormed, Separate, StepOut;
    StepAddsPiece(out, e, w, remove);
    var p := Piece(e[0], w[0], remove);
    if p.Some? {
      AddSeparate(out, p.value);
    }
  }

  lemma {:induction false} AddAllRaises(out: Rangelist, ranges: Rangelist)
    requires WellFormed(ranges) && Ready(out, if ranges == [] then EndOf(out) else ranges[0].start) && Separate(out)
    ensures Separate(AddAll(out, ranges, false))
    ensures Raised(OrElse(SaysOf(out), SaysOf(ranges)), SaysOf(AddAll(out, ranges, false)))
    decreases |ranges|
  {
    hide WellFormed, Separate, Raised, KindAt, Add;
    var before := OrElse(SaysOf(out), SaysOf(ranges));
    if ranges == [] {
      forall r
        ensures SameKind(before, SaysOf(out), r)
      {
        NothingSaid(r);
        KindsAreKinds(out, r);
      }
      NotRaised(before, SaysOf(out));
    } else {
      var first, rest := ranges[0], SaysOf(ranges[1..]);
      var added := Add(out, first, false);
      var middle := OrElse(OrElse(SaysOf(out), Over(first)), rest);
      forall r
        ensures SameKind(before, middle, r)
      {
        FirstAndRest(ranges, r);
        KindsAreKinds(out, r);
        KindsAreKinds(ranges, r);
      }
      FirstAndRest(ranges, 0);
      AddFits(out, first, false);
      AddSeparate(out, first);
      AddAllRaises(added, ranges[1..]);
      NotRaised(before, middle);
      AddRaises(out, first);
      RaisedOrElse(OrElse(SaysOf(out), Over(first)), SaysOf(added), rest);
      RaisedTwice(before, middle, OrElse(SaysOf(added), rest));
      RaisedTwice(before, OrElse(SaysOf(added), rest), SaysOf(AddAll(out, ranges, false)));
    }
  }

  lemma {:induction false} OutputRaises(out: Rangelist, e: Rangelist, w: Rangelist, remove: bool)
    requires WellFormed(e) && WellFormed(w) && Ready(out, if w == [] then EndOf(out) else w[0].start) && Separate(out)
    ensures Separate(Output(out, e, w, remove, false))
    ensures Raised(OrElse(SaysOf(out), Kept(e, w, remove)), SaysOf(Output(out, e, w, remove, false)))
    decreases |e| + |w|, FirstLength(w)
  {
    hide WellFormed, Separate, Raised, KindAt, Ready, StepOut, Kept, AddAll;
    if e == [] || w == [] {
      OutputIsDone(out, e, w, remove, false);
      EndRaises(out, e, w, remove);
    } else {
      var (e1, w1) := Step(e, w, false);
      var out1 := StepOut(out, e, w, remove, false);
      StepIsSmaller(e, w, false);
      StepWellFormed(e, w, false);
      StepKeepsExpected(out, e, w, remove, false, 0);
      StepSeparate(out, e, w, remove);
      StepRaises(out, e, w, remove);
      OutputRaises(out1, e1, w1, remove);
      RaisedTwice(OrElse(SaysOf(out), Kept(e, w, remove)), OrElse(SaysOf(out1), Kept(e1, w1, remove)),
                  SaysOf(Output(out, e, w, remove, false)));
    }
  }

  lemma EndRaises(out: Rangelist, e: Rangelist, w: Rangelist, remove: bool)
    requires WellFormed(w) && Ready(out, if w == [] then EndOf(out) else w[0].start) && Separate(out)
    requires e == [] || w == []
    ensures Separate(if remove then AddAll(out, w, false) else out)
    ensures Raised(OrElse(SaysOf(out), Kept(e, w, remove)), SaysOf(if remove then AddAll(out, w, false) else out))
  {
    hide WellFormed, Separate, Raised, KindAt, AddAll, Ready;
    var before := OrElse(SaysOf(out), Kept(e, w, remove));
    var middle := if remove then OrElse(SaysOf(out), SaysOf(w)) else SaysOf(out);
    forall r
      ensures SameKind(before, middle, r)
    {
      NothingSaid(r);
      KindsAreKinds(out, r);
      KindsAreKinds(w, r);
      KeptIsKind(e, w, remove, r);
    }
    NotRaised(before, middle);
    if remove {
      AddAllRaises(out, w);
      RaisedTwice(before, middle, SaysOf(AddAll(out, w, false)));
    }
  }

  /**
   * Without regard to inheritance a revision of the output is inheritable exactly if some revision
   * of its unbroken run of kept revisions is.
   */
  lemma {:induction false} InheritedInRuns(e: Rangelist, w: Rangelist, remove: bool, r: int)
    requires WellFormed(e) && WellFormed(w)
    ensures KindAt(Output([], e, w, remove, false), r) == Fused(Kept(e, w, remove), r)
  {
    hide WellFormed, KindAt, Raised, Separate, Output, InRunOfInheritable, Kept;
    var output := Output([], e, w, remove, false);
    StartReady(w);
    NothingSeparate();
    OutputRaises([], e, w, remove);
    SeparateIsFused(output, r);
    var start := OrElse(SaysOf([]), Kept(e, w, remove));
    forall q
      ensures SameKind(Kept(e, w, remove), start, q)
    {
      NothingSaid(q);
      KeptIsKind(e, w, remove, q);
    }
    NotRaised(Kept(e, w, remove), start);
    RaisedTwice(Kept(e, w, remove), start, SaysOf(output));
    RaisedFusesAlike(Kept(e, w, remove), SaysOf(output), r);
    SameSupport(Kept(e, w, remove), SaysOf(output), r);
  }

  lemma NothingSeparate()
    ensures Separate([])
  {
  }

  lemma SameSupport(a: Kinds, b: Kinds, r: int)
    requires Raised(a, b)
    ensures a(r) == NONE <==> b(r) == NONE
  {
  }

  // -------------------------------------------------------------------- operations

  lemma StartReady(w: Rangelist)
    requires WellFormed(w)
    ensures Ready([], if w == [] then EndOf([]) else w[0].start)
  {
    if w != [] {
      assert Forward(w[0]);
    }
  }

  lemma {:induction false} NothingSaid(r: int)
    ensures KindAt([], r) == NONE
  {
  }

  /** The ranges of `w`, without what the walk matches with `e`. */
  function Removed(e: Rangelist, w: Rangelist, consider: bool): Rangelist {
    Output([], e, w, true, consider)
  }

  /** What is said of a revision when exactly what is taken is removed, or kept. */
  ghost function Left(e: Rangelist, w: Rangelist, remove: bool, consider: bool, r: int): nat {
    if Taken(e, w, consider, r) != remove then KindAt(w, r) else NONE
  }

  /** What is said of a revision when everything that is said alike is removed, or kept. */
  function LeftOfAlike(e: Rangelist, w: Rangelist, remove: bool, consider: bool, r: int): nat {
    if SaidAlike(e, w, consider, r) != remove then KindAt(w, r) else NONE
  }

  lemma {:induction false} OutputIsLeft(e: Rangelist, w: Rangelist, remove: bool, consider: bool, r: int)
    requires WellFormed(e) && WellFormed(w)
    ensures WellFormed(Output([], e, w, remove, consider))
    ensures Says(Output([], e, w, remove, consider), consider, r, Left(e, w, remove, consider, r))
  {
    hide WellFormed, KindAt, Matched, Taken, Output;
    StartReady(w);
    OutputSays([], e, w, remove, consider, r);
    NothingSaid(r);
    MatchedIsTaken(e, w, consider, r);
  }

  /**
   * The ranges of `whiteboard` without what `eraser` takes of it: what two ranges share that may
   * be matched, unless it is lost. That is all that is said alike exactly if nothing is lost, as
   * when inheritance is not considered.
   */
  method Remove(eraser: Rangelist, whiteboard: Rangelist, consider: bool) returns (output: Rangelist)
    requires WellFormed(eraser) && WellFormed(whiteboard)
    ensures WellFormed(output) && output == Removed(eraser, whiteboard, consider)
    ensures forall r :: Says(output, consider, r, Left(eraser, whiteboard, true, consider, r))
    ensures !Loses(eraser, whiteboard, consider) <==>
            forall r :: Says(output, consider, r, LeftOfAlike(eraser, whiteboard, true, consider, r))
    ensures !consider ==> forall r :: KindAt(output, r) == Fused(Kept(eraser, whiteboard, true), r)
  {
    hide WellFormed, KindAt, Left, LeftOfAlike, Loses, Output, Fused, Says;
    output := IntersectOrRemove(eraser, whiteboard, true, consider);
    forall r
      ensures WellFormed(output)
      ensures Says(output, consider, r, Left(eraser, whiteboard, true, consider, r))
    {
      OutputIsLeft(eraser, whiteboard, true, consider, r);
    }
    forall r | !consider
      ensures KindAt(output, r) == Fused(Kept(eraser, whiteboard, true), r)
    {
      InheritedInRuns(eraser, whiteboard, true, r);
    }
    SaysExactly(output, eraser, whiteboard, true, consider);
  }

  /** The ranges that both lists have in common, in the same sense; again unless they are lost. */
  method Intersect(rl1: Rangelist, rl2: Rangelist, consider: bool) returns (output: Rangelist)
    requires WellFormed(rl1) && WellFormed(rl2)
    ensures WellFormed(output)
    ensures forall r :: Says(output, consider, r, Left(rl1, rl2, false, consider, r))
    ensures !Loses(rl1, rl2, consider) <==>
            forall r :: Says(output, consider, r, LeftOfAlike(rl1, rl2, false, consider, r))
    ensures !consider ==> forall r :: KindAt(output, r) == Fused(Kept(rl1, rl2, false), r)
    ensures forall r :: KindAt(output, r) == NON_INHERITABLE ==>
                          KindAt(rl1, r) == NON_INHERITABLE == KindAt(rl2, r)
  {
    hide WellFormed, KindAt, Left, LeftOfAlike, Loses, Output, Fused, Says;
    output := IntersectOrRemove(rl1, rl2, false, consider);
    forall r
      ensures WellFormed(output)
      ensures Says(output, consider, r, Left(rl1, rl2, false, consider, r))
    {
      OutputIsLeft(rl1, rl2, false, consider, r);
    }
    forall r | !consider
      ensures KindAt(output, r) == Fused(Kept(rl1, rl2, false), r)
    {
      InheritedInRuns(rl1, rl2, false, r);
    }
    forall r | KindAt(output, r) == NON_INHERITABLE
      ensures KindAt(rl1, r) == NON_INHERITABLE == KindAt(rl2, r)
    {
      BothNonInheritable(output, rl1, rl2, consider, r);
    }
    SaysExactly(output, rl1, rl2, false, consider);
  }

  /** The intersection is non-inheritable only where both lists are. */
  lemma {:induction false} BothNonInheritable(output: Rangelist, rl1: Rangelist, rl2: Rangelist, consider: bool, r: int)
    requires WellFormed(rl1) && WellFormed(rl2) && KindAt(output, r) == NON_INHERITABLE
    requires Says(output, consider, r, Left(rl1, rl2, false, consider, r))
    requires !consider ==> KindAt(output, r) == Fused(Kept(rl1, rl2, false), r)
    ensures KindAt(rl1, r) == NON_INHERITABLE == KindAt(rl2, r)
  {
    hide WellFormed, KindAt, Matched, Taken;
    KindsAreKinds(rl1, r);
    KindsAreKinds(rl2, r);
    if consider {
      TakenIsAlike(rl1, rl2, consider, r);
    } else {
      var k := Kept(rl1, rl2, false);
      assert Unbroken(k, r, r);
    }
  }

  lemma TakenIsAlike(e: Rangelist, w: Rangelist, consider: bool, r: int)
    requires WellFormed(e) && WellFormed(w)
    ensures Taken(e, w, consider, r) ==> SaidAlike(e, w, consider, r)
  {
    hide WellFormed, KindAt, Matched, Taken, SaidAlike;
    MatchedIsTaken(e, w, consider, r);
    if Matched(e, w, consider, r) {
      MatchedIsAlike(e, w, consider, r);
    }
  }

  /** A revision that is said alike but not taken shows in the output, and none other does. */
  lemma SaysExactly(output: Rangelist, e: Rangelist, w: Rangelist, remove: bool, consider: bool)
    requires forall r :: Says(output, consider, r, Left(e, w, remove, consider, r))
    requires WellFormed(e) && WellFormed(w)
    ensures !Loses(e, w, consider) <==>
            forall r :: Says(output, consider, r, LeftOfAlike(e, w, remove, consider, r))
  {
    hide Matched, KindAt, WellFormed, Taken, Loses;
    forall r
      ensures (Matched(e, w, consider, r) <==> SaidAlike(e, w, consider, r))
              <==> Says(output, consider, r, LeftOfAlike(e, w, remove, consider, r))
    {
      assert Says(output, consider, r, Left(e, w, remove, consider, r));
      MatchedIsTaken(e, w, consider, r);
      if Matched(e, w, consider, r) {
        MatchedIsAlike(e, w, consider, r);
      }
    }
    WalkIsExact(e, w, consider);
  }

  // -------------------------------------------------------------------- differences

  /** What is said of a revision after taking away what was deleted and putting in what was added. */
  function Patched(from: Rangelist, deleted: Rangelist, added: Rangelist, r: int): nat {
    if KindAt(added, r) != NONE then KindAt(added, r)
    else if KindAt(deleted, r) != NONE then NONE
    else KindAt(from, r)
  }

  /** Taking away and putting in leads to the second list. */
  ghost predicate LeadsTo(from: Rangelist, deleted: Rangelist, added: Rangelist, to: Rangelist, consider: bool) {
    forall r :: Says(to, consider, r, Patched(from, deleted, added, r))
  }

  /** What ranges `i` and `k` share is deleted by mistake only if it is added by mistake. */
  ghost predicate LostInBoth(from: Rangelist, to: Rangelist, consider: bool, i: nat, k: nat) {
    LostAt(to, from, consider, k, i) ==> LostAt(from, to, consider, i, k)
  }

  ghost predicate LostOnlyInBoth(from: Rangelist, to: Rangelist, consider: bool) {
    forall i, k :: LostInBoth(from, to, consider, i, k)
  }

  /**
   * The difference of two lists. It leads from the one to the other exactly if whatever is lost
   * when the second list is removed from the first is also lost the other way round; and so if
   * nothing is lost then.
   */
  method Diff(from: Rangelist, to: Rangelist, consider: bool) returns (deleted: Rangelist, added: Rangelist)
    requires WellFormed(from) && WellFormed(to)
    ensures WellFormed(deleted) && WellFormed(added)
    ensures deleted == Removed(to, from, consider) && added == Removed(from, to, consider)
    ensures LeadsTo(from, deleted, added, to, consider) <==> LostOnlyInBoth(from, to, consider)
    ensures !Loses(to, from, consider) ==> LeadsTo(from, deleted, added, to, consider)
  {
    hide WellFormed, LeadsTo, Removed, Says, Fused, LostAt;
    deleted := Remove(to, from, consider);
    added := Remove(from, to, consider);
    DiffLeads(from, to, consider);
  }

  predicate MatchedToo(from: Rangelist, to: Rangelist, consider: bool, r: int) {
    Matched(from, to, consider, r) ==> Matched(to, from, consider, r)
  }

  lemma DiffLeads(from: Rangelist, to: Rangelist, consider: bool)
    requires WellFormed(from) && WellFormed(to)
    ensures LeadsTo(from, Removed(to, from, consider), Removed(from, to, consider), to, consider)
            <==> LostOnlyInBoth(from, to, consider)
  {
    hide WellFormed, Removed, Says, Matched, Patched, LostInBoth;
    var deleted, added := Removed(to, from, consider), Removed(from, to, consider);
    forall r
      ensures Says(to, consider, r, Patched(from, deleted, added, r)) <==> MatchedToo(from, to, consider, r)
    {
      PatchedAt(from, to, consider, r);
    }
    if forall r :: MatchedToo(from, to, consider, r) {
      forall i: nat, k: nat
        ensures LostInBoth(from, to, consider, i, k)
      {
        LostIfUnmatched(from, to, consider, i, k);
      }
    }
    if LostOnlyInBoth(from, to, consider) {
      forall r
        ensures MatchedToo(from, to, consider, r)
      {
        MatchedIfLost(from, to, consider, r);
      }
    }
  }

  lemma LostIfUnmatched(from: Rangelist, to: Rangelist, consider: bool, i: nat, k: nat)
    requires WellFormed(from) && WellFormed(to)
    requires forall r :: MatchedToo(from, to, consider, r)
    ensures LostInBoth(from, to, consider, i, k)
  {
    hide WellFormed, Matched, LostAt;
    if LostAt(to, from, consider, k, i) {
      LostRanges(to, from, consider, k, i);
      FirstsForward(from, to);
      var r := Shared(from[i], to[k]);
      MatchedUnlessLost(from, to, consider, i, k, r);
      MatchedUnlessLost(to, from, consider, k, i, r);
      assert MatchedToo(from, to, consider, r);
    }
  }

  lemma MatchedIfLost(from: Rangelist, to: Rangelist, consider: bool, r: int)
    requires WellFormed(from) && WellFormed(to) && LostOnlyInBoth(from, to, consider)
    ensures MatchedToo(from, to, consider, r)
  {
    hide WellFormed, Matched, LostAt, SaidAlike;
    if Matched(from, to, consider, r) {
      MatchedIsAlike(from, to, consider, r);
      var i, k := RangesAlike(from, to, consider, r);
      MatchedUnlessLost(from, to, consider, i, k, r);
      MatchedUnlessLost(to, from, consider, k, i, r);
      assert LostInBoth(from, to, consider, i, k);
    }
  }

  lemma PatchedAt(from: Rangelist, to: Rangelist, consider: bool, r: int)
    requires WellFormed(from) && WellFormed(to)
    ensures Says(to, consider, r, Patched(from, Removed(to, from, consider), Removed(from, to, consider), r))
            <==> MatchedToo(from, to, consider, r)
  {
    hide WellFormed, KindAt, Matched, Taken, Output;
    OutputIsLeft(to, from, true, consider, r);
    OutputIsLeft(from, to, true, consider, r);
    MatchedIsTaken(to, from, consider, r);
    MatchedIsTaken(from, to, consider, r);
    if Matched(from, to, consider, r) {
      MatchedIsAlike(from, to, consider, r);
    }
    if Matched(to, from, consider, r) {
      MatchedIsAlike(to, from, consider, r);
    }
  }

  /** Revision 6 of these lists is deleted by mistake, and not put in again. */
  lemma DiffFails()
    ensures var from := [MergeRange(0, 2, true), MergeRange(2, 3, false), MergeRange(5, 6, true)];
            var to := [MergeRange(0, 10, true)];
            && WellFormed(from) && WellFormed(to)
            && !LeadsTo(from, Removed(to, from, true), Removed(from, to, true), to, true)
  {
    hide *;
    DiffFailsAcross(MergeRange(0, 2, true), MergeRange(2, 3, false), MergeRange(5, 6, true), MergeRange(0, 10, true));
  }

  lemma DiffFailsAcross(x: MergeRange, y: MergeRange, z: MergeRange, u: MergeRange)
    requires x == MergeRange(0, 2, true) && y == MergeRange(2, 3, false) && z == MergeRange(5, 6, true)
    requires u == MergeRange(0, 10, true)
    ensures WellFormed([x, y, z]) && WellFormed([u])
    ensures !LeadsTo([x, y, z], Removed([u], [x, y, z], true), Removed([x, y, z], [u], true), [u], true)
  {
    hide LeadsTo, Removed, LostAt;
    var from, to := [x, y, z], [u];
    LostFromFirst(x, y, z, u);
    NotLostFromSecond(x, y, z, u);
    assert !LostInBoth(from, to, true, 2, 0);
    DiffLeads(from, to, true);
  }

  /** The second range of `from` makes the walk give up the only one of `to`. */
  lemma LostFromFirst(x: MergeRange, y: MergeRange, z: MergeRange, u: MergeRange)
    requires Straddles(u, y, z, true)
    ensures LostAt([u], [x, y, z], true, 0, 2)
  {
    hide Straddles;
    assert GivesUpFirst([u], [x, y, z], true, 0, 1, 2);
  }

  /** The other way round the first range has cut it down to where the second begins. */
  lemma NotLostFromSecond(x: MergeRange, y: MergeRange, z: MergeRange, u: MergeRange)
    requires Alike(x, u, true) && x.end == y.start
    ensures !LostAt([x, y, z], [u], true, 2, 0)
  {
    var from, to := [x, y, z], [u];
    assert !FirstGivenUp(from, to, true, 0, 0) && !FirstGivenUp(from, to, true, 2, 0);
    assert CutAt(from, to, true, 1, 0);
    assert !GivesUpSecond(from, to, true, 0, 0, 2);
    assert !GivesUpSecond(from, to, true, 0, 1, 2);
  }

  /** So removing nothing can make a revision inheritable. */
  lemma CombiningRaises()
    ensures var a, b := MergeRange(0, 2, true), MergeRange(2, 4, false);
            Output([], [], [a, b], true, false) == [MergeRange(0, 4, true)]
  {
    var a, b := MergeRange(0, 2, true), MergeRange(2, 4, false);
    assert [a, b][1..] == [b] && [b][1..] == [];
    assert Add([], a, false) == [a];
    assert Add([a], b, false) == [MergeRange(0, 4, true)];
    assert AddAll([a], [b], false) == AddAll([MergeRange(0, 4, true)], [], false);
    assert AddAll([], [a, b], false) == AddAll([a], [b], false);
  }
}
