/** Removing one rangelist from another and intersecting two, by one walk over both. */
module RangelistRemove {
  import opened Common
  import opened Rangelist

  /** Ranges that may be matched: of the same inheritability, if that is considered. */
  predicate Alike(a: MergeRange, b: MergeRange, consider: bool) {
    !consider || a.inheritable == b.inheritable
  }

  predicate Overlap(a: MergeRange, b: MergeRange) {
    a.start + 1 <= b.end && b.start + 1 <= a.end
  }

  predicate ContainsRange(a: MergeRange, b: MergeRange) {
    a.start <= b.start && b.end <= a.end
  }

  predicate SortsBefore(a: MergeRange, b: MergeRange) {
    if a.start == b.start then a.end < b.end else a.start < b.start
  }

  /** Ranges are ordered by where they start, and if they start together by where they end. */
  lemma SortsStrictly(a: MergeRange, b: MergeRange)
    ensures SortsBefore(a, b) ==> !SortsBefore(b, a) && a.start <= b.start
    ensures !SortsBefore(a, b) && !SortsBefore(b, a) <==> a.start == b.start && a.end == b.end
    ensures a.start < b.start || (a.start == b.start && a.end < b.end) ==> SortsBefore(a, b)
  {
  }

  // ---------------------------------------------------------------------- the walk

  /** What is left of both lists after one step; the first range of `w` may have been cut. */
  function Step(e: Rangelist, w: Rangelist, consider: bool): (Rangelist, Rangelist)
    requires e != [] && w != []
  {
    var a, b := e[0], w[0];
    if ContainsRange(a, b) && Alike(a, b, consider) then
      (if b.start == a.start && b.end == a.end then e[1..] else e, w[1..])
    else if Overlap(a, b) && Alike(a, b, consider) then
      (e, if b.end > a.end then [b.(start := a.end)] + w[1..] else w[1..])
    else if SortsBefore(a, b) then (e[1..], w)
    else (e, w[1..])
  }

  function FirstLength(w: Rangelist): nat {
    if w == [] then 0 else Max(0, w[0].end - w[0].start)
  }

  lemma StepIsSmaller(e: Rangelist, w: Rangelist, consider: bool)
    requires e != [] && w != []
    ensures var (e1, w1) := Step(e, w, consider);
            |e1| + |w1| < |e| + |w| || (|e1| + |w1| == |e| + |w| && FirstLength(w1) < FirstLength(w))
  {
  }

  /** Revision `r` is in both first ranges, and they are matched. */
  predicate Hit(e: Rangelist, w: Rangelist, consider: bool, r: int)
    requires e != [] && w != []
  {
    Alike(e[0], w[0], consider) && Within(e[0], r) && Within(w[0], r)
  }

  /** The walk comes upon revision `r` in matching ranges of both lists. */
  predicate Matched(e: Rangelist, w: Rangelist, consider: bool, r: int)
    decreases |e| + |w|, FirstLength(w)
  {
    e != [] && w != [] &&
    (StepIsSmaller(e, w, consider);
     var (e1, w1) := Step(e, w, consider);
     Hit(e, w, consider, r) || Matched(e1, w1, consider, r))
  }

  /** Both lists say the same of revision `r`, or merely something if inheritance is not considered. */
  predicate SaidAlike(e: Rangelist, w: Rangelist, consider: bool, r: int) {
    KindAt(e, r) != NONE && KindAt(w, r) != NONE && (consider ==> KindAt(e, r) == KindAt(w, r))
  }

  // ------------------------------------------------------------------- small facts

  /** Unrolls what a list says, with its tail silent up to the end of the first range. */
  lemma {:induction false} FirstAndRest(rl: Rangelist, r: int)
    requires WellFormed(rl) && rl != []
    ensures WellFormed(rl[1..]) && Forward(rl[0])
    ensures |rl| > 1 ==> rl[0].end <= rl[1].start
    ensures r <= rl[0].end ==> KindAt(rl[1..], r) == NONE
    ensures KindAt(rl, r) == if Within(rl[0], r) then KindOf(rl[0]) else KindAt(rl[1..], r)
  {
    WellFormedTail(rl);
    assert Forward(rl[0]);
    if |rl| > 1 {
      assert rl[1 - 1].end <= rl[1].start;
      assert rl[1..][0] == rl[1];
    }
    if r <= rl[0].end {
      NothingBefore(rl[1..], r);
    }
  }

  lemma Trimmed(w: Rangelist, start: int)
    requires WellFormed(w) && w != [] && w[0].start <= start < w[0].end
    ensures WellFormed([w[0].(start := start)] + w[1..])
    ensures forall i :: 0 < i < |w| ==> ([w[0].(start := start)] + w[1..])[i] == w[i]
  {
    var w1 := [w[0].(start := start)] + w[1..];
    assert Forward(w[0]);
    forall i | 0 < i < |w1|
      ensures w1[i - 1].end <= w1[i].start
    {
      assert w[i - 1].end <= w[i].start;
    }
  }

  lemma StepWellFormed(e: Rangelist, w: Rangelist, consider: bool)
    requires WellFormed(e) && WellFormed(w) && e != [] && w != []
    ensures var (e1, w1) := Step(e, w, consider); WellFormed(e1) && WellFormed(w1)
  {
    FirstAndRest(e, 0);
    FirstAndRest(w, 0);
    if w[0].start <= e[0].end < w[0].end {
      Trimmed(w, e[0].end);
    }
  }

  /** What is said alike of what is left is said alike of the whole, and is no hit now. */
  lemma LeftIsPart(e: Rangelist, w: Rangelist, consider: bool, r: int)
    requires WellFormed(e) && WellFormed(w) && e != [] && w != []
    ensures var (e1, w1) := Step(e, w, consider);
            SaidAlike(e1, w1, consider, r) ==> SaidAlike(e, w, consider, r) && !Hit(e, w, consider, r)
  {
    FirstAndRest(e, r);
    FirstAndRest(w, r);
    StepWellFormed(e, w, consider);
    var (e1, w1) := Step(e, w, consider);
    if w1 != [] && w1[1..] == w[1..] {
      FirstAndRest(w1, r);
    }
    if w[0].end > e[0].end {
      assert ([w[0].(start := e[0].end)] + w[1..])[1..] == w[1..];
    }
  }

  lemma HitIsAlike(e: Rangelist, w: Rangelist, consider: bool, r: int)
    requires WellFormed(e) && WellFormed(w) && e != [] && w != [] && Hit(e, w, consider, r)
    ensures SaidAlike(e, w, consider, r)
  {
    FirstAndRest(e, r);
    FirstAndRest(w, r);
  }

  /** Only revisions of which both lists say the same are matched. */
  lemma {:induction false} MatchedIsAlike(e: Rangelist, w: Rangelist, consider: bool, r: int)
    requires WellFormed(e) && WellFormed(w) && Matched(e, w, consider, r)
    ensures SaidAlike(e, w, consider, r)
    decreases |e| + |w|, FirstLength(w)
  {
    hide KindAt, SaidAlike, WellFormed;
    var (e1, w1) := Step(e, w, consider);
    StepIsSmaller(e, w, consider);
    if Hit(e, w, consider, r) {
      HitIsAlike(e, w, consider, r);
    } else {
      StepWellFormed(e, w, consider);
      MatchedIsAlike(e1, w1, consider, r);
      LeftIsPart(e, w, consider, r);
    }
  }

  // ----------------------------------------------------- what makes the walk lose a match

  /** `x` begins before `y`, cannot be matched with it, but can with `z`, and overlaps both. */
  predicate Straddles(x: MergeRange, y: MergeRange, z: MergeRange, consider: bool) {
    && x.start < y.start
    && Overlap(x, y) && !Alike(x, y, consider)
    && Overlap(x, z) && Alike(x, z, consider)
  }

  /** Range `i` of `e` is given up at range `j` of `w`, though range `k` is yet to come. */
  predicate GivesUpFirst(e: Rangelist, w: Rangelist, consider: bool, i: nat, j: nat, k: nat) {
    i < |e| && j < k < |w| && Straddles(e[i], w[j], w[k], consider)
  }

  /** Range `i` of `e` is given up before the walk comes to range `k` of `w`. */
  ghost predicate FirstGivenUp(e: Rangelist, w: Rangelist, consider: bool, i: nat, k: nat) {
    exists j :: GivesUpFirst(e, w, consider, i, j, k)
  }

  /** Range `k` of `w` has been cut down to where range `h` of `e` begins, by the range before. */
  ghost predicate CutAt(e: Rangelist, w: Rangelist, consider: bool, h: nat, k: nat) {
    && 0 < h < |e| && k < |w|
    && Alike(e[h - 1], w[k], consider) && e[h - 1].end == e[h].start
    && !FirstGivenUp(e, w, consider, h - 1, k)
  }

  /** Range `k` of `w` is given up at range `h` of `e`, though range `i` is yet to come. */
  ghost predicate GivesUpSecond(e: Rangelist, w: Rangelist, consider: bool, k: nat, h: nat, i: nat) {
    k < |w| && h < i < |e| && Straddles(w[k], e[h], e[i], consider) && !CutAt(e, w, consider, h, k)
  }

  ghost predicate SecondGivenUp(e: Rangelist, w: Rangelist, consider: bool, i: nat, k: nat) {
    exists h :: GivesUpSecond(e, w, consider, k, h, i)
  }

  /** What range `i` of `e` and range `k` of `w` share is lost: one was given up before the other came. */
  ghost predicate LostAt(e: Rangelist, w: Rangelist, consider: bool, i: nat, k: nat) {
    FirstGivenUp(e, w, consider, i, k) || SecondGivenUp(e, w, consider, i, k)
  }

  ghost predicate Loses(e: Rangelist, w: Rangelist, consider: bool) {
    exists i, k :: LostAt(e, w, consider, i, k)
  }

  /** Without regard to inheritance nothing is lost. */
  lemma NothingLost(e: Rangelist, w: Rangelist)
    ensures !Loses(e, w, false)
  {
  }

  // ------------------------------------------------- what a step does to the ranges

  lemma FirstsForward(e: Rangelist, w: Rangelist)
    requires WellFormed(e) && WellFormed(w) && e != [] && w != []
    ensures Forward(e[0]) && Forward(w[0])
    ensures forall i :: 0 < i < |e| ==> e[0].end <= e[i].start
    ensures forall j :: 0 < j < |w| ==> w[0].end <= w[j].start
    ensures forall i :: 0 <= i < |e| ==> Forward(e[i])
    ensures forall j :: 0 <= j < |w| ==> Forward(w[j])
  {
    forall i | 0 < i < |e|
      ensures e[0].end <= e[i].start
    {
      Ascending(e, 0, i);
    }
    forall j | 0 < j < |w|
      ensures w[0].end <= w[j].start
    {
      Ascending(w, 0, j);
    }
  }

  /** The ranges left after a step are those there were, but for a first range that was cut. */
  lemma LeftOfStep(e: Rangelist, w: Rangelist, consider: bool)
    requires e != [] && w != []
    ensures var (e1, w1) := Step(e, w, consider);
            var di, dj := |e| - |e1|, |w| - |w1|;
            && 0 <= di <= 1 && 0 <= dj <= 1
            && (forall i :: 0 <= i < |e1| ==> e1[i] == e[i + di])
            && (forall j :: 0 < j < |w1| ==> w1[j] == w[j + dj])
            && (w1 == [] || w1[0] == w[dj] ||
                (di == 0 && dj == 0 && Alike(e[0], w[0], consider) && w1[0] == w[0].(start := e[0].end)))
  {
  }

  /** Ranges that survive a step are given up later exactly if they were to be given up before it. */
  lemma FirstGivenUpLater(e: Rangelist, w: Rangelist, consider: bool, i: nat, k: nat)
    requires WellFormed(e) && WellFormed(w) && e != [] && w != []
    requires var (e1, w1) := Step(e, w, consider); |e| - |e1| <= i < |e| && |w| - |w1| <= k < |w|
    ensures var (e1, w1) := Step(e, w, consider);
            FirstGivenUp(e, w, consider, i, k)
            <==> FirstGivenUp(e1, w1, consider, i + |e1| - |e|, k + |w1| - |w|)
  {
    hide WellFormed, Step, GivesUpFirst;
    LeftOfStep(e, w, consider);
    var (e1, w1) := Step(e, w, consider);
    var di, dj := |e| - |e1|, |w| - |w1|;
    var i1: nat, k1: nat := i - di, k - dj;
    if j: nat :| GivesUpFirst(e, w, consider, i, j, k) {
      if j >= dj {
        GivesUpFirstLater(e, w, consider, i, j, k);
      } else {
        FirstNotGivenUpHere(e, w, consider, i, k);
      }
    }
    if j: nat :| GivesUpFirst(e1, w1, consider, i1, j, k1) {
      GivesUpFirstLater(e, w, consider, i, j + dj, k);
    }
  }

  lemma GivesUpFirstLater(e: Rangelist, w: Rangelist, consider: bool, i: nat, j: nat, k: nat)
    requires WellFormed(e) && WellFormed(w) && e != [] && w != []
    requires var (e1, w1) := Step(e, w, consider);
             |e| - |e1| <= i < |e| && |w| - |w1| <= j && |w| - |w1| <= k < |w|
    ensures var (e1, w1) := Step(e, w, consider);
            GivesUpFirst(e, w, consider, i, j, k)
            <==> GivesUpFirst(e1, w1, consider, i + |e1| - |e|, j + |w1| - |w|, k + |w1| - |w|)
  {
    hide WellFormed, Step;
    FirstsForward(e, w);
    CutOverlaps(e, w, consider);
    LeftOfStep(e, w, consider);
  }

  /** The first range of `w` that goes does not make the walk give up a range of `e` that stays. */
  lemma FirstNotGivenUpHere(e: Rangelist, w: Rangelist, consider: bool, i: nat, k: nat)
    requires WellFormed(e) && WellFormed(w) && e != [] && w != []
    requires var (e1, w1) := Step(e, w, consider); |e| - |e1| <= i && |w1| < |w|
    ensures !GivesUpFirst(e, w, consider, i, 0, k)
  {
    hide WellFormed;
    FirstsForward(e, w);
  }

  /** The first range of `e` goes: it was given up, if a range it may be matched with reaches beyond it. */
  lemma FirstGoes(e: Rangelist, w: Rangelist, consider: bool, k: nat)
    requires WellFormed(e) && WellFormed(w) && e != [] && w != [] && k < |w|
    requires Step(e, w, consider).0 == e[1..]
    requires Overlap(e[0], w[k]) && Alike(e[0], w[k], consider) && (k == 0 ==> e[0].end < w[0].end)
    ensures k > 0 && FirstGivenUp(e, w, consider, 0, k)
  {
    hide WellFormed;
    FirstsForward(e, w);
    assert |e[1..]| != |e|;
    assert GivesUpFirst(e, w, consider, 0, 0, k);
  }

  /** A range of `w`, and the first range of `e` that is left. */
  lemma GivesUpSecondNext(e: Rangelist, w: Rangelist, consider: bool, k: nat, i: nat)
    requires WellFormed(e) && WellFormed(w) && e != [] && w != []
    requires var (e1, w1) := Step(e, w, consider); |e| - |e1| < i < |e| && |w| - |w1| <= k < |w|
    ensures var (e1, w1) := Step(e, w, consider);
            GivesUpSecond(e, w, consider, k, |e| - |e1|, i)
            <==> GivesUpSecond(e1, w1, consider, k + |w1| - |w|, 0, i + |e1| - |e|)
  {
    hide WellFormed, FirstGivenUp, Step;
    FirstsForward(e, w);
    LeftOfStep(e, w, consider);
    var (e1, w1) := Step(e, w, consider);
    var di := |e| - |e1|;
    assert e1[0] == e[di] && e1[i - di] == e[i];
    if di == 1 && Alike(e[0], w[k], consider) && e[0].end == e[1].start && Straddles(w[k], e[1], e[i], consider) {
      DroppedFirst(e, w, consider);
      FirstGoes(e, w, consider, k);
    }
  }

  lemma DroppedFirst(e: Rangelist, w: Rangelist, consider: bool)
    requires e != [] && w != [] && |Step(e, w, consider).0| < |e|
    ensures Step(e, w, consider).0 == e[1..]
  {
  }

  /** A range of `w`, and a later range of `e`; if the step cuts the former down, that is no loss. */
  lemma GivesUpSecondAfter(e: Rangelist, w: Rangelist, consider: bool, k: nat, h: nat, i: nat)
    requires WellFormed(e) && WellFormed(w) && e != [] && w != [] && h < i < |e|
    requires var (e1, w1) := Step(e, w, consider); |e| - |e1| < h && |w| - |w1| <= k < |w|
    ensures var (e1, w1) := Step(e, w, consider);
            GivesUpSecond(e, w, consider, k, h, i)
            <==> GivesUpSecond(e1, w1, consider, k + |w1| - |w|, h + |e1| - |e|, i + |e1| - |e|)
  {
    hide WellFormed, FirstGivenUp, Step;
    FirstsForward(e, w);
    LeftOfStep(e, w, consider);
    CutOverlaps(e, w, consider);
    var (e1, w1) := Step(e, w, consider);
    var di := |e| - |e1|;
    assert e1[h - di] == e[h] && e1[i - di] == e[i] && e1[h - di - 1] == e[h - 1];
    FirstGivenUpLater(e, w, consider, h - 1, k);
    if h > 1 {
      StartsLater(e, h);
    }
    NothingGivenUp(e, w, consider, h - 1);
  }

  lemma CutOverlaps(e: Rangelist, w: Rangelist, consider: bool)
    requires e != [] && w != []
    ensures var (e1, w1) := Step(e, w, consider);
            |e1| == |e| && |w1| == |w| && w1[0] != w[0] ==> Overlap(e[0], w[0])
  {
  }

  lemma StartsLater(e: Rangelist, h: nat)
    requires WellFormed(e) && 1 < h < |e|
    ensures e[0].end < e[h].start
  {
    Ascending(e, 0, 1);
    Ascending(e, 1, h);
    assert Forward(e[1]);
  }

  lemma NothingGivenUp(e: Rangelist, w: Rangelist, consider: bool, i: nat)
    ensures !FirstGivenUp(e, w, consider, i, 0)
  {
  }

  /** The first range of `e` that goes is not one that a range of `w` before it lies across. */
  lemma SecondNotGivenUpHere(e: Rangelist, w: Rangelist, consider: bool, k: nat, i: nat)
    requires WellFormed(e) && WellFormed(w) && e != [] && w != [] && k < |w|
    requires var (e1, w1) := Step(e, w, consider); |e1| < |e| && |w| - |w1| <= k
    ensures !GivesUpSecond(e, w, consider, k, 0, i)
  {
    hide WellFormed, CutAt;
    FirstsForward(e, w);
  }

  lemma LostLater(e: Rangelist, w: Rangelist, consider: bool, i: nat, k: nat)
    requires WellFormed(e) && WellFormed(w) && e != [] && w != []
    requires var (e1, w1) := Step(e, w, consider); |e| - |e1| <= i < |e| && |w| - |w1| <= k < |w|
    ensures var (e1, w1) := Step(e, w, consider);
            LostAt(e, w, consider, i, k) <==> LostAt(e1, w1, consider, i + |e1| - |e|, k + |w1| - |w|)
  {
    hide WellFormed, FirstGivenUp, GivesUpSecond;
    LeftOfStep(e, w, consider);
    FirstGivenUpLater(e, w, consider, i, k);
    var (e1, w1) := Step(e, w, consider);
    var di: nat, dj: nat := |e| - |e1|, |w| - |w1|;
    var i1: nat, k1: nat := i - di, k - dj;
    if h: nat :| GivesUpSecond(e, w, consider, k, h, i) {
      InOrder(e, w, consider, k, h, i);
      if h < di {
        SecondNotGivenUpHere(e, w, consider, k, i);
      }
      if h > di {
        GivesUpSecondAfter(e, w, consider, k, h, i);
      } else {
        GivesUpSecondNext(e, w, consider, k, i);
      }
      assert GivesUpSecond(e1, w1, consider, k1, h - di, i1);
    }
    if h: nat :| GivesUpSecond(e1, w1, consider, k1, h, i1) {
      InOrder(e1, w1, consider, k1, h, i1);
      if h > 0 {
        GivesUpSecondAfter(e, w, consider, k, h + di, i);
      } else {
        GivesUpSecondNext(e, w, consider, k, i);
      }
      assert GivesUpSecond(e, w, consider, k, h + di, i);
    }
  }

  lemma InOrder(e: Rangelist, w: Rangelist, consider: bool, k: nat, h: nat, i: nat)
    requires GivesUpSecond(e, w, consider, k, h, i)
    ensures h < i < |e|
  {
  }

  /** The first range of `w` goes: it was given up, if a range it may be matched with is yet to come. */
  lemma SecondGoes(e: Rangelist, w: Rangelist, consider: bool, i: nat)
    requires WellFormed(e) && WellFormed(w) && e != [] && w != [] && 0 < i < |e|
    requires |Step(e, w, consider).1| < |w|
    requires Overlap(e[i], w[0]) && Alike(e[i], w[0], consider)
    ensures GivesUpSecond(e, w, consider, 0, 0, i)
  {
    hide WellFormed;
    FirstsForward(e, w);
  }

  // ------------------------------------------------------- what exactly is matched

  /** The range that holds a revision of which something is said. */
  lemma {:induction false} RangeOf(rl: Rangelist, r: int) returns (i: nat)
    requires KindAt(rl, r) != NONE
    ensures i < |rl| && Within(rl[i], r) && KindAt(rl, r) == KindOf(rl[i])
  {
    if Within(rl[0], r) {
      i := 0;
    } else {
      var j := RangeOf(rl[1..], r);
      i := j + 1;
    }
  }

  /** A revision that two overlapping ranges share. */
  lemma Shared(x: MergeRange, z: MergeRange) returns (r: int)
    requires Overlap(x, z) && Forward(x) && Forward(z)
    ensures Within(x, r) && Within(z, r)
  {
    r := Max(x.start, z.start) + 1;
  }

  lemma AlikeRanges(e: Rangelist, w: Rangelist, consider: bool, i: nat, j: nat, r: int)
    requires WellFormed(e) && WellFormed(w) && i < |e| && j < |w|
    requires Within(e[i], r) && Within(w[j], r) && Alike(e[i], w[j], consider)
    ensures SaidAlike(e, w, consider, r)
  {
    SaidInRange(e, i, r);
    SaidInRange(w, j, r);
  }

  /** What only a range that is dropped says of a revision is not matched any more. */
  lemma {:induction false} DroppedIsUnmatched(e: Rangelist, w: Rangelist, consider: bool, r: int)
    requires WellFormed(e) && WellFormed(w) && e != [] && w != []
    requires !Hit(e, w, consider, r)
    requires var (e1, w1) := Step(e, w, consider); KindAt(e1, r) == NONE || KindAt(w1, r) == NONE
    ensures !Matched(e, w, consider, r)
  {
    hide WellFormed, KindAt;
    StepWellFormed(e, w, consider);
    var (e1, w1) := Step(e, w, consider);
    if Matched(e1, w1, consider, r) {
      MatchedIsAlike(e1, w1, consider, r);
    }
  }

  lemma {:induction false} MatchedLater(e: Rangelist, w: Rangelist, consider: bool, r: int)
    requires e != [] && w != [] && !Hit(e, w, consider, r)
    ensures var (e1, w1) := Step(e, w, consider);
            Matched(e, w, consider, r) == Matched(e1, w1, consider, r)
  {
  }

  /** A revision of two ranges that may be matched is matched, unless what they share is lost. */
  lemma {:induction false} MatchedUnlessLost(
      e: Rangelist, w: Rangelist, consider: bool, i: nat, k: nat, r: int)
    requires WellFormed(e) && WellFormed(w) && i < |e| && k < |w|
    requires Within(e[i], r) && Within(w[k], r) && Alike(e[i], w[k], consider)
    ensures Matched(e, w, consider, r) <==> !LostAt(e, w, consider, i, k)
    decreases |e| + |w|, FirstLength(w)
  {
    hide WellFormed, Matched, LostAt, KindAt, Step;
    if Hit(e, w, consider, r) {
      FirstsForward(e, w);
      HitIsMatched(e, w, consider, r);
      NotLostAtOnce(e, w, consider);
    } else {
      LeftOfStep(e, w, consider);
      var (e1, w1) := Step(e, w, consider);
      var di, dj := |e| - |e1|, |w| - |w1|;
      MatchedLater(e, w, consider, r);
      if i < di || k < dj {
        DroppedIsLost(e, w, consider, i, k, r);
      } else {
        StepIsSmaller(e, w, consider);
        StepWellFormed(e, w, consider);
        StillWithin(e, w, consider, i, k, r);
        MatchedUnlessLost(e1, w1, consider, i - di, k - dj, r);
        LostLater(e, w, consider, i, k);
      }
    }
  }

  lemma StillWithin(e: Rangelist, w: Rangelist, consider: bool, i: nat, k: nat, r: int)
    requires WellFormed(e) && WellFormed(w) && i < |e| && k < |w|
    requires Within(e[i], r) && Within(w[k], r) && Alike(e[i], w[k], consider) && !Hit(e, w, consider, r)
    requires var (e1, w1) := Step(e, w, consider); |e| - |e1| <= i && |w| - |w1| <= k
    ensures var (e1, w1) := Step(e, w, consider);
            var (i1, k1) := (i + |e1| - |e|, k + |w1| - |w|);
            Within(e1[i1], r) && Within(w1[k1], r) && Alike(e1[i1], w1[k1], consider)
  {
    hide WellFormed, Step;
    FirstsForward(e, w);
    LeftOfStep(e, w, consider);
  }

  lemma {:induction false} HitIsMatched(e: Rangelist, w: Rangelist, consider: bool, r: int)
    requires e != [] && w != [] && Hit(e, w, consider, r)
    ensures Matched(e, w, consider, r)
  {
  }

  lemma NotLostAtOnce(e: Rangelist, w: Rangelist, consider: bool)
    ensures !LostAt(e, w, consider, 0, 0)
  {
  }

  lemma {:induction false} DroppedIsLost(e: Rangelist, w: Rangelist, consider: bool, i: nat, k: nat, r: int)
    requires WellFormed(e) && WellFormed(w) && i < |e| && k < |w|
    requires Within(e[i], r) && Within(w[k], r) && Alike(e[i], w[k], consider) && !Hit(e, w, consider, r)
    requires var (e1, w1) := Step(e, w, consider); i < |e| - |e1| || k < |w| - |w1|
    ensures !Matched(e, w, consider, r) && LostAt(e, w, consider, i, k)
  {
    hide WellFormed, Matched, KindAt, FirstGivenUp, CutAt;
    FirstsForward(e, w);
    FirstAndRest(e, r);
    FirstAndRest(w, r);
    LeftOfStep(e, w, consider);
    DroppedIsUnmatched(e, w, consider, r);
    var (e1, w1) := Step(e, w, consider);
    if i < |e| - |e1| {
      FirstGoes(e, w, consider, k);
    } else {
      SecondGoes(e, w, consider, i);
    }
  }

  /** Two ranges that may be matched share the revision, and nothing that they share is lost. */
  ghost predicate InMatch(e: Rangelist, w: Rangelist, consider: bool, i: nat, k: nat, r: int) {
    && i < |e| && k < |w| && Within(e[i], r) && Within(w[k], r) && Alike(e[i], w[k], consider)
    && !LostAt(e, w, consider, i, k)
  }

  /** What the walk matches, read off the lists. */
  ghost predicate Taken(e: Rangelist, w: Rangelist, consider: bool, r: int) {
    exists i, k :: InMatch(e, w, consider, i, k, r)
  }

  /** The ranges of which both lists say the same. */
  lemma RangesAlike(e: Rangelist, w: Rangelist, consider: bool, r: int) returns (i: nat, k: nat)
    requires SaidAlike(e, w, consider, r)
    ensures i < |e| && k < |w| && Within(e[i], r) && Within(w[k], r) && Alike(e[i], w[k], consider)
  {
    i := RangeOf(e, r);
    k := RangeOf(w, r);
  }

  /** The walk matches exactly what two ranges share that may be matched, unless it is lost. */
  lemma {:induction false} MatchedIsTaken(e: Rangelist, w: Rangelist, consider: bool, r: int)
    requires WellFormed(e) && WellFormed(w)
    ensures Matched(e, w, consider, r) <==> Taken(e, w, consider, r)
  {
    hide WellFormed, Matched, LostAt, SaidAlike;
    if Matched(e, w, consider, r) {
      MatchedIsAlike(e, w, consider, r);
      var i, k := RangesAlike(e, w, consider, r);
      MatchedUnlessLost(e, w, consider, i, k, r);
      assert InMatch(e, w, consider, i, k, r);
    }
    if i, k :| InMatch(e, w, consider, i, k, r) {
      MatchedUnlessLost(e, w, consider, i, k, r);
    }
  }

  /** Where something is lost, there is a revision said alike that is not matched. */
  lemma LossIsReal(e: Rangelist, w: Rangelist, consider: bool, i: nat, k: nat) returns (r: int)
    requires WellFormed(e) && WellFormed(w) && LostAt(e, w, consider, i, k)
    ensures SaidAlike(e, w, consider, r) && !Matched(e, w, consider, r)
  {
    hide SaidAlike, WellFormed, Matched, LostAt;
    LostRanges(e, w, consider, i, k);
    FirstsForward(e, w);
    r := Shared(e[i], w[k]);
    AlikeRanges(e, w, consider, i, k, r);
    MatchedUnlessLost(e, w, consider, i, k, r);
  }

  lemma LostRanges(e: Rangelist, w: Rangelist, consider: bool, i: nat, k: nat)
    requires LostAt(e, w, consider, i, k)
    ensures i < |e| && k < |w| && Overlap(e[i], w[k]) && Alike(e[i], w[k], consider)
  {
  }

  /** The walk matches exactly the revisions of which both lists say the same, if and only if nothing is lost. */
  lemma {:induction false} WalkIsExact(e: Rangelist, w: Rangelist, consider: bool)
    requires WellFormed(e) && WellFormed(w)
    ensures (forall r :: Matched(e, w, consider, r) <==> SaidAlike(e, w, consider, r)) <==> !Loses(e, w, consider)
  {
    hide SaidAlike, WellFormed, Matched, LostAt;
    if i, k :| LostAt(e, w, consider, i, k) {
      var r := LossIsReal(e, w, consider, i, k);
    } else {
      forall r
        ensures Matched(e, w, consider, r) <==> SaidAlike(e, w, consider, r)
      {
        if Matched(e, w, consider, r) {
          MatchedIsAlike(e, w, consider, r);
        }
        if SaidAlike(e, w, consider, r) {
          var i, k := RangesAlike(e, w, consider, r);
          MatchedUnlessLost(e, w, consider, i, k, r);
        }
      }
    }
  }

  /** A range that is to be removed from two ranges and is, because of a third, removed from neither. */
  lemma LosingExample()
    ensures var e, w := [MergeRange(0, 10, true)], [MergeRange(2, 3, false), MergeRange(5, 6, true)];
            WellFormed(e) && WellFormed(w) && SaidAlike(e, w, true, 6) && !Matched(e, w, true, 6)
  {
    var x, y, z := MergeRange(0, 10, true), MergeRange(2, 3, false), MergeRange(5, 6, true);
    assert [x][1..] == [] && [y, z][1..] == [z];
    assert Step([x], [y, z], true) == ([], [y, z]);
    assert KindAt([y, z], 6) == KindAt([z], 6) == INHERITABLE;
  }

  // --------------------------------------------------------------------- the output

  /** Adjoining or overlapping ranges are combined, if they may be. */
  predicate Combines(a: MergeRange, b: MergeRange, consider: bool) {
    a.start <= b.end && b.start <= a.end && Alike(a, b, consider)
  }

  function Combined(a: MergeRange, b: MergeRange): MergeRange {
    MergeRange(Min(a.start, b.start), Max(a.end, b.end), a.inheritable || b.inheritable)
  }

  /** Adds a range that begins no earlier than the last one; only the last one can be affected. */
  function Add(out: Rangelist, range: MergeRange, consider: bool): Rangelist {
    if out != [] && Combines(Last(out), range, consider) then Init(out) + [Combined(Last(out), range)]
    else out + [range]
  }

  function AddAll(out: Rangelist, ranges: Rangelist, consider: bool): Rangelist
    decreases |ranges|
  {
    if ranges == [] then out else AddAll(Add(out, ranges[0], consider), ranges[1..], consider)
  }

  /** What one step adds to the output. */
  function StepOut(out: Rangelist, e: Rangelist, w: Rangelist, remove: bool, consider: bool): Rangelist
    requires e != [] && w != []
  {
    var a, b := e[0], w[0];
    var both := a.inheritable || b.inheritable;
    if ContainsRange(a, b) && Alike(a, b, consider) then
      if remove then out else Add(out, MergeRange(b.start, b.end, both), consider)
    else if Overlap(a, b) && Alike(a, b, consider) then
      var out1 :=
        if b.start >= a.start then out
        else if remove then Add(out, MergeRange(b.start, a.start, b.inheritable), consider)
        else Add(out, MergeRange(a.start, Min(b.end, a.end), both), consider);
      if b.end > a.end && !remove then Add(out1, MergeRange(Max(b.start, a.start), a.end, both), consider) else out1
    else if SortsBefore(a, b) || !remove then out
    else Add(out, b, consider)
  }

  function Output(out: Rangelist, e: Rangelist, w: Rangelist, remove: bool, consider: bool): Rangelist
    decreases |e| + |w|, FirstLength(w)
  {
    if e == [] || w == [] then if remove then AddAll(out, w, consider) else out
    else
      StepIsSmaller(e, w, consider);
      var (e1, w1) := Step(e, w, consider);
      Output(StepOut(out, e, w, remove, consider), e1, w1, remove, consider)
  }

  /** What is kept of a kind: all of it, or without regard to inheritance that there is one. */
  function View(kind: nat, consider: bool): nat {
    if consider || kind == NONE then kind else INHERITABLE
  }

  ghost predicate Says(rl: Rangelist, consider: bool, r: int, kind: nat) {
    View(KindAt(rl, r), consider) == View(kind, consider)
  }

  ghost predicate Ready(out: Rangelist, start: int) {
    WellFormed(out) && EndOf(out) <= start
  }

  lemma AddFits(out: Rangelist, range: MergeRange, consider: bool)
    requires Ready(out, range.start) && Forward(range)
    ensures Ready(Add(out, range, consider), range.end) && EndOf(Add(out, range, consider)) == range.end
    ensures Add(out, range, consider) != []
    ensures Last(Add(out, range, consider)).start <= range.start
    ensures range.inheritable ==> Last(Add(out, range, consider)).inheritable
    ensures Alike(Last(Add(out, range, consider)), range, consider)
  {
    var added := Add(out, range, consider);
    forall i | 0 < i < |added|
      ensures added[i - 1].end <= added[i].start
    {
      if i < |out| {
        assert out[i - 1].end <= out[i].start;
      }
    }
    forall i | 0 <= i < |added|
      ensures Forward(added[i])
    {
      if i < |out| {
        assert Forward(out[i]);
      }
    }
  }

  /** The output then says of the range's revisions what the range says, and the same of others. */
  lemma {:induction false} AddSays(out: Rangelist, range: MergeRange, consider: bool, r: int)
    requires Ready(out, range.start) && Forward(range)
    ensures Says(Add(out, range, consider), consider, r,
                 if Within(range, r) then KindOf(range) else KindAt(out, r))
  {
    if Within(range, r) {
      NothingAfter(out, r);
    }
    SaidOfAppended(out, range, r);
    if out != [] && Combines(Last(out), range, consider) {
      assert out == Init(out) + [Last(out)];
      SaidOfAppended(Init(out), Last(out), r);
      SaidOfAppended(Init(out), Combined(Last(out), range), r);
      InitSays(out, r);
    }
  }

  lemma {:induction false} InitSays(out: Rangelist, r: int)
    requires WellFormed(out) && out != []
    ensures Last(out).start < r ==> KindAt(Init(out), r) == NONE
  {
    var most := Init(out);
    assert forall i :: 0 <= i < |most| ==> most[i] == out[i] && Forward(most[i]);
    forall i | 0 < i < |most|
      ensures most[i - 1].end <= most[i].start
    {
      assert out[i - 1].end <= out[i].start;
    }
    if most != [] {
      assert out[|out| - 2].end <= out[|out| - 1].start by { assert out[(|out| - 1) - 1].end <= out[|out| - 1].start; }
    }
    if Last(out).start < r {
      assert Forward(Last(out));
      NothingAfter(most, r);
    }
  }

  /** Adding the range that was added last again changes nothing. */
  lemma AddTwice(out: Rangelist, range: MergeRange, consider: bool)
    requires Ready(out, range.start) && Forward(range)
    ensures Add(Add(out, range, consider), range, consider) == Add(out, range, consider)
  {
    AddFits(out, range, consider);
    var added := Add(out, range, consider);
    assert Combined(Last(added), range) == Last(added);
  }

  /** What the output says in the end of a revision, given what it says so far. */
  function Expected(out: Rangelist, e: Rangelist, w: Rangelist, remove: bool, consider: bool, r: int): nat {
    if KindAt(out, r) != NONE then KindAt(out, r)
    else if Matched(e, w, consider, r) != remove then KindAt(w, r)
    else NONE
  }

  lemma {:induction false} AddAllSays(out: Rangelist, ranges: Rangelist, consider: bool, r: int)
    requires WellFormed(ranges) && Ready(out, if ranges == [] then EndOf(out) else ranges[0].start)
    ensures WellFormed(AddAll(out, ranges, consider))
    ensures Says(AddAll(out, ranges, consider), consider, r,
                 if KindAt(out, r) != NONE then KindAt(out, r) else KindAt(ranges, r))
    decreases |ranges|
  {
    if ranges != [] {
      var first := ranges[0];
      FirstAndRest(ranges, r);
      AddFits(out, first, consider);
      AddSays(out, first, consider, r);
      AddAllSays(Add(out, first, consider), ranges[1..], consider, r);
      if Within(first, r) {
        NothingAfter(out, r);
      }
    }
  }

  /** A step that cuts the first range of `w` or is done with it, removing. */
  lemma CutKeepsExpected(out: Rangelist, e: Rangelist, w: Rangelist, consider: bool, r: int)
    requires WellFormed(e) && WellFormed(w) && e != [] && w != [] && Ready(out, w[0].start)
    requires Overlap(e[0], w[0]) && Alike(e[0], w[0], consider) && !ContainsRange(e[0], w[0])
    ensures var (e1, w1) := Step(e, w, consider);
            var out1 := StepOut(out, e, w, true, consider);
            && Ready(out1, if w1 == [] then EndOf(out1) else w1[0].start)
            && View(Expected(out1, e1, w1, true, consider, r), consider)
               == View(Expected(out, e, w, true, consider, r), consider)
  {
    hide Matched, Add, KindAt, WellFormed;
    FirstAndRest(e, r);
    FirstAndRest(w, r);
    StepWellFormed(e, w, consider);
    MatchedStep(e, w, consider, r);
    var (e1, w1) := Step(e, w, consider);
    if w1 != [] && w1[1..] == w[1..] {
      FirstAndRest(w1, r);
    }
    if r > w[0].start {
      NothingAfter(out, r);
    }
    var a, b := e[0], w[0];
    if b.start < a.start {
      AddFits(out, MergeRange(b.start, a.start, b.inheritable), consider);
      AddSays(out, MergeRange(b.start, a.start, b.inheritable), consider, r);
    }
  }

  /** The same step, intersecting. */
  lemma ShareKeepsExpected(out: Rangelist, e: Rangelist, w: Rangelist, consider: bool, r: int)
    requires WellFormed(e) && WellFormed(w) && e != [] && w != [] && Ready(out, w[0].start)
    requires Overlap(e[0], w[0]) && Alike(e[0], w[0], consider) && !ContainsRange(e[0], w[0])
    ensures var (e1, w1) := Step(e, w, consider);
            var out1 := StepOut(out, e, w, false, consider);
            && Ready(out1, if w1 == [] then EndOf(out1) else w1[0].start)
            && View(Expected(out1, e1, w1, false, consider, r), consider)
               == View(Expected(out, e, w, false, consider, r), consider)
  {
    hide Matched, Add, KindAt, WellFormed;
    FirstAndRest(e, r);
    FirstAndRest(w, r);
    StepWellFormed(e, w, consider);
    MatchedStep(e, w, consider, r);
    var (e1, w1) := Step(e, w, consider);
    if w1 != [] && w1[1..] == w[1..] {
      FirstAndRest(w1, r);
    }
    if r > w[0].start {
      NothingAfter(out, r);
    }
    var a, b := e[0], w[0];
    var shared := MergeRange(Max(b.start, a.start), Min(b.end, a.end), a.inheritable || b.inheritable);
    AddFits(out, shared, consider);
    AddSays(out, shared, consider, r);
    AddTwice(out, shared, consider);
  }

  /** One step keeps what the output will say in the end. */
  lemma StepKeepsExpected(out: Rangelist, e: Rangelist, w: Rangelist, remove: bool, consider: bool, r: int)
    requires WellFormed(e) && WellFormed(w) && e != [] && w != [] && Ready(out, w[0].start)
    ensures var (e1, w1) := Step(e, w, consider);
            var out1 := StepOut(out, e, w, remove, consider);
            && Ready(out1, if w1 == [] then EndOf(out1) else w1[0].start)
            && View(Expected(out1, e1, w1, remove, consider, r), consider)
               == View(Expected(out, e, w, remove, consider, r), consider)
  {
    hide Matched, Add, KindAt, WellFormed;
    FirstAndRest(e, r);
    FirstAndRest(w, r);
    StepWellFormed(e, w, consider);
    MatchedStep(e, w, consider, r);
    var (e1, w1) := Step(e, w, consider);
    if w1 != [] && w1[1..] == w[1..] {
      FirstAndRest(w1, r);
    }
    if r > w[0].start {
      NothingAfter(out, r);
    }
    var a, b := e[0], w[0];
    if ContainsRange(a, b) && Alike(a, b, consider) {
      var both := MergeRange(b.start, b.end, a.inheritable || b.inheritable);
      AddFits(out, both, consider);
      AddSays(out, both, consider, r);
    } else if Overlap(a, b) && Alike(a, b, consider) {
      if remove {
        CutKeepsExpected(out, e, w, consider, r);
      } else {
        ShareKeepsExpected(out, e, w, consider, r);
      }
    } else if !SortsBefore(a, b) {
      AddFits(out, b, consider);
      AddSays(out, b, consider, r);
    }
  }

  /** Where a revision is before, in or after the first ranges decides whether it is matched. */
  lemma {:induction false} MatchedStep(e: Rangelist, w: Rangelist, consider: bool, r: int)
    requires WellFormed(e) && WellFormed(w) && e != [] && w != []
    ensures var (e1, w1) := Step(e, w, consider);
            && Matched(e, w, consider, r) == (Hit(e, w, consider, r) || Matched(e1, w1, consider, r))
            && (Matched(e1, w1, consider, r) ==> KindAt(e1, r) != NONE && KindAt(w1, r) != NONE)
  {
    StepWellFormed(e, w, consider);
    var (e1, w1) := Step(e, w, consider);
    if Matched(e1, w1, consider, r) {
      MatchedIsAlike(e1, w1, consider, r);
    }
  }

  /** At the end: whatever both lists match is kept or removed, and nothing else. */
  lemma {:induction false} OutputSays(
      out: Rangelist, e: Rangelist, w: Rangelist, remove: bool, consider: bool, r: int)
    requires WellFormed(e) && WellFormed(w) && Ready(out, if w == [] then EndOf(out) else w[0].start)
    ensures WellFormed(Output(out, e, w, remove, consider))
    ensures Says(Output(out, e, w, remove, consider), consider, r, Expected(out, e, w, remove, consider, r))
    decreases |e| + |w|, FirstLength(w)
  {
    hide WellFormed, Expected, Ready, KindAt;
    if e == [] || w == [] {
      OutputEnds(out, e, w, remove, consider, r);
    } else {
      var (e1, w1) := Step(e, w, consider);
      StepIsSmaller(e, w, consider);
      StepWellFormed(e, w, consider);
      StepKeepsExpected(out, e, w, remove, consider, r);
      OutputSays(StepOut(out, e, w, remove, consider), e1, w1, remove, consider, r);
    }
  }

  lemma {:induction false} OutputEnds(out: Rangelist, e: Rangelist, w: Rangelist, remove: bool, consider: bool, r: int)
    requires WellFormed(w) && Ready(out, if w == [] then EndOf(out) else w[0].start) && (e == [] || w == [])
    ensures WellFormed(Output(out, e, w, remove, consider))
    ensures Says(Output(out, e, w, remove, consider), consider, r, Expected(out, e, w, remove, consider, r))
  {
    AddAllSays(out, w, consider, r);
  }

  // --------------------------------------------------------------------- the methods

  /** The rest of the second list, its first range as it has been cut. */
  ghost predicate RestOf(w: Rangelist, rl2: Rangelist, i2: nat, lasti2: int, working: MergeRange) {
    i2 <= |rl2| && w == if i2 < |rl2| && i2 == lasti2 then [working] + rl2[i2 + 1..] else rl2[i2..]
  }

  method IntersectOrRemove(rl1: Rangelist, rl2: Rangelist, remove: bool, consider: bool) returns (output: Rangelist)
    ensures output == Output([], rl1, rl2, remove, consider)
  {
    hide StepOut, Add, AddAll, Output;
    output := [];
    var i1, i2 := 0, 0;
    var lasti2 := -1;
    var working := MergeRange(0, 0, false);
    ghost var e, w := rl1, rl2;
    while i1 < |rl1| && i2 < |rl2|
      invariant i1 <= |rl1| && e == rl1[i1..] && RestOf(w, rl2, i2, lasti2, working) && lasti2 <= i2
      invariant Output(output, e, w, remove, consider) == Output([], rl1, rl2, remove, consider)
      decreases |e| + |w|, FirstLength(w)
    {
      var elt1 := rl1[i1];
      if i2 != lasti2 {
        working := rl2[i2];
        lasti2 := i2;
      }
      var elt2 := working;
      assert e[0] == elt1 && w[0] == elt2 && w[1..] == rl2[i2 + 1..];
      assert e[1..] == rl1[i1 + 1..];
      StepIsSmaller(e, w, consider);
      OutputGoesOn(output, e, w, remove, consider);
      output := OutputStep(output, elt1, elt2, remove, consider, e, w);
      ghost var (e1, w1) := Step(e, w, consider);
      if ContainsRange(elt1, elt2) && Alike(elt1, elt2, consider) {
        i2 := i2 + 1;
        if elt2.start == elt1.start && elt2.end == elt1.end {
          i1 := i1 + 1;
        }
      } else if Overlap(elt1, elt2) && Alike(elt1, elt2, consider) {
        if elt2.end > elt1.end {
          working := MergeRange(elt1.end, elt2.end, elt2.inheritable);
        } else {
          i2 := i2 + 1;
        }
      } else if SortsBefore(elt1, elt2) {
        i1 := i1 + 1;
      } else {
        i2 := i2 + 1;
      }
      e, w := e1, w1;
    }
    OutputIsDone(output, e, w, remove, consider);
    if remove {
      if i2 == lasti2 && i2 < |rl2| {
        AddAllFirst(output, w, consider);
        output := CombineWithLastrange(output, working, consider);
        assert w[1..] == rl2[i2 + 1..];
        i2 := i2 + 1;
      }
      output := AddRest(output, rl2, i2, consider);
    }
  }

  /** Adds the ranges from place `i2` on. */
  method AddRest(out: Rangelist, rl2: Rangelist, i2: nat, consider: bool) returns (output: Rangelist)
    requires i2 <= |rl2|
    ensures output == AddAll(out, rl2[i2..], consider)
  {
    hide Add, AddAll;
    output := out;
    var i := i2;
    while i < |rl2|
      invariant i <= |rl2| && AddAll(output, rl2[i..], consider) == AddAll(out, rl2[i2..], consider)
    {
      AddAllFirst(output, rl2[i..], consider);
      assert rl2[i..][1..] == rl2[i + 1..];
      output := CombineWithLastrange(output, rl2[i], consider);
      i := i + 1;
    }
    AddAllNothing(output, consider);
    assert rl2[i..] == [];
  }

  lemma {:induction false} OutputGoesOn(out: Rangelist, e: Rangelist, w: Rangelist, remove: bool, consider: bool)
    requires e != [] && w != []
    ensures var (e1, w1) := Step(e, w, consider);
            Output(out, e, w, remove, consider) ==
            Output(StepOut(out, e, w, remove, consider), e1, w1, remove, consider)
  {
  }

  lemma {:induction false} OutputIsDone(out: Rangelist, e: Rangelist, w: Rangelist, remove: bool, consider: bool)
    requires e == [] || w == []
    ensures Output(out, e, w, remove, consider) == if remove then AddAll(out, w, consider) else out
  {
  }

  lemma {:induction false} AddAllNothing(out: Rangelist, consider: bool)
    ensures AddAll(out, [], consider) == out
  {
  }

  lemma {:induction false} AddAllFirst(out: Rangelist, ranges: Rangelist, consider: bool)
    requires ranges != []
    ensures AddAll(out, ranges, consider) == AddAll(Add(out, ranges[0], consider), ranges[1..], consider)
  {
  }

  /** Combines a range with the last one of the output, or appends it. */
  method CombineWithLastrange(out: Rangelist, range: MergeRange, consider: bool) returns (r: Rangelist)
    ensures r == Add(out, range, consider)
  {
    if |out| == 0 {
      r := [range];
    } else if Combines(out[|out| - 1], range, consider) {
      r := out[|out| - 1 := Combined(out[|out| - 1], range)];
    } else {
      r := out + [range];
    }
  }

  method OutputStep(
      out: Rangelist, elt1: MergeRange, elt2: MergeRange, remove: bool, consider: bool,
      ghost e: Rangelist, ghost w: Rangelist)
    returns (r: Rangelist)
    requires e != [] && w != [] && e[0] == elt1 && w[0] == elt2
    ensures r == StepOut(out, e, w, remove, consider)
  {
    hide Add;
    r := out;
    var both := elt2.inheritable || elt1.inheritable;
    if ContainsRange(elt1, elt2) && Alike(elt1, elt2, consider) {
      if !remove {
        r := CombineWithLastrange(r, MergeRange(elt2.start, elt2.end, both), consider);
      }
    } else if Overlap(elt1, elt2) && Alike(elt1, elt2, consider) {
      if elt2.start < elt1.start {
        if remove {
          r := CombineWithLastrange(r, MergeRange(elt2.start, elt1.start, elt2.inheritable), consider);
        } else {
          r := CombineWithLastrange(r, MergeRange(elt1.start, Min(elt2.end, elt1.end), both), consider);
        }
      }
      if elt2.end > elt1.end && !remove {
        r := CombineWithLastrange(r, MergeRange(Max(elt2.start, elt1.start), elt1.end, both), consider);
      }
    } else if !SortsBefore(elt1, elt2) && remove {
      r := CombineWithLastrange(r, elt2, consider);
    }
  }
}
