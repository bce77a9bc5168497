/** Lists of revision ranges, what they say of each revision, and their merge. */
module Rangelist {
  import opened Common

  /** The revisions after `start` up to and including `end`. */
  datatype MergeRange = MergeRange(start: int, end: int, inheritable: bool)

  type Rangelist = seq<MergeRange>

  /** The greater of two kinds wins when ranges are merged. */
  const NONE: nat := 0
  const NON_INHERITABLE: nat := 1
  const INHERITABLE: nat := 2

  function KindOf(range: MergeRange): nat {
    if range.inheritable then INHERITABLE else NON_INHERITABLE
  }

  predicate Within(range: MergeRange, r: int) {
    range.start < r <= range.end
  }

  /** What a rangelist says of revision `r`. */
  function KindAt(rl: Rangelist, r: int): nat {
    if rl == [] then NONE
    else if Within(rl[0], r) then KindOf(rl[0])
    else KindAt(rl[1..], r)
  }

  predicate Forward(range: MergeRange) {
    0 <= range.start < range.end
  }

  /** Forward ranges in ascending order that do not overlap; adjoining ones are allowed. */
  ghost predicate WellFormed(rl: Rangelist) {
    && (forall i :: 0 <= i < |rl| ==> Forward(rl[i]))
    && (forall i :: 0 < i < |rl| ==> rl[i - 1].end <= rl[i].start)
  }

  /** Adjoining ranges differ in inheritability, so that none could be combined. */
  ghost predicate Canonical(rl: Rangelist) {
    && WellFormed(rl)
    && (forall i :: 0 < i < |rl| ==> Apart(rl[i - 1], rl[i]))
  }

  predicate Apart(a: MergeRange, b: MergeRange) {
    a.end < b.start || (a.end == b.start && a.inheritable != b.inheritable)
  }

  /** What the check looks at: it does not ask whether revisions are negative. */
  ghost predicate LooksCanonical(rl: Rangelist) {
    && (forall i :: 0 <= i < |rl| ==> rl[i].start < rl[i].end)
    && (forall i :: 0 < i < |rl| ==> Apart(rl[i - 1], rl[i]))
  }

  /** Where no range starts below zero, a list passes the check exactly if it is canonical. */
  lemma CanonicalIffLooks(rl: Rangelist)
    ensures Canonical(rl) <==> LooksCanonical(rl) && (rl != [] ==> 0 <= rl[0].start)
  {
    if rl != [] && LooksCanonical(rl) && 0 <= rl[0].start {
      forall i | 0 <= i < |rl|
        ensures Forward(rl[i])
      {
        StartsAscend(rl, i);
      }
    }
    assert Canonical(rl) ==> forall i :: 0 <= i < |rl| ==> Forward(rl[i]);
  }

  lemma {:induction false} StartsAscend(rl: Rangelist, i: nat)
    requires LooksCanonical(rl) && i < |rl|
    ensures rl[0].start <= rl[i].start
  {
    if i > 0 {
      StartsAscend(rl, i - 1);
      assert Apart(rl[i - 1], rl[i]);
    }
  }

  method IsCanonical(rl: Rangelist) returns (r: bool)
    ensures r <==> LooksCanonical(rl)
    ensures rl == [] || 0 <= rl[0].start ==> (r <==> Canonical(rl))
  {
    CanonicalIffLooks(rl);
    var i := 0;
    while i < |rl|
      invariant 0 <= i <= |rl| && forall j :: 0 <= j < i ==> rl[j].start < rl[j].end
    {
      if rl[i].start >= rl[i].end {
        return false;
      }
      i := i + 1;
    }
    i := 0;
    while i < |rl| - 1
      invariant 0 <= i && (i <= |rl| - 1 || i == 0)
      invariant forall j :: 0 < j <= i && j < |rl| ==> Apart(rl[j - 1], rl[j])
    {
      assert LooksCanonical(rl) ==> Apart(rl[(i + 1) - 1], rl[i + 1]);
      if rl[i].end > rl[i + 1].start {
        return false;
      } else if rl[i].end == rl[i + 1].start && rl[i].inheritable == rl[i + 1].inheritable {
        return false;
      }
      i := i + 1;
    }
    r := true;
  }

  /** What a list says of a revision: a range holds it, and ranges that are inheritable say so. */
  lemma {:induction false} KindMeans(rl: Rangelist, r: int)
    requires WellFormed(rl)
    ensures KindAt(rl, r) == NONE <==> !exists i :: 0 <= i < |rl| && rl[i].start < r <= rl[i].end
    ensures KindAt(rl, r) == INHERITABLE <==>
            exists i :: 0 <= i < |rl| && rl[i].start < r <= rl[i].end && rl[i].inheritable
    ensures KindAt(rl, r) == NON_INHERITABLE <==>
            exists i :: 0 <= i < |rl| && rl[i].start < r <= rl[i].end && !rl[i].inheritable
  {
    if i :| 0 <= i < |rl| && rl[i].start < r <= rl[i].end {
      SaidInRange(rl, i, r);
      forall j | 0 <= j < |rl| && rl[j].start < r <= rl[j].end
        ensures KindAt(rl, r) == KindOf(rl[j])
      {
        SaidInRange(rl, j, r);
      }
    } else {
      NothingSays(rl, r);
    }
  }

  lemma {:induction false} NothingSays(rl: Rangelist, r: int)
    requires forall i :: 0 <= i < |rl| ==> !(rl[i].start < r <= rl[i].end)
    ensures KindAt(rl, r) == NONE
  {
    if rl != [] {
      assert forall i :: 0 <= i < |rl| - 1 ==> rl[1..][i] == rl[i + 1];
      NothingSays(rl[1..], r);
    }
  }

  // ------------------------------------------------------- what a list says, by place

  function EndOf(rl: Rangelist): int {
    if rl == [] then 0 else Last(rl).end
  }

  lemma WellFormedTail(rl: Rangelist)
    requires WellFormed(rl) && rl != []
    ensures WellFormed(rl[1..])
    ensures Canonical(rl) ==> Canonical(rl[1..])
  {
    var tail := rl[1..];
    forall i | 0 < i < |tail|
      ensures tail[i - 1].end <= tail[i].start && (Canonical(rl) ==> Apart(tail[i - 1], tail[i]))
    {
      assert tail[i - 1] == rl[(i + 1) - 1] && tail[i] == rl[i + 1];
    }
  }

  /** Nothing is said of revisions up to where the list begins. */
  lemma {:induction false} NothingBefore(rl: Rangelist, r: int)
    requires WellFormed(rl) && (rl != [] ==> r <= rl[0].start)
    ensures KindAt(rl, r) == NONE
  {
    if rl != [] {
      WellFormedTail(rl);
      if |rl| > 1 {
        assert rl[1 - 1].end <= rl[1].start;
      }
      NothingBefore(rl[1..], r);
    }
  }

  /** Of a revision of range `i`, the list says what that range says. */
  lemma {:induction false} SaidInRange(rl: Rangelist, i: nat, r: int)
    requires WellFormed(rl) && i < |rl| && Within(rl[i], r)
    ensures KindAt(rl, r) == KindOf(rl[i])
  {
    if i > 0 {
      WellFormedTail(rl);
      SaidInRange(rl[1..], i - 1, r);
      Ascending(rl, 0, i);
    }
  }

  lemma {:induction false} Ascending(rl: Rangelist, i: nat, j: nat)
    requires WellFormed(rl) && i < j < |rl|
    ensures rl[i].end <= rl[j].start
    decreases j
  {
    assert rl[j - 1].end <= rl[j].start;
    if i < j - 1 {
      Ascending(rl, i, j - 1);
      assert Forward(rl[j - 1]);
    }
  }

  /** Between range `i - 1` and range `i` nothing is said. */
  lemma {:induction false} SaidInGap(rl: Rangelist, i: nat, r: int)
    requires WellFormed(rl) && i <= |rl|
    requires i > 0 ==> rl[i - 1].end < r
    requires i < |rl| ==> r <= rl[i].start
    ensures KindAt(rl, r) == NONE
  {
    if i == 0 {
      NothingBefore(rl, r);
    } else {
      WellFormedTail(rl);
      if i > 1 {
        Ascending(rl, 0, i - 1);
        assert Forward(rl[i - 1]);
      }
      SaidInGap(rl[1..], i - 1, r);
    }
  }

  // ------------------------------------------------------------------ the iterator

  /** A stretch of revisions of one kind, which may be a gap. */
  datatype Interval = Interval(start: int, end: int, kind: nat)

  /** Walks over the ranges of a list and the gaps before them. */
  class IntervalIterator {
    const rl: Rangelist
    var i: nat
    var inRange: bool
    var interval: Interval

    /** Up to where everything is behind the iterator. */
    function Done(): int
      reads this
    {
      if inRange && i < |rl| then rl[i].start else if 0 < i <= |rl| then rl[i - 1].end else 0
    }

    ghost predicate At()
      reads this
    {
      WellFormed(rl) && i <= |rl| && (i == |rl| ==> !inRange)
    }

    /** The interval is the next one that is not empty. */
    ghost predicate Valid()
      reads this
    {
      && At() && i < |rl|
      && interval == CurrentInterval()
      && interval.start < interval.end
    }

    function CurrentInterval(): Interval
      requires i < |rl|
      reads this
    {
      if inRange then Interval(rl[i].start, rl[i].end, KindOf(rl[i]))
      else Interval(if i > 0 then rl[i - 1].end else 0, rl[i].start, NONE)
    }

    method Update() returns (ok: bool)
      requires At()
      modifies this`interval
      ensures ok <==> i < |rl|
      ensures ok ==> interval == CurrentInterval()
    {
      if i >= |rl| {
        return false;
      }
      if !inRange {
        interval := Interval(if i > 0 then rl[i - 1].end else 0, rl[i].start, NONE);
      } else {
        interval := Interval(rl[i].start, rl[i].end, KindOf(rl[i]));
      }
      ok := true;
    }

    method NextAnyInterval()
      requires At() && i < |rl|
      modifies this
      ensures At() && (i, inRange) == if old(inRange) then (old(i) + 1, false) else (old(i), true)
      ensures Done() == old(CurrentInterval()).end
    {
      assert Forward(rl[i]);
      if inRange {
        i := i + 1;
      }
      inRange := !inRange;
    }

    /** Updates the interval and goes past empty ones. */
    method SkipEmpty() returns (ok: bool)
      requires At()
      modifies this
      ensures At() && Done() == old(Done())
      ensures ok ==> Valid() && interval.start == Done()
      ensures !ok ==> i == |rl| && Done() == EndOf(rl)
    {
      ok := Update();
      while ok && interval.start == interval.end
        invariant At() && Done() == old(Done())
        invariant ok <==> i < |rl|
        invariant ok ==> interval == CurrentInterval() && interval.start == Done()
        decreases |rl| - i, !inRange
      {
        assert Forward(rl[i]);
        NextAnyInterval();
        ok := Update();
      }
      if ok {
        assert Forward(rl[i]);
        assert i > 0 ==> rl[i - 1].end <= rl[i].start;
      }
    }

    constructor (rl: Rangelist)
      requires WellFormed(rl)
      ensures this.rl == rl && At() && Done() == 0
    {
      this.rl := rl;
      i, inRange, interval := 0, false, Interval(0, 0, NONE);
    }

    method Next() returns (ok: bool)
      requires Valid()
      modifies this
      ensures At() && Done() == old(interval.end)
      ensures ok ==> Valid() && interval.start == Done()
      ensures !ok ==> i == |rl| && Done() == EndOf(rl)
    {
      NextAnyInterval();
      ok := SkipEmpty();
    }

    /** What the interval says is what the list says of its revisions. */
    lemma {:induction false} IntervalSays(r: int)
      requires Valid() && interval.start < r <= interval.end
      ensures KindAt(rl, r) == interval.kind
    {
      if inRange {
        SaidInRange(rl, i, r);
      } else {
        SaidInGap(rl, i, r);
      }
    }
  }

  // -------------------------------------------------------------------- the builder

  /** Consecutive intervals, combined when they are of one kind. */
  class RangelistBuilder {
    var rl: Rangelist
    var accu: Interval

    constructor ()
      ensures Valid() && rl == [] && accu == Interval(0, 0, NONE)
    {
      rl, accu := [], Interval(0, 0, NONE);
    }

    /** The list so far with the interval being accumulated, if that is not a gap. */
    function Result(): Rangelist
      reads this
    {
      WithInterval(rl, accu)
    }

    ghost predicate Valid()
      reads this
    {
      Fits(rl, accu)
    }

    method Flush()
      requires Valid()
      modifies this`rl
      ensures rl == old(Result())
    {
      if accu.kind > NONE {
        rl := rl + [MergeRange(accu.start, accu.end, accu.kind == INHERITABLE)];
      }
    }

    method AddInterval(interval: Interval)
      requires Valid() && interval.kind <= INHERITABLE
      requires interval.start < interval.end && interval.start == accu.end
      modifies this
      ensures Valid() && accu.end == interval.end
      ensures forall r :: KindAt(Result(), r) ==
                          if interval.start < r <= interval.end then interval.kind else old(KindAt(Result(), r))
    {
      hide KindAt, Canonical;
      ghost var was := accu;
      if interval.kind == accu.kind {
        Extended(rl, accu, interval);
        accu := Interval(accu.start, interval.end, accu.kind);
      } else {
        Followed(rl, accu, interval);
        Flush();
        accu := interval;
      }
    }
  }

  function WithInterval(rl: Rangelist, accu: Interval): Rangelist {
    if accu.kind > NONE then rl + [MergeRange(accu.start, accu.end, accu.kind == INHERITABLE)] else rl
  }

  /** The accumulator may follow the list. */
  ghost predicate Fits(rl: Rangelist, accu: Interval) {
    && Canonical(WithInterval(rl, accu))
    && 0 <= accu.start <= accu.end && accu.kind <= INHERITABLE
    && EndOf(rl) <= accu.start
    && (accu.kind == NONE ==> rl == [] || accu.start < accu.end)
  }

  lemma {:induction false} SaidOfAppended(rl: Rangelist, range: MergeRange, r: int)
    ensures KindAt(rl + [range], r) ==
            if KindAt(rl, r) != NONE then KindAt(rl, r) else if Within(range, r) then KindOf(range) else NONE
  {
    if rl == [] {
      assert rl + [range] == [range];
      assert [range][1..] == [];
    } else {
      SaidOfAppended(rl[1..], range, r);
      assert (rl + [range])[1..] == rl[1..] + [range];
    }
  }

  /** Nothing is said of revisions after the end of the list. */
  lemma {:induction false} NothingAfter(rl: Rangelist, r: int)
    requires WellFormed(rl) && EndOf(rl) < r
    ensures KindAt(rl, r) == NONE
  {
    SaidInGap(rl, |rl|, r);
  }

  lemma CanonicalPrefix(rl: Rangelist, range: MergeRange)
    requires Canonical(rl + [range])
    ensures Canonical(rl)
  {
    var all := rl + [range];
    assert forall i :: 0 <= i < |rl| ==> rl[i] == all[i];
    forall i | 0 < i < |rl|
      ensures rl[i - 1].end <= rl[i].start && Apart(rl[i - 1], rl[i])
    {
      assert Apart(all[i - 1], all[i]) && all[i - 1].end <= all[i].start;
    }
  }

  lemma CanonicalAppended(rl: Rangelist, range: MergeRange)
    requires Canonical(rl) && Forward(range)
    requires rl != [] ==> Apart(Last(rl), range)
    ensures Canonical(rl + [range])
  {
    var all := rl + [range];
    forall i | 0 < i < |all|
      ensures all[i - 1].end <= all[i].start && Apart(all[i - 1], all[i])
    {
      if i < |rl| {
        assert Apart(rl[i - 1], rl[i]);
      }
    }
  }

  /** What a list with an accumulated interval says. */
  lemma {:induction false} SaidWith(rl: Rangelist, accu: Interval, r: int)
    requires Fits(rl, accu)
    ensures Canonical(rl)
    ensures KindAt(WithInterval(rl, accu), r) ==
            if accu.start < r <= accu.end then accu.kind else if r <= accu.start then KindAt(rl, r) else NONE
  {
    if accu.kind > NONE {
      var range := MergeRange(accu.start, accu.end, accu.kind == INHERITABLE);
      CanonicalPrefix(rl, range);
      SaidOfAppended(rl, range, r);
    }
    if r > accu.start {
      NothingAfter(rl, r);
    }
  }

  /** An interval of the accumulated kind makes the accumulated one longer. */
  lemma Extended(rl: Rangelist, accu: Interval, interval: Interval)
    requires Fits(rl, accu) && interval.kind == accu.kind
    requires interval.start < interval.end && interval.start == accu.end
    ensures var longer := Interval(accu.start, interval.end, accu.kind);
            Fits(rl, longer) &&
            forall r :: KindAt(WithInterval(rl, longer), r) ==
                        if interval.start < r <= interval.end then interval.kind else KindAt(WithInterval(rl, accu), r)
  {
    hide KindAt;
    var longer := Interval(accu.start, interval.end, accu.kind);
    SaidWith(rl, accu, 0);
    if accu.kind > NONE {
      var range := MergeRange(accu.start, accu.end, accu.kind == INHERITABLE);
      var all := rl + [range];
      assert all[|rl|] == range;
      assert rl != [] ==> all[|rl| - 1] == Last(rl) && Apart(all[|rl| - 1], all[|rl|]);
      CanonicalAppended(rl, MergeRange(accu.start, interval.end, accu.kind == INHERITABLE));
    }
    forall r
      ensures KindAt(WithInterval(rl, longer), r) ==
              if interval.start < r <= interval.end then interval.kind else KindAt(WithInterval(rl, accu), r)
    {
      SaidWith(rl, accu, r);
      SaidWith(rl, longer, r);
    }
  }

  /** An interval of another kind starts a new accumulation after the list so far. */
  lemma Followed(rl: Rangelist, accu: Interval, interval: Interval)
    requires Fits(rl, accu) && interval.kind != accu.kind && interval.kind <= INHERITABLE
    requires interval.start < interval.end && interval.start == accu.end
    ensures var all := WithInterval(rl, accu);
            Fits(all, interval) &&
            forall r :: KindAt(WithInterval(all, interval), r) ==
                        if interval.start < r <= interval.end then interval.kind else KindAt(all, r)
  {
    hide KindAt;
    var all := WithInterval(rl, accu);
    SaidWith(rl, accu, 0);
    if accu.kind > NONE {
      assert Last(all) == MergeRange(accu.start, accu.end, accu.kind == INHERITABLE);
    }
    if interval.kind > NONE {
      CanonicalAppended(all, MergeRange(interval.start, interval.end, interval.kind == INHERITABLE));
    }
    forall r
      ensures KindAt(WithInterval(all, interval), r) ==
              if interval.start < r <= interval.end then interval.kind else KindAt(all, r)
    {
      SaidWith(rl, accu, r);
      SaidWith(all, interval, r);
    }
  }

  // ---------------------------------------------------------------------- the merge

  /** At every revision the merged list says the greater of what the two say. */
  ghost predicate SaysMerged(out: Rangelist, rl1: Rangelist, rl2: Rangelist) {
    forall r :: KindAt(out, r) == Max(KindAt(rl1, r), KindAt(rl2, r))
  }

  /** So far as `last`; nothing beyond. */
  ghost predicate SaysUpTo(out: Rangelist, rl1: Rangelist, rl2: Rangelist, last: int) {
    forall r :: KindAt(out, r) == if r <= last then Max(KindAt(rl1, r), KindAt(rl2, r)) else NONE
  }

  /** The iterator is at the interval that `last` is in, or begins; or the list ends before. */
  ghost predicate Tracks(it: IntervalIterator, more: bool, last: int)
    reads it
  {
    && it.At()
    && (more ==> it.Valid() && it.interval.start <= last < it.interval.end)
    && (!more ==> EndOf(it.rl) <= last)
  }

  lemma NothingYet(rl1: Rangelist, rl2: Rangelist)
    requires WellFormed(rl1) && WellFormed(rl2)
    ensures SaysUpTo([], rl1, rl2, 0)
  {
    forall r
      ensures KindAt([], r) == if r <= 0 then Max(KindAt(rl1, r), KindAt(rl2, r)) else NONE
    {
      if r <= 0 {
        NothingBefore(rl1, r);
        NothingBefore(rl2, r);
      }
    }
  }

  lemma {:induction false} TrackedKind(it: IntervalIterator, more: bool, last: int, next: int, r: int)
    requires Tracks(it, more, last) && last < r <= next
    requires more ==> next <= it.interval.end
    ensures KindAt(it.rl, r) == if more then it.interval.kind else NONE
  {
    if more {
      it.IntervalSays(r);
    } else {
      NothingAfter(it.rl, r);
    }
  }

  /** Goes on to the next interval if the current one is used up. */
  method Advance(it: IntervalIterator, more: bool, last: int, next: int) returns (stillMore: bool)
    requires Tracks(it, more, last) && last < next && (more ==> next <= it.interval.end)
    modifies it
    ensures Tracks(it, stillMore, next)
  {
    stillMore := more;
    if more && it.interval.end <= next {
      stillMore := it.Next();
    }
  }

  lemma IntervalEnds(it: IntervalIterator)
    requires it.Valid()
    ensures it.interval.end <= EndOf(it.rl)
  {
    var rl, i := it.rl, it.i;
    assert Forward(rl[i]) && Forward(Last(rl));
    if i < |rl| - 1 {
      Ascending(rl, i, |rl| - 1);
    }
  }

  /** Up to where the first of the two intervals ends, the greater of their kinds is said. */
  lemma {:induction false} BothTracked(
      it0: IntervalIterator, more0: bool, it1: IntervalIterator, more1: bool, last: int, next: int, r: int)
    requires Tracks(it0, more0, last) && Tracks(it1, more1, last) && last < r <= next
    requires (more0 ==> next <= it0.interval.end) && (more1 ==> next <= it1.interval.end)
    ensures var kind := if !more1 then it0.interval.kind
                        else if !more0 then it1.interval.kind
                        else Max(it0.interval.kind, it1.interval.kind);
            more0 || more1 ==> Max(KindAt(it0.rl, r), KindAt(it1.rl, r)) == kind <= INHERITABLE
  {
    hide KindAt, Tracks;
    TrackedKind(it0, more0, last, next, r);
    TrackedKind(it1, more1, last, next, r);
    KindsAreKinds(it0.rl, r);
    KindsAreKinds(it1.rl, r);
  }

  /** A range of the list holds the revision. */
  predicate Lists(rl: Rangelist, r: int) {
    exists i :: 0 <= i < |rl| && rl[i].start < r <= rl[i].end
  }

  /** An inheritable range of the list holds the revision. */
  predicate ListsInheritable(rl: Rangelist, r: int) {
    exists i :: 0 <= i < |rl| && rl[i].start < r <= rl[i].end && rl[i].inheritable
  }

  /** Saying the greater of two: listed if either list has the revision, inheritable if in either it is. */
  lemma {:induction false} MergedMeans(out: Rangelist, rl1: Rangelist, rl2: Rangelist, r: int)
    requires WellFormed(rl1) && WellFormed(rl2) && WellFormed(out) && SaysMerged(out, rl1, rl2)
    ensures Lists(out, r) <==> Lists(rl1, r) || Lists(rl2, r)
    ensures ListsInheritable(out, r) <==> ListsInheritable(rl1, r) || ListsInheritable(rl2, r)
  {
    hide KindAt, WellFormed;
    KindMeans(out, r);
    KindMeans(rl1, r);
    KindMeans(rl2, r);
    KindsAreKinds(rl1, r);
    KindsAreKinds(rl2, r);
    assert KindAt(out, r) == Max(KindAt(rl1, r), KindAt(rl2, r));
  }

  /** Merges two lists by walking over both at once; the result is canonical. */
  method Merge(rl1: Rangelist, rl2: Rangelist) returns (out: Rangelist)
    requires WellFormed(rl1) && WellFormed(rl2)
    ensures Canonical(out) && SaysMerged(out, rl1, rl2)
    ensures forall r :: Lists(out, r) <==> Lists(rl1, r) || Lists(rl2, r)
    ensures forall r :: ListsInheritable(out, r) <==> ListsInheritable(rl1, r) || ListsInheritable(rl2, r)
  {
    hide KindAt, WellFormed, Canonical, Lists, ListsInheritable;
    var it0 := new IntervalIterator(rl1);
    var it1 := new IntervalIterator(rl2);
    var builder := new RangelistBuilder();
    var last := 0;
    var more0 := it0.SkipEmpty();
    var more1 := it1.SkipEmpty();
    NothingYet(rl1, rl2);
    while more0 || more1
      invariant fresh(it0) && fresh(it1) && fresh(builder) && it0 != it1
      invariant it0.rl == rl1 && it1.rl == rl2
      invariant Tracks(it0, more0, last) && Tracks(it1, more1, last)
      invariant builder.Valid() && builder.accu.end == last
      invariant SaysUpTo(builder.Result(), rl1, rl2, last)
      decreases Max(EndOf(rl1), EndOf(rl2)) - last
    {
      if more0 {
        IntervalEnds(it0);
      }
      if more1 {
        IntervalEnds(it1);
      }
      var next := if !more1 then it0.interval.end
                  else if !more0 then it1.interval.end
                  else Min(it0.interval.end, it1.interval.end);
      var kind := if !more1 then it0.interval.kind
                  else if !more0 then it1.interval.kind
                  else Max(it0.interval.kind, it1.interval.kind);
      ghost var before := builder.Result();
      forall r | last < r <= next
        ensures Max(KindAt(rl1, r), KindAt(rl2, r)) == kind <= INHERITABLE
      {
        BothTracked(it0, more0, it1, more1, last, next, r);
      }
      assert last < next ==> Max(KindAt(rl1, next), KindAt(rl2, next)) == kind;
      builder.AddInterval(Interval(last, next, kind));
      SaysFurther(before, builder.Result(), rl1, rl2, last, next, kind);
      more0 := Advance(it0, more0, last, next);
      more1 := Advance(it1, more1, last, next);
      last := next;
    }
    ghost var result := builder.Result();
    builder.Flush();
    out := builder.rl;
    SaysToTheEnd(out, it0, it1, last);
    forall r
      ensures Lists(out, r) <==> Lists(rl1, r) || Lists(rl2, r)
      ensures ListsInheritable(out, r) <==> ListsInheritable(rl1, r) || ListsInheritable(rl2, r)
    {
      CanonicalIsWellFormed(out);
      MergedMeans(out, rl1, rl2, r);
    }
  }

  lemma CanonicalIsWellFormed(rl: Rangelist)
    requires Canonical(rl)
    ensures WellFormed(rl)
  {
  }

  lemma {:induction false} KindsAreKinds(rl: Rangelist, r: int)
    ensures NONE <= KindAt(rl, r) <= INHERITABLE
  {
    if rl != [] {
      KindsAreKinds(rl[1..], r);
    }
  }

  lemma {:induction false} SaysFurther(
      before: Rangelist, after: Rangelist, rl1: Rangelist, rl2: Rangelist, last: int, next: int, kind: nat)
    requires SaysUpTo(before, rl1, rl2, last) && last < next
    requires forall r :: last < r <= next ==> Max(KindAt(rl1, r), KindAt(rl2, r)) == kind
    requires forall r :: KindAt(after, r) == if last < r <= next then kind else KindAt(before, r)
    ensures SaysUpTo(after, rl1, rl2, next)
  {
    hide KindAt;
  }

  lemma SaysToTheEnd(out: Rangelist, it0: IntervalIterator, it1: IntervalIterator, last: int)
    requires SaysUpTo(out, it0.rl, it1.rl, last) && Tracks(it0, false, last) && Tracks(it1, false, last)
    ensures SaysMerged(out, it0.rl, it1.rl)
  {
    hide KindAt;
    forall r
      ensures KindAt(out, r) == Max(KindAt(it0.rl, r), KindAt(it1.rl, r))
    {
      if r > last {
        NothingAfter(it0.rl, r);
        NothingAfter(it1.rl, r);
      }
    }
  }

  // -------------------------------------------------------- canonical lists are unique

  lemma {:induction false} FirstIsFirst(rl: Rangelist, r: int)
    requires WellFormed(rl) && rl != []
    ensures KindAt(rl, rl[0].start + 1) == KindOf(rl[0])
    ensures r <= rl[0].start ==> KindAt(rl, r) == NONE
    ensures KindAt(rl, rl[0].end) == KindOf(rl[0])
  {
    assert Forward(rl[0]);
    SaidInRange(rl, 0, rl[0].start + 1);
    SaidInRange(rl, 0, rl[0].end);
    if r <= rl[0].start {
      NothingBefore(rl, r);
    }
  }

  /** Just after its first range a canonical list says something else. */
  lemma {:induction false} OtherAfterFirst(rl: Rangelist)
    requires Canonical(rl) && rl != []
    ensures KindAt(rl, rl[0].end + 1) != KindOf(rl[0])
  {
    var r := rl[0].end + 1;
    if |rl| > 1 && rl[1].start < r {
      assert Apart(rl[1 - 1], rl[1]) && Forward(rl[1]);
      SaidInRange(rl, 1, r);
    } else {
      SaidInGap(rl, 1, r);
    }
  }

  ghost predicate SaysSame(a: Rangelist, b: Rangelist) {
    forall r :: KindAt(a, r) == KindAt(b, r)
  }

  lemma SameFirst(a: Rangelist, b: Rangelist)
    requires Canonical(a) && Canonical(b) && SaysSame(a, b) && a != []
    ensures b != [] && b[0] == a[0]
  {
    hide KindAt;
    assert Forward(a[0]);
    FirstIsFirst(a, 0);
    if b == [] {
      SaidInGap(b, 0, a[0].start + 1);
    } else {
      assert Forward(b[0]);
      FirstIsFirst(b, a[0].start + 1);
      FirstIsFirst(a, b[0].start + 1);
      assert a[0].start == b[0].start;
      assert KindOf(a[0]) == KindOf(b[0]);
      OtherAfterFirst(a);
      OtherAfterFirst(b);
      if a[0].end < b[0].end {
        SaidInRange(b, 0, a[0].end + 1);
      } else if b[0].end < a[0].end {
        SaidInRange(a, 0, b[0].end + 1);
      }
    }
  }

  /** Two canonical lists that say the same of every revision are the same list. */
  lemma {:induction false} CanonicalIsUnique(a: Rangelist, b: Rangelist)
    requires Canonical(a) && Canonical(b) && SaysSame(a, b)
    ensures a == b
    decreases |a|
  {
    hide Canonical, WellFormed;
    if a == [] {
      if b != [] {
        SameFirst(b, a);
      }
    } else {
      SameFirst(a, b);
      CanonicalTails(a, b);
      CanonicalIsUnique(a[1..], b[1..]);
      assert a == [a[0]] + a[1..] && b == [b[0]] + b[1..];
    }
  }

  lemma CanonicalTails(a: Rangelist, b: Rangelist)
    requires Canonical(a) && Canonical(b) && SaysSame(a, b) && a != [] && b != [] && a[0] == b[0]
    ensures Canonical(a[1..]) && Canonical(b[1..]) && SaysSame(a[1..], b[1..])
  {
    WellFormedTail(a);
    WellFormedTail(b);
    forall r
      ensures KindAt(a[1..], r) == KindAt(b[1..], r)
    {
      assert KindAt(a, r) == KindAt(b, r);
      if Within(a[0], r) {
        TailIsLater(a, r);
        TailIsLater(b, r);
      }
    }
  }

  lemma {:induction false} TailIsLater(rl: Rangelist, r: int)
    requires Canonical(rl) && rl != [] && r <= rl[0].end
    ensures KindAt(rl[1..], r) == NONE
  {
    WellFormedTail(rl);
    if |rl| > 1 {
      assert rl[1 - 1].end <= rl[1].start;
    }
    NothingBefore(rl[1..], r);
  }

  /** The merge of two lists, however it is computed. */
  ghost predicate IsMerge(out: Rangelist, rl1: Rangelist, rl2: Rangelist) {
    Canonical(out) && SaysMerged(out, rl1, rl2)
  }

  /** Merging is commutative, associative and, on canonical lists, idempotent. */
  lemma MergeLaws(a: Rangelist, b: Rangelist, c: Rangelist, ab: Rangelist, ba: Rangelist, bc: Rangelist,
                  abThenC: Rangelist, aThenBc: Rangelist, aa: Rangelist)
    requires IsMerge(ab, a, b) && IsMerge(ba, b, a) && IsMerge(bc, b, c)
    requires IsMerge(abThenC, ab, c) && IsMerge(aThenBc, a, bc) && IsMerge(aa, a, a)
    ensures ab == ba
    ensures abThenC == aThenBc
    ensures Canonical(a) ==> aa == a
  {
    hide KindAt, Canonical;
    assert SaysSame(ab, ba);
    CanonicalIsUnique(ab, ba);
    forall r
      ensures KindAt(abThenC, r) == KindAt(aThenBc, r)
    {
      assert KindAt(ab, r) == Max(KindAt(a, r), KindAt(b, r));
      assert KindAt(bc, r) == Max(KindAt(b, r), KindAt(c, r));
    }
    CanonicalIsUnique(abThenC, aThenBc);
    if Canonical(a) {
      assert SaysSame(aa, a);
      CanonicalIsUnique(aa, a);
    }
  }
}
