/** Composition of two delta windows: B after A, as one window over A's source view. */
module Compose {
  import opened Common
  import opened TextDelta

  /** A window under construction. New data is only ever appended to it. */
  datatype Build = Build(ops: seq<Op>, newData: seq<byte>) {
    function Emit(op: Op): Build {
      Build(ops + [op], newData)
    }

    function EmitNew(data: seq<byte>): Build {
      Build(ops + [New(|newData|, |data|)], newData + data)
    }

    /** Everything emitted is valid, and all the new data is used up, in order. */
    predicate Valid(sviewLen: nat) {
      && OpsValid(ops, sviewLen, |newData|)
      && NewAscending(ops)
      && NewEnd(ops) == |newData|
    }

    function Output(sview: seq<byte>): seq<byte>
      requires Valid(|sview|)
    {
      Run(ops, sview, newData)
    }
  }

  /**
   * Emits instructions for the bytes [lo, hi) of the target view of `ops`, reading only
   * the source view, fresh new data, and what the window under construction already holds.
   */
  function CopyRange(ops: seq<Op>, newData: seq<byte>, sviewLen: nat, lo: nat, hi: nat, b: Build): (r: Build)
    requires OpsValid(ops, sviewLen, |newData|)
    requires lo < hi <= TargetLen(ops)
    ensures TargetLen(r.ops) == TargetLen(b.ops) + hi - lo
    decreases |ops|, 1
  {
    var start := TargetLen(Init(ops));
    var b1 := if lo < start then CopyRange(Init(ops), newData, sviewLen, lo, Min(hi, start), b) else b;
    if hi <= start then b1
    else CopyPiece(ops, newData, sviewLen, Max(lo, start) - start, hi - start, b1)
  }

  /** The part [f, g) of what the last instruction of `ops` produces. */
  function CopyPiece(ops: seq<Op>, newData: seq<byte>, sviewLen: nat, f: nat, g: nat, b: Build): (r: Build)
    requires OpsValid(ops, sviewLen, |newData|)
    requires ops != [] && f < g <= Last(ops).length
    ensures TargetLen(r.ops) == TargetLen(b.ops) + g - f
    decreases |ops|, 0
  {
    match Last(ops)
    case Source(o, _) => b.Emit(Source(o + f, g - f))
    case New(o, _) => b.EmitNew(newData[o + f..o + g])
    case Target(o, _) =>
      var start := TargetLen(Init(ops));
      if o + g <= start then
        CopyRange(Init(ops), newData, sviewLen, o + f, o + g, b)
      else
        // The copy overlaps its own output: it repeats the start - o bytes before it.
        CopyPattern(Init(ops), newData, sviewLen, o, Wrap(f, start - o), g - f, b)
  }

  /**
   * `count` bytes of the pattern that repeats the bytes from `o` to the end of the target
   * view of `ops`, beginning `turn` bytes into it: the pattern once, rotated, then a
   * target copy that overlaps its own output.
   */
  function CopyPattern(
      ops: seq<Op>, newData: seq<byte>, sviewLen: nat, o: nat, turn: nat, count: nat, b: Build): (r: Build)
    requires OpsValid(ops, sviewLen, |newData|)
    requires o + turn < TargetLen(ops) && count > 0
    ensures TargetLen(r.ops) == TargetLen(b.ops) + count
    decreases |ops|, 3
  {
    var pattern := TargetLen(ops) - o;
    if turn + count <= pattern then
      CopyRange(ops, newData, sviewLen, o + turn, o + turn + count, b)
    else
      var b1 := CopyRange(ops, newData, sviewLen, o + turn, o + pattern, b);
      CopyWrapped(ops, newData, sviewLen, o, turn, count - (pattern - turn), b1)
  }

  /** Goes on from the start of the pattern, whose last pattern - turn bytes were emitted last. */
  function CopyWrapped(
      ops: seq<Op>, newData: seq<byte>, sviewLen: nat, o: nat, turn: nat, count: nat, b: Build): (r: Build)
    requires OpsValid(ops, sviewLen, |newData|)
    requires o + turn < TargetLen(ops) <= o + turn + TargetLen(b.ops) && count > 0
    ensures TargetLen(r.ops) == TargetLen(b.ops) + count
    decreases |ops|, 2, 0
  {
    if count <= turn then
      CopyRange(ops, newData, sviewLen, o, o + count, b)
    else
      var b1 := if turn == 0 then b else CopyRange(ops, newData, sviewLen, o, o + turn, b);
      b1.Emit(Target(TargetLen(b1.ops) - (TargetLen(ops) - o), count - turn))
  }

  /** One instruction of B, rewritten against A's source view. */
  function ComposeOp(a: Window, b: Window, op: Op, c: Build): (r: Build)
    requires ValidWindow(a)
    requires op.Source? ==> op.offset < op.offset + op.length <= a.tviewLen
    requires op.New? ==> op.offset + op.length <= |b.newData|
  {
    match op
    case Source(o, l) => CopyRange(a.ops, a.newData, a.sviewLen, o, o + l, c)
    case Target(_, _) => c.Emit(op)
    case New(o, l) => c.EmitNew(b.newData[o..o + l])
  }

  function ComposeOps(a: Window, b: Window, ops: seq<Op>): Build
    requires ValidWindow(a)
    requires OpsValid(ops, a.tviewLen, |b.newData|)
  {
    if ops == [] then Build([], [])
    else ComposeOp(a, b, Last(ops), ComposeOps(a, b, Init(ops)))
  }

  /** The composed window: A's source view, B's target view. */
  function ComposeWindows(a: Window, b: Window): Window
    requires ValidWindow(a) && ValidWindow(b) && b.sviewLen == a.tviewLen
  {
    var c := ComposeOps(a, b, b.ops);
    Window(a.sviewOffset, a.sviewLen, b.tviewLen, CountSource(c.ops), c.ops, c.newData)
  }

  // ------------------------------------------------------------------ proofs

  lemma EmitCorrect(b: Build, op: Op, sview: seq<byte>)
    requires b.Valid(|sview|)
    requires !op.New? && OpValid(op, TargetLen(b.ops), |sview|, |b.newData|)
    ensures b.Emit(op).Valid(|sview|)
    ensures b.Emit(op).Output(sview) == Execute(op, sview, b.newData, b.Output(sview))
  {
    assert Init(b.Emit(op).ops) == b.ops;
  }

  lemma EmitNewCorrect(b: Build, data: seq<byte>, sview: seq<byte>)
    requires b.Valid(|sview|) && data != []
    ensures b.EmitNew(data).Valid(|sview|)
    ensures b.EmitNew(data).Output(sview) == b.Output(sview) + data
  {
    assert Init(b.EmitNew(data).ops) == b.ops;
    RunMoreNewData(b.ops, sview, b.newData, data);
    assert (b.newData + data)[|b.newData|..|b.newData| + |data|] == data;
  }

  /** `y` is `x` followed by the bytes [lo, hi) of `t`. */
  ghost predicate Appends(x: seq<byte>, y: seq<byte>, t: seq<byte>, lo: nat, hi: nat) {
    && lo <= hi <= |t| && |y| == |x| + (hi - lo)
    && (forall k :: 0 <= k < |x| ==> y[k] == x[k])
    && (forall k :: |x| <= k < |y| ==> y[k] == t[lo + (k - |x|)])
  }

  lemma AppendsSlice(x: seq<byte>, t: seq<byte>, lo: nat, hi: nat)
    requires lo <= hi <= |t|
    ensures forall y :: Appends(x, y, t, lo, hi) <==> y == x + t[lo..hi]
  {
    forall y | Appends(x, y, t, lo, hi)
      ensures y == x + t[lo..hi]
    {
    }
  }

  lemma AppendsJoin(x: seq<byte>, y: seq<byte>, z: seq<byte>, t: seq<byte>, lo: nat, mid: nat, hi: nat)
    requires Appends(x, y, t, lo, mid) && Appends(y, z, t, mid, hi)
    ensures Appends(x, z, t, lo, hi)
  {
  }

  lemma AppendsLonger(x: seq<byte>, y: seq<byte>, t0: seq<byte>, t: seq<byte>, lo: nat, hi: nat)
    requires Appends(x, y, t0, lo, hi) && |t0| <= |t| && t[..|t0|] == t0
    ensures Appends(x, y, t, lo, hi)
  {
    forall k | |x| <= k < |y|
      ensures y[k] == t[lo + (k - |x|)]
    {
      assert t[..|t0|][lo + (k - |x|)] == t[lo + (k - |x|)];
    }
  }

  /** The last instruction, split off. */
  lemma {:induction false} LastStep(ops: seq<Op>, newData: seq<byte>, sview: seq<byte>)
    requires OpsValid(ops, |sview|, |newData|) && (ops != [] || TargetLen(ops) > 0)
    ensures ops != []
    ensures OpsValid(Init(ops), |sview|, |newData|)
    ensures OpValid(Last(ops), TargetLen(Init(ops)), |sview|, |newData|)
    ensures TargetLen(ops) == TargetLen(Init(ops)) + Last(ops).length
    ensures Run(ops, sview, newData) == Execute(Last(ops), sview, newData, Run(Init(ops), sview, newData))
  {
  }

  /** The emitted instructions append exactly the requested bytes of A's target view. */
  lemma {:induction false} CopyRangeCorrect(
      ops: seq<Op>, newData: seq<byte>, sview: seq<byte>, lo: nat, hi: nat, b: Build)
    requires OpsValid(ops, |sview|, |newData|)
    requires lo < hi <= TargetLen(ops)
    requires b.Valid(|sview|)
    ensures CopyRange(ops, newData, |sview|, lo, hi, b).Valid(|sview|)
    ensures Appends(
              b.Output(sview),
              CopyRange(ops, newData, |sview|, lo, hi, b).Output(sview),
              Run(ops, sview, newData), lo, hi)
    decreases |ops|, 1
  {
    hide CopyPiece, CopyPattern, Appends, CopyWithin, NewAscending, NewEnd, Wrap, OpsValid, TargetLen, Run;
    LastStep(ops, newData, sview);
    var start := TargetLen(Init(ops));
    var t, t0 := Run(ops, sview, newData), Run(Init(ops), sview, newData);
    var b1 := b;
    if lo < start {
      CopyRangeCorrect(Init(ops), newData, sview, lo, Min(hi, start), b);
      b1 := CopyRange(Init(ops), newData, |sview|, lo, Min(hi, start), b);
      AppendsLonger(b.Output(sview), b1.Output(sview), t0, t, lo, Min(hi, start));
    }
    if start < hi {
      var from := Max(lo, start);
      CopyPieceCorrect(ops, newData, sview, from - start, hi - start, b1);
      if lo < start {
        var r := CopyPiece(ops, newData, |sview|, from - start, hi - start, b1);
        AppendsJoin(b.Output(sview), b1.Output(sview), r.Output(sview), t, lo, start, hi);
      }
    }
  }

  lemma {:induction false} CopyPieceCorrect(
      ops: seq<Op>, newData: seq<byte>, sview: seq<byte>, f: nat, g: nat, b: Build)
    requires OpsValid(ops, |sview|, |newData|)
    requires ops != [] && f < g <= Last(ops).length
    requires b.Valid(|sview|)
    ensures CopyPiece(ops, newData, |sview|, f, g, b).Valid(|sview|)
    ensures Appends(
              b.Output(sview),
              CopyPiece(ops, newData, |sview|, f, g, b).Output(sview),
              Run(ops, sview, newData),
              TargetLen(Init(ops)) + f,
              TargetLen(Init(ops)) + g)
    decreases |ops|, 0
  {
    hide CopyRange, CopyPattern, Appends, Repeats, CopyWithin, NewAscending, NewEnd, Wrap, OpsValid, TargetLen, Run;
    LastStep(ops, newData, sview);
    var start := TargetLen(Init(ops));
    var t0 := Run(Init(ops), sview, newData);
    var x := b.Output(sview);
    match Last(ops)
    case Source(o, l) =>
      EmitCorrect(b, Source(o + f, g - f), sview);
      PlainCopy(x, t0, sview, o, l, f, g);
    case New(o, l) =>
      EmitNewCorrect(b, newData[o + f..o + g], sview);
      PlainCopy(x, t0, newData, o, l, f, g);
    case Target(o, l) =>
      if o + g <= start {
        CopyRangeCorrect(Init(ops), newData, sview, o + f, o + g, b);
        var y := CopyRange(Init(ops), newData, |sview|, o + f, o + g, b).Output(sview);
        CopyNotOverlapping(x, y, t0, o, l, f, g);
      } else {
        var turn := Wrap(f, start - o);
        CopyPatternCorrect(Init(ops), newData, sview, o, turn, g - f, b);
        var y := CopyPattern(Init(ops), newData, |sview|, o, turn, g - f, b).Output(sview);
        CopyOverlapping(x, y, t0, o, l, f, g);
      }
  }

  lemma PlainCopy(x: seq<byte>, t0: seq<byte>, from: seq<byte>, o: nat, l: nat, f: nat, g: nat)
    requires o + l <= |from| && f < g <= l
    ensures Appends(x, x + from[o + f..o + g], t0 + from[o..o + l], |t0| + f, |t0| + g)
  {
  }

  /** `y` is `x` followed by `count` bytes of the repeated pattern. */
  ghost predicate Repeats(x: seq<byte>, y: seq<byte>, t0: seq<byte>, o: nat, turn: nat, count: nat) {
    && o < |t0| && |y| == |x| + count
    && (forall k :: 0 <= k < |x| ==> y[k] == x[k])
    && (forall k :: |x| <= k < |y| ==> y[k] == t0[o + Wrap(turn + (k - |x|), |t0| - o)])
  }

  lemma {:induction false} CopyNotOverlapping(x: seq<byte>, y: seq<byte>, t0: seq<byte>, o: nat, l: nat, f: nat, g: nat)
    requires o < |t0| && f < g <= l && o + g <= |t0|
    requires Appends(x, y, t0, o + f, o + g)
    ensures Appends(x, y, CopyWithin(t0, o, l), |t0| + f, |t0| + g)
  {
    var t := CopyWithin(t0, o, l);
    forall k | |x| <= k < |y|
      ensures y[k] == t[|t0| + f + (k - |x|)]
    {
      CopyWraps(t0, o, l, f + (k - |x|));
    }
  }

  lemma CopyOverlapping(x: seq<byte>, y: seq<byte>, t0: seq<byte>, o: nat, l: nat, f: nat, g: nat)
    requires o < |t0| && f < g <= l
    requires Repeats(x, y, t0, o, Wrap(f, |t0| - o), g - f)
    ensures Appends(x, y, CopyWithin(t0, o, l), |t0| + f, |t0| + g)
  {
    var t, m := CopyWithin(t0, o, l), |t0| - o;
    forall k | |x| <= k < |y|
      ensures y[k] == t[|t0| + f + (k - |x|)]
    {
      hide CopyWithin;
      CopyWraps(t0, o, l, f + (k - |x|));
      WrapSum(k - |x|, f, m);
    }
  }

  lemma {:induction false} CopyPatternCorrect(
      ops: seq<Op>, newData: seq<byte>, sview: seq<byte>, o: nat, turn: nat, count: nat, b: Build)
    requires OpsValid(ops, |sview|, |newData|)
    requires o + turn < TargetLen(ops) && count > 0
    requires b.Valid(|sview|)
    ensures CopyPattern(ops, newData, |sview|, o, turn, count, b).Valid(|sview|)
    ensures Repeats(
              b.Output(sview),
              CopyPattern(ops, newData, |sview|, o, turn, count, b).Output(sview),
              Run(ops, sview, newData), o, turn, count)
    decreases |ops|, 3
  {
    hide CopyRange, CopyWrapped, Appends, Repeats, CopyWithin;
    var t0 := Run(ops, sview, newData);
    var x := b.Output(sview);
    if turn + count <= |t0| - o {
      CopyRangeCorrect(ops, newData, sview, o + turn, o + turn + count, b);
      var b1 := CopyRange(ops, newData, |sview|, o + turn, o + turn + count, b);
      RepeatsFirst(x, b1.Output(sview), t0, o, turn, count);
    } else {
      CopyRangeCorrect(ops, newData, sview, o + turn, |t0|, b);
      var b1 := CopyRange(ops, newData, |sview|, o + turn, |t0|, b);
      RepeatsFirst(x, b1.Output(sview), t0, o, turn, |t0| - o - turn);
      CopyWrappedCorrect(ops, newData, sview, o, turn, count - (|t0| - o - turn), b1, x);
    }
  }

  lemma {:induction false} CopyWrappedCorrect(
      ops: seq<Op>, newData: seq<byte>, sview: seq<byte>, o: nat, turn: nat, count: nat, b: Build, x: seq<byte>)
    requires OpsValid(ops, |sview|, |newData|)
    requires o + turn < TargetLen(ops) <= o + turn + TargetLen(b.ops) && count > 0
    requires b.Valid(|sview|)
    requires Repeats(x, b.Output(sview), Run(ops, sview, newData), o, turn, TargetLen(ops) - o - turn)
    ensures CopyWrapped(ops, newData, |sview|, o, turn, count, b).Valid(|sview|)
    ensures Repeats(
              x,
              CopyWrapped(ops, newData, |sview|, o, turn, count, b).Output(sview),
              Run(ops, sview, newData), o, turn, TargetLen(ops) - o - turn + count)
    decreases |ops|, 2, 0
  {
    hide CopyRange, Appends, Repeats, CopyWithin, OpsValid, NewAscending, NewEnd, TargetLen, Run, Wrap;
    var t0 := Run(ops, sview, newData);
    var b1 := b;
    if turn > 0 {
      var n := Min(count, turn);
      CopyRangeCorrect(ops, newData, sview, o, o + n, b);
      b1 := CopyRange(ops, newData, |sview|, o, o + n, b);
      RepeatsSecond(x, b.Output(sview), b1.Output(sview), t0, o, turn, n);
    }
    if count > turn {
      var y := b1.Output(sview);
      RepeatsRest(x, y, t0, o, turn, count - turn);
      EmitCorrect(b1, Target(|y| - (|t0| - o), count - turn), sview);
    }
  }

  lemma RepeatsFirst(x: seq<byte>, y: seq<byte>, t0: seq<byte>, o: nat, turn: nat, first: nat)
    requires o + turn + first <= |t0| && first > 0
    requires Appends(x, y, t0, o + turn, o + turn + first)
    ensures Repeats(x, y, t0, o, turn, first)
  {
  }

  lemma RepeatsSecond(
      x: seq<byte>, y: seq<byte>, z: seq<byte>, t0: seq<byte>, o: nat, turn: nat, second: nat)
    requires o + turn < |t0| && 0 < second <= turn
    requires Repeats(x, y, t0, o, turn, |t0| - o - turn)
    requires Appends(y, z, t0, o, o + second)
    ensures Repeats(x, z, t0, o, turn, |t0| - o - turn + second)
  {
    forall k | |y| <= k < |z|
      ensures z[k] == t0[o + Wrap(turn + (k - |x|), |t0| - o)]
    {
      WrapSum(k - |y|, 0, |t0| - o);
    }
  }

  lemma RepeatsRest(x: seq<byte>, y: seq<byte>, t0: seq<byte>, o: nat, turn: nat, rest: nat)
    requires o + turn < |t0|
    requires Repeats(x, y, t0, o, turn, |t0| - o)
    ensures |t0| - o <= |y|
    ensures Repeats(x, CopyWithin(y, |y| - (|t0| - o), rest), t0, o, turn, |t0| - o + rest)
  {
    var z := CopyWithin(y, |y| - (|t0| - o), rest);
    forall k | |y| <= k < |z|
      ensures z[k] == t0[o + Wrap(turn + (k - |x|), |t0| - o)]
    {
      RepeatsRestAt(x, y, t0, o, turn, rest, k - |y|);
    }
    assert forall k :: 0 <= k < |y| ==> z[..|y|][k] == y[k];
  }

  lemma RepeatsRestAt(x: seq<byte>, y: seq<byte>, t0: seq<byte>, o: nat, turn: nat, rest: nat, i: nat)
    requires o + turn < |t0| && i < rest
    requires Repeats(x, y, t0, o, turn, |t0| - o)
    ensures CopyWithin(y, |y| - (|t0| - o), rest)[|y| + i] == t0[o + Wrap(turn + (|y| + i - |x|), |t0| - o)]
  {
    var m := |t0| - o;
    CopyWraps(y, |y| - m, rest, i);
    WrapSum(turn, i, m);
    WrapSum(turn + i, 0, m);
  }

  /** One instruction of B does the same to the window under construction as to A's target view. */
  lemma ComposeOpCorrect(a: Window, b: Window, op: Op, c: Build, sview: seq<byte>)
    requires ValidWindow(a) && |sview| == a.sviewLen
    requires c.Valid(|sview|)
    requires OpValid(op, TargetLen(c.ops), a.tviewLen, |b.newData|)
    ensures ComposeOp(a, b, op, c).Valid(|sview|)
    ensures ComposeOp(a, b, op, c).Output(sview)
         == Execute(op, Apply(a, sview), b.newData, c.Output(sview))
  {
    hide CopyRange, Appends, OpsValid, TargetLen, Run, CopyWithin, NewAscending, NewEnd, CountSource;
    match op
    case Source(o, l) =>
      CopyRangeCorrect(a.ops, a.newData, sview, o, o + l, c);
      AppendsSlice(c.Output(sview), Apply(a, sview), o, o + l);
    case Target(_, _) => EmitCorrect(c, op, sview);
    case New(o, l) => EmitNewCorrect(c, b.newData[o..o + l], sview);
  }

  /** After each instruction of B the window under construction has produced what B has. */
  lemma {:induction false} ComposeOpsCorrect(a: Window, b: Window, ops: seq<Op>, sview: seq<byte>)
    requires ValidWindow(a) && |sview| == a.sviewLen
    requires OpsValid(ops, a.tviewLen, |b.newData|)
    ensures ComposeOps(a, b, ops).Valid(|sview|)
    ensures ComposeOps(a, b, ops).Output(sview) == Run(ops, Apply(a, sview), b.newData)
  {
    hide CopyRange, ComposeOp;
    if ops != [] {
      ComposeOpsCorrect(a, b, Init(ops), sview);
      ComposeOpCorrect(a, b, Last(ops), ComposeOps(a, b, Init(ops)), sview);
    }
  }

  /**
   * Composition preserves meaning: for every source view, the composed window produces what
   * A followed by B produces.
   */
  lemma ComposePreservesMeaning(a: Window, b: Window, sview: seq<byte>)
    requires ValidWindow(a) && ValidWindow(b) && b.sviewLen == a.tviewLen
    requires |sview| == a.sviewLen
    ensures ValidWindow(ComposeWindows(a, b))
    ensures Apply(ComposeWindows(a, b), sview) == Apply(b, Apply(a, sview))
  {
    ComposeOpsCorrect(a, b, b.ops, sview);
    assert |Run(b.ops, Apply(a, sview), b.newData)| == TargetLen(b.ops);
  }

  /**
   * Composition stays in the language: views as documented, every range rule met, new data
   * used in ascending order without overlap or waste, and the source count exact.
   */
  lemma ComposeIsValid(a: Window, b: Window)
    requires ValidWindow(a) && ValidWindow(b) && b.sviewLen == a.tviewLen
    ensures var c := ComposeWindows(a, b);
            && ValidWindow(c)
            && c.sviewOffset == a.sviewOffset && c.sviewLen == a.sviewLen && c.tviewLen == b.tviewLen
            && NewEnd(c.ops) == |c.newData|
            && (a.srcOps == 0 || b.srcOps == 0 ==> c.srcOps == 0)
  {
    var anySource := seq(a.sviewLen, _ => 0 as byte);
    ComposeOpsCorrect(a, b, b.ops, anySource);
    ComposePreservesMeaning(a, b, anySource);
    ComposeSourceFree(a, b, b.ops);
  }

  /** A composed window needs the source only if B reads A's target and A reads the source. */
  lemma {:induction false} ComposeSourceFree(a: Window, b: Window, ops: seq<Op>)
    requires ValidWindow(a)
    requires OpsValid(ops, a.tviewLen, |b.newData|)
    ensures CountSource(a.ops) == 0 || CountSource(ops) == 0 ==> CountSource(ComposeOps(a, b, ops).ops) == 0
  {
    if ops != [] {
      ComposeSourceFree(a, b, Init(ops));
      var c := ComposeOps(a, b, Init(ops));
      match Last(ops)
      case Source(o, l) =>
        if CountSource(a.ops) == 0 {
          CopyRangeSourceFree(a.ops, a.newData, a.sviewLen, o, o + l, c);
        }
      case Target(_, _) => CountEmitted(c.ops, Last(ops));
      case New(o, l) => CountEmitted(c.ops, New(|c.newData|, l));
    }
  }

  lemma {:induction false} CopyRangeSourceFree(
      ops: seq<Op>, newData: seq<byte>, sviewLen: nat, lo: nat, hi: nat, b: Build)
    requires OpsValid(ops, sviewLen, |newData|)
    requires lo < hi <= TargetLen(ops)
    requires CountSource(ops) == 0
    ensures CountSource(CopyRange(ops, newData, sviewLen, lo, hi, b).ops) == CountSource(b.ops)
    decreases |ops|, 1
  {
    hide CopyPiece, CopyPattern;
    var start := TargetLen(Init(ops));
    var b1 := b;
    if lo < start {
      CopyRangeSourceFree(Init(ops), newData, sviewLen, lo, Min(hi, start), b);
      b1 := CopyRange(Init(ops), newData, sviewLen, lo, Min(hi, start), b);
    }
    if start < hi {
      CopyPieceSourceFree(ops, newData, sviewLen, Max(lo, start) - start, hi - start, b1);
    }
  }

  lemma {:induction false} CopyPieceSourceFree(
      ops: seq<Op>, newData: seq<byte>, sviewLen: nat, f: nat, g: nat, b: Build)
    requires OpsValid(ops, sviewLen, |newData|)
    requires ops != [] && f < g <= Last(ops).length
    requires CountSource(ops) == 0
    ensures CountSource(CopyPiece(ops, newData, sviewLen, f, g, b).ops) == CountSource(b.ops)
    decreases |ops|, 0
  {
    hide CopyRange, CopyPattern;
    var r := CopyPiece(ops, newData, sviewLen, f, g, b);
    match Last(ops)
    case Source(_, _) => assert false;
    case New(o, _) => CountEmitted(b.ops, New(|b.newData|, g - f));
    case Target(o, _) =>
      var start := TargetLen(Init(ops));
      if o + g <= start {
        CopyRangeSourceFree(Init(ops), newData, sviewLen, o + f, o + g, b);
      } else {
        CopyPatternSourceFree(Init(ops), newData, sviewLen, o, Wrap(f, start - o), g - f, b);
      }
  }

  lemma {:induction false} CopyPatternSourceFree(
      ops: seq<Op>, newData: seq<byte>, sviewLen: nat, o: nat, turn: nat, count: nat, b: Build)
    requires OpsValid(ops, sviewLen, |newData|)
    requires o + turn < TargetLen(ops) && count > 0
    requires CountSource(ops) == 0
    ensures CountSource(CopyPattern(ops, newData, sviewLen, o, turn, count, b).ops) == CountSource(b.ops)
    decreases |ops|, 3
  {
    hide CopyRange, CopyWrapped, OpsValid, TargetLen, CountSource;
    var end := TargetLen(ops);
    if o + turn + count <= end {
      CopyRangeSourceFree(ops, newData, sviewLen, o + turn, o + turn + count, b);
    } else {
      CopyRangeSourceFree(ops, newData, sviewLen, o + turn, end, b);
      var b1 := CopyRange(ops, newData, sviewLen, o + turn, end, b);
      CopyWrappedSourceFree(ops, newData, sviewLen, o, turn, o + turn + count - end, b1);
    }
  }

  lemma {:induction false} CopyWrappedSourceFree(
      ops: seq<Op>, newData: seq<byte>, sviewLen: nat, o: nat, turn: nat, count: nat, b: Build)
    requires OpsValid(ops, sviewLen, |newData|)
    requires o + turn < TargetLen(ops) <= o + turn + TargetLen(b.ops) && count > 0
    requires CountSource(ops) == 0
    ensures CountSource(CopyWrapped(ops, newData, sviewLen, o, turn, count, b).ops) == CountSource(b.ops)
    decreases |ops|, 2, 0
  {
    hide CopyRange, OpsValid, TargetLen, CountSource;
    var b1 := b;
    if turn > 0 {
      CopyRangeSourceFree(ops, newData, sviewLen, o, o + Min(count, turn), b);
      b1 := CopyRange(ops, newData, sviewLen, o, o + Min(count, turn), b);
    }
    if count > turn {
      CountEmitted(b1.ops, Target(TargetLen(b1.ops) - (TargetLen(ops) - o), count - turn));
    }
  }

  lemma {:induction false} CountEmitted(ops: seq<Op>, op: Op)
    ensures CountSource(ops + [op]) == CountSource(ops) + if op.Source? then 1 else 0
  {
    assert Init(ops + [op]) == ops;
  }

  /** Both ways of composing three windows mean the same. */
  lemma ComposeAssociative(a: Window, b: Window, c: Window, sview: seq<byte>)
    requires ValidWindow(a) && ValidWindow(b) && ValidWindow(c)
    requires b.sviewLen == a.tviewLen && c.sviewLen == b.tviewLen && |sview| == a.sviewLen
    ensures ValidWindow(ComposeWindows(a, b)) && ValidWindow(ComposeWindows(b, c))
    ensures ValidWindow(ComposeWindows(ComposeWindows(a, b), c))
    ensures ValidWindow(ComposeWindows(a, ComposeWindows(b, c)))
    ensures Apply(ComposeWindows(ComposeWindows(a, b), c), sview)
         == Apply(ComposeWindows(a, ComposeWindows(b, c)), sview)
  {
    var t := Apply(a, sview);
    ComposePreservesMeaning(a, b, sview);
    ComposePreservesMeaning(b, c, t);
    ComposePreservesMeaning(ComposeWindows(a, b), c, sview);
    ComposePreservesMeaning(a, ComposeWindows(b, c), sview);
  }
}
