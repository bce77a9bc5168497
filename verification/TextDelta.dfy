/** Text delta windows: what an instruction stream means, and when it is valid. */
module TextDelta {
  import opened Common

  /** One instruction; `length` bytes starting at `offset` of the named area. */
  datatype Op =
    | Source(offset: nat, length: nat)
    | Target(offset: nat, length: nat)
    | New(offset: nat, length: nat)

  datatype Window = Window(
    sviewOffset: nat,
    sviewLen: nat,
    tviewLen: nat,
    srcOps: nat,
    ops: seq<Op>,
    newData: seq<byte>)

  // ---------------------------------------------------------------- validity

  /** The range rule of one instruction when `pos` bytes of the target view exist already. */
  predicate OpValid(op: Op, pos: nat, sviewLen: nat, newLen: nat) {
    match op
    case Source(o, l) => o < o + l <= sviewLen
    case Target(o, _) => o < pos
    case New(o, l) => o < o + l <= newLen
  }

  /** Number of target bytes the instructions produce. */
  function TargetLen(ops: seq<Op>): nat {
    if ops == [] then 0 else TargetLen(Init(ops)) + Last(ops).length
  }

  predicate OpsValid(ops: seq<Op>, sviewLen: nat, newLen: nat) {
    ops != [] ==>
      && OpsValid(Init(ops), sviewLen, newLen)
      && OpValid(Last(ops), TargetLen(Init(ops)), sviewLen, newLen)
  }

  /** Where the most recent use of new data ends. */
  function NewEnd(ops: seq<Op>): nat {
    if ops == [] then 0
    else if Last(ops).New? then Last(ops).offset + Last(ops).length
    else NewEnd(Init(ops))
  }

  /** New data is used in ascending order and never twice. */
  predicate NewAscending(ops: seq<Op>) {
    ops != [] ==>
      && NewAscending(Init(ops))
      && (Last(ops).New? ==> NewEnd(Init(ops)) <= Last(ops).offset)
  }

  function CountSource(ops: seq<Op>): nat {
    if ops == [] then 0
    else CountSource(Init(ops)) + if Last(ops).Source? then 1 else 0
  }

  predicate ValidWindow(w: Window) {
    && OpsValid(w.ops, w.sviewLen, |w.newData|)
    && NewAscending(w.ops)
    && TargetLen(w.ops) == w.tviewLen
    && CountSource(w.ops) == w.srcOps
  }

  // ----------------------------------------------------------------- meaning

  /** Appends `length` bytes one at a time, reading from `offset` of the growing text. */
  function CopyWithin(t: seq<byte>, offset: nat, length: nat): (r: seq<byte>)
    requires offset < |t|
    ensures |r| == |t| + length
    ensures r[..|t|] == t
    decreases length
  {
    if length == 0 then t else
      var r := CopyWithin(t + [t[offset]], offset + 1, length - 1);
      assert r[..|t|] == r[..|t| + 1][..|t|];
      r
  }

  /** The target view after one more instruction. */
  function Execute(op: Op, sview: seq<byte>, newData: seq<byte>, t: seq<byte>): (r: seq<byte>)
    requires OpValid(op, |t|, |sview|, |newData|)
    ensures |r| == |t| + op.length && r[..|t|] == t
  {
    match op
    case Source(o, l) => t + sview[o..o + l]
    case Target(o, l) => CopyWithin(t, o, l)
    case New(o, l) => t + newData[o..o + l]
  }

  /** Byte by byte: each new byte is the one at the same place of the area that is named. */
  lemma {:induction false} ExecuteBytes(op: Op, sview: seq<byte>, newData: seq<byte>, t: seq<byte>, i: nat)
    requires OpValid(op, |t|, |sview|, |newData|) && i < op.length
    ensures var r := Execute(op, sview, newData, t);
            r[|t| + i] == match op
              case Source(offset, _) => sview[offset + i]
              case Target(offset, _) => r[offset + i]
              case New(offset, _) => newData[offset + i]
  {
    match op
    case Source(_, _) =>
    case Target(offset, length) => CopyRecurrence(t, offset, length, i);
    case New(_, _) =>
  }

  /** What ranges an instruction may name. */
  lemma RangesAllowed(op: Op, pos: nat, sviewLen: nat, newLen: nat)
    ensures OpValid(op, pos, sviewLen, newLen) <==> match op
              case Source(offset, length) => length > 0 && offset + length <= sviewLen
              case Target(offset, _) => offset < pos
              case New(offset, length) => length > 0 && offset + length <= newLen
  {
  }

  /** The target view that the instructions assemble. */
  function Run(ops: seq<Op>, sview: seq<byte>, newData: seq<byte>): (r: seq<byte>)
    requires OpsValid(ops, |sview|, |newData|)
    ensures |r| == TargetLen(ops)
  {
    if ops == [] then [] else Execute(Last(ops), sview, newData, Run(Init(ops), sview, newData))
  }

  function Apply(w: Window, sview: seq<byte>): (r: seq<byte>)
    requires ValidWindow(w) && |sview| == w.sviewLen
    ensures |r| == w.tviewLen
  {
    Run(w.ops, sview, w.newData)
  }

  // ------------------------------------------------- overlapping target copy

  /** The remainder of `i` by `m`, by repeated subtraction. */
  function Wrap(i: nat, m: nat): (r: nat)
    requires m > 0
    ensures r < m && (i < m ==> r == i)
  {
    if i < m then i else Wrap(i - m, m)
  }

  lemma {:induction false} WrapIsRemainder(i: nat, m: nat)
    requires m > 0
    ensures Wrap(i, m) == i % m
  {
    if i >= m {
      WrapIsRemainder(i - m, m);
      RemainderUnique(i, m, (i - m) / m + 1, (i - m) % m);
    }
  }

  lemma RemainderUnique(i: nat, m: nat, q: nat, r: nat)
    requires r < m && i == q * m + r
    ensures i % m == r
  {
    var d := i / m - q;
    assert d * m == r - i % m;
    MultipleBounds(d, m);
  }

  lemma MultipleBounds(d: int, m: int)
    requires m > 0
    ensures d >= 1 ==> m <= d * m
    ensures d <= -1 ==> d * m <= 0 - m
  {
    if d >= 1 {
      assert d * m == (d - 1) * m + m;
    } else if d <= -1 {
      assert d * m == (d + 1) * m - m;
    }
  }

  lemma {:induction false} WrapSum(f: nat, i: nat, m: nat)
    requires m > 0
    ensures Wrap(f + Wrap(i, m), m) == Wrap(f + i, m)
    ensures Wrap(f + m, m) == Wrap(f, m)
  {
    if i >= m {
      WrapSum(f, i - m, m);
    }
  }

  /** Every copied byte is the byte one pattern length before it. */
  lemma {:induction false} CopyRecurrence(t: seq<byte>, offset: nat, length: nat, i: nat)
    requires offset < |t| && i < length
    ensures CopyWithin(t, offset, length)[|t| + i] == CopyWithin(t, offset, length)[offset + i]
    decreases length
  {
    var t' := t + [t[offset]];
    var r := CopyWithin(t', offset + 1, length - 1);
    if i == 0 {
      assert r[|t|] == r[..|t'|][|t|] == t'[|t|];
      assert r[offset] == r[..|t'|][offset];
    } else {
      CopyRecurrence(t', offset + 1, length - 1, i - 1);
    }
  }

  lemma {:induction false} CopyWraps(t: seq<byte>, offset: nat, length: nat, i: nat)
    requires offset < |t| && i < length
    ensures CopyWithin(t, offset, length)[|t| + i] == t[offset + Wrap(i, |t| - offset)]
  {
    CopyRecurrence(t, offset, length, i);
    if i < |t| - offset {
      assert CopyWithin(t, offset, length)[..|t|][offset + i] == t[offset + i];
    } else {
      CopyWraps(t, offset, length, i - (|t| - offset));
    }
  }

  /** The byte-at-a-time copy repeats the bytes between `offset` and the old end. */
  lemma {:induction false} CopyIsPeriodic(t: seq<byte>, offset: nat, length: nat, i: nat)
    requires offset < |t| && i < length
    ensures CopyWithin(t, offset, length)[|t| + i] == t[offset + i % (|t| - offset)]
  {
    CopyWraps(t, offset, length, i);
    WrapIsRemainder(i, |t| - offset);
  }

  // ------------------------------------------------------------ independence

  /** Instructions never look past the new data they were checked against. */
  lemma {:induction false} RunMoreNewData(ops: seq<Op>, sview: seq<byte>, newData: seq<byte>, more: seq<byte>)
    requires OpsValid(ops, |sview|, |newData|)
    ensures OpsValid(ops, |sview|, |newData + more|)
    ensures Run(ops, sview, newData + more) == Run(ops, sview, newData)
  {
    if ops != [] {
      RunMoreNewData(Init(ops), sview, newData, more);
      if Last(ops).New? {
        var o, l := Last(ops).offset, Last(ops).length;
        assert (newData + more)[o..o + l] == newData[o..o + l];
      }
    }
  }

  /** With no source instruction the source view does not matter, not even its length. */
  lemma {:induction false} SourceFree(ops: seq<Op>, sview: seq<byte>, other: seq<byte>, newData: seq<byte>)
    requires OpsValid(ops, |sview|, |newData|)
    requires CountSource(ops) == 0
    ensures OpsValid(ops, |other|, |newData|)
    ensures Run(ops, other, newData) == Run(ops, sview, newData)
  {
    if ops != [] {
      SourceFree(Init(ops), sview, other, newData);
    }
  }

  /** What an earlier instruction produced is still there at the end. */
  lemma {:induction false} RunPrefix(ops: seq<Op>, k: nat, sview: seq<byte>, newData: seq<byte>)
    requires k <= |ops| && OpsValid(ops, |sview|, |newData|)
    ensures OpsValid(ops[..k], |sview|, |newData|)
    ensures TargetLen(ops[..k]) <= TargetLen(ops)
    ensures Run(ops, sview, newData)[..TargetLen(ops[..k])] == Run(ops[..k], sview, newData)
  {
    if k == |ops| {
      assert ops[..k] == ops;
    } else {
      RunPrefix(Init(ops), k, sview, newData);
      assert Init(ops)[..k] == ops[..k];
      var before, after := Run(Init(ops), sview, newData), Run(ops, sview, newData);
      assert after[..|before|] == before;
      assert after[..TargetLen(ops[..k])] == after[..|before|][..TargetLen(ops[..k])];
    }
  }
}
