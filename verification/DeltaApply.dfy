/** Applying windows: the in-memory instruction loop, and the handler fed window by window. */
module DeltaApply {
  import opened Common
  import opened TextDelta

  // ------------------------------------------------------------- in memory

  /** After text `t` the bytes from `offset` on are repeated, up to `done` bytes of them. */
  ghost predicate Patterned(s: seq<byte>, t: seq<byte>, offset: nat, done: nat)
    requires offset < |t|
  {
    && |t| + done <= |s| && s[..|t|] == t
    && forall i :: |t| <= i < |t| + done ==> s[i] == t[offset + Wrap(i - |t|, |t| - offset)]
  }

  /**
   * Copies `len` bytes from `offset` to `pos` within one buffer, a pattern length at a time.
   * The blocks never overlap, yet the outcome is that of copying byte by byte.
   */
  method PatterningCopy(buf: array<byte>, offset: nat, pos: nat, len: nat)
    requires offset < pos && pos + len <= buf.Length
    modifies buf
    ensures buf[..pos + len] == CopyWithin(old(buf[..pos]), offset, len)
    ensures buf[pos + len..] == old(buf[pos + len..])
  {
    hide CopyWithin, Patterned;
    var overlap := pos - offset;
    ghost var t := buf[..pos];
    NothingRepeated(buf[..], t, offset);
    var done := 0;
    while len - done > overlap
      invariant done <= len
      invariant done > 0 ==> Wrap(done, overlap) == 0
      invariant Patterned(buf[..], t, offset, done) && buf[pos + len..] == old(buf[pos + len..])
      decreases len - done
    {
      CopyBlock(buf, offset, pos, done, overlap, len, t);
      WrapSum(done, overlap, overlap);
      done := done + overlap;
    }
    CopyBlock(buf, offset, pos, done, len - done, len, t);
    RepeatedPattern(t, buf[..], offset, len);
  }

  lemma NothingRepeated(s: seq<byte>, t: seq<byte>, offset: nat)
    requires offset < |t| <= |s| && s[..|t|] == t
    ensures Patterned(s, t, offset, 0)
  {
  }

  lemma {:induction false} RepeatedPattern(t: seq<byte>, s: seq<byte>, offset: nat, len: nat)
    requires offset < |t| && Patterned(s, t, offset, len)
    ensures s[..|t| + len] == CopyWithin(t, offset, len)
  {
    var r := CopyWithin(t, offset, len);
    forall i | |t| <= i < |t| + len
      ensures s[i] == r[i]
    {
      CopyWraps(t, offset, len, i - |t|);
    }
    assert s[..|t| + len] == t + s[|t|..|t| + len] && r == t + r[|t|..];
  }

  /** One block of PatterningCopy: the next `count` bytes, read from the pattern itself. */
  method CopyBlock(buf: array<byte>, offset: nat, pos: nat, done: nat, count: nat, len: nat, ghost t: seq<byte>)
    requires offset < pos && done + count <= len && pos + len <= buf.Length
    requires count <= pos - offset && pos == |t|
    requires done > 0 ==> Wrap(done, pos - offset) == 0
    requires Patterned(buf[..], t, offset, done)
    modifies buf
    ensures Patterned(buf[..], t, offset, done + count) && buf[pos + len..] == old(buf[pos + len..])
  {
    ghost var tail := buf[pos + len..];
    for k := 0 to count
      invariant Patterned(buf[..], t, offset, done + k) && buf[pos + len..] == tail
    {
      assert buf[..][offset + k] == t[offset + k];
      WrapSum(k, done, pos - offset);
      buf[pos + done + k] := buf[offset + k];
    }
  }

  method CopyIn(buf: array<byte>, pos: nat, data: seq<byte>, from: nat, len: nat)
    requires pos + len <= buf.Length && from + len <= |data|
    modifies buf
    ensures buf[..pos + len] == old(buf[..pos]) + data[from..from + len]
    ensures buf[pos + len..] == old(buf[pos + len..])
  {
    ghost var t, tail := buf[..pos], buf[pos + len..];
    for k := 0 to len
      invariant buf[..pos + k] == t + data[from..from + k]
      invariant buf[pos + len..] == tail
    {
      buf[pos + k] := data[from + k];
      assert buf[..pos + k + 1] == buf[..pos + k] + [data[from + k]];
    }
  }

  /** One instruction, cut off where the room for `room` bytes ends. */
  method ApplyOp(
      op: Op, sbuf: Option<seq<byte>>, newData: seq<byte>, tbuf: array<byte>, tpos: nat, room: nat,
      ghost sview: seq<byte>)
    returns (len: nat)
    requires tpos + room <= tbuf.Length
    requires sbuf.Some? ==> sbuf.value == sview
    requires op.Source? ==> sbuf.Some?
    requires OpValid(op, tpos, |sview|, |newData|)
    modifies tbuf
    ensures len == Min(op.length, room)
    ensures tbuf[..tpos + len] == Execute(op, sview, newData, old(tbuf[..tpos]))[..tpos + len]
    ensures tbuf[tpos + len..] == old(tbuf[tpos + len..])
  {
    hide CopyWithin;
    len := Min(op.length, room);
    match op {
      case Source(offset, _) =>
        PlainShorter(tbuf[..tpos], sview, offset, len, op.length);
        CopyIn(tbuf, tpos, sbuf.value, offset, len);
      case Target(offset, _) =>
        CopyShorter(tbuf[..tpos], offset, len, op.length);
        PatterningCopy(tbuf, offset, tpos, len);
      case New(offset, _) =>
        PlainShorter(tbuf[..tpos], newData, offset, len, op.length);
        CopyIn(tbuf, tpos, newData, offset, len);
    }
  }

  /** Instruction number `i` extends the target view the way the whole run goes on. */
  lemma {:induction false} RunStep(ops: seq<Op>, i: nat, sview: seq<byte>, newData: seq<byte>)
    requires i < |ops| && OpsValid(ops, |sview|, |newData|)
    ensures OpsValid(ops[..i], |sview|, |newData|)
    ensures TargetLen(ops[..i + 1]) == TargetLen(ops[..i]) + ops[i].length <= TargetLen(ops)
    ensures OpValid(ops[i], TargetLen(ops[..i]), |sview|, |newData|)
    ensures var t := Run(ops, sview, newData);
      Execute(ops[i], sview, newData, t[..TargetLen(ops[..i])]) == t[..TargetLen(ops[..i + 1])]
  {
    RunPrefix(ops, i, sview, newData);
    RunPrefix(ops, i + 1, sview, newData);
    assert Init(ops[..i + 1]) == ops[..i] && Last(ops[..i + 1]) == ops[i];
  }

  /**
   * Fills `tbuf` from the instructions. With room for `tlen` bytes, the first `tlen` bytes
   * of the target view are written and nothing else; a longer buffer is left alone past the
   * end of the view. The source buffer may be absent when no instruction reads it.
   */
  method ApplyInstructions(w: Window, sbuf: Option<seq<byte>>, tbuf: array<byte>, tlen: nat) returns (written: nat)
    requires ValidWindow(w)
    requires sbuf.None? ==> w.srcOps == 0
    requires sbuf.Some? ==> |sbuf.value| == w.sviewLen
    requires tlen <= tbuf.Length
    modifies tbuf
    ensures written == Min(tlen, w.tviewLen)
    ensures forall sview :: |sview| == w.sviewLen && (sbuf.Some? ==> sview == sbuf.value) ==>
              tbuf[..written] == Apply(w, sview)[..written]
    ensures tbuf[written..] == old(tbuf[written..])
  {
    hide Run, CountSource, OpsValid, TargetLen, ValidWindow, Apply;
    WindowFacts(w);
    ghost var sview := if sbuf.Some? then sbuf.value else seq(w.sviewLen, _ => 0 as byte);
    forall i | 0 <= i < |w.ops| && w.ops[i].Source?
      ensures sbuf.Some?
    {
      SourceOpCounted(w.ops, i);
    }
    written := ApplyOps(w.ops, sbuf, w.newData, tbuf, tlen, sview);
    forall s | |s| == w.sviewLen && (sbuf.Some? ==> s == sbuf.value)
      ensures tbuf[..written] == Apply(w, s)[..written]
    {
      if sbuf.None? {
        SourceFree(w.ops, sview, s, w.newData);
      }
      ApplyIsRun(w, s);
    }
  }

  /** The loop over the instructions. */
  method ApplyOps(
      ops: seq<Op>, sbuf: Option<seq<byte>>, newData: seq<byte>, tbuf: array<byte>, tlen: nat, ghost sview: seq<byte>)
    returns (written: nat)
    requires OpsValid(ops, |sview|, |newData|) && tlen <= tbuf.Length
    requires sbuf.Some? ==> sbuf.value == sview
    requires sbuf.None? ==> forall i :: 0 <= i < |ops| ==> !ops[i].Source?
    modifies tbuf
    ensures written == Min(tlen, TargetLen(ops))
    ensures tbuf[..written] == Run(ops, sview, newData)[..written]
    ensures tbuf[written..] == old(tbuf[written..])
  {
    hide OpsValid, TargetLen, Run, OpValid, Execute;
    ghost var t, first := Run(ops, sview, newData), tbuf[..];
    Boundaries(ops);
    var tpos, i := 0, 0;
    while i < |ops| && tpos < tlen
      invariant i <= |ops| && TargetLen(ops[..i]) <= TargetLen(ops)
      invariant tpos == Min(tlen, TargetLen(ops[..i]))
      invariant tbuf[..tpos] == t[..tpos]
      invariant tbuf[tpos..] == first[tpos..]
      decreases |ops| - i
    {
      RunStep(ops, i, sview, newData);
      ghost var end := TargetLen(ops[..i + 1]);
      ghost var before := tbuf[..];
      var len := ApplyOp(ops[i], sbuf, newData, tbuf, tpos, tlen - tpos, sview);
      Shorter(t, end, tpos + len);
      SameTail(first, before, tbuf[..], tpos, len);
      tpos := tpos + len;
      i := i + 1;
    }
    written := tpos;
    if i < |ops| {
      RunStep(ops, i, sview, newData);
    }
  }

  lemma WindowFacts(w: Window)
    requires ValidWindow(w)
    ensures OpsValid(w.ops, w.sviewLen, |w.newData|)
    ensures TargetLen(w.ops) == w.tviewLen && CountSource(w.ops) == w.srcOps
  {
  }

  lemma {:induction false} ApplyIsRun(w: Window, s: seq<byte>)
    requires ValidWindow(w) && |s| == w.sviewLen
    ensures Apply(w, s) == Run(w.ops, s, w.newData)
  {
  }

  lemma Shorter(t: seq<byte>, long: nat, short: nat)
    requires short <= long <= |t|
    ensures t[..long][..short] == t[..short]
  {
  }

  lemma SameTail(first: seq<byte>, before: seq<byte>, after: seq<byte>, pos: nat, len: nat)
    requires |first| == |before| == |after| && pos + len <= |first|
    requires before[pos..] == first[pos..] && after[pos + len..] == before[pos + len..]
    ensures after[pos + len..] == first[pos + len..]
  {
    assert before[pos + len..] == before[pos..][len..];
    assert first[pos + len..] == first[pos..][len..];
  }

  lemma Boundaries(ops: seq<Op>)
    ensures ops[..0] == [] && TargetLen(ops[..0]) == 0 && ops[..|ops|] == ops
  {
  }

  lemma {:induction false} SourceOpCounted(ops: seq<Op>, i: nat)
    requires i < |ops| && ops[i].Source?
    ensures CountSource(ops) > 0
  {
    if i < |ops| - 1 {
      SourceOpCounted(Init(ops), i);
    }
  }

  lemma PlainShorter(t: seq<byte>, from: seq<byte>, offset: nat, short: nat, long: nat)
    requires short <= long && offset + long <= |from|
    ensures t + from[offset..offset + short] == (t + from[offset..offset + long])[..|t| + short]
  {
  }

  lemma {:induction false} CopyShorter(t: seq<byte>, offset: nat, short: nat, long: nat)
    requires offset < |t| && short <= long
    ensures CopyWithin(t, offset, short) == CopyWithin(t, offset, long)[..|t| + short]
    decreases short
  {
    if short > 0 {
      CopyShorter(t + [t[offset]], offset + 1, short - 1, long - 1);
    }
  }
}
