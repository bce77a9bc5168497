/** Window sequences: generating them, and applying them to a source that is read only once. */
module DeltaStream {
  import opened Common
  import opened TextDelta
  import opened Compose

  // ----------------------------------------------------- window sequences

  /** The view that windows ws[..n] leave behind; there is none before the first window. */
  function ViewAfter(ws: seq<Window>, n: nat): (nat, nat)
    requires n <= |ws|
  {
    if n == 0 then (0, 0) else (ws[n - 1].sviewOffset, ws[n - 1].sviewOffset + ws[n - 1].sviewLen)
  }

  /** Neither end of the source view ever moves left. */
  predicate SlidesForward(ws: seq<Window>) {
    forall i :: 0 <= i < |ws| ==> Follows(ws[i], ViewAfter(ws, i).0, ViewAfter(ws, i).1)
  }

  predicate Follows(w: Window, lo: nat, hi: nat) {
    lo <= w.sviewOffset && hi <= w.sviewOffset + w.sviewLen
  }

  predicate InSource(w: Window, sourceLen: nat) {
    w.sviewOffset + w.sviewLen <= sourceLen
  }

  predicate AllValid(ws: seq<Window>) {
    forall i :: 0 <= i < |ws| ==> ValidWindow(ws[i])
  }

  predicate AllInSource(ws: seq<Window>, sourceLen: nat) {
    forall i :: 0 <= i < |ws| ==> InSource(ws[i], sourceLen)
  }

  function View(w: Window, source: seq<byte>): seq<byte>
    requires InSource(w, |source|)
  {
    source[w.sviewOffset..w.sviewOffset + w.sviewLen]
  }

  /** The rule about any two neighbours; before the first window there is nothing to move back from. */
  lemma SlidesForwardMeans(ws: seq<Window>)
    ensures SlidesForward(ws) <==>
      forall i :: 0 < i < |ws| ==>
        && ws[i - 1].sviewOffset <= ws[i].sviewOffset
        && ws[i - 1].sviewOffset + ws[i - 1].sviewLen <= ws[i].sviewOffset + ws[i].sviewLen
  {
    forall i | 0 < i < |ws|
      ensures ViewAfter(ws, i) == (ws[i - 1].sviewOffset, ws[i - 1].sviewOffset + ws[i - 1].sviewLen)
    {
    }
  }

  /** The target string that a delta describes, with random access to the source. */
  function ApplyAll(ws: seq<Window>, source: seq<byte>): seq<byte>
    requires AllValid(ws) && AllInSource(ws, |source|)
  {
    if ws == [] then [] else ApplyAll(Init(ws), source) + Apply(Last(ws), View(Last(ws), source))
  }

  lemma {:induction false} NothingApplied(source: seq<byte>)
    ensures ApplyAll([], source) == []
  {
  }

  lemma {:induction false} ApplyOneMore(ws: seq<Window>, w: Window, source: seq<byte>)
    requires AllValid(ws) && AllInSource(ws, |source|)
    requires ValidWindow(w) && InSource(w, |source|)
    ensures AllValid(ws + [w]) && AllInSource(ws + [w], |source|)
    ensures ApplyAll(ws + [w], source) == ApplyAll(ws, source) + Apply(w, View(w, source))
    ensures SlidesForward(ws + [w]) <==>
      SlidesForward(ws) && Follows(w, ViewAfter(ws, |ws|).0, ViewAfter(ws, |ws|).1)
  {
    hide ValidWindow;
    var all := ws + [w];
    assert Init(all) == ws;
    assert forall i :: 0 <= i <= |ws| ==> ViewAfter(all, i) == ViewAfter(ws, i);
    assert forall i :: 0 <= i < |ws| ==> all[i] == ws[i];
    assert all[|ws|] == w;
  }

  /** Where the target view of window `n` begins. */
  function TargetStart(ws: seq<Window>, n: nat): nat
    requires n <= |ws|
  {
    if n == 0 then 0 else TargetStart(ws, n - 1) + ws[n - 1].tviewLen
  }

  /** Each window describes its own stretch of the target, from its own stretch of the source. */
  lemma {:induction false} WindowAt(ws: seq<Window>, source: seq<byte>, n: nat)
    requires AllValid(ws) && AllInSource(ws, |source|) && n < |ws|
    ensures var w, start := ws[n], TargetStart(ws, n);
            && |ApplyAll(ws, source)| == TargetStart(ws, |ws|)
            && start + w.tviewLen <= |ApplyAll(ws, source)|
            && ApplyAll(ws, source)[start..start + w.tviewLen]
               == Run(w.ops, source[w.sviewOffset..w.sviewOffset + w.sviewLen], w.newData)
    decreases |ws|
  {
    hide ValidWindow, Run, Apply, TargetStart, ApplyAll;
    LengthOfAll(ws, source);
    StretchOf(ws, source, n);
    ApplyIsRun(ws[n], View(ws[n], source));
  }

  lemma {:induction false} StretchOf(ws: seq<Window>, source: seq<byte>, n: nat)
    requires AllValid(ws) && AllInSource(ws, |source|) && n < |ws|
    ensures var w, start := ws[n], TargetStart(ws, n);
            && start + w.tviewLen <= |ApplyAll(ws, source)|
            && ApplyAll(ws, source)[start..start + w.tviewLen] == Apply(w, View(w, source))
    decreases |ws|
  {
    hide ValidWindow, Apply, TargetStart;
    var before, last := Init(ws), Last(ws);
    StartsSame(ws, n);
    LengthOfAll(before, source);
    var a, b := ApplyAll(before, source), Apply(last, View(last, source));
    if n < |before| {
      StretchOf(before, source, n);
      assert before[n] == ws[n];
      FirstStretch(a, b, TargetStart(ws, n), TargetStart(ws, n) + ws[n].tviewLen);
    } else {
      SecondStretch(a, b);
    }
  }

  lemma FirstStretch(a: seq<byte>, b: seq<byte>, from: nat, to: nat)
    requires from <= to <= |a|
    ensures (a + b)[from..to] == a[from..to]
  {
  }

  lemma SecondStretch(a: seq<byte>, b: seq<byte>)
    ensures (a + b)[|a|..|a| + |b|] == b
  {
  }

  lemma {:induction false} ApplyIsRun(w: Window, sview: seq<byte>)
    requires ValidWindow(w) && |sview| == w.sviewLen
    ensures OpsValid(w.ops, w.sviewLen, |w.newData|) && Apply(w, sview) == Run(w.ops, sview, w.newData)
  {
  }

  lemma {:induction false} StartsSame(ws: seq<Window>, n: nat)
    requires ws != [] && n <= |ws| - 1
    ensures TargetStart(Init(ws), n) == TargetStart(ws, n)
  {
    if n > 0 {
      StartsSame(ws, n - 1);
    }
  }

  lemma {:induction false} LengthOfAll(ws: seq<Window>, source: seq<byte>)
    requires AllValid(ws) && AllInSource(ws, |source|)
    ensures |ApplyAll(ws, source)| == TargetStart(ws, |ws|)
  {
    hide ValidWindow;
    if ws != [] {
      LengthOfAll(Init(ws), source);
      StartsSame(ws, |ws| - 1);
    }
  }

  lemma OneMoreFits(ws: seq<Window>, n: nat, source: seq<byte>)
    requires AllValid(ws) && n < |ws| && AllInSource(ws[..n], |source|)
    ensures Follows(ws[n], ViewAfter(ws, n).0, ViewAfter(ws, n).1) <==>
              ViewAfter(ws, n).0 <= ws[n].sviewOffset
              && ViewAfter(ws, n).1 <= ws[n].sviewOffset + ws[n].sviewLen
    ensures InSource(ws[n], |source|) ==>
              && AllInSource(ws[..n + 1], |source|) && AllValid(ws[..n + 1])
              && ApplyAll(ws[..n + 1], source) == ApplyAll(ws[..n], source) + Apply(ws[n], View(ws[n], source))
    ensures SlidesForward(ws[..n + 1]) <==>
              SlidesForward(ws[..n]) && Follows(ws[n], ViewAfter(ws, n).0, ViewAfter(ws, n).1)
    ensures SlidesForward(ws) ==> Follows(ws[n], ViewAfter(ws, n).0, ViewAfter(ws, n).1)
    ensures AllInSource(ws, |source|) ==> InSource(ws[n], |source|)
  {
    hide ValidWindow, Apply, ApplyAll, Follows, SlidesForward;
    assert ws[..n + 1] == ws[..n] + [ws[n]];
    FollowsMeans(ws[n], ViewAfter(ws, n).0, ViewAfter(ws, n).1);
    SlidesOneMore(ws, n);
    if InSource(ws[n], |source|) {
      ApplyOneMore(ws[..n], ws[n], source);
    }
  }

  lemma SlidesOneMore(ws: seq<Window>, n: nat)
    requires n < |ws|
    ensures SlidesForward(ws[..n + 1]) <==>
              SlidesForward(ws[..n]) && Follows(ws[n], ViewAfter(ws, n).0, ViewAfter(ws, n).1)
    ensures SlidesForward(ws) ==> Follows(ws[n], ViewAfter(ws, n).0, ViewAfter(ws, n).1)
  {
    hide Follows;
    var a, b := ws[..n], ws[..n + 1];
    assert forall i :: 0 <= i <= n ==> ViewAfter(b, i) == ViewAfter(ws, i);
    assert forall i :: 0 <= i <= n ==> ViewAfter(a, i) == ViewAfter(ws, i);
    assert forall i :: 0 <= i < n ==> a[i] == b[i];
    assert b[n] == ws[n];
  }

  lemma FollowsMeans(w: Window, lo: nat, hi: nat)
    ensures Follows(w, lo, hi) <==> lo <= w.sviewOffset && hi <= w.sviewOffset + w.sviewLen
  {
  }

  lemma NothingSlides(sourceLen: nat)
    ensures SlidesForward([]) && AllInSource([], sourceLen)
  {
  }

  // --------------------------------------------------------- the handler

  /** A readable stream: bytes come out once, in order. */
  class ReadStream {
    const data: seq<byte>
    var pos: nat

    constructor (data: seq<byte>)
      ensures this.data == data && pos == 0
    {
      this.data := data;
      pos := 0;
    }

    /** Reads `len` bytes, or as many as are left. */
    method Read(len: nat) returns (bytes: seq<byte>)
      requires pos <= |data|
      modifies this
      ensures pos == Min(old(pos) + len, |data|)
      ensures bytes == data[old(pos)..pos]
    {
      var end := Min(pos + len, |data|);
      bytes := data[pos..end];
      pos := end;
    }
  }

  datatype Outcome = Applied | BackwardView | SourceEnded

  /** The window handler: it keeps the current source view only, and never rewinds the source. */
  class DeltaApplier {
    const source: ReadStream
    var sbuf: seq<byte>
    var sbufOffset: nat
    var target: seq<byte>
    var closed: bool

    ghost predicate Valid()
      reads this, source
    {
      && source.pos <= |source.data|
      && sbufOffset + |sbuf| == source.pos
      && sbuf == source.data[sbufOffset..source.pos]
    }

    constructor (source: ReadStream)
      requires source.pos == 0
      ensures this.source == source
      ensures Valid() && sbufOffset == 0 && sbuf == [] && target == [] && !closed
    {
      this.source := source;
      sbuf, sbufOffset, target, closed := [], 0, [], false;
    }

    /** Applies one window, or reports why it cannot be applied; then nothing is written. */
    method HandleWindow(w: Window) returns (outcome: Outcome)
      requires Valid() && !closed && ValidWindow(w)
      modifies this, source
      ensures outcome.BackwardView? <==>
                w.sviewOffset < old(sbufOffset) || w.sviewOffset + w.sviewLen < old(sbufOffset) + |old(sbuf)|
      ensures outcome.Applied? <==> !outcome.BackwardView? && w.sviewOffset + w.sviewLen <= |source.data|
      ensures !closed
      ensures outcome.Applied? ==>
        && Valid()
        && sbufOffset == w.sviewOffset && |sbuf| == w.sviewLen
        && target == old(target) + Apply(w, View(w, source.data))
      ensures !outcome.Applied? ==>
        target == old(target) && sbuf == old(sbuf) && sbufOffset == old(sbufOffset)
      ensures outcome.BackwardView? ==> Valid() && source.pos == old(source.pos)
      ensures outcome.SourceEnded? ==> source.pos == |source.data|
    {
      hide Apply;
      if w.sviewOffset < sbufOffset || w.sviewOffset + w.sviewLen < sbufOffset + |sbuf| {
        return BackwardView;
      }
      var kept: seq<byte>;
      if w.sviewOffset <= sbufOffset + |sbuf| {
        // The views overlap or touch: keep the common part.
        kept := sbuf[w.sviewOffset - sbufOffset..];
      } else {
        // The view jumps ahead: discard what lies between.
        var skipped := source.Read(w.sviewOffset - (sbufOffset + |sbuf|));
        if source.pos < w.sviewOffset {
          return SourceEnded;
        }
        kept := [];
      }
      var more := source.Read(w.sviewLen - |kept|);
      if |more| < w.sviewLen - |kept| {
        return SourceEnded;
      }
      sbuf := kept + more;
      sbufOffset := w.sviewOffset;
      assert sbuf == View(w, source.data);
      target := target + Apply(w, sbuf);
      return Applied;
    }

    /** The final call, without a window: the target is closed. */
    method Finish()
      requires Valid() && !closed
      modifies this
      ensures closed && target == old(target)
    {
      closed := true;
    }

    /**
     * A whole delta, window by window. Reading the source once and forward gives what random
     * access gives, exactly when the views slide forward within the source; otherwise the
     * windows before the first offending one have been applied.
     */
    method HandleAll(ws: seq<Window>) returns (outcome: Outcome, n: nat)
      requires Valid() && !closed && AllValid(ws)
      requires sbufOffset == 0 && sbuf == [] && target == []
      modifies this, source
      ensures outcome.Applied? <==> SlidesForward(ws) && AllInSource(ws, |source.data|)
      ensures outcome.Applied? ==> closed && target == ApplyAll(ws, source.data)
      ensures !outcome.Applied? ==>
        && !closed && n < |ws|
        && SlidesForward(ws[..n]) && AllInSource(ws[..n], |source.data|)
        && target == ApplyAll(ws[..n], source.data)
        && !(Follows(ws[n], ViewAfter(ws, n).0, ViewAfter(ws, n).1) && InSource(ws[n], |source.data|))
    {
      hide ValidWindow, Apply, ApplyAll, SlidesForward, AllInSource, Follows;
      NothingApplied(source.data);
      NothingSlides(|source.data|);
      n := 0;
      outcome := Applied;
      while n < |ws|
        invariant n <= |ws| && Valid() && !closed
        invariant (sbufOffset, sbufOffset + |sbuf|) == ViewAfter(ws, n)
        invariant SlidesForward(ws[..n]) && AllInSource(ws[..n], |source.data|)
        invariant target == ApplyAll(ws[..n], source.data)
        invariant outcome.Applied?
      {
        outcome := HandleWindow(ws[n]);
        OneMoreFits(ws, n, source.data);
        if !outcome.Applied? {
          return;
        }
        n := n + 1;
      }
      assert ws[..n] == ws;
      Finish();
    }
  }

  // ---------------------------------------------------------- generation

  /** Where a match finder suggests looking; every suggestion is checked. */
  datatype Candidate = NoMatch | InSourceView(offset: nat) | InTargetView(offset: nat)

  /** How far `a` from `i` and `b` from `j` agree. */
  method MatchLength(a: seq<byte>, i: nat, b: seq<byte>, j: nat) returns (len: nat)
    requires i <= |a| && j <= |b|
    ensures i + len <= |a| && j + len <= |b|
    ensures a[i..i + len] == b[j..j + len]
    ensures i + len == |a| || j + len == |b| || a[i + len] != b[j + len]
  {
    len := 0;
    while i + len < |a| && j + len < |b| && a[i + len] == b[j + len]
      invariant i + len <= |a| && j + len <= |b|
      invariant a[i..i + len] == b[j..j + len]
    {
      assert a[i..i + len + 1] == a[i..i + len] + [a[i + len]];
      assert b[j..j + len + 1] == b[j..j + len] + [b[j + len]];
      len := len + 1;
    }
  }

  /** A text that repeats itself is what an overlapping copy makes of its beginning. */
  lemma {:induction false} CopyOfMatch(t: seq<byte>, offset: nat, i: nat, len: nat)
    requires offset < i && i + len <= |t|
    requires t[offset..offset + len] == t[i..i + len]
    ensures CopyWithin(t[..i], offset, len) == t[..i + len]
    decreases len
  {
    if len > 0 {
      assert t[offset] == t[offset..offset + len][0] == t[i];
      assert t[..i] + [t[i]] == t[..i + 1];
      assert t[offset + 1..offset + len] == t[offset..offset + len][1..];
      assert t[i + 1..i + len] == t[i..i + len][1..];
      CopyOfMatch(t, offset + 1, i + 1, len - 1);
    }
  }

  /** Emits the bytes [from, to) of the target view as new data, if there are any. */
  function Flush(b: Build, tview: seq<byte>, from: nat, to: nat): Build
    requires from <= to <= |tview|
  {
    if from == to then b else b.EmitNew(tview[from..to])
  }

  lemma FlushCorrect(b: Build, tview: seq<byte>, from: nat, to: nat, sview: seq<byte>)
    requires from <= to <= |tview|
    requires b.Valid(|sview|) && b.Output(sview) == tview[..from]
    ensures Flush(b, tview, from, to).Valid(|sview|)
    ensures Flush(b, tview, from, to).Output(sview) == tview[..to]
  {
    if from < to {
      EmitNewCorrect(b, tview[from..to], sview);
      assert tview[..from] + tview[from..to] == tview[..to];
    }
  }

  /** Uses a candidate at position `i` if it matches `minMatch` bytes or more. */
  method TryCandidate(
      c: Candidate, sview: seq<byte>, tview: seq<byte>, i: nat, from: nat, minMatch: nat, b: Build)
    returns (r: Build, len: nat)
    requires from <= i < |tview| && minMatch > 0
    requires b.Valid(|sview|) && b.Output(sview) == tview[..from]
    ensures i + len <= |tview|
    ensures len == 0 ==> r == b
    ensures len > 0 ==> r.Valid(|sview|) && r.Output(sview) == tview[..i + len]
  {
    hide OpsValid, Run, CopyWithin;
    r, len := b, 0;
    match c {
      case NoMatch =>
      case InSourceView(o) =>
        if o < |sview| {
          var n := MatchLength(sview, o, tview, i);
          if n >= minMatch {
            var b1 := Flush(b, tview, from, i);
            FlushCorrect(b, tview, from, i, sview);
            EmitCorrect(b1, Source(o, n), sview);
            assert tview[..i] + tview[i..i + n] == tview[..i + n];
            r, len := b1.Emit(Source(o, n)), n;
          }
        }
      case InTargetView(o) =>
        if o < i {
          var n := MatchLength(tview, o, tview, i);
          if n >= minMatch {
            var b1 := Flush(b, tview, from, i);
            FlushCorrect(b, tview, from, i, sview);
            EmitCorrect(b1, Target(o, n), sview);
            CopyOfMatch(tview, o, i, n);
            r, len := b1.Emit(Target(o, n)), n;
          }
        }
    }
  }

  /** One window turning `sview` into `tview`, whatever the match finder suggests. */
  method DeltaWindow(
      sviewOffset: nat, sview: seq<byte>, tview: seq<byte>, find: nat -> Candidate, minMatch: nat)
    returns (w: Window)
    requires minMatch > 0
    ensures ValidWindow(w)
    ensures w.sviewOffset == sviewOffset && w.sviewLen == |sview|
    ensures Apply(w, sview) == tview
  {
    var b := Build([], []);
    var i, from := 0, 0;
    while i < |tview|
      invariant from <= i <= |tview|
      invariant b.Valid(|sview|) && b.Output(sview) == tview[..from]
      decreases |tview| - i
    {
      var r, len := TryCandidate(find(i), sview, tview, i, from, minMatch, b);
      if len > 0 {
        b, i, from := r, i + len, i + len;
      } else {
        i := i + 1;
      }
    }
    FlushCorrect(b, tview, from, |tview|, sview);
    b := Flush(b, tview, from, |tview|);
    assert tview[..|tview|] == tview;
    w := Window(sviewOffset, |sview|, |tview|, CountSource(b.ops), b.ops, b.newData);
  }

  /**
   * Generates a delta from `source` to `target`, `size` bytes of each at a time: the windows
   * are valid, slide forward, and describe exactly `target`.
   */
  method TxdeltaRun(
      source: seq<byte>, target: seq<byte>, size: nat, find: (nat, nat) -> Candidate, minMatch: nat)
    returns (ws: seq<Window>)
    requires size > 0 && minMatch > 0
    ensures AllValid(ws) && AllInSource(ws, |source|) && SlidesForward(ws)
    ensures ApplyAll(ws, source) == target
  {
    hide ValidWindow, Apply, ApplyAll;
    NothingApplied(source);
    ws := [];
    var spos, tpos := 0, 0;
    while tpos < |target|
      invariant spos <= |source| && tpos <= |target|
      invariant AllValid(ws) && AllInSource(ws, |source|) && SlidesForward(ws)
      invariant ViewAfter(ws, |ws|).0 <= ViewAfter(ws, |ws|).1 == spos
      invariant ApplyAll(ws, source) == target[..tpos]
      decreases |target| - tpos
    {
      var send, tend := Min(spos + size, |source|), Min(tpos + size, |target|);
      var n := |ws|;
      var w := DeltaWindow(spos, source[spos..send], target[tpos..tend], (i: nat) => find(n, i), minMatch);
      ApplyOneMore(ws, w, source);
      assert target[..tpos] + target[tpos..tend] == target[..tend];
      ws := ws + [w];
      spos, tpos := send, tend;
    }
    assert target[..tpos] == target;
  }

  /** Sends text against an empty source: new data only, which reproduces the input. */
  method SendContents(contents: seq<byte>, size: nat) returns (ws: seq<Window>)
    requires size > 0
    ensures AllValid(ws) && AllInSource(ws, 0) && SlidesForward(ws)
    ensures forall i :: 0 <= i < |ws| ==> ws[i].srcOps == 0
    ensures ApplyAll(ws, []) == contents
  {
    hide ValidWindow, Apply, ApplyAll;
    NothingApplied([]);
    ws := [];
    var pos := 0;
    while pos < |contents|
      invariant pos <= |contents|
      invariant AllValid(ws) && AllInSource(ws, 0) && SlidesForward(ws)
      invariant forall i :: 0 <= i < |ws| ==> ws[i].srcOps == 0
      invariant ViewAfter(ws, |ws|) == (0, 0)
      invariant ApplyAll(ws, []) == contents[..pos]
      decreases |contents| - pos
    {
      var end := Min(pos + size, |contents|);
      var w := NewDataWindow(contents[pos..end]);
      ApplyOneMore(ws, w, []);
      assert contents[..pos] + contents[pos..end] == contents[..end];
      ws := ws + [w];
      pos := end;
    }
    assert contents[..pos] == contents;
  }

  /** The window that is nothing but new data. */
  function NewDataWindow(data: seq<byte>): (w: Window)
    requires data != []
    ensures ValidWindow(w) && w.sviewOffset == w.sviewLen == w.srcOps == 0
    ensures Apply(w, []) == data
  {
    var b := Build([], []).EmitNew(data);
    EmitNewCorrect(Build([], []), data, []);
    CountEmitted([], New(0, |data|));
    assert TargetLen(b.ops) == |b.Output([])|;
    Window(0, 0, |data|, 0, b.ops, b.newData)
  }

  /** Round trip: what the generator sends, the handler rebuilds, reading the source once. */
  method SendAndRebuild(
      source: seq<byte>, target: seq<byte>, size: nat, find: (nat, nat) -> Candidate, minMatch: nat)
    returns (ws: seq<Window>, applier: DeltaApplier)
    requires size > 0 && minMatch > 0
    ensures AllValid(ws) && AllInSource(ws, |source|) && SlidesForward(ws)
    ensures fresh(applier) && applier.source.data == source
    ensures applier.closed && applier.target == ApplyAll(ws, source) == target
  {
    ws := TxdeltaRun(source, target, size, find, minMatch);
    var stream := new ReadStream(source);
    applier := new DeltaApplier(stream);
    var outcome, n := applier.HandleAll(ws);
  }
}
