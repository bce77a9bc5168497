/**
 * The writable stream that parses svndiff data into windows. The byte layout of one window
 * is a parameter: all that matters here is that a window shows where it ends.
 */
module Svndiff {
  import opened Common
  import opened TextDelta
  import DeltaStream

  /** What a window decoder says about the bytes it is shown. */
  datatype Decoded = NeedMore | Corrupt | Complete(window: Window, used: nat)

  /** A decoder for each format version. */
  type Codec = (byte, seq<byte>) -> Decoded

  /** A complete window is recognised whatever follows it, and so is a corrupt one. */
  ghost predicate SelfDelimiting(codec: Codec) {
    && (forall v :: codec(v, []).NeedMore?)
    && (forall v, x :: codec(v, x).Complete? ==> 0 < codec(v, x).used <= |x|)
    && (forall v, x, y :: codec(v, x).Complete? ==> codec(v, x + y) == codec(v, x))
    && (forall v, x, y :: codec(v, x).Corrupt? ==> codec(v, x + y).Corrupt?)
    && (forall v, x :: codec(v, x).Complete? ==> codec(v, x[..codec(v, x).used]) == codec(v, x))
  }

  lemma DelimitedAt(codec: Codec, v: byte, x: seq<byte>, y: seq<byte>)
    requires SelfDelimiting(codec)
    ensures codec(v, []).NeedMore?
    ensures codec(v, x).Complete? ==>
      && 0 < codec(v, x).used <= |x|
      && codec(v, x + y) == codec(v, x)
      && codec(v, x[..codec(v, x).used]) == codec(v, x)
    ensures codec(v, x).Corrupt? ==> codec(v, x + y).Corrupt?
  {
  }

  /** One codec of the kind required: a length byte, then that much new data. */
  function LengthPrefixed(v: byte, x: seq<byte>): Decoded {
    if x == [] then NeedMore else
      var n := x[0] as int;
      if n == 0 then Corrupt
      else if |x| <= n then NeedMore
      else Complete(DeltaStream.NewDataWindow(x[1..n + 1]), n + 1)
  }

  lemma LengthPrefixedIsSelfDelimiting()
    ensures SelfDelimiting(LengthPrefixed)
  {
    forall v: byte, x: seq<byte>, y: seq<byte> | LengthPrefixed(v, x).Complete?
      ensures LengthPrefixed(v, x + y) == LengthPrefixed(v, x)
    {
      var n := x[0] as int;
      assert (x + y)[1..n + 1] == x[1..n + 1];
    }
    forall v: byte, x: seq<byte> | LengthPrefixed(v, x).Complete?
      ensures LengthPrefixed(v, x[..LengthPrefixed(v, x).used]) == LengthPrefixed(v, x)
    {
      var n := x[0] as int;
      assert x[..n + 1][1..] == x[1..n + 1];
    }
  }

  datatype Error = InvalidHeader | CorruptWindow | BackwardView | UnexpectedEnd

  /** Where the parser stands; `lo` and `hi` bound the source view of the last window. */
  datatype State =
    | InHeader(got: seq<byte>)
    | InWindows(version: byte, pending: seq<byte>, lo: nat, hi: nat)
    | Failed(error: Error)

  datatype Parsed = Parsed(windows: seq<Window>, state: State)

  const MAGIC: seq<byte> := [83, 86, 78] // "SVN"
  const HEADER_LEN := 4

  predicate HeaderOk(h: seq<byte>) {
    |h| == HEADER_LEN && h[..3] == MAGIC && h[3] <= 2
  }

  predicate HeaderSoFarOk(h: seq<byte>) {
    if |h| <= 3 then h <= MAGIC else HeaderOk(h[..HEADER_LEN])
  }

  // ------------------------------------------------ meaning of all the bytes

  function ParseWindows(codec: Codec, v: byte, data: seq<byte>, lo: nat, hi: nat): Parsed
    decreases |data|
  {
    match codec(v, data)
    case NeedMore => Parsed([], InWindows(v, data, lo, hi))
    case Corrupt => Parsed([], Failed(CorruptWindow))
    case Complete(w, used) =>
      if !(0 < used <= |data|) then Parsed([], Failed(CorruptWindow))
      else if !DeltaStream.Follows(w, lo, hi) then Parsed([], Failed(BackwardView))
      else
        var rest := ParseWindows(codec, v, data[used..], w.sviewOffset, w.sviewOffset + w.sviewLen);
        Parsed([w] + rest.windows, rest.state)
  }

  function Parse(codec: Codec, data: seq<byte>): Parsed {
    if !HeaderSoFarOk(data) then Parsed([], Failed(InvalidHeader))
    else if |data| < HEADER_LEN then Parsed([], InHeader(data))
    else ParseWindows(codec, data[3], data[HEADER_LEN..], 0, 0)
  }

  /** Goes on from a state with more bytes. */
  function Resume(codec: Codec, state: State, more: seq<byte>): Parsed {
    match state
    case InHeader(got) => Parse(codec, got + more)
    case InWindows(v, pending, lo, hi) => ParseWindows(codec, v, pending + more, lo, hi)
    case Failed(_) => Parsed([], state)
  }

  lemma {:induction false} ResumeIs(codec: Codec, state: State, more: seq<byte>)
    ensures state.InWindows? ==>
      Resume(codec, state, more) == ParseWindows(codec, state.version, state.pending + more, state.lo, state.hi)
    ensures state.Failed? ==> Resume(codec, state, more) == Parsed([], state)
  {
  }

  /** Splitting the bytes of the windows anywhere changes nothing. */
  lemma {:induction false} ParseWindowsSplit(
      codec: Codec, v: byte, x: seq<byte>, y: seq<byte>, lo: nat, hi: nat)
    requires SelfDelimiting(codec)
    ensures var first := ParseWindows(codec, v, x, lo, hi);
      var second := Resume(codec, first.state, y);
      ParseWindows(codec, v, x + y, lo, hi) == Parsed(first.windows + second.windows, second.state)
    decreases |x|
  {
    hide SelfDelimiting, DeltaStream.Follows, Resume;
    DelimitedAt(codec, v, x, y);
    var all := ParseWindows(codec, v, x + y, lo, hi);
    match codec(v, x)
    case NeedMore =>
      ResumeIs(codec, ParseWindows(codec, v, x, lo, hi).state, y);
      assert [] + all.windows == all.windows;
    case Corrupt =>
      ResumeIs(codec, ParseWindows(codec, v, x, lo, hi).state, y);
    case Complete(w, used) =>
      if DeltaStream.Follows(w, lo, hi) {
        ParseWindowsSplit(codec, v, x[used..], y, w.sviewOffset, w.sviewOffset + w.sviewLen);
        assert (x + y)[used..] == x[used..] + y;
        var rest := ParseWindows(codec, v, x[used..], w.sviewOffset, w.sviewOffset + w.sviewLen);
        var second := Resume(codec, rest.state, y);
        assert [w] + (rest.windows + second.windows) == [w] + rest.windows + second.windows;
      } else {
        ResumeIs(codec, ParseWindows(codec, v, x, lo, hi).state, y);
      }
  }

  /** Chunk independence: parsing in two pieces is parsing the whole. */
  lemma ParseSplit(codec: Codec, x: seq<byte>, y: seq<byte>)
    requires SelfDelimiting(codec)
    ensures var first := Parse(codec, x);
      var second := Resume(codec, first.state, y);
      Parse(codec, x + y) == Parsed(first.windows + second.windows, second.state)
  {
    hide ParseWindows;
    var all := Parse(codec, x + y);
    assert [] + all.windows == all.windows;
    if HeaderSoFarOk(x + y) {
      HeaderPrefix(x, y);
    }
    if HeaderSoFarOk(x) && |x| >= HEADER_LEN {
      assert (x + y)[..HEADER_LEN] == x[..HEADER_LEN];
      assert (x + y)[HEADER_LEN..] == x[HEADER_LEN..] + y;
      ParseWindowsSplit(codec, x[3], x[HEADER_LEN..], y, 0, 0);
    }
  }

  lemma HeaderPrefix(x: seq<byte>, y: seq<byte>)
    requires HeaderSoFarOk(x + y)
    ensures HeaderSoFarOk(x)
  {
    if |x| >= HEADER_LEN {
      assert (x + y)[..HEADER_LEN] == x[..HEADER_LEN];
    } else if |x + y| <= 3 {
      assert x == (x + y)[..|x|] == MAGIC[..|x|];
    } else {
      var all := x + y;
      forall k | 0 <= k < |x|
        ensures x[k] == MAGIC[k]
      {
        assert x[k] == all[k] == all[..HEADER_LEN][..3][k];
      }
      assert x == MAGIC[..|x|];
    }
  }

  // ------------------------------------------------------ complete documents

  function Flatten(parts: seq<seq<byte>>): seq<byte> {
    if parts == [] then [] else parts[0] + Flatten(parts[1..])
  }

  /** `parts` are the encodings of the windows `ws`, one each, and the views slide forward. */
  ghost predicate Encodes(codec: Codec, v: byte, parts: seq<seq<byte>>, ws: seq<Window>, lo: nat, hi: nat) {
    && |parts| == |ws|
    && (ws != [] ==>
          && codec(v, parts[0]) == Complete(ws[0], |parts[0]|)
          && DeltaStream.Follows(ws[0], lo, hi)
          && Encodes(codec, v, parts[1..], ws[1..], ws[0].sviewOffset, ws[0].sviewOffset + ws[0].sviewLen))
  }

  /** A delta that is all there: a header, one or more complete windows, nothing extra. */
  ghost predicate CompleteDelta(codec: Codec, data: seq<byte>, ws: seq<Window>) {
    && |data| >= HEADER_LEN && HeaderOk(data[..HEADER_LEN])
    && ws != []
    && exists parts :: Encodes(codec, data[3], parts, ws, 0, 0) && data[HEADER_LEN..] == Flatten(parts)
  }

  lemma {:induction false} EncodedIsParsed(
      codec: Codec, v: byte, parts: seq<seq<byte>>, ws: seq<Window>, lo: nat, hi: nat)
    requires SelfDelimiting(codec) && Encodes(codec, v, parts, ws, lo, hi)
    ensures var p := ParseWindows(codec, v, Flatten(parts), lo, hi);
      p.windows == ws && p.state.InWindows? && p.state.pending == []
    decreases |parts|
  {
    hide SelfDelimiting;
    DelimitedAt(codec, v, [], []);
    if ws != [] {
      var w, rest := ws[0], Flatten(parts[1..]);
      DelimitedAt(codec, v, parts[0], rest);
      EncodedIsParsed(codec, v, parts[1..], ws[1..], w.sviewOffset, w.sviewOffset + w.sviewLen);
      assert (parts[0] + rest)[|parts[0]|..] == rest;
    }
  }

  lemma {:induction false} ParsedIsEncoded(codec: Codec, v: byte, data: seq<byte>, lo: nat, hi: nat)
    returns (parts: seq<seq<byte>>)
    requires SelfDelimiting(codec)
    requires ParseWindows(codec, v, data, lo, hi).state.InWindows?
    requires ParseWindows(codec, v, data, lo, hi).state.pending == []
    ensures Encodes(codec, v, parts, ParseWindows(codec, v, data, lo, hi).windows, lo, hi)
    ensures data == Flatten(parts)
    decreases |data|
  {
    hide SelfDelimiting;
    DelimitedAt(codec, v, data, []);
    match codec(v, data)
    case NeedMore =>
      parts := [];
    case Complete(w, used) =>
      var rest := ParsedIsEncoded(codec, v, data[used..], w.sviewOffset, w.sviewOffset + w.sviewLen);
      parts := [data[..used]] + rest;
      assert parts[1..] == rest;
      var p := ParseWindows(codec, v, data, lo, hi);
      assert p.windows[1..] == ParseWindows(codec, v, data[used..], w.sviewOffset, w.sviewOffset + w.sviewLen).windows;
      assert data == data[..used] + data[used..];
  }

  /** The parser ends between windows, after at least one, exactly on complete deltas. */
  lemma CompleteIffParsed(codec: Codec, data: seq<byte>, ws: seq<Window>)
    requires SelfDelimiting(codec)
    ensures CompleteDelta(codec, data, ws) <==>
      var p := Parse(codec, data);
      p.windows == ws && ws != [] && p.state.InWindows? && p.state.pending == []
  {
    hide ParseWindows, Encodes;
    var p := Parse(codec, data);
    if CompleteDelta(codec, data, ws) {
      var parts :| Encodes(codec, data[3], parts, ws, 0, 0) && data[HEADER_LEN..] == Flatten(parts);
      EncodedIsParsed(codec, data[3], parts, ws, 0, 0);
    }
    if p.windows == ws && ws != [] && p.state.InWindows? && p.state.pending == [] {
      var parts := ParsedIsEncoded(codec, data[3], data[HEADER_LEN..], 0, 0);
    }
  }

  // -------------------------------------------------- what the bytes have to be

  /** The bytes begin like a delta exactly if they are "SVN" and a version number up to 2, as far as they go. */
  lemma HeaderDecides(codec: Codec, data: seq<byte>)
    ensures Parse(codec, data).state == Failed(InvalidHeader) <==>
      || (|data| > 0 && data[0] != 83) || (|data| > 1 && data[1] != 86) || (|data| > 2 && data[2] != 78)
      || (|data| > 3 && data[3] != 0 && data[3] != 1 && data[3] != 2)
    ensures |data| < 4 || Parse(codec, data).state == Failed(InvalidHeader) ==> Parse(codec, data).windows == []
  {
    hide ParseWindows;
    if |data| <= 3 {
      assert data <= MAGIC <==> forall k :: 0 <= k < |data| ==> data[k] == MAGIC[k];
    } else {
      assert data[..HEADER_LEN][..3] == MAGIC <==> forall k :: 0 <= k < 3 ==> data[k] == MAGIC[k];
      WindowsNotHeader(codec, data[3], data[HEADER_LEN..], 0, 0);
    }
  }

  lemma {:induction false} WindowsNotHeader(codec: Codec, v: byte, data: seq<byte>, lo: nat, hi: nat)
    ensures ParseWindows(codec, v, data, lo, hi).state != Failed(InvalidHeader)
    decreases |data|
  {
    match codec(v, data)
    case NeedMore =>
    case Corrupt =>
    case Complete(w, used) =>
      if 0 < used <= |data| {
        WindowsNotHeader(codec, v, data[used..], w.sviewOffset, w.sviewOffset + w.sviewLen);
      }
  }

  /** Where the source view of the last window begins and ends. */
  function LastView(ws: seq<Window>): (nat, nat) {
    if ws == [] then (0, 0) else (Last(ws).sviewOffset, Last(ws).sviewOffset + Last(ws).sviewLen)
  }

  /** Complete windows, and what is left after them. */
  lemma {:induction false} WindowsAndRest(
      codec: Codec, v: byte, parts: seq<seq<byte>>, ws: seq<Window>, lo: nat, hi: nat, rest: seq<byte>)
    requires SelfDelimiting(codec) && Encodes(codec, v, parts, ws, lo, hi)
    ensures var (lo1, hi1) := if ws == [] then (lo, hi) else LastView(ws);
      var p := ParseWindows(codec, v, rest, lo1, hi1);
      ParseWindows(codec, v, Flatten(parts) + rest, lo, hi) == Parsed(ws + p.windows, p.state)
    decreases |parts|
  {
    hide SelfDelimiting;
    if ws == [] {
      assert Flatten(parts) + rest == rest;
      var p := ParseWindows(codec, v, rest, lo, hi);
      assert [] + p.windows == p.windows;
    } else {
      var w, more := ws[0], Flatten(parts[1..]) + rest;
      DelimitedAt(codec, v, parts[0], more);
      WindowsAndRest(codec, v, parts[1..], ws[1..], w.sviewOffset, w.sviewOffset + w.sviewLen, rest);
      assert Flatten(parts) + rest == parts[0] + more;
      assert (parts[0] + more)[|parts[0]|..] == more;
      assert |ws| > 1 ==> Last(ws[1..]) == Last(ws);
      var (lo1, hi1) := LastView(ws);
      var p := ParseWindows(codec, v, rest, lo1, hi1);
      assert [w] + (ws[1..] + p.windows) == ws + p.windows;
    }
  }

  /** The state after a header, complete windows and something more. */
  lemma {:induction false} DocumentState(codec: Codec, v: byte, parts: seq<seq<byte>>, rest: seq<byte>, ws: seq<Window>)
    requires SelfDelimiting(codec) && Encodes(codec, v, parts, ws, 0, 0)
    requires v == 0 || v == 1 || v == 2
    requires codec(v, rest).Complete? ==>
      var (lo, hi) := LastView(ws);
      codec(v, rest).window.sviewOffset < lo
      || codec(v, rest).window.sviewOffset + codec(v, rest).window.sviewLen < hi
    ensures Parse(codec, [83, 86, 78, v] + Flatten(parts) + rest) == Parsed(ws, match codec(v, rest)
      case NeedMore => InWindows(v, rest, LastView(ws).0, LastView(ws).1)
      case Corrupt => Failed(CorruptWindow)
      case Complete(_, _) => Failed(BackwardView))
  {
    hide SelfDelimiting, Encodes;
    var header: seq<byte> := [83, 86, 78, v];
    var all := header + Flatten(parts) + rest;
    assert all[HEADER_LEN..] == Flatten(parts) + rest && all[3] == v && all[..HEADER_LEN] == header;
    assert header[..3] == MAGIC;
    WindowsAndRest(codec, v, parts, ws, 0, 0, rest);
    DelimitedAt(codec, v, rest, []);
    assert ws + [] == ws;
  }

  // ------------------------------------------------------------- the stream

  class SvndiffParser {
    const codec: Codec
    const errorOnEarlyClose: bool
    var state: State
    var handed: seq<Window>     // windows the handler has been called with
    var completed: bool         // has the handler been called without a window?
    ghost var written: seq<byte>

    ghost predicate Valid()
      reads this
    {
      && SelfDelimiting(codec)
      && Parsed(handed, state) == Parse(codec, written)
    }

    constructor (codec: Codec, errorOnEarlyClose: bool)
      requires SelfDelimiting(codec)
      ensures this.codec == codec && this.errorOnEarlyClose == errorOnEarlyClose
      ensures Valid() && written == [] && !completed
    {
      this.codec := codec;
      this.errorOnEarlyClose := errorOnEarlyClose;
      state, handed, completed, written := InHeader([]), [], false, [];
    }

    /**
     * Takes the next bytes. What has been handed over and where the parser stands depend on
     * the bytes written so far only, not on how they were split into writes.
     */
    method Write(data: seq<byte>) returns (error: Option<Error>)
      requires Valid() && !completed
      modifies this
      ensures Valid() && !completed && written == old(written) + data
      ensures old(handed) <= handed
      ensures error == (if state.Failed? then Some(state.error) else None)
    {
      ParseSplit(codec, written, data);
      written := written + data;
      assert handed + [] == handed;
      if state.InHeader? {
        var got := state.got + data;
        if !HeaderSoFarOk(got) {
          state := Failed(InvalidHeader);
        } else if |got| < HEADER_LEN {
          state := InHeader(got);
        } else {
          state := InWindows(got[3], [], 0, 0);
          assert [] + got[HEADER_LEN..] == got[HEADER_LEN..];
          TakeWindows(got[HEADER_LEN..]);
        }
      } else if state.InWindows? {
        TakeWindows(data);
      }
      error := if state.Failed? then Some(state.error) else None;
    }

    /** Hands over every window that is complete once `data` has arrived. */
    method TakeWindows(data: seq<byte>)
      requires state.InWindows? && !completed
      modifies this`state, this`handed
      ensures var p := old(Resume(codec, state, data));
        state == p.state && handed == old(handed) + p.windows
    {
      var version, lo: nat, hi: nat := state.version, state.lo, state.hi;
      var buffer := state.pending + data;
      ghost var goal := ParseWindows(codec, version, buffer, lo, hi);
      while true
        invariant var p := ParseWindows(codec, version, buffer, lo, hi);
          goal.state == p.state && old(handed) + goal.windows == handed + p.windows
        decreases |buffer|
      {
        match codec(version, buffer) {
          case NeedMore =>
            state := InWindows(version, buffer, lo, hi);
            return;
          case Corrupt =>
            state := Failed(CorruptWindow);
            return;
          case Complete(w, used) =>
            if !(0 < used <= |buffer|) {
              state := Failed(CorruptWindow);
              return;
            }
            if !DeltaStream.Follows(w, lo, hi) {
              state := Failed(BackwardView);
              return;
            }
            handed := handed + [w];
            buffer, lo, hi := buffer[used..], w.sviewOffset, w.sviewOffset + w.sviewLen;
        }
      }
    }

    /**
     * Closes the stream. A strict stream closes without error, and signals completion,
     * exactly when the bytes written are one or more complete windows and nothing else.
     */
    method Close() returns (error: Option<Error>)
      requires Valid() && !completed
      modifies this`completed
      ensures Valid()
      ensures completed <==> error.None?
      ensures errorOnEarlyClose ==> (error.None? <==> exists ws :: CompleteDelta(codec, written, ws))
      ensures errorOnEarlyClose && error.None? ==> CompleteDelta(codec, written, handed)
      ensures errorOnEarlyClose ==> error == None || error == Some(UnexpectedEnd)
      ensures !errorOnEarlyClose ==> error.None?
    {
      forall ws {
        CompleteIffParsed(codec, written, ws);
      }
      CompleteIffParsed(codec, written, handed);
      if errorOnEarlyClose && !(state.InWindows? && state.pending == [] && handed != []) {
        return Some(UnexpectedEnd);
      }
      completed := true;
      return None;
    }

    /** Any number of writes amounts to one write of all their bytes. */
    method WriteAll(chunks: seq<seq<byte>>)
      requires Valid() && !completed
      modifies this
      ensures Valid() && !completed && written == old(written) + Flatten(chunks)
    {
      var i := 0;
      while i < |chunks|
        invariant i <= |chunks| && Valid() && !completed
        invariant written + Flatten(chunks[i..]) == old(written) + Flatten(chunks)
      {
        var error := Write(chunks[i]);
        assert chunks[i..][1..] == chunks[i + 1..];
        i := i + 1;
      }
    }
  }

  /**
   * A new parser that is given the header, windows one after the other and perhaps something more:
   * the windows are handed over; what is left is an error if it is corrupt or a window whose source
   * view has moved back, and if nothing is left a strict stream closes.
   */
  method ParseDocument(
      codec: Codec, v: byte, parts: seq<seq<byte>>, rest: seq<byte>, ghost ws: seq<Window>, strict: bool)
    returns (parser: SvndiffParser, error: Option<Error>, closing: Option<Error>)
    requires SelfDelimiting(codec) && Encodes(codec, v, parts, ws, 0, 0)
    requires v == 0 || v == 1 || v == 2
    requires codec(v, rest).Complete? ==>
      var (lo, hi) := LastView(ws);
      codec(v, rest).window.sviewOffset < lo
      || codec(v, rest).window.sviewOffset + codec(v, rest).window.sviewLen < hi
    ensures parser.written == [83, 86, 78, v] + Flatten(parts) + rest
    ensures parser.handed == ws
    ensures error == match codec(v, rest)
      case NeedMore => None
      case Corrupt => Some(CorruptWindow)
      case Complete(_, _) => Some(BackwardView)
    ensures closing == if strict && (ws == [] || rest != []) then Some(UnexpectedEnd) else None
    ensures parser.completed <==> closing.None?
  {
    hide SelfDelimiting, Encodes, ParseWindows, SvndiffParser.Valid;
    var header: seq<byte> := [83, 86, 78, v];
    var all := header + Flatten(parts) + rest;
    parser := new SvndiffParser(codec, strict);
    ghost var before := parser.written;
    error := parser.Write(all);
    assert before + all == all;
    DocumentState(codec, v, parts, rest, ws);
    ParserStands(parser);
    closing := parser.Close();
    CompleteIffParsed(codec, all, ws);
  }

  lemma ParserStands(parser: SvndiffParser)
    requires parser.Valid()
    ensures Parsed(parser.handed, parser.state) == Parse(parser.codec, parser.written)
  {
  }
}
