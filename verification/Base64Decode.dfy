/** Decoding base64: the decoder, what it computes, and that it undoes the encoder. */
module Base64Decode {
  import opened Common
  import opened Base64

  // ------------------------------------------------------ one character at a time

  datatype Decoding = Decoding(output: seq<byte>, buf: seq<sextet>, done: bool)

  const START := Decoding([], [], false)

  /** What an incomplete last group of two or three values stands for. */
  function DecodeRest(buf: seq<sextet>): seq<byte>
    requires |buf| < 4
  {
    if |buf| == 2 then DecodeGroup(buf[0], buf[1], 0, 0)[..1]
    else if |buf| == 3 then DecodeGroup(buf[0], buf[1], buf[2], 0)[..2]
    else []
  }

  function Step(d: Decoding, c: char): (r: Decoding)
    requires |d.buf| < 4
    ensures |r.buf| < 4
  {
    if d.done then d
    else if c == '=' then d.(output := d.output + DecodeRest(d.buf), done := true)
    else match Value(c)
      case None => d
      case Some(v) =>
        if |d.buf| < 3 then d.(buf := d.buf + [v])
        else d.(output := d.output + DecodeGroup(d.buf[0], d.buf[1], d.buf[2], v), buf := [])
  }

  function Decode(d: Decoding, s: string): (r: Decoding)
    requires |d.buf| < 4
    ensures |r.buf| < 4
    decreases |s|
  {
    if s == "" then d else Decode(Step(d, s[0]), s[1..])
  }

  /** Decoding in pieces is decoding the whole. */
  lemma {:induction false} DecodeBoth(d: Decoding, a: string, b: string)
    requires |d.buf| < 4
    ensures Decode(d, a + b) == Decode(Decode(d, a), b)
    decreases |a|
  {
    hide Step;
    if a == "" {
      assert a + b == b;
    } else {
      DecodeBoth(Step(d, a[0]), a[1..], b);
      assert (a + b)[1..] == a[1..] + b;
    }
  }

  lemma {:induction false} DoneStays(d: Decoding, s: string)
    requires |d.buf| < 4 && d.done
    ensures Decode(d, s) == d
    decreases |s|
  {
    if s != "" {
      DoneStays(d, s[1..]);
    }
  }

  // ---------------------------------------------------------------- the decoder

  /** Four characters of the alphabet at a group boundary add the three bytes of their group. */
  lemma {:induction false} DecodeFour(d: Decoding, s: string, w: sextet, x: sextet, y: sextet, z: sextet)
    requires !d.done && d.buf == [] && |s| == 4
    requires Value(s[0]) == Some(w) && Value(s[1]) == Some(x) && Value(s[2]) == Some(y) && Value(s[3]) == Some(z)
    ensures Decode(d, s) == d.(output := d.output + DecodeGroup(w, x, y, z))
  {
    hide Value, DecodeGroup;
    assert s == [s[0], s[1], s[2], s[3]];
    NoPadding(s);
    var d1 := d.(buf := [w]);
    var d2 := d.(buf := [w, x]);
    var d3 := d.(buf := [w, x, y]);
    assert Step(d, s[0]) == d1;
    assert Step(d1, s[1]) == d2;
    assert Step(d2, s[2]) == d3;
    assert s[1..][1..] == s[2..] && s[2..][1..] == s[3..] && s[3..][1..] == "";
    assert Decode(d3, s[3..]) == Decode(Step(d3, s[3]), "");
    assert Decode(d2, s[2..]) == Decode(d3, s[3..]);
    assert Decode(d1, s[1..]) == Decode(d2, s[2..]);
  }

  lemma NoPadding(s: string)
    ensures forall k :: 0 <= k < |s| && Value(s[k]).Some? ==> s[k] != '='
  {
  }

  /** Decodes whole groups up to a line's length; stops before one with another character in it. */
  method DecodeLine(s: string, p: nat, str0: seq<byte>) returns (str: seq<byte>, q: nat, whole: bool)
    requires p + BASE64_LINELEN <= |s|
    ensures p <= q <= p + BASE64_LINELEN && (whole <==> q == p + BASE64_LINELEN)
    ensures Decode(Decoding(str0, [], false), s[p..q]) == Decoding(str, [], false)
  {
    hide Value, DecodeGroup, Step;
    str, q := str0, p;
    ghost var start := Decoding(str0, [], false);
    while q < p + BASE64_LINELEN
      invariant p <= q <= p + BASE64_LINELEN && (q - p) % 4 == 0
      invariant Decode(start, s[p..q]) == Decoding(str, [], false)
      decreases p + BASE64_LINELEN - q
    {
      var w, x, y, z := Value(s[q]), Value(s[q + 1]), Value(s[q + 2]), Value(s[q + 3]);
      if w.None? || x.None? || y.None? || z.None? {
        return str, q, false;
      }
      ghost var four := s[q..q + 4];
      DecodeFour(Decoding(str, [], false), four, w.value, x.value, y.value, z.value);
      DecodeBoth(start, s[p..q], four);
      assert s[p..q] + four == s[p..q + 4];
      str := str + DecodeGroup(w.value, x.value, y.value, z.value);
      q := q + 4;
    }
    whole := true;
  }

  class Decoder {
    var output: seq<byte>
    var buf: seq<sextet>
    var done: bool

    ghost predicate Valid()
      reads this
    {
      |buf| < 4
    }

    function State(): Decoding
      reads this
    {
      Decoding(output, buf, done)
    }

    constructor ()
      ensures Valid() && State() == START
    {
      output, buf, done := [], [], false;
    }

    method Write(data: string)
      requires Valid()
      modifies this
      ensures Valid() && State() == Decode(old(State()), data)
    {
      output, buf, done := DecodeBytes(output, data, buf, done);
    }
  }

  /** Decodes `data`, by whole lines where that can be done. */
  method DecodeBytes(str0: seq<byte>, data: string, inbuf0: seq<sextet>, done0: bool)
    returns (str: seq<byte>, inbuf: seq<sextet>, done: bool)
    requires |inbuf0| < 4
    ensures |inbuf| < 4
    ensures Decoding(str, inbuf, done) == Decode(Decoding(str0, inbuf0, done0), data)
  {
    hide Step;
    str, inbuf, done := str0, inbuf0, done0;
    var p := 0;
    ghost var start := Decoding(str0, inbuf0, done0);
    assert data[0..] == data;
    while !done && p < |data|
      invariant 0 <= p <= |data| && |inbuf| < 4
      invariant Decode(Decoding(str, inbuf, done), data[p..]) == Decode(start, data)
      decreases |data| - p, !done
    {
      if |inbuf| == 0 && |data| - p >= BASE64_LINELEN {
        ghost var before := Decoding(str, inbuf, done);
        var q, whole;
        str, q, whole := DecodeLine(data, p, str);
        DecodeBoth(before, data[p..q], data[q..]);
        assert data[p..q] + data[q..] == data[p..];
        p := q;
        if whole {
          continue;
        }
      }
      ghost var before := Decoding(str, inbuf, false);
      assert data[p..][1..] == data[p + 1..];
      assert Decode(before, data[p..]) == Decode(Step(before, data[p]), data[p + 1..]);
      str, inbuf, done := DecodeOne(str, inbuf, data[p]);
      p := p + 1;
    }
    if done {
      DoneStays(Decoding(str, inbuf, done), data[p..]);
    } else {
      assert data[p..] == "";
    }
  }

  /** The slow path: one character, which may be padding or none of the alphabet's. */
  method DecodeOne(str0: seq<byte>, inbuf0: seq<sextet>, c: char)
    returns (str: seq<byte>, inbuf: seq<sextet>, done: bool)
    requires |inbuf0| < 4
    ensures |inbuf| < 4
    ensures Decoding(str, inbuf, done) == Step(Decoding(str0, inbuf0, false), c)
  {
    hide Value;
    str, inbuf, done := str0, inbuf0, false;
    if c == '=' {
      if |inbuf| >= 2 {
        var group := inbuf + if |inbuf| == 2 then [0, 0] else [0];
        str := str + DecodeGroup(group[0], group[1], group[2], group[3])[..|inbuf| - 1];
      }
      done := true;
    } else {
      var find := Value(c);
      if find.Some? {
        inbuf := inbuf + [find.value];
      }
      if |inbuf| == 4 {
        str := str + DecodeGroup(inbuf[0], inbuf[1], inbuf[2], inbuf[3]);
        inbuf := [];
      }
    }
  }
}
