/** Base64 with optional line breaks: one group, one line and one call at a time. */
module Base64 {
  import opened Common

  const BASE64_LINELEN: nat := 76
  const BYTES_PER_LINE: nat := BASE64_LINELEN / 4 * 3

  type sextet = x: int | 0 <= x < 64

  // ------------------------------------------------------------------ alphabet

  /** The character of a six-bit value. */
  function Letter(v: sextet): char {
    if v < 26 then 'A' + v as char
    else if v < 52 then 'a' + (v - 26) as char
    else if v < 62 then '0' + (v - 52) as char
    else if v == 62 then '+'
    else '/'
  }

  /** The six-bit value of a character of the alphabet. */
  function Value(c: char): Option<sextet> {
    if 'A' <= c <= 'Z' then Some((c - 'A') as int)
    else if 'a' <= c <= 'z' then Some((c - 'a') as int + 26)
    else if '0' <= c <= '9' then Some((c - '0') as int + 52)
    else if c == '+' then Some(62)
    else if c == '/' then Some(63)
    else None
  }

  lemma LetterHasValue(v: sextet)
    ensures Value(Letter(v)) == Some(v) && Letter(v) != '=' && Letter(v) != '\n'
  {
  }

  // -------------------------------------------------------------------- groups

  /** Three bytes as four characters. */
  function EncodeGroup(a: byte, b: byte, c: byte): string {
    [Letter(a / 4), Letter(a % 4 * 16 + b / 16), Letter(b % 16 * 4 + c / 64), Letter(c % 64)]
  }

  /** Four six-bit values as three bytes. */
  function DecodeGroup(w: sextet, x: sextet, y: sextet, z: sextet): seq<byte> {
    [w * 4 + x / 16, x % 16 * 16 + y / 4, y % 4 * 64 + z]
  }

  // ------------------------------------------------- the encoding, all at once

  /** One or two bytes, padded (section 4 of RFC 4648). */
  function EncodeRest(rest: seq<byte>): string
    requires |rest| < 3
  {
    if rest == [] then ""
    else if |rest| == 1 then EncodeGroup(rest[0], 0, 0)[..2] + "=="
    else EncodeGroup(rest[0], rest[1], 0)[..3] + "="
  }

  function Encode(data: seq<byte>): string {
    if |data| < 3 then EncodeRest(data)
    else EncodeGroup(data[0], data[1], data[2]) + Encode(data[3..])
  }

  /** Lines of as many bytes as fit, each ended by a newline. */
  function EncodeLines(data: seq<byte>): string {
    if data == [] then ""
    else if |data| <= BYTES_PER_LINE then Encode(data) + "\n"
    else Encode(data[..BYTES_PER_LINE]) + "\n" + EncodeLines(data[BYTES_PER_LINE..])
  }

  function EncodeString(data: seq<byte>, breakLines: bool): string {
    if breakLines then EncodeLines(data) else Encode(data)
  }

  // ---------------------------------------------- the encoding, as it goes along

  /** How many of `data` are whole groups. */
  function Whole(data: seq<byte>): (n: nat)
    ensures n <= |data| < n + 3 && n % 3 == 0
  {
    |data| / 3 * 3
  }

  /** What has been put out once `data` has come in. */
  function Emitted(data: seq<byte>, breakLines: bool): string {
    if breakLines && |data| >= BYTES_PER_LINE then
      Encode(data[..BYTES_PER_LINE]) + "\n" + Emitted(data[BYTES_PER_LINE..], breakLines)
    else Encode(data[..Whole(data)])
  }

  /** The number of characters on the line being put out. */
  function LineLength(data: seq<byte>, breakLines: bool): nat {
    if breakLines && |data| >= BYTES_PER_LINE then LineLength(data[BYTES_PER_LINE..], breakLines)
    else Whole(data) / 3 * 4
  }

  lemma {:induction false} EncodeBoth(a: seq<byte>, b: seq<byte>)
    requires |a| % 3 == 0
    ensures Encode(a + b) == Encode(a) + Encode(b)
  {
    hide EncodeGroup;
    if a == [] {
      assert a + b == b;
    } else {
      EncodeBoth(a[3..], b);
      assert (a + b)[3..] == a[3..] + b;
      assert a[0] == (a + b)[0] && a[1] == (a + b)[1] && a[2] == (a + b)[2];
      assert Encode(a + b) == EncodeGroup(a[0], a[1], a[2]) + (Encode(a[3..]) + Encode(b));
    }
  }

  lemma {:induction false} LineLengthBounds(data: seq<byte>, breakLines: bool)
    ensures breakLines ==> LineLength(data, breakLines) < BASE64_LINELEN
    ensures LineLength(data, breakLines) % 4 == 0
  {
    if breakLines && |data| >= BYTES_PER_LINE {
      LineLengthBounds(data[BYTES_PER_LINE..], breakLines);
    }
  }

  /** What one more group, or with the line empty one more line, adds to the output. */
  lemma {:induction false} EmittedMore(data: seq<byte>, more: seq<byte>, breakLines: bool)
    requires |data| % 3 == 0 && |more| % 3 == 0
    requires breakLines ==> LineLength(data, breakLines) + |more| / 3 * 4 <= BASE64_LINELEN
    ensures var ends := breakLines && LineLength(data, breakLines) + |more| / 3 * 4 == BASE64_LINELEN;
            Emitted(data + more, breakLines) == Emitted(data, breakLines) + Encode(more) + (if ends then "\n" else "")
            && LineLength(data + more, breakLines) ==
               if ends then 0 else LineLength(data, breakLines) + |more| / 3 * 4
  {
    hide Encode, Emitted, LineLength;
    if breakLines && |data| >= BYTES_PER_LINE {
      var all, rest := data + more, data[BYTES_PER_LINE..];
      assert all[..BYTES_PER_LINE] == data[..BYTES_PER_LINE] && all[BYTES_PER_LINE..] == rest + more;
      FirstLine(data);
      FirstLine(all);
      EmittedMore(rest, more, breakLines);
      var line, before := Encode(data[..BYTES_PER_LINE]) + "\n", Emitted(rest, breakLines);
      var end := if LineLength(rest, breakLines) + |more| / 3 * 4 == BASE64_LINELEN then "\n" else "";
      assert line + (before + Encode(more) + end) == line + before + Encode(more) + end;
    } else {
      EmittedWithin(data, more, breakLines);
    }
  }

  lemma {:induction false} FirstLine(data: seq<byte>)
    requires |data| >= BYTES_PER_LINE
    ensures Emitted(data, true) == Encode(data[..BYTES_PER_LINE]) + "\n" + Emitted(data[BYTES_PER_LINE..], true)
    ensures LineLength(data, true) == LineLength(data[BYTES_PER_LINE..], true)
  {
  }

  /** The same where the bytes so far do not fill a line. */
  lemma {:induction false} EmittedWithin(data: seq<byte>, more: seq<byte>, breakLines: bool)
    requires |data| % 3 == 0 && |more| % 3 == 0 && !(breakLines && |data| >= BYTES_PER_LINE)
    requires breakLines ==> LineLength(data, breakLines) + |more| / 3 * 4 <= BASE64_LINELEN
    ensures var ends := breakLines && LineLength(data, breakLines) + |more| / 3 * 4 == BASE64_LINELEN;
            Emitted(data + more, breakLines) == Emitted(data, breakLines) + Encode(more) + (if ends then "\n" else "")
            && LineLength(data + more, breakLines) ==
               if ends then 0 else LineLength(data, breakLines) + |more| / 3 * 4
  {
    hide Encode;
    var all := data + more;
    assert data[..Whole(data)] == data;
    EncodeBoth(data, more);
    NothingEncoded();
    if breakLines && |all| >= BYTES_PER_LINE {
      assert |all| == BYTES_PER_LINE;
      assert all[..BYTES_PER_LINE] == all && all[BYTES_PER_LINE..] == [];
    } else {
      assert all[..Whole(all)] == all;
    }
  }

  lemma NothingEncoded()
    ensures Encode([]) == ""
  {
  }

  /** Bytes that do not complete a group add nothing. */
  lemma {:induction false} EmittedSame(data: seq<byte>, rest: seq<byte>, breakLines: bool)
    requires |data| % 3 == 0 && |rest| < 3
    ensures Emitted(data + rest, breakLines) == Emitted(data, breakLines)
    ensures LineLength(data + rest, breakLines) == LineLength(data, breakLines)
  {
    hide Encode;
    var all := data + rest;
    if breakLines && |data| >= BYTES_PER_LINE {
      var after := data[BYTES_PER_LINE..];
      assert all[..BYTES_PER_LINE] == data[..BYTES_PER_LINE] && all[BYTES_PER_LINE..] == after + rest;
      EmittedSame(after, rest, breakLines);
    } else {
      assert all[..Whole(all)] == data == data[..Whole(data)];
    }
  }

  /** What closing adds completes the encoding of everything that came in. */
  lemma {:induction false} ClosingCompletes(data: seq<byte>, rest: seq<byte>, breakLines: bool)
    requires |data| % 3 == 0 && |rest| < 3
    ensures var line := LineLength(data, breakLines) + (if rest == [] then 0 else 4);
            EncodeString(data + rest, breakLines) ==
            Emitted(data, breakLines) + EncodeRest(rest) + (if breakLines && line > 0 then "\n" else "")
  {
    hide EncodeLines, Encode, EncodeRest;
    var all := data + rest;
    if breakLines && |data| >= BYTES_PER_LINE {
      var after := data[BYTES_PER_LINE..];
      assert all[..BYTES_PER_LINE] == data[..BYTES_PER_LINE] && all[BYTES_PER_LINE..] == after + rest;
      ClosingCompletes(after, rest, breakLines);
      LineBroken(all);
    } else {
      ClosingLine(data, rest);
      assert data[..Whole(data)] == data;
      assert breakLines ==> |all| <= BYTES_PER_LINE;
    }
  }

  lemma ClosingLine(data: seq<byte>, rest: seq<byte>)
    requires |data| % 3 == 0 && |rest| < 3
    ensures Encode(data + rest) == Encode(data) + EncodeRest(rest)
    ensures |data| + |rest| <= BYTES_PER_LINE ==>
              EncodeLines(data + rest) ==
                Encode(data) + EncodeRest(rest) + (if |data| + |rest| > 0 then "\n" else "")
  {
    hide EncodeGroup;
    EncodeBoth(data, rest);
    if data + rest == [] {
      NothingEncoded();
    }
  }

  lemma {:induction false} LineBroken(data: seq<byte>)
    requires |data| >= BYTES_PER_LINE
    ensures EncodeLines(data) == Encode(data[..BYTES_PER_LINE]) + "\n" + EncodeLines(data[BYTES_PER_LINE..])
  {
    hide Encode;
    if |data| == BYTES_PER_LINE {
      assert data[..BYTES_PER_LINE] == data && data[BYTES_PER_LINE..] == [];
    }
  }

  // ---------------------------------------------------------------- the encoder

  /** Encodes one whole line's worth of bytes. */
  method EncodeLine(data: seq<byte>) returns (str: string)
    requires |data| >= BYTES_PER_LINE
    ensures str == Encode(data[..BYTES_PER_LINE]) && |str| == BASE64_LINELEN
  {
    hide Encode;
    str := "";
    ghost var line := data[..BYTES_PER_LINE];
    var i := 0;
    NothingEncoded();
    assert line[..0] == [];
    while |str| != BASE64_LINELEN
      invariant 0 <= i <= BYTES_PER_LINE && i % 3 == 0 && |str| == i / 3 * 4
      invariant str == Encode(line[..i])
      decreases BYTES_PER_LINE - i
    {
      assert line[..i + 3] == line[..i] + [data[i], data[i + 1], data[i + 2]];
      EncodeBoth(line[..i], [data[i], data[i + 1], data[i + 2]]);
      OneGroup(data[i], data[i + 1], data[i + 2]);
      str := str + EncodeGroup(data[i], data[i + 1], data[i + 2]);
      i := i + 3;
    }
    assert line[..i] == line;
  }

  lemma OneGroup(a: byte, b: byte, c: byte)
    ensures Encode([a, b, c]) == EncodeGroup(a, b, c)
  {
    assert [a, b, c][3..] == [];
  }

  method EncodeThree(group: seq<byte>) returns (str: string)
    requires |group| == 3
    ensures str == Encode(group)
  {
    OneGroup(group[0], group[1], group[2]);
    assert group == [group[0], group[1], group[2]];
    str := EncodeGroup(group[0], group[1], group[2]);
  }

  /** What was waiting and what is taken next follow what is done. */
  lemma Absorb(fed: seq<byte>, done: seq<byte>, waiting: seq<byte>, data: seq<byte>, p: nat, q: nat)
    requires p <= q <= |data| && done + waiting == fed + data[..p]
    ensures done + (waiting + data[p..q]) == fed + data[..q]
    ensures q == |data| ==> data[..q] == data && data[p..q] == data[p..]
    ensures var all := done + (waiting + data[p..q]);
            all[..|done|] == done && all[|done|..] == waiting + data[p..q]
  {
    assert data[..q] == data[..p] + data[p..q];
    assert done + (waiting + data[p..q]) == (done + waiting) + data[p..q];
  }

  /** Encodes as much of the waiting bytes and `data` as makes whole groups, and keeps the rest. */
  method EncodeBytes(
      str0: string, data: seq<byte>, inbuf0: seq<byte>, linelen0: nat, breakLines: bool,
      ghost fed: seq<byte>, ghost done0: seq<byte>)
    returns (str: string, inbuf: seq<byte>, linelen: nat, ghost done: seq<byte>)
    requires |inbuf0| < 3 && |done0| % 3 == 0 && done0 + inbuf0 == fed
    requires str0 == Emitted(done0, breakLines) && linelen0 == LineLength(done0, breakLines)
    ensures |inbuf| < 3 && |done| % 3 == 0 && done + inbuf == fed + data
    ensures str == Emitted(done, breakLines) && linelen == LineLength(done, breakLines)
  {
    hide Emitted, LineLength, Encode;
    str, inbuf, linelen, done := str0, inbuf0, linelen0, done0;
    var p := 0;
    assert fed + data[..0] == fed;
    while |data| - p >= 3 - |inbuf|
      invariant 0 <= p <= |data| && |inbuf| < 3 && |done| % 3 == 0
      invariant done + inbuf == fed + data[..p]
      invariant str == Emitted(done, breakLines) && linelen == LineLength(done, breakLines)
      decreases |data| - p
    {
      LineLengthBounds(done, breakLines);
      var q := p;
      ghost var more: seq<byte>;
      ghost var waiting := inbuf;
      if |inbuf| == 0 && (linelen == 0 || !breakLines) && |data| - p >= BYTES_PER_LINE {
        q := p + BYTES_PER_LINE;
        more := data[p..q];
        var line := EncodeLine(data[p..]);
        assert data[p..][..BYTES_PER_LINE] == more;
        str := str + line;
        linelen := linelen + BASE64_LINELEN;
      } else {
        q := p + (3 - |inbuf|);
        more := inbuf + data[p..q];
        var group := EncodeThree(inbuf + data[p..q]);
        str := str + group;
        inbuf := [];
        linelen := linelen + 4;
      }
      assert more == waiting + data[p..q];
      Absorb(fed, done, waiting, data, p, q);
      EmittedMore(done, more, breakLines);
      done := done + more;
      if breakLines && linelen == BASE64_LINELEN {
        str := str + "\n";
        linelen := 0;
      }
      p := q;
    }
    Absorb(fed, done, inbuf, data, p, |data|);
    inbuf := inbuf + data[p..];
  }

  lemma {:induction false} NothingEmitted(breakLines: bool)
    ensures Emitted([], breakLines) == "" && LineLength([], breakLines) == 0
  {
  }

  class Encoder {
    var output: string
    var buf: seq<byte>
    var linelen: nat
    const breakLines: bool
    ghost var fed: seq<byte>

    /** Everything that came in has been put out but for an incomplete group. */
    ghost predicate Valid()
      reads this
    {
      && |buf| < 3 && |buf| <= |fed| && |fed[..|fed| - |buf|]| % 3 == 0
      && buf == fed[|fed| - |buf|..]
      && output == Emitted(fed[..|fed| - |buf|], breakLines)
      && linelen == LineLength(fed[..|fed| - |buf|], breakLines)
    }

    constructor (breakLines: bool)
      ensures Valid() && fed == [] && output == "" && this.breakLines == breakLines
    {
      output, buf, linelen := "", [], 0;
      this.breakLines := breakLines;
      fed := [];
      NothingEmitted(breakLines);
    }

    /** Takes `data` in; what has been put out depends only on the bytes so far. */
    method Write(data: seq<byte>)
      requires Valid()
      modifies this
      ensures Valid() && fed == old(fed) + data
      ensures output == Emitted(fed, breakLines)
    {
      hide Emitted, LineLength, Encode;
      ghost var done := fed[..|fed| - |buf|];
      assert fed == done + buf;
      output, buf, linelen, done := EncodeBytes(output, data, buf, linelen, breakLines, fed, done);
      fed := fed + data;
      assert fed[..|fed| - |buf|] == done && fed[|fed| - |buf|..] == buf;
      EmittedSame(done, buf, breakLines);
    }

    /** Puts out what is left; the whole output is the encoding of all that came in. */
    method Close()
      requires Valid()
      modifies this`output
      ensures output == EncodeString(fed, breakLines)
    {
      hide Emitted, LineLength, EncodeString, Letter;
      ghost var done := fed[..|fed| - |buf|];
      assert fed == done + buf;
      ClosingCompletes(done, buf, breakLines);
      var line := linelen;
      if |buf| > 0 {
        var group := buf + if |buf| == 1 then [0, 0] else [0];
        var encoded := EncodeGroup(group[0], group[1], group[2]);
        output := output + (encoded[..|buf| + 1] + if |buf| == 1 then "==" else "=");
        line := line + 4;
      }
      if breakLines && line > 0 {
        output := output + "\n";
      }
    }
  }

  function Concat(chunks: seq<seq<byte>>): seq<byte> {
    if chunks == [] then [] else Concat(Init(chunks)) + Last(chunks)
  }

  /** However the bytes are split into writes, the closed stream is the encoding of them all. */
  method EncodeChunks(chunks: seq<seq<byte>>, breakLines: bool) returns (r: string)
    ensures r == EncodeString(Concat(chunks), breakLines)
  {
    var encoder := new Encoder(breakLines);
    for i := 0 to |chunks|
      invariant encoder.Valid() && fresh(encoder) && encoder.breakLines == breakLines
      invariant encoder.fed == Concat(chunks[..i])
    {
      encoder.Write(chunks[i]);
      assert Init(chunks[..i + 1]) == chunks[..i];
    }
    assert chunks[..|chunks|] == chunks;
    encoder.Close();
    r := encoder.output;
  }
}
