/** What the base64 decoder computes on any text, and on the encoder's. */
module Base64RoundTrip {
  import opened Common
  import B = Base64
  import opened Base64Decode

  type sextet = B.sextet

  // ------------------------------------------------------- decoding any text

  function FirstPadding(s: string): (n: nat)
    ensures n <= |s|
    ensures '=' !in s[..n] && (n < |s| ==> s[n] == '=')
    ensures n == |s| ==> '=' !in s
  {
    if s == "" || s[0] == '=' then 0
    else
      var n := FirstPadding(s[1..]);
      assert s[..n + 1] == [s[0]] + s[1..][..n];
      assert s == [s[0]] + s[1..];
      n + 1
  }

  /** The values of the characters that have one. */
  function Values(s: string): seq<sextet> {
    if s == "" then []
    else (match B.Value(s[0]) case None => [] case Some(v) => [v]) + Values(s[1..])
  }

  function Unpack(vs: seq<sextet>): seq<byte> {
    if |vs| < 4 then [] else B.DecodeGroup(vs[0], vs[1], vs[2], vs[3]) + Unpack(vs[4..])
  }

  /** The values after the last whole group. */
  function Left(vs: seq<sextet>): (r: seq<sextet>)
    ensures |r| < 4
  {
    if |vs| < 4 then vs else Left(vs[4..])
  }

  /**
   * The text up to the first '=' counts, other characters outside the alphabet are passed over,
   * and an incomplete group is decoded only if there is an '='.
   */
  function Meaning(s: string): seq<byte> {
    var vs := Values(s[..FirstPadding(s)]);
    Unpack(vs) + if '=' in s then DecodeRest(Left(vs)) else []
  }

  /** A value taken in goes to the buffer or completes a group; what is unpacked in the end is the same. */
  lemma {:induction false} OneValue(out: seq<byte>, buf: seq<sextet>, v: sextet, rest: seq<sextet>)
    requires |buf| < 4
    ensures |buf| < 3 ==> (buf + [v]) + rest == buf + ([v] + rest)
    ensures |buf| == 3 ==>
              out + Unpack(buf + ([v] + rest)) == (out + B.DecodeGroup(buf[0], buf[1], buf[2], v)) + Unpack([] + rest)
    ensures |buf| == 3 ==> Left(buf + ([v] + rest)) == Left([] + rest)
  {
    hide B.DecodeGroup;
    if |buf| == 3 {
      var vs := buf + ([v] + rest);
      assert vs[4..] == rest == [] + rest;
      var g := B.DecodeGroup(vs[0], vs[1], vs[2], vs[3]);
      assert out + (g + Unpack(rest)) == (out + g) + Unpack(rest);
    }
  }

  lemma {:induction false} UnpackBuffer(out: seq<byte>, buf: seq<sextet>)
    requires |buf| < 4
    ensures out + Unpack(buf + []) == out && Left(buf + []) == buf
  {
    assert buf + [] == buf;
  }

  lemma {:induction false} DecodeValues(out: seq<byte>, buf: seq<sextet>, s: string)
    requires |buf| < 4 && '=' !in s
    ensures Decode(Decoding(out, buf, false), s) ==
            Decoding(out + Unpack(buf + Values(s)), Left(buf + Values(s)), false)
    decreases |s|
  {
    hide B.Value, B.DecodeGroup, Unpack, Left;
    if s == "" {
      UnpackBuffer(out, buf);
    } else {
      var rest := Values(s[1..]);
      assert s[0] in s && forall c :: c in s[1..] ==> c in s;
      match B.Value(s[0])
      case None =>
        DecodeValues(out, buf, s[1..]);
        assert Values(s) == rest;
      case Some(v) =>
        OneValue(out, buf, v, rest);
        if |buf| < 3 {
          DecodeValues(out, buf + [v], s[1..]);
        } else {
          DecodeValues(out + B.DecodeGroup(buf[0], buf[1], buf[2], v), [], s[1..]);
        }
    }
  }

  /** The decoder computes the meaning of the text, whatever the text. */
  lemma {:induction false} DecodeMeaning(s: string)
    ensures Decode(START, s).output == Meaning(s)
  {
    hide Step, Unpack, Left, Values, Decode, DecodeRest, FirstPadding;
    var n := FirstPadding(s);
    BeforePadding(s[..n]);
    if n < |s| {
      DecodeBoth(START, s[..n], s[n..]);
      assert s[..n] + s[n..] == s;
      PaddingEnds(Decode(START, s[..n]), s[n..]);
      assert s[n] in s;
    } else {
      assert s[..n] == s;
      assert Unpack(Values(s)) + [] == Unpack(Values(s));
    }
  }

  lemma {:induction false} BeforePadding(s: string)
    requires '=' !in s
    ensures Decode(START, s) == Decoding(Unpack(Values(s)), Left(Values(s)), false)
  {
    hide Unpack, Left, Values, Decode;
    DecodeValues([], [], s);
    assert [] + Values(s) == Values(s) && [] + Unpack(Values(s)) == Unpack(Values(s));
  }

  lemma {:induction false} PaddingEnds(d: Decoding, s: string)
    requires |d.buf| < 4 && !d.done && s != "" && s[0] == '='
    ensures Decode(d, s).output == d.output + DecodeRest(d.buf)
  {
    DoneStays(Step(d, s[0]), s[1..]);
  }

  // ------------------------------------------------- decoding what was encoded

  lemma DecodeOfGroup(out: seq<byte>, a: byte, b: byte, c: byte)
    ensures Decode(Decoding(out, [], false), B.EncodeGroup(a, b, c)) == Decoding(out + [a, b, c], [], false)
  {
    hide B.Value, B.Letter, B.EncodeGroup, B.DecodeGroup, Decode;
    var w: sextet, x: sextet, y: sextet, z: sextet := a / 4, a % 4 * 16 + b / 16, b % 16 * 4 + c / 64, c % 64;
    GroupReturns(a, b, c, w, x, y, z);
    B.LetterHasValue(w);
    B.LetterHasValue(x);
    B.LetterHasValue(y);
    B.LetterHasValue(z);
    DecodeFour(Decoding(out, [], false), B.EncodeGroup(a, b, c), w, x, y, z);
  }

  /** The four values of a group give its three bytes back. */
  lemma GroupReturns(a: byte, b: byte, c: byte, w: sextet, x: sextet, y: sextet, z: sextet)
    requires w == a / 4 && x == a % 4 * 16 + b / 16 && y == b % 16 * 4 + c / 64 && z == c % 64
    ensures B.EncodeGroup(a, b, c) == [B.Letter(w), B.Letter(x), B.Letter(y), B.Letter(z)]
    ensures B.DecodeGroup(w, x, y, z) == [a, b, c]
  {
    hide B.Letter;
    Sixteens(a % 4, b / 16);
    Fours(b % 16, c / 64);
  }

  lemma Sixteens(high: nat, low: nat)
    requires low < 16
    ensures (high * 16 + low) / 16 == high && (high * 16 + low) % 16 == low
  {
  }

  lemma Fours(high: nat, low: nat)
    requires low < 4
    ensures (high * 4 + low) / 4 == high && (high * 4 + low) % 4 == low
  {
  }

  /** A padded group gives back the one or two bytes it was made of. */
  lemma DecodeOfRest(out: seq<byte>, rest: seq<byte>)
    requires |rest| < 3
    ensures Decode(Decoding(out, [], false), B.EncodeRest(rest)).output == out + rest
  {
    hide B.Value, Step, Unpack, Left, Values, DecodeRest;
    var start := Decoding(out, [], false);
    if rest != [] {
      var s, n := B.EncodeRest(rest), |rest| + 1;
      var vs := RestValues(rest);
      DecodeValues(out, [], s[..n]);
      assert [] + vs == vs;
      UnpackBuffer(out, vs);
      assert vs + [] == vs;
      DecodeBoth(start, s[..n], s[n..]);
      assert s[..n] + s[n..] == s;
      PaddingEnds(Decoding(out, vs, false), s[n..]);
    }
  }

  lemma RestValues(rest: seq<byte>) returns (vs: seq<sextet>)
    requires 1 <= |rest| < 3
    ensures var s := B.EncodeRest(rest);
            |s| == 4 && s[|rest| + 1] == '=' && Values(s[..|rest| + 1]) == vs && '=' !in s[..|rest| + 1]
    ensures |vs| == |rest| + 1 && DecodeRest(vs) == rest
  {
    hide B.Value, B.Letter, Values, B.EncodeRest, DecodeRest;
    var s := B.EncodeRest(rest);
    var c := if |rest| == 1 then 0 else rest[1];
    var w: sextet, x: sextet, y: sextet := rest[0] / 4, rest[0] % 4 * 16 + c / 16, c % 16 * 4;
    vs := if |rest| == 1 then [w, x] else [w, x, y];
    if |rest| == 1 {
      RestOfOne(rest[0]);
      assert rest == [rest[0]];
    } else {
      RestOfTwo(rest[0], rest[1]);
      assert rest == [rest[0], rest[1]];
    }
    LettersHaveValues(vs, s[..|vs|]);
  }

  lemma RestOfOne(b: byte)
    ensures var s := B.EncodeRest([b]);
            |s| == 4 && s[0] == B.Letter(b / 4) && s[1] == B.Letter(b % 4 * 16) && s[2] == '='
    ensures DecodeRest([b / 4, b % 4 * 16]) == [b]
  {
    hide B.Letter;
  }

  lemma RestOfTwo(b: byte, c: byte)
    ensures var s := B.EncodeRest([b, c]);
            && |s| == 4 && s[0] == B.Letter(b / 4) && s[1] == B.Letter(b % 4 * 16 + c / 16)
            && s[2] == B.Letter(c % 16 * 4) && s[3] == '='
    ensures DecodeRest([b / 4, b % 4 * 16 + c / 16, c % 16 * 4]) == [b, c]
  {
    hide B.Letter;
  }

  lemma {:induction false} LettersHaveValues(vs: seq<sextet>, s: string)
    requires |s| == |vs| && forall i :: 0 <= i < |vs| ==> s[i] == B.Letter(vs[i])
    ensures Values(s) == vs && '=' !in s
  {
    hide B.Value, B.Letter;
    if s != "" {
      B.LetterHasValue(vs[0]);
      LettersHaveValues(vs[1..], s[1..]);
      assert s == [s[0]] + s[1..];
    }
  }

  lemma {:induction false} DecodeOfEncode(out: seq<byte>, data: seq<byte>)
    ensures var r := Decode(Decoding(out, [], false), B.Encode(data));
            r.output == out + data && (|data| % 3 == 0 ==> r == Decoding(out + data, [], false))
    decreases |data|
  {
    hide B.EncodeGroup;
    var start := Decoding(out, [], false);
    if |data| < 3 {
      DecodeOfRest(out, data);
      assert out + [] == out;
    } else {
      var group := B.EncodeGroup(data[0], data[1], data[2]);
      DecodeOfGroup(out, data[0], data[1], data[2]);
      DecodeBoth(start, group, B.Encode(data[3..]));
      DecodeOfEncode(out + [data[0], data[1], data[2]], data[3..]);
      assert out + data == out + [data[0], data[1], data[2]] + data[3..];
    }
  }

  lemma {:induction false} NewlineIgnored(d: Decoding)
    requires |d.buf| < 4
    ensures Decode(d, "\n") == d
  {
    assert "\n"[1..] == "";
  }

  lemma {:induction false} DecodeOfLines(out: seq<byte>, data: seq<byte>)
    ensures Decode(Decoding(out, [], false), B.EncodeLines(data)).output == out + data
    decreases |data|
  {
    hide B.Encode, Step;
    var start := Decoding(out, [], false);
    if data == [] {
      assert Decode(start, "") == start;
    } else if |data| <= B.BYTES_PER_LINE {
      DecodeOfEncode(out, data);
      DecodeBoth(start, B.Encode(data), "\n");
      NewlineIgnored(Decode(start, B.Encode(data)));
    } else {
      var line, rest := data[..B.BYTES_PER_LINE], data[B.BYTES_PER_LINE..];
      DecodeOfEncode(out, line);
      DecodeBoth(start, B.Encode(line), "\n");
      NewlineIgnored(Decode(start, B.Encode(line)));
      DecodeBoth(start, B.Encode(line) + "\n", B.EncodeLines(rest));
      DecodeOfLines(out + line, rest);
      assert out + data == (out + line) + rest;
    }
  }

  /** Decoding an encoding, with or without line breaks, gives the bytes back. */
  lemma EncodeThenDecode(data: seq<byte>, breakLines: bool)
    ensures Decode(START, B.EncodeString(data, breakLines)).output == data
  {
    hide B.Encode, B.EncodeLines, Decode;
    assert [] + data == data;
    if breakLines {
      DecodeOfLines([], data);
    } else {
      DecodeOfEncode([], data);
    }
  }

  /** No two byte strings share an encoding, even one with line breaks and one without. */
  lemma EncodingsDiffer(a: seq<byte>, breakA: bool, b: seq<byte>, breakB: bool)
    requires B.EncodeString(a, breakA) == B.EncodeString(b, breakB)
    ensures a == b
  {
    EncodeThenDecode(a, breakA);
    EncodeThenDecode(b, breakB);
  }

  // ------------------------------------------------------------------ in pieces

  function Text(pieces: seq<string>): string {
    if pieces == [] then "" else Text(Init(pieces)) + Last(pieces)
  }

  /** However the text is split into writes, it is decoded as a whole. */
  method DecodePieces(pieces: seq<string>) returns (r: seq<byte>)
    ensures r == Meaning(Text(pieces))
    ensures forall data, breakLines :: Text(pieces) == B.EncodeString(data, breakLines) ==> r == data
  {
    hide Meaning, B.EncodeString, Step;
    var decoder := new Decoder();
    for i := 0 to |pieces|
      invariant decoder.Valid() && fresh(decoder)
      invariant decoder.State() == Decode(START, Text(pieces[..i]))
    {
      decoder.Write(pieces[i]);
      assert Init(pieces[..i + 1]) == pieces[..i];
      DecodeBoth(START, Text(pieces[..i]), pieces[i]);
    }
    assert pieces[..|pieces|] == pieces;
    r := decoder.output;
    DecodeMeaning(Text(pieces));
    forall data, breakLines | Text(pieces) == B.EncodeString(data, breakLines)
      ensures r == data
    {
      EncodeThenDecode(data, breakLines);
    }
  }
}
