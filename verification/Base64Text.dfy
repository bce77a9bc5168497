/** The characters of the encoding, read off one by one: the alphabet, the order of the bits, the lines. */
module Base64Text {
  import opened Common
  import opened Base64
  import opened Base64Decode

  // ------------------------------------------------------------------ alphabet

  /** The characters in the order of their values (section 4 of RFC 4648). */
  lemma LetterIs(v: sextet)
    ensures Letter(v) ==
            ("ABCDEFGHIJKLMNOPQRSTUVWXYZ" + "abcdefghijklmnopqrstuvwxyz" + "0123456789" + "+/")[v]
  {
    if v < 26 {
      Upper(v);
    } else if v < 52 {
      Lower(v - 26);
    } else if v < 62 {
      Digit(v - 52);
    }
  }

  lemma Upper(k: nat)
    requires k < 26
    ensures 'A' + k as char == "ABCDEFGHIJKLMNOPQRSTUVWXYZ"[k]
  {
  }

  lemma Lower(k: nat)
    requires k < 26
    ensures 'a' + k as char == "abcdefghijklmnopqrstuvwxyz"[k]
  {
  }

  lemma Digit(k: nat)
    requires k < 10
    ensures '0' + k as char == "0123456789"[k]
  {
  }

  /** A character has a value exactly if it is in the alphabet, and then that is its place there. */
  lemma ValueIs(c: char, v: sextet)
    ensures Value(c) == Some(v) <==>
            ("ABCDEFGHIJKLMNOPQRSTUVWXYZ" + "abcdefghijklmnopqrstuvwxyz" + "0123456789" + "+/")[v] == c
  {
    hide Letter, Value;
    LetterIs(v);
    LetterHasValue(v);
    if Value(c) == Some(v) {
      ValueHasLetter(c);
    }
  }

  lemma ValueHasLetter(c: char)
    ensures Value(c).Some? ==> Letter(Value(c).value) == c
  {
  }

  // ---------------------------------------------------------- the order of the bits

  /** Three bytes as digits of a number. */
  function Three(a: int, b: int, c: int): int {
    (a * 256 + b) * 256 + c
  }

  /** Four characters, read as a number in base 64, are three bytes read in base 256. */
  lemma {:induction false} GroupAt(data: seq<byte>, g: nat) returns (w: sextet, x: sextet, y: sextet, z: sextet)
    requires 3 * g + 3 <= |data|
    ensures 4 * g + 4 <= |Encode(data)|
    ensures Encode(data)[4 * g..4 * g + 4] == [Letter(w), Letter(x), Letter(y), Letter(z)]
    ensures ((w as int * 64 + x) * 64 + y) * 64 + z == Three(data[3 * g], data[3 * g + 1], data[3 * g + 2])
  {
    hide Letter;
    var first, rest := EncodeGroup(data[0], data[1], data[2]), Encode(data[3..]);
    assert Encode(data) == first + rest;
    if g == 0 {
      var a, b, c := data[0], data[1], data[2];
      w, x, y, z := a / 4, a % 4 * 16 + b / 16, b % 16 * 4 + c / 64, c % 64;
      assert (first + rest)[..4] == first;
    } else {
      w, x, y, z := GroupAt(data[3..], g - 1);
      assert (first + rest)[4 * g..4 * g + 4] == rest[4 * g - 4..4 * g];
    }
  }

  /** One or two bytes left over make two or three characters, with zero bits at the end, and padding. */
  lemma {:induction false} TailIs(data: seq<byte>, n: nat) returns (w: sextet, x: sextet, y: sextet)
    requires 3 * n <= |data| < 3 * n + 3
    ensures |Encode(data)| == if |data| == 3 * n then 4 * n else 4 * n + 4
    ensures var end := Encode(data)[4 * n..];
            && (|data| == 3 * n ==> end == "")
            && (|data| == 3 * n + 1 ==>
                  end == [Letter(w), Letter(x)] + "==" && w as int * 64 + x == data[3 * n] as int * 16)
            && (|data| == 3 * n + 2 ==>
                  && end == [Letter(w), Letter(x), Letter(y)] + "="
                  && (w as int * 64 + x) * 64 + y == (data[3 * n] as int * 256 + data[3 * n + 1]) * 4)
  {
    hide Letter, Encode, EncodeRest;
    EndAfter(data, n);
    var rest := data[3 * n..];
    w, x, y := TailOfRest(rest);
    if |rest| > 0 {
      assert rest[0] == data[3 * n];
    }
    if |rest| > 1 {
      assert rest[1] == data[3 * n + 1];
    }
    if |rest| == 0 {
      NoRest(rest);
    }
  }

  lemma NoRest(rest: seq<byte>)
    requires rest == []
    ensures EncodeRest(rest) == ""
  {
  }

  /** Whole groups come first, and then the rest. */
  lemma {:induction false} EndAfter(data: seq<byte>, n: nat)
    requires 3 * n <= |data| < 3 * n + 3
    ensures |Encode(data)| == if |data| == 3 * n then 4 * n else 4 * n + 4
    ensures Encode(data)[4 * n..] == EncodeRest(data[3 * n..])
    decreases n
  {
    hide EncodeGroup, EncodeRest, Letter;
    if n > 0 {
      EndAfter(data[3..], n - 1);
      var first, rest := EncodeGroup(data[0], data[1], data[2]), Encode(data[3..]);
      FourLetters(data[0], data[1], data[2]);
      AfterFour(first, rest, n);
      assert data[3..][3 * (n - 1)..] == data[3 * n..];
    } else {
      var w, x, y := TailOfRest(data);
      assert data[0..] == data && EncodeRest(data)[0..] == EncodeRest(data);
    }
  }

  lemma AfterFour(first: string, rest: string, n: nat)
    requires |first| == 4 && 0 < n && 4 * (n - 1) <= |rest|
    ensures (first + rest)[4 * n..] == rest[4 * (n - 1)..]
  {
  }

  lemma FourLetters(a: byte, b: byte, c: byte)
    ensures |EncodeGroup(a, b, c)| == 4
  {
  }

  lemma TailOfRest(rest: seq<byte>) returns (w: sextet, x: sextet, y: sextet)
    requires |rest| < 3
    ensures |EncodeRest(rest)| == if rest == [] then 0 else 4
    ensures |rest| == 1 ==>
              EncodeRest(rest) == [Letter(w), Letter(x)] + "==" && w as int * 64 + x == rest[0] as int * 16
    ensures |rest| == 2 ==>
              && EncodeRest(rest) == [Letter(w), Letter(x), Letter(y)] + "="
              && (w as int * 64 + x) * 64 + y == (rest[0] as int * 256 + rest[1]) * 4
  {
    hide Letter;
    var a := if |rest| > 0 then rest[0] else 0;
    var b := if |rest| > 1 then rest[1] else 0;
    w, x, y := a / 4, a % 4 * 16 + b / 16, b % 16 * 4;
  }

  /** Decoding reads the same numbers. */
  lemma DecodedNumbers(w: sextet, x: sextet, y: sextet, z: sextet)
    ensures var r := DecodeGroup(w, x, y, z);
            |r| == 3 && Three(r[0], r[1], r[2]) == ((w as int * 64 + x) * 64 + y) * 64 + z
    ensures DecodeRest([]) == [] && DecodeRest([w]) == []
    ensures var r := DecodeRest([w, x]); |r| == 1 && r[0] as int == (w as int * 64 + x) / 16
    ensures var r := DecodeRest([w, x, y]);
            |r| == 2 && r[0] as int * 256 + r[1] == ((w as int * 64 + x) * 64 + y) / 4
  {
    GroupNumber(w, x, y, z);
    GroupNumber(w, x, y, 0);
    RestNumber(w, x);
  }

  lemma GroupNumber(w: sextet, x: sextet, y: sextet, z: sextet)
    ensures var r := DecodeGroup(w, x, y, z);
            |r| == 3 && Three(r[0], r[1], r[2]) == ((w as int * 64 + x) * 64 + y) * 64 + z
    ensures z == 0 ==> var r := DecodeGroup(w, x, y, z);
            r[0] as int * 256 + r[1] == ((w as int * 64 + x) * 64 + y) / 4
  {
    var p, q: int := x / 16, x % 16;
    var a, b: int := y / 4, y % 4;
    assert x as int == 16 * p + q && y as int == 4 * a + b;
  }

  lemma RestNumber(w: sextet, x: sextet)
    ensures DecodeGroup(w, x, 0, 0)[0] as int == (w as int * 64 + x) / 16
  {
  }

  // ------------------------------------------------------------------- the lines

  /** Character `j` of the text comes after the newlines of the full lines before it. */
  predicate CharAt(text: string, lines: string, j: nat)
    requires j < |text|
  {
    j + j / 76 < |lines| && lines[j + j / 76] == text[j]
  }

  predicate NewlineAt(lines: string, i: nat)
    requires i < |lines|
  {
    i % 77 == 76 || i == |lines| - 1 ==> lines[i] == '\n'
  }

  /** The text with a newline after every 76 characters, and one at the end. */
  ghost predicate Broken(text: string, lines: string) {
    && |lines| == |text| + (|text| + 75) / 76
    && (forall j :: 0 <= j < |text| ==> CharAt(text, lines, j))
    && (forall i :: 0 <= i < |lines| ==> NewlineAt(lines, i))
  }

  /**
   * With line breaks the text is the same characters in the same order, a newline after every 76 of
   * them, and one at the end.
   */
  lemma {:induction false} LinesAre(data: seq<byte>)
    ensures Broken(Encode(data), EncodeLines(data))
  {
    hide Encode, EncodeLines, Broken;
    if |data| > BYTES_PER_LINE {
      var line, rest := data[..BYTES_PER_LINE], data[BYTES_PER_LINE..];
      LinesAre(rest);
      EncodeBoth(line, rest);
      assert line + rest == data;
      SizeOfLine(line);
      SomeText(rest);
      FirstBroken(data);
      LinesJoin(Encode(line), Encode(rest), EncodeLines(rest));
    } else if data != [] {
      SizeOfLine(data);
      OneLine(Encode(data));
      LastBroken(data);
    } else {
      NothingBroken();
      NothingEncoded();
    }
  }

  lemma {:induction false} FirstBroken(data: seq<byte>)
    requires |data| > BYTES_PER_LINE
    ensures EncodeLines(data) == Encode(data[..BYTES_PER_LINE]) + "\n" + EncodeLines(data[BYTES_PER_LINE..])
  {
  }

  lemma {:induction false} LastBroken(data: seq<byte>)
    requires 0 < |data| <= BYTES_PER_LINE
    ensures EncodeLines(data) == Encode(data) + "\n"
  {
  }

  lemma {:induction false} SizeOfLine(line: seq<byte>)
    requires 0 < |line| <= BYTES_PER_LINE
    ensures 0 < |Encode(line)| <= 76 && (|line| == BYTES_PER_LINE ==> |Encode(line)| == 76)
  {
    hide Encode;
    EndAfter(line, |line| / 3);
  }

  lemma {:induction false} SomeText(data: seq<byte>)
    requires data != []
    ensures Encode(data) != ""
  {
    hide Encode;
    EndAfter(data, |data| / 3);
  }

  lemma {:induction false} NothingBroken()
    ensures Broken("", "") && EncodeLines([]) == ""
  {
  }

  lemma OneLine(text: string)
    requires 0 < |text| <= 76
    ensures Broken(text, text + "\n")
  {
    forall j | 0 <= j < |text|
      ensures CharAt(text, text + "\n", j)
    {
    }
  }

  lemma LinesJoin(line: string, rest: string, lines: string)
    requires |line| == 76 && rest != "" && Broken(rest, lines)
    ensures Broken(line + rest, line + "\n" + lines)
  {
    var text, all := line + rest, line + "\n" + lines;
    NextLine(|rest|);
    forall j | 0 <= j < |text|
      ensures CharAt(text, all, j)
    {
      if j >= 76 {
        NextLine(j - 76);
        assert CharAt(rest, lines, j - 76);
      }
    }
    forall i | 0 <= i < |all|
      ensures NewlineAt(all, i)
    {
      if i >= 77 {
        assert NewlineAt(lines, i - 77);
        assert all[i] == lines[i - 77] && (i - 77) % 77 == i % 77;
      }
    }
  }

  lemma NextLine(j: nat)
    ensures (j + 76) / 76 == j / 76 + 1
    ensures (j + 76 + 75) / 76 == (j + 75) / 76 + 1
  {
  }

  // --------------------------------------------------------- what is passed over

  /** Any character outside the alphabet but '=' may be left out. */
  lemma {:induction false} OthersPassedOver(s: string, c: char, t: string)
    requires c != '=' && c !in
               "ABCDEFGHIJKLMNOPQRSTUVWXYZ" + "abcdefghijklmnopqrstuvwxyz" + "0123456789" + "+/"
    ensures Decode(START, s + [c] + t) == Decode(START, s + t)
  {
    hide Value, Decode;
    OutsideHasNone(c);
    var d := Decode(START, s);
    DecodeBoth(START, s, t);
    DecodeBoth(START, s, [c] + t);
    DecodeBoth(d, [c], t);
    assert s + [c] + t == s + ([c] + t);
    DecodeSingle(d, c);
  }

  lemma {:induction false} DecodeSingle(d: Decoding, c: char)
    requires |d.buf| < 4
    ensures Decode(d, [c]) == Step(d, c)
  {
    assert [c][1..] == "";
  }

  lemma OutsideHasNone(c: char)
    requires c !in "ABCDEFGHIJKLMNOPQRSTUVWXYZ" + "abcdefghijklmnopqrstuvwxyz" + "0123456789" + "+/"
    ensures Value(c).None?
  {
    hide Value;
    if Value(c).Some? {
      ValueIs(c, Value(c).value);
    }
  }

  /** What comes after an '=' does not count. */
  lemma {:induction false} PaddingIsTheEnd(s: string, t: string)
    ensures Decode(START, s + "=" + t) == Decode(START, s + "=")
  {
    hide Value, Decode;
    var d := Decode(START, s);
    DecodeBoth(START, s, "=");
    DecodeBoth(START, s + "=", t);
    DecodeSingle(d, '=');
    DoneStays(Step(d, '='), t);
  }
}
