/** The dump, character by character: what is written, which lengths are read, and what is refused. */
module HashText {
  import opened Common
  import opened HashDump
  import opened HashRoundTrip

  // ----------------------------------------------------------------- what is written

  /** The text of an addition and of a deletion. */
  lemma {:induction false} RecordText(key: string, value: string)
    ensures Record(Put(key, value)) ==
            "K " + Decimal(|key|) + "\n" + key + "\n" + "V " + Decimal(|value|) + "\n" + value + "\n"
    ensures Record(Remove(key)) == "D " + Decimal(|key|) + "\n" + key + "\n"
    ensures Ending(Some(value)) == value + "\n" && Ending(None) == ""
  {
    hide Decimal;
    PutRecord(key, value);
    assert Record(Remove(key)) == "D " + Decimal(|key|) + "\n" + (key + "\n");
  }

  /** The number that decimal digits stand for, read from the left. */
  function Number(digits: string, sofar: nat): nat
    requires AllDigits(digits)
  {
    if digits == "" then sofar
    else Number(digits[1..], 10 * sofar + (digits[0] - '0') as nat)
  }

  predicate AllDigits(s: string) {
    forall k :: 0 <= k < |s| ==> '0' <= s[k] <= '9'
  }

  lemma {:induction false} NumberLast(s: string, sofar: nat)
    requires AllDigits(s) && s != ""
    ensures Number(s, sofar) == 10 * Number(Init(s), sofar) + (Last(s) - '0') as nat
  {
    if |s| == 1 {
      assert Init(s) == "" && s[1..] == "";
    } else {
      NumberLast(s[1..], 10 * sofar + (s[0] - '0') as nat);
      assert Init(s)[1..] == Init(s[1..]) && Last(s[1..]) == Last(s);
    }
  }

  /** A length is written in decimal, without zeros before it. */
  lemma {:induction false} DecimalIs(n: nat)
    ensures AllDigits(Decimal(n)) && Number(Decimal(n), 0) == n
    ensures Decimal(n) != "" && (Decimal(n)[0] == '0' <==> n == 0) && (n == 0 ==> Decimal(n) == "0")
  {
    var digit := ['0' + (n % 10) as char];
    if n < 10 {
      assert digit[1..] == "" && Number(digit, 0) == Number(digit[1..], n);
    } else {
      DecimalIs(n / 10);
      var s := Decimal(n / 10) + digit;
      assert Init(s) == Decimal(n / 10) && Last(s) == digit[0];
      NumberLast(s, 0);
    }
  }

  // ------------------------------------------------------------- which lengths are read

  lemma {:induction false} ValueIsNumber(s: string)
    ensures DecimalValue(s) == if AllDigits(s) then Some(Number(s, 0)) else None
  {
    if s != "" {
      ValueIsNumber(Init(s));
      assert s == Init(s) + [Last(s)];
      if AllDigits(s) {
        NumberLast(s, 0);
      } else if IsDigit(Last(s)) && AllDigits(Init(s)) {
        assert forall k :: 0 <= k < |s| ==> s[k] == if k < |s| - 1 then Init(s)[k] else Last(s);
      }
    }
  }

  predicate Blank(c: char) {
    c == ' ' || c == '\t' || c == '\n' || c == '\U{b}' || c == '\U{c}' || c == '\r'
  }

  lemma {:induction false} BlanksSkipped(blanks: string, rest: string)
    requires forall k :: 0 <= k < |blanks| ==> Blank(blanks[k])
    requires rest != "" ==> !Blank(rest[0])
    ensures SkipSpaces(blanks + rest) == rest
  {
    var s := blanks + rest;
    if blanks == "" {
      assert s == rest;
    } else {
      BlanksSkipped(blanks[1..], rest);
      assert s[0] == blanks[0] && s[1..] == blanks[1..] + rest;
    }
  }

  /**
   * A length is read if it is digits, after blanks and a sign, and neither above the limit nor, but
   * for zero, negative.
   */
  lemma {:induction false} SizeMeans(blanks: string, sign: string, digits: string)
    requires forall k :: 0 <= k < |blanks| ==> Blank(blanks[k])
    requires sign == "" || sign == "+" || sign == "-"
    requires sign == "" && digits != "" ==> !Blank(digits[0]) && digits[0] != '+' && digits[0] != '-'
    requires '\0' !in digits
    ensures ParseSize(blanks + sign + digits) ==
            if digits == "" || !AllDigits(digits) then None
            else if Number(digits, 0) > 9223372036854775807 || (sign == "-" && Number(digits, 0) > 0) then None
            else Some(Number(digits, 0))
  {
    hide Find, DecimalValue, Number, SkipSpaces;
    var all, s := blanks + sign + digits, sign + digits;
    assert forall k :: 0 <= k < |all| ==> all[k] in blanks || all[k] in sign || all[k] in digits;
    FindIs(all, '\0', |all|);
    assert CString(all) == all;
    assert all == blanks + s;
    BlanksSkipped(blanks, s);
    ValueIsNumber(digits);
    assert sign != "" ==> s[0] == sign[0] && s[1..] == digits;
    assert sign == "" ==> s == digits;
  }

  /** What comes after a NUL does not count. */
  lemma {:induction false} SizeEndsAtNul(s: string, t: string)
    requires '\0' !in s
    ensures ParseSize(s + "\0" + t) == ParseSize(s)
  {
    hide Find, DecimalValue, SkipSpaces;
    FindIs(s, '\0', |s|);
    FindIs(s + "\0" + t, '\0', |s|);
    assert (s + "\0" + t)[..|s|] == s == s[..|s|];
  }

  // -------------------------------------------------------------------- what is refused

  /** A line that is neither the terminator nor begins a record; and a text that ends before its line does. */
  lemma {:induction false} LineRefused(line: string, rest: string, terminator: Option<string>, incremental: bool)
    requires '\n' !in line && '\0' !in line && terminator != Some(line)
    ensures !(|line| > 2 && line[0] == 'K' && line[1] == ' ') &&
            !(incremental && |line| > 2 && line[0] == 'D' && line[1] == ' ') ==>
              ReadEntry(line + "\n" + rest, terminator, incremental) == Malformed
    ensures line != "" || terminator.Some? ==> ReadEntry(line, terminator, incremental) == Malformed
  {
    hide Find, ParseSize, ReadKey, ReadValue;
    ReadOwnLine(line, rest);
    FindIs(line, '\n', |line|);
    FindIs(line, '\0', |line|);
    assert line[..|line|] == line;
  }

  /** A key whose length is no number, or that is not followed by a newline. */
  lemma {:induction false} KeyRefused(
      kind: char, size: string, key: string, x: char, rest: string, terminator: Option<string>, incremental: bool)
    requires kind == 'K' || (kind == 'D' && incremental)
    requires size != "" && '\n' !in size && '\0' !in size && terminator != Some([kind] + " " + size)
    ensures ParseSize(size).None? ==>
              ReadEntry([kind] + " " + size + "\n" + rest, terminator, incremental) == Malformed
    ensures ParseSize(size) == Some(|key|) && x != '\n' ==>
              ReadEntry([kind] + " " + size + "\n" + (key + [x] + rest), terminator, incremental) == Malformed
  {
    hide Find, ParseSize, ReadValue, ReadLine;
    var line, more := [kind] + " " + size, key + [x] + rest;
    ReadOwnLine(line, rest);
    ReadOwnLine(line, more);
    FindIs(line, '\0', |line|);
    assert line[..|line|] == line && line[2..] == size;
    assert more[..|key|] == key && more[|key|..] == [x] + rest;
  }

  /** After a good key, a line that does not give a length, or a value not followed by a newline. */
  lemma {:induction false} ValueRefused(
      key: string, line: string, value: string, x: char, rest: string, terminator: Option<string>, incremental: bool)
    requires |key| <= INT64_MAX && '\0' !in key && '\n' !in line
    requires terminator != Some("K " + Decimal(|key|))
    ensures var head := "K " + Decimal(|key|) + "\n" + key + "\n";
            && (!(|line| >= 2 && line[0] == 'V' && line[1] == ' ') || ParseSize(line[2..]).None? ==>
                  ReadEntry(head + (line + "\n" + rest), terminator, incremental) == Malformed)
            && (|line| >= 2 && ParseSize(line[2..]) == Some(|value|) && x != '\n' ==>
                  ReadEntry(head + (line + "\n" + (value + [x] + rest)), terminator, incremental) == Malformed)
  {
    hide Find, ParseSize, ReadLine, Decimal, ReadValue;
    ValueOf(line, rest);
    ValueOf(line, value + [x] + rest);
    AfterKey(key, line + "\n" + rest, terminator, incremental);
    AfterKey(key, line + "\n" + (value + [x] + rest), terminator, incremental);
    assert (value + [x] + rest)[..|value|] == value && (value + [x] + rest)[|value|..] == [x] + rest;
  }

  lemma {:induction false} ValueOf(line: string, rest: string)
    requires '\n' !in line
    ensures ReadValue(line + "\n" + rest) == ValueAfter(Line(line, rest, false))
  {
    hide ReadLine, ValueAfter;
    ReadOwnLine(line, rest);
  }

  /** A good key leaves the reading of the entry to its value. */
  lemma {:induction false} AfterKey(key: string, rest: string, terminator: Option<string>, incremental: bool)
    requires |key| <= INT64_MAX && '\0' !in key && terminator != Some("K " + Decimal(|key|))
    ensures ReadEntry("K " + Decimal(|key|) + "\n" + key + "\n" + rest, terminator, incremental) ==
            match ReadValue(rest)
            case None => Malformed
            case Some(value) => Found(Put(key, value.data), value.rest)
  {
    hide Find, ParseSize, ReadLine, Decimal, ReadValue;
    var line, more := "K " + Decimal(|key|), key + "\n" + rest;
    HeaderFacts(Put(key, ""));
    ReadOwnLine(line, more);
    SizeReads(|key|);
    assert "K " + Decimal(|key|) + "\n" + key + "\n" + rest == line + "\n" + more;
    assert line[2..] == Decimal(|key|);
    assert more[..|key|] == key && more[|key|..] == "\n" + rest;
    assert ("\n" + rest)[1..] == rest;
  }
}
