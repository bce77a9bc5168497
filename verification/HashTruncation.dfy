/** What is made of a dump that has lost its end. */
module HashTruncation {
  import opened Common
  import opened HashDump
  import opened HashRoundTrip

  // ------------------------------------------------------------- cuts in one record

  lemma CutLine(line: string, tail: string, cut: nat)
    requires OneLine(line) && cut <= |line| + 1 + |tail|
    ensures cut <= |line| ==> ReadLine((line + "\n" + tail)[..cut]) == Line(line[..cut], "", true)
    ensures cut > |line| ==>
              ReadLine((line + "\n" + tail)[..cut]) == Line(line, tail[..cut - |line| - 1], false)
  {
    var s := line + "\n" + tail;
    if cut <= |line| {
      assert s[..cut] == line[..cut];
      FindIs(line[..cut], '\n', cut);
      assert line[..cut][..cut] == line[..cut];
    } else {
      assert s[..cut] == line + "\n" + tail[..cut - |line| - 1];
      ReadOwnLine(line, tail[..cut - |line| - 1]);
    }
  }

  lemma {:induction false} CutKey(key: string, tail: string, cut: nat)
    requires |key| <= INT64_MAX && cut <= |key| + 1 + |tail|
    ensures var r := ReadKey((key + "\n" + tail)[..cut], ParseSize(Decimal(|key|)));
            if cut <= |key| then r.None? else r == Some(Chunk(key, tail[..cut - |key| - 1]))
  {
    hide Decimal, ParseSize;
    SizeReads(|key|);
    var s := key + "\n" + tail;
    if cut > |key| {
      assert s[..cut] == key + "\n" + tail[..cut - |key| - 1];
      ReadOwnKey(key, tail[..cut - |key| - 1]);
    }
  }

  /** The first digits of a number stand for no more than the number. */
  lemma {:induction false} FirstDigits(n: nat, k: nat) returns (m: nat)
    requires 1 <= k <= |Decimal(n)|
    ensures m <= n && DecimalValue(Decimal(n)[..k]) == Some(m)
  {
    DecimalReads(n);
    if k == |Decimal(n)| {
      m := n;
      assert Decimal(n)[..k] == Decimal(n);
    } else {
      m := FirstDigits(n / 10, k);
      assert Decimal(n)[..k] == Decimal(n / 10)[..k];
    }
  }

  /** A length is read once its first digit is there. */
  lemma {:induction false} CutSize(n: nat, k: nat)
    requires n <= INT64_MAX && k <= |Decimal(n)|
    ensures ParseSize(Decimal(n)[..k]).Some? <==> k > 0
  {
    hide Decimal, DecimalValue;
    DecimalReads(n);
    if k > 0 {
      var m := FirstDigits(n, k);
      DigitsParse(Decimal(n)[..k], m);
    } else {
      assert Decimal(n)[..0] == "";
      FindIs("", '\0', 0);
    }
  }

  /** The line that announces a value. */
  function ValueHeader(value: string): string {
    "V " + Decimal(|value|)
  }

  function ValueText(value: string): string {
    ValueHeader(value) + "\n" + (value + "\n")
  }

  /** What is left of a value when its text is cut: nothing, if its length line is cut. */
  function ShortValue(value: string, cut: nat): string {
    if cut <= |ValueHeader(value)| then "" else value[..Min(|value|, cut - |ValueHeader(value)| - 1)]
  }

  /** A value cut short is read, as what is left of it, once the first digit of its length is there. */
  lemma CutValue(value: string, cut: nat)
    requires |value| <= INT64_MAX && cut < |ValueText(value)|
    ensures ReadValue(ValueText(value)[..cut]) ==
            if cut < 3 then None else Some(Chunk(ShortValue(value, cut), ""))
  {
    hide Decimal, ParseSize, Find, ReadLine;
    var line, tail := ValueHeader(value), value + "\n";
    ValueLine(|value|, "");
    DecimalReads(|value|);
    assert OneLine(line) by {
      assert forall k :: 2 <= k < |line| ==> line[k] == Decimal(|value|)[k - 2];
    }
    CutLine(line, tail, cut);
    if cut <= |line| {
      if cut >= 2 {
        assert line[..cut][2..] == Decimal(|value|)[..cut - 2];
        CutSize(|value|, cut - 2);
      }
    } else {
      SizeReads(|value|);
      assert tail[..cut - |line| - 1] == value[..cut - |line| - 1];
    }
  }

  /** Where in the text of a record the text of its value begins. */
  function ValueStart(change: Change): nat {
    |Header(change)| + 1 + |change.key| + 1
  }

  lemma PutText(change: Change)
    requires change.Put?
    ensures Body(change) == change.key + "\n" + ValueText(change.value)
    ensures |Record(change)| == ValueStart(change) + |ValueText(change.value)|
  {
    hide Decimal;
  }

  lemma RemoveText(change: Change)
    requires change.Remove?
    ensures Body(change) == change.key + "\n" + "" && |Record(change)| == ValueStart(change)
  {
    hide Decimal;
  }

  /** Past its header line, a record that is cut is read only if its value begins to be. */
  lemma CutBody(change: Change, cut: nat)
    requires Storable(change) && |Header(change)| < cut < |Record(change)|
    ensures var key := ReadKey(Body(change)[..cut - |Header(change)| - 1], ParseSize(Decimal(|change.key|)));
            if change.Remove? || cut < ValueStart(change) + 3
            then key.None? || (change.Put? && ReadValue(key.value.rest).None?)
            else key.Some? && key.value.data == change.key &&
                 ReadValue(key.value.rest) == Some(Chunk(ShortValue(change.value, cut - ValueStart(change)), ""))
  {
    hide Decimal, ParseSize, ReadKey, ReadValue, ValueText, ShortValue, Header;
    var m := cut - |Header(change)| - 1;
    if change.Put? {
      PutText(change);
      CutKey(change.key, ValueText(change.value), m);
      if m > |change.key| {
        CutValue(change.value, m - |change.key| - 1);
      }
    } else {
      RemoveText(change);
      CutKey(change.key, "", m);
    }
  }

  lemma RecordParts(change: Change)
    ensures Record(change) == Header(change) + "\n" + Body(change)
  {
  }

  // -------------------------------------------------------------- with a terminator

  /** A record that is cut ends the reading with an error, unless what is left of it is the terminator. */
  lemma CutRecord(change: Change, cut: nat, terminator: string, incremental: bool)
    requires Storable(change) && cut < |Record(change)| && !(terminator <= Header(change))
    ensures var e := ReadEntry(Record(change)[..cut], Some(terminator), incremental);
            e.Malformed? || (e.Found? && e.rest == "")
  {
    hide Body, Decimal, ParseSize, ReadLine, ReadKey, ReadValue, Find, Header, ShortValue;
    var h, b := Header(change), Body(change);
    HeaderFacts(change);
    RecordParts(change);
    CutLine(h, b, cut);
    if cut <= |h| {
      CutHeader(change, cut);
    } else {
      CutBody(change, cut);
    }
  }

  lemma CutHeader(change: Change, cut: nat)
    requires cut <= |Header(change)|
    ensures CString(Header(change)[..cut]) == Header(change)[..cut] <= Header(change)
  {
    hide Header, Find;
    var h := Header(change);
    HeaderFacts(change);
    assert |CString(h)| == Find(h, '\0') == |h|;
    FindIs(h[..cut], '\0', cut);
    assert h[..cut][..cut] == h[..cut];
  }

  /** A terminator that is one line and a C string. */
  predicate Plain(terminator: string) {
    OneLine(terminator) && '\0' !in terminator
  }

  /** No record's header line begins with the terminator. */
  ghost predicate Distinct(changes: seq<Change>, terminator: string) {
    forall i :: 0 <= i < |changes| ==> !(terminator <= Header(changes[i]))
  }

  lemma {:induction false} CutIsRefused(
      table: Table, changes: seq<Change>, cut: nat, terminator: string, incremental: bool)
    requires AllStorable(changes, incremental) && Plain(terminator) && Distinct(changes, terminator)
    requires cut < |Records(changes) + terminator|
    ensures !ReadTable(table, (Records(changes) + terminator)[..cut], Some(terminator), incremental).ok
    decreases |changes|
  {
    hide Header, Record, ReadEntry, Apply;
    var s := (Records(changes) + terminator)[..cut];
    if changes == [] {
      assert s == terminator[..cut];
      CutTerminator(terminator, cut, incremental);
    } else {
      var first, rest := Record(changes[0]), Records(changes[1..]) + terminator;
      assert !(terminator <= Header(changes[0]));
      assert Records(changes) + terminator == first + rest;
      NothingLeft(terminator, incremental);
      if cut < |first| {
        assert s == first[..cut];
        CutRecord(changes[0], cut, terminator, incremental);
      } else {
        var tail := rest[..cut - |first|];
        assert s == first + tail;
        ReadOwnRecord(changes[0], tail, Some(terminator), incremental);
        CutIsRefused(Apply(table, changes[0]), changes[1..], cut - |first|, terminator, incremental);
      }
    }
  }

  lemma NothingLeft(terminator: string, incremental: bool)
    requires terminator != ""
    ensures ReadEntry("", Some(terminator), incremental).Malformed?
  {
    assert CString("") == "";
  }

  lemma CutTerminator(terminator: string, cut: nat, incremental: bool)
    requires Plain(terminator) && cut < |terminator|
    ensures ReadEntry(terminator[..cut], Some(terminator), incremental).Malformed?
  {
    hide Find;
    FindIs(terminator[..cut], '\n', cut);
    FindIs(terminator[..cut], '\0', cut);
    assert terminator[..cut][..cut] == terminator[..cut];
  }

  /** Where the header line of a record begins with the terminator, a cut after that is taken for the end. */
  lemma {:induction false} CutIsTaken(
      table: Table, changes: seq<Change>, i: nat, terminator: string, incremental: bool) returns (cut: nat)
    requires AllStorable(changes, incremental) && i < |changes| && terminator <= Header(changes[i])
    ensures cut < |Records(changes) + terminator|
    ensures ReadTable(table, (Records(changes) + terminator)[..cut], Some(terminator), incremental).ok
    decreases |changes|
  {
    hide Header, Record, ReadEntry, Apply;
    var first, rest := Record(changes[0]), Records(changes[1..]) + terminator;
    var all := Records(changes) + terminator;
    assert all == first + rest;
    RecordParts(changes[0]);
    if terminator <= Header(changes[0]) {
      cut := |terminator|;
      assert all[..cut] == terminator == Header(changes[0])[..cut];
      EndsAtOnce(changes[0], cut, incremental);
    } else {
      var c := CutIsTaken(Apply(table, changes[0]), changes[1..], i - 1, terminator, incremental);
      cut := |first| + c;
      assert all[..cut] == first + rest[..c];
      ReadOwnRecord(changes[0], rest[..c], Some(terminator), incremental);
    }
  }

  lemma EndsAtOnce(change: Change, cut: nat, incremental: bool)
    requires cut <= |Header(change)|
    ensures var text := Header(change)[..cut]; ReadEntry(text, Some(text), incremental) == End("")
  {
    hide Header, Find;
    HeaderFacts(change);
    CutHeader(change, cut);
    var text := Header(change)[..cut];
    FindIs(text, '\n', cut);
    assert text[..cut] == text;
  }

  /**
   * Every dump that has lost more than its last newline is refused, if and only if no header line
   * of a record begins with the terminator.
   */
  lemma TruncationDetected(table: Table, changes: seq<Change>, terminator: string, incremental: bool)
    requires AllStorable(changes, incremental) && Plain(terminator)
    ensures (forall cut: nat | cut < |Records(changes) + terminator| ::
               !ReadTable(table, (Records(changes) + terminator)[..cut], Some(terminator), incremental).ok)
            <==> Distinct(changes, terminator)
  {
    hide Records, ReadTable, Header, AllStorable;
    if Distinct(changes, terminator) {
      forall cut: nat | cut < |Records(changes) + terminator|
        ensures !ReadTable(table, (Records(changes) + terminator)[..cut], Some(terminator), incremental).ok
      {
        CutIsRefused(table, changes, cut, terminator, incremental);
      }
    } else {
      var i :| 0 <= i < |changes| && terminator <= Header(changes[i]);
      var cut := CutIsTaken(table, changes, i, terminator, incremental);
    }
  }

  // ------------------------------------------------------------ without a terminator

  /** The cut is between two records, or in a value once the first digit of its length is there. */
  predicate CutAccepted(changes: seq<Change>, cut: nat)
    decreases |changes|
  {
    cut == 0 ||
    (changes != [] &&
     if cut < |Record(changes[0])| then changes[0].Put? && cut >= ValueStart(changes[0]) + 3
     else CutAccepted(changes[1..], cut - |Record(changes[0])|))
  }

  /** The changes that are left at such a cut, the last of them perhaps with a shorter value. */
  function CutChanges(changes: seq<Change>, cut: nat): seq<Change>
    decreases |changes|
  {
    if cut == 0 || changes == [] then []
    else if cut < |Record(changes[0])| then
      if changes[0].Remove? || cut < ValueStart(changes[0]) then []
      else [Put(changes[0].key, ShortValue(changes[0].value, cut - ValueStart(changes[0])))]
    else [changes[0]] + CutChanges(changes[1..], cut - |Record(changes[0])|)
  }

  lemma CutRecordAtEnd(change: Change, cut: nat, incremental: bool)
    requires Storable(change) && 0 < cut < |Record(change)| && (change.Remove? ==> incremental)
    ensures ReadEntry(Record(change)[..cut], None, incremental) ==
            if change.Remove? || cut < ValueStart(change) + 3 then Malformed
            else Found(Put(change.key, ShortValue(change.value, cut - ValueStart(change))), "")
  {
    hide Body, Decimal, ParseSize, ReadLine, ReadKey, ReadValue, Find, Header, ShortValue;
    HeaderFacts(change);
    RecordParts(change);
    CutLine(Header(change), Body(change), cut);
    if cut > |Header(change)| {
      CutBody(change, cut);
    }
  }

  lemma {:induction false} NoMore(table: Table, incremental: bool)
    ensures ReadTable(table, "", None, incremental) == Reading(table, "", true)
  {
    ReadEnding(table, None, "", incremental);
    assert Ending(None) + "" == "";
  }

  /**
   * Without a terminator a dump cut anywhere is read as what is left of it exactly if the cut is
   * between records, or inside a value whose length has begun; elsewhere it is refused.
   */
  lemma {:induction false} TruncationMissed(table: Table, changes: seq<Change>, cut: nat, incremental: bool)
    requires AllStorable(changes, incremental) && cut <= |Records(changes)|
    ensures var r := ReadTable(table, Records(changes)[..cut], None, incremental);
            if CutAccepted(changes, cut) then r == Reading(ApplyAll(table, CutChanges(changes, cut)), "", true)
            else !r.ok
    decreases |changes|
  {
    hide Header, Record, ReadEntry, Apply, ApplyAll, ShortValue, ValueStart;
    var s := Records(changes)[..cut];
    ApplyNone(table);
    if cut == 0 {
      assert s == "";
      NoMore(table, incremental);
    } else {
      var change, first, rest := changes[0], Record(changes[0]), Records(changes[1..]);
      assert Records(changes) == first + rest;
      if cut < |first| {
        assert s == first[..cut];
        CutRecordAtEnd(change, cut, incremental);
        if CutAccepted(changes, cut) {
          var e := ReadEntry(s, None, incremental);
          NoMore(Apply(table, e.change), incremental);
          assert CutChanges(changes, cut) == [e.change];
          ApplyFirst(table, [e.change]);
          ApplyNone(Apply(table, e.change));
          assert [e.change][1..] == [];
        }
      } else {
        var c := cut - |first|;
        assert s == first + rest[..c];
        ReadOwnRecord(change, rest[..c], None, incremental);
        TruncationMissed(Apply(table, change), changes[1..], c, incremental);
        var left := CutChanges(changes[1..], c);
        ApplyFirst(table, [change] + left);
        assert ([change] + left)[1..] == left;
      }
    }
  }
}
