/** What reading back a dump yields. */
module HashRoundTrip {
  import opened Common
  import opened PathOrder
  import opened HashDump

  // ------------------------------------------------------------------ numbers

  lemma {:induction false} DecimalReads(n: nat)
    ensures |Decimal(n)| >= 1 && forall k :: 0 <= k < |Decimal(n)| ==> IsDigit(Decimal(n)[k])
    ensures DecimalValue(Decimal(n)) == Some(n)
  {
    var digit := ['0' + (n % 10) as char];
    assert Init(digit) == "" && Last(digit) == digit[0];
    assert DecimalValue("") == Some(0);
    if n >= 10 {
      DecimalReads(n / 10);
      assert Init(Decimal(n / 10) + digit) == Decimal(n / 10);
    }
  }

  lemma {:induction false} FindIs(s: string, c: char, n: nat)
    requires n <= |s| && (forall k :: 0 <= k < n ==> s[k] != c) && (n < |s| ==> s[n] == c)
    ensures Find(s, c) == n
  {
    hide Find;
    var i := Find(s, c);
  }

  /** Digits alone are parsed as the number they stand for, if it is not too large. */
  lemma {:induction false} DigitsParse(s: string, n: nat)
    requires s != "" && (forall k :: 0 <= k < |s| ==> IsDigit(s[k])) && DecimalValue(s) == Some(n) && n <= INT64_MAX
    ensures ParseSize(s) == Some(n)
  {
    hide DecimalValue, Find;
    FindIs(s, '\0', |s|);
    assert s[..|s|] == s;
    assert IsDigit(s[0]);
    assert SkipSpaces(s) == s;
  }

  /** A length that was printed is parsed back. */
  lemma {:induction false} SizeReads(n: nat)
    requires n <= INT64_MAX
    ensures ParseSize(Decimal(n)) == Some(n)
  {
    hide Decimal, DecimalValue, ParseSize;
    DecimalReads(n);
    DigitsParse(Decimal(n), n);
  }

  // -------------------------------------------------------------------- lines

  predicate OneLine(s: string) {
    '\n' !in s
  }

  lemma ReadOwnLine(line: string, tail: string)
    requires OneLine(line)
    ensures ReadLine(line + "\n" + tail) == Line(line, tail, false)
  {
    hide Find;
    var s := line + "\n" + tail;
    FindIs(s, '\n', |line|);
    assert s[..|line|] == line && s[|line| + 1..] == tail;
  }

  lemma ReadOwnChunk(data: string, tail: string)
    ensures ReadFull(data + tail, |data|) == Chunk(data, tail)
  {
    assert (data + tail)[..|data|] == data && (data + tail)[|data|..] == tail;
  }

  // ------------------------------------------------------------------ records

  /** A key is a C string, and a length fits the integer type it is parsed with. */
  predicate Storable(change: Change) {
    && '\0' !in change.key
    && |change.key| <= INT64_MAX
    && (change.Put? ==> |change.value| <= INT64_MAX)
  }

  lemma HeaderFacts(change: Change)
    ensures OneLine(Header(change)) && CString(Header(change)) == Header(change)
    ensures StartsRecord(Header(change), if change.Put? then 'K' else 'D')
    ensures Header(change)[2..] == Decimal(|change.key|)
  {
    hide Decimal, Find;
    DecimalReads(|change.key|);
    var h := Header(change);
    assert forall k :: 2 <= k < |h| ==> h[k] == Decimal(|change.key|)[k - 2];
    FindIs(h, '\0', |h|);
    assert h[..|h|] == h;
  }

  lemma {:induction false} ReadOwnKey(key: string, tail: string)
    requires |key| <= INT64_MAX
    ensures ReadKey(key + "\n" + tail, ParseSize(Decimal(|key|))) == Some(Chunk(key, tail))
  {
    hide Decimal, ParseSize;
    SizeReads(|key|);
    ReadOwnChunk(key, "\n" + tail);
    assert key + "\n" + tail == key + ("\n" + tail);
    assert ("\n" + tail)[1..] == tail;
  }

  lemma {:induction false} ValueLine(n: nat, tail: string)
    ensures ReadLine("V " + Decimal(n) + "\n" + tail) == Line("V " + Decimal(n), tail, false)
    ensures ("V " + Decimal(n))[2..] == Decimal(n)
  {
    hide Decimal, Find;
    DecimalReads(n);
    var line := "V " + Decimal(n);
    assert forall k :: 2 <= k < |line| ==> line[k] == Decimal(n)[k - 2];
    ReadOwnLine(line, tail);
  }

  lemma {:induction false} ValueAfterLine(line: Line, value: string, tail: string)
    requires |value| <= INT64_MAX
    requires |line.text| >= 2 && line.text[0] == 'V' && line.text[1] == ' '
    requires line.text[2..] == Decimal(|value|) && line.rest == value + "\n" + tail
    ensures ValueAfter(line) == Some(Chunk(value, tail))
  {
    hide Decimal, ParseSize;
    assert line.rest == value + ("\n" + tail);
    SizeReads(|value|);
    ReadOwnChunk(value, "\n" + tail);
    assert ("\n" + tail)[1..] == tail;
  }

  lemma {:induction false} ReadOwnValue(value: string, tail: string)
    requires |value| <= INT64_MAX
    ensures ReadValue("V " + Decimal(|value|) + "\n" + (value + "\n" + tail)) == Some(Chunk(value, tail))
  {
    hide Decimal, ReadLine, ValueAfter;
    ValueLine(|value|, value + "\n" + tail);
    ValueAfterLine(Line("V " + Decimal(|value|), value + "\n" + tail, false), value, tail);
  }

  /** The first line of a record is its header, whatever is in the key and the value. */
  lemma RecordLine(change: Change, tail: string)
    ensures ReadLine(Record(change) + tail) == Line(Header(change), Body(change) + tail, false)
  {
    hide Header, Body, ReadLine;
    HeaderFacts(change);
    ReadOwnLine(Header(change), Body(change) + tail);
    assert Record(change) + tail == Header(change) + "\n" + (Body(change) + tail);
  }

  lemma PutBody(change: Change, tail: string)
    requires change.Put? && Storable(change)
    ensures ReadKey(Body(change) + tail, ParseSize(Decimal(|change.key|))) ==
            Some(Chunk(change.key, "V " + Decimal(|change.value|) + "\n" + (change.value + "\n" + tail)))
  {
    hide Decimal, ParseSize, ReadKey;
    var rest := "V " + Decimal(|change.value|) + "\n" + (change.value + "\n" + tail);
    ReadOwnKey(change.key, rest);
    assert Body(change) + tail == change.key + "\n" + rest;
  }

  /** Unless its header reads as the terminator, a record is read back with what follows untouched. */
  lemma ReadOwnRecord(change: Change, tail: string, terminator: Option<string>, incremental: bool)
    requires Storable(change) && (change.Remove? ==> incremental)
    ensures ReadEntry(Record(change) + tail, terminator, incremental) ==
            if terminator == Some(Header(change)) then End(Body(change) + tail) else Found(change, tail)
  {
    hide Header, Body, Record, Decimal, ParseSize, ReadLine, CString, ReadKey, ReadValue;
    RecordLine(change, tail);
    HeaderFacts(change);
    if terminator != Some(Header(change)) {
      if change.Put? {
        PutBody(change, tail);
        ReadOwnValue(change.value, tail);
      } else {
        ReadOwnKey(change.key, tail);
        RemoveBody(change, tail);
      }
    }
  }

  lemma RemoveBody(change: Change, tail: string)
    requires change.Remove?
    ensures Body(change) + tail == change.key + "\n" + tail
  {
  }

  // -------------------------------------------------------------------- dumps

  /** The index of the first change whose header reads as the terminator. */
  function FirstMistaken(changes: seq<Change>, terminator: Option<string>): (n: nat)
    ensures n <= |changes|
    ensures n < |changes| ==> terminator == Some(Header(changes[n]))
    ensures forall i :: 0 <= i < n ==> terminator != Some(Header(changes[i]))
  {
    if changes == [] || terminator == Some(Header(changes[0])) then 0
    else 1 + FirstMistaken(changes[1..], terminator)
  }

  ghost predicate AllStorable(changes: seq<Change>, incremental: bool) {
    forall i :: 0 <= i < |changes| ==> Storable(changes[i]) && (changes[i].Remove? ==> incremental)
  }

  lemma {:induction false} ApplyFirst(table: Table, changes: seq<Change>)
    requires changes != []
    ensures ApplyAll(table, changes) == ApplyAll(Apply(table, changes[0]), changes[1..])
  {
    hide Apply;
    if |changes| == 1 {
      assert Init(changes) == [] && changes[1..] == [];
    } else {
      ApplyFirst(table, Init(changes));
      assert Init(changes)[1..] == Init(changes[1..]) && Init(changes)[0] == changes[0];
      assert Last(changes[1..]) == Last(changes);
    }
  }

  /** Records are read one by one until one of their headers reads as the terminator. */
  lemma {:induction false} ReadRecords(
      table: Table, changes: seq<Change>, tail: string, terminator: Option<string>, incremental: bool)
    requires AllStorable(changes, incremental)
    ensures var n := FirstMistaken(changes, terminator);
            n == |changes| ==>
              ReadTable(table, Records(changes) + tail, terminator, incremental) ==
              ReadTable(ApplyAll(table, changes), tail, terminator, incremental)
    ensures var n := FirstMistaken(changes, terminator);
            n < |changes| ==>
              ReadTable(table, Records(changes) + tail, terminator, incremental).ok &&
              ReadTable(table, Records(changes) + tail, terminator, incremental).table == ApplyAll(table, changes[..n])
    decreases |changes|
  {
    hide Header, Body, Record, ReadEntry, Apply, ApplyAll;
    if changes == [] {
      assert Records(changes) + tail == tail;
      ApplyNone(table);
    } else {
      var rest := Records(changes[1..]) + tail;
      assert Records(changes) + tail == Record(changes[0]) + rest;
      ReadOwnRecord(changes[0], rest, terminator, incremental);
      var n := FirstMistaken(changes, terminator);
      if n == 0 {
        assert changes[..0] == [];
        ApplyNone(table);
      } else {
        ReadRecords(Apply(table, changes[0]), changes[1..], tail, terminator, incremental);
        ApplyFirst(table, changes);
        ApplyFirst(table, changes[..n]);
        assert changes[..n][1..] == changes[1..][..n - 1];
      }
    }
  }

  lemma {:induction false} ApplyNone(table: Table)
    ensures ApplyAll(table, []) == table
  {
  }

  /** The terminator line ends the dump, with what follows it unread. */
  lemma {:induction false} ReadEnding(table: Table, terminator: Option<string>, tail: string, incremental: bool)
    requires terminator.Some? ==> OneLine(terminator.value) && '\0' !in terminator.value
    requires terminator.None? ==> tail == ""
    ensures ReadTable(table, Ending(terminator) + tail, terminator, incremental) == Reading(table, tail, true)
  {
    hide Find;
    if terminator.Some? {
      ReadOwnLine(terminator.value, tail);
      FindIs(terminator.value, '\0', |terminator.value|);
      assert terminator.value[..|terminator.value|] == terminator.value;
    } else {
      assert Ending(terminator) + tail == "";
      FindIs("", '\n', 0);
    }
  }

  /** A terminator of several lines is never recognised. */
  lemma {:induction false} NeverEnds(table: Table, s: string, terminator: string, incremental: bool)
    requires !OneLine(terminator)
    ensures !ReadTable(table, s, Some(terminator), incremental).ok
    decreases |s|
  {
    hide ReadKey, ReadValue, ParseSize, Apply;
    var line := ReadLine(s);
    assert OneLine(CString(line.text));
    var e := ReadEntry(s, Some(terminator), incremental);
    if e.Found? {
      NeverEnds(Apply(table, e.change), e.rest, terminator, incremental);
    }
  }

  // ---------------------------------------------------- what the changes amount to

  function Base(prev: Option<Table>): Table {
    if prev.None? then map[] else prev.value
  }

  predicate AgreeAt(a: Table, b: Table, key: string) {
    (key in a <==> key in b) && (key in a && key in b ==> a[key] == b[key])
  }

  lemma {:induction false} ApplyBoth(table: Table, a: seq<Change>, b: seq<Change>)
    ensures ApplyAll(table, a + b) == ApplyAll(ApplyAll(table, a), b)
  {
    hide Apply;
    if b == [] {
      assert a + b == a;
    } else {
      ApplyBoth(table, a, Init(b));
      assert Init(a + b) == a + Init(b) && Last(a + b) == Last(b);
    }
  }

  /** Changes to other keys leave a key alone. */
  lemma {:induction false} OtherKeys(table: Table, changes: seq<Change>, key: string)
    requires forall i :: 0 <= i < |changes| ==> changes[i].key != key
    ensures AgreeAt(ApplyAll(table, changes), table, key)
  {
    if changes != [] {
      OtherKeys(table, Init(changes), key);
    }
  }

  lemma {:induction false} PutsApplied(base: Table, hash: Table, prev: Option<Table>, list: seq<string>)
    requires (forall k :: k in list ==> k in hash) && base == Base(prev)
    ensures forall k :: AgreeAt(ApplyAll(base, Puts(hash, prev, list)), if k in list then hash else base, k)
  {
    if list != [] {
      var last := Last(list);
      PutsApplied(base, hash, prev, Init(list));
      assert list == Init(list) + [last];
      assert forall k :: k in list <==> k in Init(list) || k == last;
      forall k
        ensures AgreeAt(ApplyAll(base, Puts(hash, prev, list)), if k in list then hash else base, k)
      {
        assert AgreeAt(ApplyAll(base, Puts(hash, prev, Init(list))), if k in Init(list) then hash else base, k);
      }
    }
  }

  lemma {:induction false} RemovesApplied(base: Table, hash: Table, list: seq<string>)
    ensures forall k ::
      AgreeAt(ApplyAll(base, Removes(hash, list)), if k in list && k !in hash then map[] else base, k)
  {
    if list != [] {
      RemovesApplied(base, hash, Init(list));
      assert list == Init(list) + [Last(list)];
      assert forall k :: k in list <==> k in Init(list) || k == Last(list);
    }
  }

  lemma SameTable(a: Table, b: Table)
    requires forall k :: AgreeAt(a, b, k)
    ensures a == b
  {
    assert a.Keys == b.Keys by {
      forall k
        ensures k in a.Keys <==> k in b.Keys
      {
        assert AgreeAt(a, b, k);
      }
    }
    forall k | k in a
      ensures a[k] == b[k]
    {
      assert AgreeAt(a, b, k);
    }
  }

  /** The changes written lead from the old table, or from nothing, to the table dumped. */
  lemma ChangesDeliver(hash: Table, prev: Option<Table>, list: seq<string>, oldList: seq<string>)
    requires forall k :: k in list <==> k in hash
    requires forall k :: k in oldList <==> k in Base(prev)
    ensures ApplyAll(Base(prev), ChangesOf(hash, prev, list, oldList)) == hash
  {
    hide ApplyAll, Puts, Removes, AgreeAt;
    var base := Base(prev);
    var middle := ApplyAll(base, Puts(hash, prev, list));
    PutsApplied(base, hash, prev, list);
    RemovesApplied(middle, hash, oldList);
    ApplyBoth(base, Puts(hash, prev, list), Removes(hash, oldList));
    var end := ApplyAll(middle, Removes(hash, oldList));
    forall k
      ensures AgreeAt(end, hash, k)
    {
      assert AgreeAt(middle, if k in list then hash else base, k);
      assert AgreeAt(end, if k in oldList && k !in hash then map[] else middle, k);
      AgreeChain(end, middle, base, hash, k, k in oldList);
    }
    SameTable(end, hash);
  }

  lemma AgreeChain(end: Table, middle: Table, base: Table, hash: Table, k: string, wasThere: bool)
    requires wasThere <==> k in base
    requires AgreeAt(middle, if k in hash then hash else base, k)
    requires AgreeAt(end, if wasThere && k !in hash then map[] else middle, k)
    ensures AgreeAt(end, hash, k)
  {
  }

  // ------------------------------------------------- no change is for nothing

  ghost predicate Ascending(list: seq<string>) {
    forall i, j :: 0 <= i < j < |list| ==> NameLess(list[i], list[j])
  }

  /** The keys of the changes differ from one another, and the old table from the new one at each. */
  ghost predicate Effective(changes: seq<Change>, base: Table, hash: Table) {
    && (forall i :: 0 <= i < |changes| ==> !AgreeAt(base, hash, changes[i].key))
    && (forall i, j :: 0 <= i < j < |changes| ==> changes[i].key != changes[j].key)
  }

  lemma LastIsNew(list: seq<string>)
    requires Ascending(list) && list != []
    ensures Ascending(Init(list)) && Last(list) !in Init(list)
  {
    hide NameLess;
    if Last(list) in Init(list) {
      var i :| 0 <= i < |Init(list)| && Init(list)[i] == Last(list);
      NameOrder(list[i], list[|list| - 1], list[i]);
    }
  }

  lemma {:induction false} PutsEffective(hash: Table, prev: Option<Table>, list: seq<string>)
    requires Ascending(list) && forall k :: k in list ==> k in hash
    ensures Effective(Puts(hash, prev, list), Base(prev), hash)
    ensures KeysIn(Puts(hash, prev, list), list)
  {
    hide Ascending, Effective, KeysIn, AgreeAt;
    if list == [] {
      NoneEffective(Base(prev), hash);
    } else {
      var last := Last(list);
      LastIsNew(list);
      PutsEffective(hash, prev, Init(list));
      assert list == Init(list) + [last];
      ChangedDiffers(hash, prev, last);
      OneMoreEffective(Puts(hash, prev, Init(list)), Put(last, hash[last]), Base(prev), hash, Init(list));
    }
  }

  /** The keys of the changes are in the list. */
  ghost predicate KeysIn(changes: seq<Change>, list: seq<string>) {
    forall i :: 0 <= i < |changes| ==> changes[i].key in list
  }

  lemma NoneEffective(base: Table, hash: Table)
    ensures Effective([], base, hash) && KeysIn([], [])
  {
  }

  lemma ChangedDiffers(hash: Table, prev: Option<Table>, key: string)
    requires key in hash
    ensures !Unchanged(hash, prev, key) ==> !AgreeAt(Base(prev), hash, key)
  {
  }

  lemma OneMoreEffective(changes: seq<Change>, change: Change, base: Table, hash: Table, list: seq<string>)
    requires Effective(changes, base, hash) && KeysIn(changes, list) && change.key !in list
    ensures KeysIn(changes, list + [change.key]) && KeysIn(changes + [change], list + [change.key])
    ensures !AgreeAt(base, hash, change.key) ==> Effective(changes + [change], base, hash)
  {
    hide AgreeAt;
  }

  lemma {:induction false} RemovesEffective(hash: Table, base: Table, list: seq<string>)
    requires Ascending(list) && forall k :: k in list ==> k in base
    ensures Effective(Removes(hash, list), base, hash)
    ensures forall i :: 0 <= i < |Removes(hash, list)| ==>
              Removes(hash, list)[i].key in list && Removes(hash, list)[i].key !in hash
  {
    hide Ascending;
    if list != [] {
      var last := Last(list);
      LastIsNew(list);
      assert list == Init(list) + [last];
      assert last in list && forall k :: k in Init(list) ==> k in list;
      RemovesEffective(hash, base, Init(list));
    }
  }

  lemma ChangesEffective(hash: Table, prev: Option<Table>, list: seq<string>, oldList: seq<string>)
    requires Listing(list, hash.Keys) && Listing(oldList, Base(prev).Keys)
    requires forall k :: k in list <==> k in hash
    ensures Effective(ChangesOf(hash, prev, list, oldList), Base(prev), hash)
  {
    hide NameLess, Puts, Removes, AgreeAt;
    PutsEffective(hash, prev, list);
    RemovesEffective(hash, Base(prev), oldList);
  }

  /** Stopping before the last change leaves a table that is not the one dumped. */
  lemma {:induction false} StoppingShort(changes: seq<Change>, n: nat, base: Table, hash: Table)
    requires Effective(changes, base, hash) && n < |changes|
    ensures ApplyAll(base, changes[..n]) != hash
  {
    hide ApplyAll;
    OtherKeys(base, changes[..n], changes[n].key);
  }

  // ------------------------------------------------------------ the round trip

  /** The terminator is one line and not the header line of any record written. */
  ghost predicate Recognisable(terminator: Option<string>, changes: seq<Change>) {
    terminator.Some? ==>
      OneLine(terminator.value) && forall i :: 0 <= i < |changes| ==> terminator.value != Header(changes[i])
  }

  /**
   * Reading a dump into the old table gives the table dumped, and leaves what follows unread,
   * exactly when the terminator can be told from the records. Values may hold any bytes.
   */
  lemma {:induction false} DumpRoundTrip(
      hash: Table, prev: Option<Table>, list: seq<string>, oldList: seq<string>,
      terminator: Option<string>, tail: string, incremental: bool)
    requires Listing(list, hash.Keys) && Listing(oldList, Base(prev).Keys)
    requires forall k :: k in list <==> k in hash
    requires AllStorable(ChangesOf(hash, prev, list, oldList), incremental)
    requires terminator.Some? ==> '\0' !in terminator.value
    requires terminator.None? ==> tail == ""
    ensures var changes := ChangesOf(hash, prev, list, oldList);
            var r := ReadTable(Base(prev), Records(changes) + (Ending(terminator) + tail), terminator, incremental);
            (r.ok && r.table == hash <==> Recognisable(terminator, changes)) &&
            (Recognisable(terminator, changes) ==> r.rest == tail)
  {
    hide Header, Records, ReadTable, Listing, ApplyAll, Effective, AllStorable, ChangesOf;
    var changes := ChangesOf(hash, prev, list, oldList);
    var ending := Ending(terminator) + tail;
    var n := FirstMistaken(changes, terminator);
    ListingHas(oldList, Base(prev).Keys);
    ReadRecords(Base(prev), changes, ending, terminator, incremental);
    ChangesDeliver(hash, prev, list, oldList);
    ChangesEffective(hash, prev, list, oldList);
    if n < |changes| {
      StoppingShort(changes, n, Base(prev), hash);
    } else if terminator.Some? && !OneLine(terminator.value) {
      NeverEnds(Base(prev), Records(changes) + ending, terminator.value, incremental);
    } else {
      ReadEnding(hash, terminator, tail, incremental);
    }
  }

  /** What is written of a key, if it has changed. */
  predicate Changes(change: Change, hash: Table, prev: Option<Table>) {
    if change.Put? then change.key in hash && change.value == hash[change.key] && !Unchanged(hash, prev, change.key)
    else change.key in Base(prev) && change.key !in hash
  }

  lemma {:induction false} PutsAre(hash: Table, prev: Option<Table>, list: seq<string>, change: Change)
    requires forall k :: k in list ==> k in hash
    ensures change in Puts(hash, prev, list) <==>
            change.Put? && change.key in list && change.value == hash[change.key] && !Unchanged(hash, prev, change.key)
  {
    if list != [] {
      PutsAre(hash, prev, Init(list), change);
      assert list == Init(list) + [Last(list)];
    }
  }

  lemma {:induction false} RemovesAre(hash: Table, list: seq<string>, change: Change)
    ensures change in Removes(hash, list) <==> change.Remove? && change.key in list && change.key !in hash
  {
    if list != [] {
      RemovesAre(hash, Init(list), change);
      assert list == Init(list) + [Last(list)];
    }
  }

  /** What is written, whatever the order: the changed entries and the keys that are gone. */
  lemma ChangesAre(hash: Table, prev: Option<Table>, list: seq<string>, oldList: seq<string>, change: Change)
    requires forall k :: k in list <==> k in hash
    requires forall k :: k in oldList <==> k in Base(prev)
    ensures change in ChangesOf(hash, prev, list, oldList) <==> Changes(change, hash, prev)
  {
    PutsAre(hash, prev, list, change);
    RemovesAre(hash, oldList, change);
  }

  /** Keys are C strings, and lengths fit. */
  ghost predicate StorableTable(table: Table) {
    forall k :: k in table ==> Storable(Put(k, table[k]))
  }

  /** The terminator is one line, and not the header line of anything that has to be written. */
  ghost predicate TellsApart(terminator: Option<string>, hash: Table, prev: Option<Table>) {
    terminator.Some? ==>
      OneLine(terminator.value) && forall c :: Changes(c, hash, prev) ==> terminator.value != Header(c)
  }

  /**
   * Dumps a table, or its difference from an old one, and reads the dump into a copy of the old
   * one: the table is back, exactly if the terminator can be told from what is written.
   */
  method DumpAndRead(table: Table, prev: Option<Table>, terminator: Option<string>)
    returns (ok: bool, result: Table, left: string)
    requires StorableTable(table) && StorableTable(Base(prev))
    requires terminator.Some? ==> '\0' !in terminator.value
    ensures ok && result == table <==> TellsApart(terminator, table, prev)
    ensures ok && result == table ==> left == ""
  {
    hide Records, ReadTable, Header, Listing, Puts, Removes, Changes, Storable, ChangesOf;
    var stream := new Stream("");
    var hash := new Hash(table);
    var oldhash: Option<Hash> := None;
    if prev.Some? {
      var h := new Hash(prev.value);
      oldhash := Some(h);
    }
    ghost var list, oldList;
    list, oldList := HashWrite(hash, oldhash, stream, terminator);
    ghost var changes := ChangesOf(table, prev, list, oldList);
    assert KeysOf(prev) == Base(prev).Keys;
    ListingHas(list, table.Keys);
    ListingHas(oldList, Base(prev).Keys);
    assert stream.text == Records(changes) + (Ending(terminator) + "");
    DumpConditions(table, prev, list, oldList, terminator);
    DumpRoundTrip(table, prev, list, oldList, terminator, "", prev.Some?);
    var copy := new Hash(if prev.Some? then prev.value else map[]);
    ok := HashRead(copy, stream, terminator, prev.Some?);
    result, left := copy.entries, stream.text;
  }

  lemma DumpConditions(
      table: Table, prev: Option<Table>, list: seq<string>, oldList: seq<string>, terminator: Option<string>)
    requires StorableTable(table) && StorableTable(Base(prev))
    requires forall k :: k in list <==> k in table
    requires forall k :: k in oldList <==> k in Base(prev)
    ensures AllStorable(ChangesOf(table, prev, list, oldList), prev.Some?)
    ensures Recognisable(terminator, ChangesOf(table, prev, list, oldList)) <==> TellsApart(terminator, table, prev)
  {
    hide ChangesOf, Header, Changes, Unchanged, OneLine;
    var changes := ChangesOf(table, prev, list, oldList);
    forall c
      ensures c in changes <==> Changes(c, table, prev)
    {
      ChangesAre(table, prev, list, oldList, c);
    }
    forall i | 0 <= i < |changes|
      ensures Storable(changes[i]) && (changes[i].Remove? ==> prev.Some?)
    {
      assert changes[i] in changes;
      ChangeIsStorable(changes[i], table, prev);
    }
    assert forall c :: c in changes ==> exists i :: 0 <= i < |changes| && changes[i] == c;
  }

  lemma ChangeIsStorable(c: Change, table: Table, prev: Option<Table>)
    requires StorableTable(table) && StorableTable(Base(prev)) && Changes(c, table, prev)
    ensures Storable(c) && (c.Remove? ==> prev.Some?)
  {
    if c.Remove? {
      assert Storable(Put(c.key, Base(prev)[c.key]));
    }
  }

  /** The conventional terminator is always recognised. */
  lemma EndTellsApart(hash: Table, prev: Option<Table>)
    ensures TellsApart(Some("END"), hash, prev)
  {
    forall c | Changes(c, hash, prev)
      ensures "END" != Header(c)
    {
      assert Header(c)[0] != 'E';
    }
  }

  /** With the terminator "K 1" a table with a key of one character is not read back. */
  lemma MistakenTerminator(value: string)
    requires |value| <= INT64_MAX
    ensures var hash: Table := map["a" := value];
            var text := Records(ChangesOf(hash, None, ["a"], [])) + (Ending(Some("K 1")) + "");
            var r := ReadTable(map[], text, Some("K 1"), false);
            !(r.ok && r.table == hash)
  {
    hide Records, ReadTable;
    var hash: Table := map["a" := value];
    var changes := ChangesOf(hash, None, ["a"], []);
    assert Init(["a"]) == [] && Puts(hash, None, []) == [] && Removes(hash, []) == [];
    assert Puts(hash, None, ["a"]) == [] + [Put("a", value)];
    assert changes == [Put("a", value)] + [] == [Put("a", value)];
    assert Decimal(1) == "1" && Header(changes[0]) == "K 1";
    DumpRoundTrip(hash, None, ["a"], [], Some("K 1"), "", false);
  }
}
