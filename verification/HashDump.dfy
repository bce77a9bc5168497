/** The text form of a hash table: "K" and "V" records, "D" records for deletions, a terminator line. */
module HashDump {
  import opened Common
  import opened PathOrder

  type Table = map<string, string>

  // ---------------------------------------------------------------- decimals

  /** The largest number the length parser accepts. */
  const INT64_MAX: nat := 0x7FFF_FFFF_FFFF_FFFF

  predicate IsDigit(c: char) {
    '0' <= c <= '9'
  }

  predicate IsSpace(c: char) {
    c == ' ' || c == '\t' || c == '\n' || c == '\U{b}' || c == '\U{c}' || c == '\r'
  }

  function Decimal(n: nat): string {
    var digit := ['0' + (n % 10) as char];
    if n < 10 then digit else Decimal(n / 10) + digit
  }

  function DecimalValue(digits: string): Option<nat> {
    if digits == "" then Some(0)
    else if !IsDigit(Last(digits)) then None
    else match DecimalValue(Init(digits))
      case None => None
      case Some(high) => Some(10 * high + (Last(digits) - '0') as nat)
  }

  function SkipSpaces(s: string): string {
    if s != "" && IsSpace(s[0]) then SkipSpaces(s[1..]) else s
  }

  /** Where `c` first occurs in `s`, or the end of `s`. */
  function Find(s: string, c: char): (i: nat)
    ensures i <= |s|
    ensures forall k :: 0 <= k < i ==> s[k] != c
    ensures i < |s| ==> s[i] == c
  {
    if s == "" || s[0] == c then 0 else 1 + Find(s[1..], c)
  }

  /** What a C string function sees of a buffer. */
  function CString(s: string): string {
    s[..Find(s, '\0')]
  }

  /** A length: spaces, a sign, digits and nothing else, not negative and not too large. */
  function ParseSize(buffer: string): Option<nat> {
    var s := SkipSpaces(CString(buffer));
    var negative := s != "" && s[0] == '-';
    var digits := if s != "" && (s[0] == '-' || s[0] == '+') then s[1..] else s;
    if digits == "" then None
    else match DecimalValue(digits)
      case None => None
      case Some(n) => if n > INT64_MAX || (negative && n > 0) then None else Some(n)
  }

  // ----------------------------------------------------------- what is written

  datatype Change = Put(key: string, value: string) | Remove(key: string)

  function Header(change: Change): string {
    (if change.Put? then "K " else "D ") + Decimal(|change.key|)
  }

  function Body(change: Change): string {
    if change.Remove? then change.key + "\n"
    else change.key + "\n" + "V " + Decimal(|change.value|) + "\n" + change.value + "\n"
  }

  function Record(change: Change): string {
    Header(change) + "\n" + Body(change)
  }

  function Records(changes: seq<Change>): string {
    if changes == [] then "" else Record(changes[0]) + Records(changes[1..])
  }

  function Ending(terminator: Option<string>): string {
    if terminator.None? then "" else terminator.value + "\n"
  }

  /** The keys in byte order, each once. */
  ghost predicate Listing(list: seq<string>, keys: set<string>) {
    && (forall i, j :: 0 <= i < j < |list| ==> NameLess(list[i], list[j]))
    && forall k :: k in list <==> k in keys
  }

  predicate Unchanged(hash: Table, prev: Option<Table>, key: string)
    requires key in hash
  {
    prev.Some? && key in prev.value && prev.value[key] == hash[key]
  }

  function Puts(hash: Table, prev: Option<Table>, list: seq<string>): seq<Change>
    requires forall k :: k in list ==> k in hash
  {
    if list == [] then []
    else
      var before := Puts(hash, prev, Init(list));
      if Unchanged(hash, prev, Last(list)) then before else before + [Put(Last(list), hash[Last(list)])]
  }

  function Removes(hash: Table, list: seq<string>): seq<Change> {
    if list == [] then []
    else
      var before := Removes(hash, Init(list));
      if Last(list) in hash then before else before + [Remove(Last(list))]
  }

  // -------------------------------------------------------------- what is read

  datatype Line = Line(text: string, rest: string, eof: bool)

  function ReadLine(s: string): (l: Line)
    ensures |l.rest| <= |s|
    ensures !l.eof ==> |l.rest| + |l.text| + 1 == |s|
  {
    var n := Find(s, '\n');
    if n == |s| then Line(s, "", true) else Line(s[..n], s[n + 1..], false)
  }

  datatype Chunk = Chunk(data: string, rest: string)

  /** At most `n` characters; fewer at the end of the stream. */
  function ReadFull(s: string, n: nat): (c: Chunk)
    ensures |c.data| + |c.rest| == |s|
  {
    if n <= |s| then Chunk(s[..n], s[n..]) else Chunk(s, "")
  }

  /**
   * What is left after the newline that must follow. At the end of the stream nothing is read
   * and the variable keeps what an earlier read put there.
   */
  function EatNewline(s: string, stale: bool): (r: Option<string>)
    ensures r.Some? ==> |r.value| <= |s|
  {
    if s == "" then if stale then Some("") else None
    else if s[0] == '\n' then Some(s[1..])
    else None
  }

  function ChangeOf(key: string, val: Option<string>): Change {
    if val.Some? then Put(key, val.value) else Remove(key)
  }

  datatype Entry = End(rest: string) | Found(change: Change, rest: string) | Malformed

  predicate IsTerminator(line: Line, terminator: Option<string>) {
    if terminator.None? then line.eof && line.text == ""
    else CString(line.text) == terminator.value
  }

  predicate StartsRecord(text: string, kind: char) {
    |text| >= 3 && text[0] == kind && text[1] == ' '
  }

  /** A key of the given length and the newline after it. */
  function ReadKey(s: string, size: Option<nat>): (r: Option<Chunk>)
    ensures r.Some? ==> |r.value.rest| <= |s|
  {
    if size.None? then None
    else
      var key := ReadFull(s, size.value);
      match EatNewline(key.rest, false)
      case None => None
      case Some(rest) => Some(Chunk(key.data, rest))
  }

  function ReadValue(s: string): (r: Option<Chunk>)
    ensures r.Some? ==> |r.value.rest| <= |s|
  {
    ValueAfter(ReadLine(s))
  }

  /** A value whose length `line` gives, and the newline after it. */
  function ValueAfter(line: Line): (r: Option<Chunk>)
    ensures r.Some? ==> |r.value.rest| <= |line.rest|
  {
    if |line.text| < 2 || line.text[0] != 'V' || line.text[1] != ' ' then None
    else match ParseSize(line.text[2..])
      case None => None
      case Some(n) =>
        var value := ReadFull(line.rest, n);
        match EatNewline(value.rest, true)
        case None => None
        case Some(rest) => Some(Chunk(value.data, rest))
  }

  function ReadEntry(s: string, terminator: Option<string>, incremental: bool): (e: Entry)
    ensures e.Found? ==> |e.rest| < |s|
  {
    var line := ReadLine(s);
    if IsTerminator(line, terminator) then End(line.rest)
    else if line.eof then Malformed
    else if StartsRecord(line.text, 'K') then
      match ReadKey(line.rest, ParseSize(line.text[2..]))
      case None => Malformed
      case Some(key) =>
        (match ReadValue(key.rest)
         case None => Malformed
         case Some(value) => Found(Put(key.data, value.data), value.rest))
    else if incremental && StartsRecord(line.text, 'D') then
      match ReadKey(line.rest, ParseSize(line.text[2..]))
      case None => Malformed
      case Some(key) => Found(Remove(key.data), key.rest)
    else Malformed
  }

  function Apply(table: Table, change: Change): Table {
    if change.Put? then table[change.key := change.value] else table - {change.key}
  }

  function ApplyAll(table: Table, changes: seq<Change>): Table {
    if changes == [] then table else Apply(ApplyAll(table, Init(changes)), Last(changes))
  }

  datatype Reading = Reading(table: Table, rest: string, ok: bool)

  /** Entries up to the terminator; after an error, what had been read stays in the table. */
  function ReadTable(table: Table, s: string, terminator: Option<string>, incremental: bool): Reading
    decreases |s|
  {
    match ReadEntry(s, terminator, incremental)
    case End(rest) => Reading(table, rest, true)
    case Found(change, rest) => ReadTable(Apply(table, change), rest, terminator, incremental)
    case Malformed => Reading(table, s, false)
  }

  // -------------------------------------------------------------- the streams

  class Hash {
    var entries: Table

    constructor (entries: Table)
      ensures this.entries == entries
    {
      this.entries := entries;
    }
  }

  /** A stream: what has been written and not yet read. */
  class Stream {
    var text: string

    constructor (text: string)
      ensures this.text == text
    {
      this.text := text;
    }

    method Write(data: string)
      modifies this
      ensures text == old(text) + data
    {
      text := text + data;
    }

    method Readline() returns (line: string, eof: bool)
      modifies this
      ensures Line(line, text, eof) == ReadLine(old(text))
    {
      var s := text;
      var i := 0;
      FindFrom(s, 0);
      while i < |s| && s[i] != '\n'
        invariant i <= |s| && Find(s, '\n') == i + Find(s[i..], '\n')
      {
        FindFrom(s, i);
        i := i + 1;
      }
      FindFrom(s, i);
      if i == |s| {
        line, text, eof := s, "", true;
      } else {
        line, text, eof := s[..i], s[i + 1..], false;
      }
    }

    method Read(n: nat) returns (data: string)
      modifies this
      ensures Chunk(data, text) == ReadFull(old(text), n)
    {
      var len := if n <= |text| then n else |text|;
      data, text := text[..len], text[len..];
    }
  }

  lemma FindFrom(s: string, i: nat)
    requires i <= |s|
    ensures Find(s[i..], '\n') == if i == |s| || s[i] == '\n' then 0 else 1 + Find(s[i + 1..], '\n')
    ensures s[0..] == s
  {
    if i < |s| {
      assert s[i..][1..] == s[i + 1..];
    }
  }

  // ------------------------------------------------------------- the operations

  /** The key whose length a header line gives, and the newline after it. */
  method ReadKeyOf(stream: Stream, header: string) returns (malformed: bool, key: string)
    requires |header| >= 3
    modifies stream
    ensures malformed <==> ReadKey(old(stream.text), ParseSize(header[2..])).None?
    ensures !malformed ==> ReadKey(old(stream.text), ParseSize(header[2..])) == Some(Chunk(key, stream.text))
  {
    hide ParseSize;
    var keylen := ParseSize(header[2..]);
    if keylen.None? {
      return true, "";
    }
    key := stream.Read(keylen.value);
    var c := stream.Read(1);
    malformed := c != "\n";
  }

  method ReadValueAfter(stream: Stream) returns (malformed: bool, value: string)
    modifies stream
    ensures malformed <==> ReadValue(old(stream.text)).None?
    ensures !malformed ==> ReadValue(old(stream.text)) == Some(Chunk(value, stream.text))
  {
    hide ParseSize, ReadLine;
    malformed, value := true, "";
    var buf, eof := stream.Readline();
    if |buf| >= 2 && buf[0] == 'V' && buf[1] == ' ' {
      var vallen := ParseSize(buf[2..]);
      if vallen.Some? {
        value := stream.Read(vallen.value);
        var c := "\n"; // what the read after the key put there
        var d := stream.Read(1);
        if d != "" {
          c := d;
        }
        malformed := c != "\n";
      }
    }
  }

  method ReadOne(stream: Stream, terminator: Option<string>, incremental: bool)
    returns (more: bool, malformed: bool, key: string, val: Option<string>)
    modifies stream
    ensures malformed <==> ReadEntry(old(stream.text), terminator, incremental).Malformed?
    ensures !malformed && !more ==> ReadEntry(old(stream.text), terminator, incremental) == End(stream.text)
    ensures !malformed && more ==>
              ReadEntry(old(stream.text), terminator, incremental) == Found(ChangeOf(key, val), stream.text)
  {
    hide ParseSize, CString, ReadLine, ReadKey, ReadValue;
    more, malformed, key, val := false, false, "", None;
    var buf, eof := stream.Readline();
    if (terminator.None? && eof && |buf| == 0) || (terminator.Some? && CString(buf) == terminator.value) {
      return;
    }
    if eof {
      malformed := true;
      return;
    }
    if |buf| >= 3 && buf[0] == 'K' && buf[1] == ' ' {
      malformed, key := ReadKeyOf(stream, buf);
      if malformed {
        return;
      }
      var value;
      malformed, value := ReadValueAfter(stream);
      more, val := true, Some(value);
    } else if incremental && |buf| >= 3 && buf[0] == 'D' && buf[1] == ' ' {
      malformed, key := ReadKeyOf(stream, buf);
      more := true;
    } else {
      malformed := true;
    }
  }

  method HashRead(hash: Hash, stream: Stream, terminator: Option<string>, incremental: bool) returns (ok: bool)
    modifies hash, stream
    ensures ok == ReadTable(old(hash.entries), old(stream.text), terminator, incremental).ok
    ensures hash.entries == ReadTable(old(hash.entries), old(stream.text), terminator, incremental).table
    ensures ok ==> stream.text == ReadTable(old(hash.entries), old(stream.text), terminator, incremental).rest
  {
    hide ReadEntry;
    while true
      invariant ReadTable(hash.entries, stream.text, terminator, incremental) ==
                ReadTable(old(hash.entries), old(stream.text), terminator, incremental)
      decreases |stream.text|
    {
      var more, malformed, key, val := ReadOne(stream, terminator, incremental);
      if malformed {
        return false;
      }
      if !more {
        return true;
      }
      if val.Some? {
        hash.entries := hash.entries[key := val.value];
      } else {
        hash.entries := hash.entries - {key};
      }
    }
  }

  method SortedKeys(table: Table) returns (list: seq<string>)
    ensures Listing(list, table.Keys)
  {
    list := [];
    var todo := table.Keys;
    while todo != {}
      invariant todo <= table.Keys
      invariant Listing(list, table.Keys - todo)
      decreases |todo|
    {
      var key :| key in todo;
      var i := 0;
      while i < |list| && NameLess(list[i], key)
        invariant i <= |list| && forall j :: 0 <= j < i ==> NameLess(list[j], key)
      {
        i := i + 1;
      }
      ListingWithOneMore(list, key, i, table.Keys - todo);
      list := list[..i] + [key] + list[i..];
      assert table.Keys - (todo - {key}) == (table.Keys - todo) + {key};
      todo := todo - {key};
    }
    assert table.Keys - todo == table.Keys;
  }

  lemma {:induction false} ListingWithOneMore(list: seq<string>, key: string, i: nat, keys: set<string>)
    requires Listing(list, keys) && key !in keys && i <= |list|
    requires forall j :: 0 <= j < i ==> NameLess(list[j], key)
    requires i < |list| ==> !NameLess(list[i], key)
    ensures Listing(list[..i] + [key] + list[i..], keys + {key})
  {
    hide NameLess;
    forall j | i <= j < |list|
      ensures NameLess(key, list[j])
    {
      assert list[i] in list;
      NameOrder(list[i], key, list[i]);
      if i < j {
        NameOrder(key, list[i], list[j]);
      }
    }
    var longer := list[..i] + [key] + list[i..];
    forall k
      ensures k in longer <==> k in keys + {key}
    {
      if k in list {
        var at :| 0 <= at < |list| && list[at] == k;
        assert longer[if at < i then at else at + 1] == k;
      }
      assert longer[i] == key;
    }
  }

  lemma {:induction false} PutRecord(key: string, value: string)
    ensures Record(Put(key, value)) ==
            "K " + Decimal(|key|) + "\n" + key + "\n" + "V " + Decimal(|value|) + "\n" + value + "\n"
  {
    hide Decimal;
  }

  method WritePut(key: string, value: string, stream: Stream)
    modifies stream
    ensures stream.text == old(stream.text) + Record(Put(key, value))
  {
    hide Decimal, Record;
    var head := "K " + Decimal(|key|) + "\n" + key + "\n" + "V " + Decimal(|value|) + "\n";
    PutRecord(key, value);
    ghost var before := stream.text;
    stream.Write(head);
    stream.Write(value);
    stream.Write("\n");
    assert before + head + value + "\n" == before + (head + value + "\n");
  }

  method WritePuts(hash: Hash, oldhash: Option<Hash>, keys: seq<string>, stream: Stream)
    requires forall k :: k in keys ==> k in hash.entries
    modifies stream
    ensures stream.text == old(stream.text) + Records(Puts(hash.entries, Entries(oldhash), keys))
  {
    hide Decimal, Record, Records;
    NoChanges();
    var table := hash.entries;
    ghost var before, was := stream.text, Entries(oldhash);
    for i := 0 to |keys|
      invariant stream.text == before + Records(Puts(table, was, keys[..i]))
    {
      var key := keys[i];
      var value := table[key];
      assert Init(keys[..i + 1]) == keys[..i];
      if oldhash.Some? && key in oldhash.value.entries && oldhash.value.entries[key] == value {
        continue;
      }
      RecordsOneMore(Puts(table, was, keys[..i]), Put(key, value));
      WritePut(key, value, stream);
    }
    assert keys[..|keys|] == keys;
  }

  lemma NoChanges()
    ensures Records([]) == ""
  {
  }

  method WriteRemove(key: string, stream: Stream)
    modifies stream
    ensures stream.text == old(stream.text) + Record(Remove(key))
  {
    hide Decimal;
    var line := "D " + Decimal(|key|) + "\n" + key + "\n";
    assert Record(Remove(key)) == line;
    stream.Write(line);
  }

  method WriteRemoves(hash: Hash, keys: seq<string>, stream: Stream)
    modifies stream
    ensures stream.text == old(stream.text) + Records(Removes(hash.entries, keys))
  {
    hide Decimal, Record, Records;
    NoChanges();
    var table := hash.entries;
    ghost var before := stream.text;
    for i := 0 to |keys|
      invariant stream.text == before + Records(Removes(table, keys[..i]))
    {
      var key := keys[i];
      assert Init(keys[..i + 1]) == keys[..i];
      if key !in table {
        RecordsOneMore(Removes(table, keys[..i]), Remove(key));
        WriteRemove(key, stream);
      }
    }
    assert keys[..|keys|] == keys;
  }

  ghost function Entries(hash: Option<Hash>): Option<Table>
    reads if hash.Some? then {hash.value} else {}
  {
    if hash.None? then None else Some(hash.value.entries)
  }

  ghost function KeysOf(table: Option<Table>): set<string> {
    if table.None? then {} else table.value.Keys
  }

  function ChangesOf(hash: Table, prev: Option<Table>, list: seq<string>, oldList: seq<string>): seq<Change>
    requires forall k :: k in list ==> k in hash
  {
    Puts(hash, prev, list) + Removes(hash, oldList)
  }

  /** Dumps `hash`, or its difference from `oldhash`. */
  method HashWrite(hash: Hash, oldhash: Option<Hash>, stream: Stream, terminator: Option<string>)
    returns (ghost list: seq<string>, ghost oldList: seq<string>)
    modifies stream
    ensures Listing(list, hash.entries.Keys) && Listing(oldList, KeysOf(Entries(oldhash)))
    ensures forall k :: k in list ==> k in hash.entries
    ensures stream.text == old(stream.text)
      + Records(ChangesOf(hash.entries, Entries(oldhash), list, oldList)) + Ending(terminator)
  {
    hide Listing, Records, Puts, Removes;
    var keys := SortedKeys(hash.entries);
    list, oldList := keys, [];
    ListingHas(list, hash.entries.Keys);
    WritePuts(hash, oldhash, keys, stream);
    EmptyListing();
    if oldhash.Some? {
      var oldKeys := SortedKeys(oldhash.value.entries);
      oldList := oldKeys;
      WriteRemoves(hash, oldKeys, stream);
    } else {
      NoRecords(hash.entries);
    }
    RecordsOfBoth(Puts(hash.entries, Entries(oldhash), list), Removes(hash.entries, oldList));
    if terminator.Some? {
      stream.Write(terminator.value + "\n");
    }
  }

  lemma {:induction false} NoRecords(table: Table)
    ensures Records(Removes(table, [])) == ""
  {
  }

  lemma {:induction false} RecordsOfBoth(a: seq<Change>, b: seq<Change>)
    ensures Records(a + b) == Records(a) + Records(b)
  {
    hide Record;
    if a == [] {
      assert a + b == b;
    } else {
      RecordsOfBoth(a[1..], b);
      assert (a + b)[1..] == a[1..] + b;
    }
  }

  lemma ListingHas(list: seq<string>, keys: set<string>)
    requires Listing(list, keys)
    ensures forall k :: k in list <==> k in keys
  {
  }

  lemma EmptyListing()
    ensures Listing([], {})
  {
  }

  lemma {:induction false} RecordsOneMore(changes: seq<Change>, change: Change)
    ensures Records(changes + [change]) == Records(changes) + Record(change)
  {
    hide Record;
    if changes == [] {
      assert Records([change]) == Record(change) + Records([]);
    } else {
      RecordsOneMore(changes[1..], change);
      assert (changes + [change])[1..] == changes[1..] + [change];
    }
  }

  // -------------------------------------------------------------- comparing tables

  datatype KeyStatus = Both | OnlyA | OnlyB

  function StatusOf(inA: bool, inB: bool): KeyStatus {
    if inA && inB then Both else if inA then OnlyA else OnlyB
  }

  datatype Report = Report(key: string, status: KeyStatus)

  function KeysReported(calls: seq<Report>): seq<string> {
    seq(|calls|, i requires 0 <= i < |calls| => calls[i].key)
  }

  predicate NoneTwice(keys: seq<string>) {
    forall i, j :: 0 <= i < j < |keys| ==> keys[i] != keys[j]
  }

  /** Calls back for every key of either table, once, with where it is present. */
  method HashDiff(hashA: Option<Table>, hashB: Option<Table>) returns (calls: seq<Report>)
    ensures NoneTwice(KeysReported(calls))
    ensures forall i, j :: 0 <= i < j < |calls| ==> calls[i].key != calls[j].key
    ensures forall key :: Report(key, OnlyA) in calls <==>
                            hashA.Some? && key in hashA.value && !(hashB.Some? && key in hashB.value)
    ensures forall key :: Report(key, OnlyB) in calls <==>
                            hashB.Some? && key in hashB.value && !(hashA.Some? && key in hashA.value)
    ensures forall key :: Report(key, Both) in calls <==>
                            hashA.Some? && key in hashA.value && hashB.Some? && key in hashB.value
  {
    calls := [];
    ghost var a, b := KeysOf(hashA), KeysOf(hashB);
    var todo := if hashA.Some? then hashA.value.Keys else {};
    while todo != {}
      invariant todo <= a && NoneTwice(KeysReported(calls))
      invariant forall key, status :: Report(key, status) in calls <==>
                                      key in a && key !in todo && status == StatusOf(true, key in b)
      decreases |todo|
    {
      var key :| key in todo;
      var status := if hashB.Some? && key in hashB.value then Both else OnlyA;
      ReportedOnce(calls, key, status);
      calls := calls + [Report(key, status)];
      todo := todo - {key};
    }
    todo := if hashB.Some? then hashB.value.Keys else {};
    while todo != {}
      invariant todo <= b && NoneTwice(KeysReported(calls))
      invariant forall key, status :: Report(key, status) in calls <==>
                                      (key in a || (key in b && key !in todo)) && status == StatusOf(key in a, key in b)
      decreases |todo|
    {
      var key :| key in todo;
      if !(hashA.Some? && key in hashA.value) {
        ReportedOnce(calls, key, OnlyB);
        calls := calls + [Report(key, OnlyB)];
      }
      todo := todo - {key};
    }
    assert forall i :: 0 <= i < |calls| ==> KeysReported(calls)[i] == calls[i].key;
  }

  lemma ReportedOnce(calls: seq<Report>, key: string, status: KeyStatus)
    requires NoneTwice(KeysReported(calls)) && forall any :: Report(key, any) !in calls
    ensures NoneTwice(KeysReported(calls + [Report(key, status)]))
  {
    var keys := KeysReported(calls + [Report(key, status)]);
    forall i, j | 0 <= i < j < |keys|
      ensures keys[i] != keys[j]
    {
      assert calls[i] in calls && Report(keys[i], calls[i].status) in calls;
      if j < |calls| {
        assert KeysReported(calls)[i] != KeysReported(calls)[j];
      }
    }
  }
}
