/** The walk over the credentials that registered providers offer, and the in-memory cache. */
module Auth {
  import opened Common

  type Creds = string

  const NO_AUTH_CACHE := "svn:auth:no-auth-cache"

  // ------------------------------------------------------------------ providers

  /** What one attempt at credentials comes to. */
  datatype Offer = Given(creds: Creds) | Exhausted | Failed(error: string)

  /** A provider's successive attempts: credentials until it has no more, or fails, or without end. */
  datatype Attempts = Finite(creds: seq<Creds>, failure: Option<string>) | Endless(nth: nat -> Creds)

  function At(a: Attempts, k: nat): Offer {
    match a
    case Finite(creds, failure) =>
      if k < |creds| then Given(creds[k]) else if failure.Some? then Failed(failure.value) else Exhausted
    case Endless(nth) => Given(nth(k))
  }

  /** What a provider answers when it is asked to save. */
  datatype Storing = Stored | Declined | NotStored(error: string)

  /** `canRetry` and `canSave`: the provider has a function for further attempts, for saving. */
  datatype Provider = Provider(
    kind: string, attempts: string -> Attempts, canRetry: bool, canSave: bool, saves: (Creds, string) -> Storing)

  /** The attempts that are made for a realm: only the first if there is no function for more. */
  function Row(p: Provider, realm: string): Attempts {
    var a := p.attempts(realm);
    if p.canRetry then a
    else match At(a, 0)
      case Given(c) => Finite([c], None)
      case Exhausted => Finite([], None)
      case Failed(error) => Finite([], Some(error))
  }

  function Rows(table: seq<Provider>, realm: string): (r: seq<Attempts>)
    ensures |r| == |table| && forall i :: 0 <= i < |r| ==> r[i] == Row(table[i], realm)
  {
    seq(|table|, i requires 0 <= i < |table| => Row(table[i], realm))
  }

  /** The `n`th offer of the rows one after the other; a failure ends them. */
  function Nth(rows: seq<Attempts>, n: nat): Offer {
    if rows == [] then Exhausted
    else match rows[0]
      case Endless(nth) => Given(nth(n))
      case Finite(creds, failure) =>
        if n < |creds| then Given(creds[n])
        else if failure.Some? then Failed(failure.value)
        else Nth(rows[1..], n - |creds|)
  }

  predicate AllFinite(rows: seq<Attempts>) {
    forall i :: 0 <= i < |rows| ==> rows[i].Finite?
  }

  /** The rows one after the other, up to the first that fails. */
  function Offered(rows: seq<Attempts>): seq<Creds>
    requires AllFinite(rows)
  {
    if rows == [] then []
    else rows[0].creds + if rows[0].failure.Some? then [] else Offered(rows[1..])
  }

  function FirstFailure(rows: seq<Attempts>): Option<string>
    requires AllFinite(rows)
  {
    if rows == [] then None
    else if rows[0].failure.Some? then rows[0].failure
    else FirstFailure(rows[1..])
  }

  /** If every provider gives up or fails, the offers are the concatenation of the rows, and then that. */
  lemma {:induction false} NthOfFinite(rows: seq<Attempts>, n: nat)
    requires AllFinite(rows)
    ensures Nth(rows, n) ==
            if n < |Offered(rows)| then Given(Offered(rows)[n])
            else if FirstFailure(rows).Some? then Failed(FirstFailure(rows).value)
            else Exhausted
    decreases |rows|
  {
    if rows != [] {
      var creds := rows[0].creds;
      if n >= |creds| {
        NthOfFinite(rows[1..], n - |creds|);
      }
    }
  }

  // ------------------------------------------------------- where a walk has got to

  /** `k` attempts of row `idx` are behind us; what is ahead is what is ahead of `n` in all the rows. */
  ghost predicate HasGiven(rows: seq<Attempts>, idx: nat, k: nat, n: nat) {
    idx <= |rows| && forall j: nat :: Ahead(rows[idx..], k, j) == Ahead(rows, n, j)
  }

  function Ahead(rows: seq<Attempts>, k: nat, j: nat): Offer {
    Nth(rows, k + j)
  }

  lemma StartOfWalk(rows: seq<Attempts>)
    ensures HasGiven(rows, 0, 0, 0)
  {
    assert rows[0..] == rows;
  }

  /** The row has another attempt, which may fail: it is what comes next. */
  lemma {:induction false} NextInRow(rows: seq<Attempts>, idx: nat, k: nat, n: nat)
    requires HasGiven(rows, idx, k, n) && idx < |rows| && !At(rows[idx], k).Exhausted?
    ensures Nth(rows, n) == At(rows[idx], k)
    ensures At(rows[idx], k).Given? ==> HasGiven(rows, idx, k + 1, n + 1)
  {
    var here, k1, n1 := rows[idx..], k + 1, n + 1;
    assert here[0] == rows[idx];
    assert Ahead(here, k, 0) == Ahead(rows, n, 0);
    forall j: nat
      ensures Ahead(here, k1, j) == Ahead(rows, n1, j)
    {
      assert Ahead(here, k, j + 1) == Ahead(rows, n, j + 1);
    }
  }

  /** The row is exhausted: what comes next is what the next row begins with. */
  lemma NextRow(rows: seq<Attempts>, idx: nat, k: nat, n: nat)
    requires HasGiven(rows, idx, k, n) && idx < |rows| && At(rows[idx], k).Exhausted?
    requires k > 0 ==> At(rows[idx], k - 1).Given?
    ensures HasGiven(rows, idx + 1, 0, n)
  {
    var here := rows[idx..];
    assert here[0] == rows[idx] && here[1..] == rows[idx + 1..];
    forall j: nat
      ensures Ahead(rows[idx + 1..], 0, j) == Ahead(rows, n, j)
    {
      assert Ahead(here, k, j) == Ahead(rows, n, j);
    }
  }

  lemma {:induction false} EndOfRows(rows: seq<Attempts>, n: nat)
    requires HasGiven(rows, |rows|, 0, n)
    ensures Nth(rows, n) == Exhausted
  {
    assert rows[|rows|..] == [];
    assert Ahead(rows[|rows|..], 0, 0) == Ahead(rows, n, 0);
  }

  // ----------------------------------------------------------------- the cache key

  function CacheKey(kind: string, realm: string): string {
    kind + ":" + realm
  }

  /** Two kinds share a key exactly if they are the same, or one is the other, a colon and anything. */
  lemma KeysShared(kind1: string, kind2: string)
    ensures (exists realm1, realm2 :: CacheKey(kind1, realm1) == CacheKey(kind2, realm2))
            <==> kind1 == kind2 || kind1 + ":" <= kind2 || kind2 + ":" <= kind1
  {
    if realm1, realm2 :| CacheKey(kind1, realm1) == CacheKey(kind2, realm2) {
      SharedKey(kind1, realm1, kind2, realm2);
    }
    if kind1 == kind2 {
      assert CacheKey(kind1, "") == CacheKey(kind2, "");
    } else if kind1 + ":" <= kind2 {
      LongerKind(kind1, kind2);
    } else if kind2 + ":" <= kind1 {
      LongerKind(kind2, kind1);
    }
  }

  lemma SharedKey(kind1: string, realm1: string, kind2: string, realm2: string)
    requires CacheKey(kind1, realm1) == CacheKey(kind2, realm2)
    ensures kind1 == kind2 || kind1 + ":" <= kind2 || kind2 + ":" <= kind1
  {
    var key := CacheKey(kind1, realm1);
    assert kind1 == key[..|kind1|] && kind2 == key[..|kind2|];
    assert kind1 + ":" == key[..|kind1| + 1] && kind2 + ":" == key[..|kind2| + 1];
    if |kind1| < |kind2| {
      assert kind2[..|kind1| + 1] == key[..|kind1| + 1];
    } else if |kind2| < |kind1| {
      assert kind1[..|kind2| + 1] == key[..|kind2| + 1];
    }
  }

  lemma LongerKind(short: string, long: string)
    requires short + ":" <= long
    ensures exists realm :: CacheKey(short, realm) == CacheKey(long, "")
  {
    var rest := long[|short| + 1..];
    assert long == short + ":" + rest;
    assert CacheKey(short, rest + ":") == CacheKey(long, "");
  }

  /** So different entries of kinds without a colon never share one. */
  lemma KeysDiffer(kind1: string, realm1: string, kind2: string, realm2: string)
    requires ':' !in kind1 && ':' !in kind2
    ensures CacheKey(kind1, realm1) == CacheKey(kind2, realm2) <==> kind1 == kind2 && realm1 == realm2
  {
    var a, b := CacheKey(kind1, realm1), CacheKey(kind2, realm2);
    if a == b {
      SharedKey(kind1, realm1, kind2, realm2);
      NoColon(kind1, kind2);
      NoColon(kind2, kind1);
      assert realm1 == a[|kind1| + 1..] && realm2 == b[|kind2| + 1..];
    }
  }

  lemma NoColon(short: string, long: string)
    requires ':' !in long
    ensures !(short + ":" <= long)
  {
    if short + ":" <= long {
      ColonAfter(short, long);
    }
  }

  lemma ColonAfter(short: string, long: string)
    requires short + ":" <= long
    ensures ':' in long
  {
    assert long[|short|] == (short + ":")[|short|];
  }

  // -------------------------------------------------------------- prompt providers

  /** What attempt `k` comes to: it prompts, unless that is beyond a limit that is not negative. */
  function Prompted(prompts: nat -> Offer, retryLimit: int, k: nat): Offer {
    if k > 0 && 0 <= retryLimit < k then Exhausted else prompts(k)
  }

  class PromptIterator {
    const prompts: nat -> Offer
    const retryLimit: int
    var retries: nat

    ghost var made: nat // how many prompts have been made

    ghost predicate Valid()
      reads this
    {
      retryLimit >= 0 ==> retries <= retryLimit
    }

    constructor (prompts: nat -> Offer, retryLimit: int)
      ensures Valid()
      ensures this.prompts == prompts && this.retryLimit == retryLimit && retries == 0 && made == 0
    {
      this.prompts, this.retryLimit, retries, made := prompts, retryLimit, 0, 0;
    }

    /** Every prompt counts. */
    method Prompt(k: nat) returns (offer: Offer)
      modifies this`made
      ensures offer == prompts(k) && made == old(made) + 1
    {
      made := made + 1;
      offer := prompts(k);
    }

    /** The first attempt is always made. */
    method First() returns (offer: Offer)
      modifies this`made
      ensures offer == Prompted(prompts, retryLimit, 0) && made == old(made) + 1
    {
      offer := Prompt(0);
    }

    /** The next attempt; one that is made counts, whatever comes of it. */
    method Next() returns (offer: Offer)
      requires Valid()
      modifies this
      ensures Valid()
      ensures offer == Prompted(prompts, retryLimit, old(retries) + 1)
      ensures retries == old(retries) + (if 0 <= retryLimit <= old(retries) then 0 else 1)
      ensures made == old(made) + (retries - old(retries))
    {
      if retryLimit >= 0 && retries >= retryLimit {
        return Exhausted;
      }
      retries := retries + 1;
      offer := Prompt(retries);
    }
  }

  /**
   * Asks a new prompting provider first and then `more` times: it prompts once, and again each
   * time up to the limit, if that is not negative.
   */
  method AskAgain(prompts: nat -> Offer, retryLimit: int, more: nat) returns (offers: seq<Offer>, ghost made: nat)
    ensures |offers| == more + 1
    ensures made == if retryLimit < 0 || more <= retryLimit then more + 1 else retryLimit + 1
    ensures forall k :: 0 <= k <= more ==> offers[k] == if k < made then prompts(k) else Exhausted
  {
    var iter := new PromptIterator(prompts, retryLimit);
    var offer := iter.First();
    offers := [offer];
    for n := 0 to more
      invariant iter.Valid() && |offers| == n + 1 && iter.prompts == prompts && iter.retryLimit == retryLimit
      invariant fresh(iter) && iter.retries == if retryLimit < 0 || n <= retryLimit then n else retryLimit
      invariant iter.made == iter.retries + 1
      invariant forall k :: 0 <= k <= n ==> offers[k] == if k < iter.made then prompts(k) else Exhausted
    {
      offer := iter.Next();
      offers := offers + [offer];
    }
    made := iter.made;
  }

  /** The prompts up to the first that gives no credentials, and what that comes to. */
  function FirstPrompts(prompts: nat -> Offer, retryLimit: int, k: nat): Attempts
    requires forall j: nat :: j < k ==> Prompted(prompts, retryLimit, j).Given?
  {
    var last := Prompted(prompts, retryLimit, k);
    Finite(
      seq(k, j requires 0 <= j < k => Prompted(prompts, retryLimit, j).creds),
      if last.Failed? then Some(last.error) else None)
  }

  /** A prompt provider has a row: its attempts are the prompts, as long as these give credentials. */
  lemma PromptRow(prompts: nat -> Offer, retryLimit: int) returns (row: Attempts)
    ensures forall k: nat ::
              (forall j: nat :: j < k ==> Prompted(prompts, retryLimit, j).Given?) ==>
                At(row, k) == Prompted(prompts, retryLimit, k)
  {
    if stop: nat :| !Prompted(prompts, retryLimit, stop).Given? {
      var k := FirstStop(prompts, retryLimit, stop);
      row := FirstPrompts(prompts, retryLimit, k);
    } else {
      row := Endless((k: nat) => match Prompted(prompts, retryLimit, k) case Given(creds) => creds case _ => "");
    }
  }

  lemma {:induction false} FirstStop(prompts: nat -> Offer, retryLimit: int, stop: nat) returns (k: nat)
    requires !Prompted(prompts, retryLimit, stop).Given?
    ensures !Prompted(prompts, retryLimit, k).Given?
    ensures forall j: nat :: j < k ==> Prompted(prompts, retryLimit, j).Given?
    decreases stop
  {
    if j: nat :| j < stop && !Prompted(prompts, retryLimit, j).Given? {
      k := FirstStop(prompts, retryLimit, j);
    } else {
      k := stop;
    }
  }

  // ------------------------------------------------------------------- the baton

  type Parameters = map<string, string>

  function Filter(providers: seq<Provider>, kind: string): seq<Provider> {
    if providers == [] then []
    else Filter(Init(providers), kind) + if Last(providers).kind == kind then [Last(providers)] else []
  }

  datatype Reply = NoProvider | Answered(offer: Offer)

  /** Credentials that a call has answered, and the key they are cached under. */
  datatype Returned = Returned(key: string, creds: Creds)

  /** The most recent credentials answered for a key. */
  function LastReturned(returned: seq<Returned>, key: string): Option<Creds> {
    if returned == [] then None
    else if Last(returned).key == key then Some(Last(returned).creds)
    else LastReturned(Init(returned), key)
  }

  /** They are the most recent after a given answer for the key, or if there are none, that answer. */
  lemma {:induction false} LastSince(returned: seq<Returned>, key: string, i: nat)
    requires i < |returned| && returned[i].key == key
    ensures var later := LastReturned(returned[i + 1..], key);
            LastReturned(returned, key) == if later.Some? then later else Some(returned[i].creds)
  {
    if i < |returned| - 1 {
      assert Last(returned[i + 1..]) == Last(returned);
      assert Init(returned[i + 1..]) == Init(returned)[i + 1..];
      if Last(returned).key != key {
        LastSince(Init(returned), key, i);
      }
    } else {
      assert returned[i + 1..] == [];
    }
  }

  /** The table of a kind holds its providers in order; a kind without providers has no table. */
  ghost predicate Grouped(tables: map<string, seq<Provider>>, providers: seq<Provider>) {
    forall kind ::
      (kind in tables <==> Filter(providers, kind) != []) &&
      (kind in tables ==> tables[kind] == Filter(providers, kind))
  }

  method GroupByKind(providers: seq<Provider>) returns (tables: map<string, seq<Provider>>)
    ensures Grouped(tables, providers)
  {
    tables := map[];
    for i := 0 to |providers|
      invariant Grouped(tables, providers[..i])
    {
      var kind := providers[i].kind;
      assert Init(providers[..i + 1]) == providers[..i] && Last(providers[..i + 1]) == providers[i];
      var table := if kind in tables then tables[kind] else [];
      assert table == Filter(providers[..i], kind);
      tables := tables[kind := table + [providers[i]]];
    }
    assert providers[..|providers|] == providers;
  }

  /** The table of a kind keeps all its providers, and only those. */
  lemma {:induction false} FilterKeeps(providers: seq<Provider>, kind: string, p: Provider)
    ensures p in Filter(providers, kind) <==> p in providers && p.kind == kind
  {
    if providers != [] {
      FilterKeeps(Init(providers), kind, p);
      assert providers == Init(providers) + [Last(providers)];
    }
  }

  /**
   * A table is the registered providers at ascending places, which are all the places of its kind:
   * the order is that of registration.
   */
  lemma {:induction false} TableInOrder(tables: map<string, seq<Provider>>, providers: seq<Provider>, kind: string)
    returns (at: seq<nat>)
    requires Grouped(tables, providers)
    ensures kind in tables <==> exists k :: 0 <= k < |providers| && providers[k].kind == kind
    ensures kind in tables ==>
              && |at| == |tables[kind]|
              && (forall i, j :: 0 <= i < j < |at| ==> at[i] < at[j])
              && (forall i :: 0 <= i < |at| ==> at[i] < |providers| && tables[kind][i] == providers[at[i]])
              && (forall k :: 0 <= k < |providers| && providers[k].kind == kind ==> k in at)
  {
    at := FilteredPlaces(providers, kind);
    if kind in tables {
      assert tables[kind] == Filter(providers, kind);
      assert providers[at[0]].kind == kind;
    }
    if k :| 0 <= k < |providers| && providers[k].kind == kind {
      assert k in at;
    }
  }

  lemma {:induction false} FilteredPlaces(providers: seq<Provider>, kind: string) returns (at: seq<nat>)
    ensures |at| == |Filter(providers, kind)|
    ensures forall i, j :: 0 <= i < j < |at| ==> at[i] < at[j]
    ensures forall i :: 0 <= i < |at| ==>
              at[i] < |providers| && Filter(providers, kind)[i] == providers[at[i]] && providers[at[i]].kind == kind
    ensures forall k :: 0 <= k < |providers| && providers[k].kind == kind ==> k in at
  {
    if providers == [] {
      at := [];
    } else {
      var n := |providers| - 1;
      var before := FilteredPlaces(Init(providers), kind);
      at := before;
      if providers[n].kind == kind {
        at := before + [n];
        assert at[|before|] == n;
      }
      forall k | 0 <= k < |providers| && providers[k].kind == kind
        ensures k in at
      {
        assert k < n ==> Init(providers)[k] == providers[k];
      }
    }
  }

  /** What the first provider that is not exhausted at once starts with, and its place. */
  method FirstOffer(table: seq<Provider>, realm: string) returns (i: nat, offer: Offer)
    ensures offer == Nth(Rows(table, realm), 0)
    ensures offer.Given? ==> i < |table| && At(Row(table[i], realm), 0) == offer
    ensures offer.Given? ==> HasGiven(Rows(table, realm), i, 1, 1)
  {
    hide HasGiven, Nth;
    ghost var rows := Rows(table, realm);
    StartOfWalk(rows);
    i := 0;
    while i < |table|
      invariant 0 <= i <= |table| && HasGiven(rows, i, 0, 0)
    {
      offer := At(table[i].attempts(realm), 0);
      if !offer.Exhausted? {
        NextInRow(rows, i, 0, 0);
        return;
      }
      NextRow(rows, i, 0, 0);
      i := i + 1;
    }
    EndOfRows(rows, 0);
    offer := Exhausted;
  }

  /** What a walk starts with: the cached credentials, or else the first offer. */
  function FirstOf(cache: map<string, Creds>, key: string, rows: seq<Attempts>): Offer {
    if key in cache then Given(cache[key]) else Nth(rows, 0)
  }

  class AuthBaton {
    var tables: map<string, seq<Provider>>
    var parameters: Parameters
    var slave: Option<map<string, Option<string>>>
    var cache: map<string, Creds>
    ghost var returned: seq<Returned>

    /** What is cached for a key is what was answered for it most recently; no table is empty. */
    ghost predicate Valid()
      reads this
    {
      && (forall key :: key in cache ==> LastReturned(returned, key) == Some(cache[key]))
      && (forall kind :: kind in tables ==> tables[kind] != [])
    }

    /** Providers are kept by kind, in the order in which they were registered. */
    constructor (providers: seq<Provider>)
      ensures Valid() && returned == []
      ensures cache == map[] && parameters == map[] && slave == None
      ensures Grouped(tables, providers)
    {
      cache, parameters, slave, returned := map[], map[], None, [];
      var grouped := GroupByKind(providers);
      tables := grouped;
    }

    /** What providers see: the parameters, overlaid with those of this session if it has its own. */
    function Seen(): Parameters
      reads this
    {
      if slave.None? then parameters else Overlay(parameters, slave.value)
    }

    method SetParameter(name: string, value: Option<string>)
      modifies this`parameters, this`slave
      ensures Seen() == if value.Some? then old(Seen())[name := value.value] else old(Seen()) - {name}
      ensures old(slave).Some? ==> parameters == old(parameters)
    {
      if slave.Some? {
        slave := Some(slave.value[name := value]);
      } else if value.Some? {
        parameters := parameters[name := value.value];
      } else {
        parameters := parameters - {name};
      }
    }

    /** Answers credentials: they are cached, and are now the most recent for the key. */
    method Answer(key: string, creds: Creds)
      requires Valid()
      modifies this`cache, this`returned
      ensures Valid()
      ensures cache == old(cache)[key := creds] && returned == old(returned) + [Returned(key, creds)]
    {
      cache := cache[key := creds];
      returned := returned + [Returned(key, creds)];
      assert Init(returned) == old(returned);
    }

    method FirstCredentials(kind: string, realm: string) returns (reply: Reply, state: Option<IterState>)
      requires Valid()
      modifies this`cache, this`returned
      ensures Valid()
      ensures kind !in tables <==> reply.NoProvider?
      ensures reply.Answered? ==>
                reply.offer == FirstOf(old(cache), CacheKey(kind, realm), Rows(tables[kind], realm))
      ensures !(reply.Answered? && reply.offer.Given?) ==>
                state.None? && cache == old(cache) && returned == old(returned)
      ensures reply.Answered? && reply.offer.Given? ==>
                && cache == old(cache)[CacheKey(kind, realm) := reply.offer.creds]
                && returned == old(returned) + [Returned(CacheKey(kind, realm), reply.offer.creds)]
                && state.Some? && fresh(state.value) && state.value.baton == this
                && state.value.table == tables[kind] && state.value.realm == realm
                && state.value.cacheKey == CacheKey(kind, realm)
                && state.value.Valid() && state.value.mineAt == |old(returned)|
                && state.value.providerIdx < |tables[kind]| && state.value.Parameters() == Seen()
                && state.value.given == if CacheKey(kind, realm) in old(cache) then 0 else 1
    {
      if kind !in tables {
        return NoProvider, None;
      }
      var table := tables[kind];
      ghost var rows := Rows(table, realm);
      var snapshot := if slave.None? then None else Some(Seen());
      var cacheKey := CacheKey(kind, realm);
      StartOfWalk(rows);
      var i, gotFirst := 0, false;
      var offer: Offer;
      if cacheKey in cache {
        offer := Given(cache[cacheKey]);
      } else {
        i, offer := FirstOffer(table, realm);
        gotFirst := true;
      }
      reply, state := Answered(offer), None;
      if offer.Given? {
        Answer(cacheKey, offer.creds);
        var iter := new IterState(this, table, realm, cacheKey, i, gotFirst, snapshot);
        state := Some(iter);
      }
    }

    method Forget(entry: Option<(string, string)>)
      requires Valid()
      modifies this`cache
      ensures Valid()
      ensures entry.None? ==> cache == map[]
      ensures entry.Some? ==> cache == old(cache) - {CacheKey(entry.value.0, entry.value.1)}
    {
      if entry.Some? {
        cache := cache - {CacheKey(entry.value.0, entry.value.1)};
      } else {
        cache := map[];
      }
    }
  }

  function Overlay(parameters: Parameters, slave: map<string, Option<string>>): Parameters {
    map name | name in parameters.Keys + slave.Keys && (name in slave ==> slave[name].Some?) ::
      if name in slave then slave[name].value else parameters[name]
  }

  class IterState {
    const baton: AuthBaton
    const table: seq<Provider>
    const realm: string
    const cacheKey: string
    const snapshot: Option<Parameters>
    var providerIdx: nat
    var gotFirst: bool
    var attempts: nat // the provider's own iteration context
    ghost var given: nat // credentials the walk has returned, one from the cache not counted
    ghost var mineAt: nat // which of the baton's answers was the last of this walk

    /** The walk stands where the credentials it has given leave it. */
    ghost predicate Placed()
      reads this
    {
      && providerIdx <= |table|
      && (gotFirst <==> attempts > 0)
      && (gotFirst ==> providerIdx < |table| && At(Row(table[providerIdx], realm), attempts - 1).Given?)
      && HasGiven(Rows(table, realm), providerIdx, attempts, given)
    }

    ghost predicate Valid()
      reads this, baton
    {
      Placed() && baton.Valid() && mineAt < |baton.returned| && baton.returned[mineAt].key == cacheKey
    }

    /** What this walk itself has returned last. */
    ghost function Mine(): Creds
      requires Valid()
      reads this, baton
    {
      baton.returned[mineAt].creds
    }

    constructor (
        baton: AuthBaton, table: seq<Provider>, realm: string, cacheKey: string, idx: nat, gotFirst: bool,
        snapshot: Option<Parameters>)
      requires idx <= |table|
      requires gotFirst ==> idx < |table| && At(Row(table[idx], realm), 0).Given?
      requires HasGiven(Rows(table, realm), idx, if gotFirst then 1 else 0, if gotFirst then 1 else 0)
      requires baton.Valid() && baton.returned != [] && Last(baton.returned).key == cacheKey
      ensures this.baton == baton && this.table == table && this.realm == realm && this.cacheKey == cacheKey
      ensures this.snapshot == snapshot && providerIdx == idx
      ensures Valid() && given == (if gotFirst then 1 else 0) && mineAt == |baton.returned| - 1
    {
      this.baton, this.table, this.realm, this.cacheKey := baton, table, realm, cacheKey;
      this.snapshot := snapshot;
      providerIdx, this.gotFirst := idx, gotFirst;
      attempts, given := if gotFirst then 1 else 0, if gotFirst then 1 else 0;
      mineAt := |baton.returned| - 1;
    }

    /**
     * The next credentials of the rows one after the other; none when they have run out. An error
     * of a provider is returned at once, and the walk stays where it is.
     */
    method NextCredentials() returns (offer: Offer)
      requires Valid()
      modifies this, baton`cache, baton`returned
      ensures Valid()
      ensures offer == Nth(Rows(table, realm), old(given))
      ensures given == old(given) + (if offer.Given? then 1 else 0)
      ensures offer.Given? ==>
                && baton.cache == old(baton.cache)[cacheKey := offer.creds]
                && baton.returned == old(baton.returned) + [Returned(cacheKey, offer.creds)]
                && mineAt == |old(baton.returned)|
      ensures !offer.Given? ==>
                baton.cache == old(baton.cache) && baton.returned == old(baton.returned) && mineAt == old(mineAt)
      ensures offer.Exhausted? <==> providerIdx == |table|
    {
      hide HasGiven, Nth, LastReturned;
      ghost var rows := Rows(table, realm);
      offer := Exhausted;
      while providerIdx < |table|
        invariant Valid() && offer.Exhausted? && given == old(given) && mineAt == old(mineAt)
        invariant baton.cache == old(baton.cache) && baton.returned == old(baton.returned)
        decreases |table| - providerIdx
      {
        var provider := table[providerIdx];
        if !gotFirst {
          offer := At(provider.attempts(realm), 0);
        } else if provider.canRetry {
          offer := At(provider.attempts(realm), attempts);
        }
        if offer.Failed? {
          NextInRow(rows, providerIdx, attempts, given);
          return;
        }
        if offer.Given? {
          NextInRow(rows, providerIdx, attempts, given);
          gotFirst := true;
          attempts := attempts + 1;
          given := given + 1;
          mineAt := |baton.returned|;
          baton.Answer(cacheKey, offer.creds);
          return;
        }
        NextRow(rows, providerIdx, attempts, given);
        gotFirst := false;
        attempts := 0;
        providerIdx := providerIdx + 1;
      }
      EndOfRows(rows, given);
    }

    function Parameters(): Parameters
      reads this, baton
    {
      if snapshot.Some? then snapshot.value else baton.parameters
    }

    /** Whether there is something to save, and saving is wanted. */
    predicate Saves()
      reads this, baton
    {
      providerIdx < |table| && cacheKey in baton.cache && NO_AUTH_CACHE !in Parameters()
    }

    /**
     * Offers the cached credentials to the provider the walk is at, then to each in turn, until one
     * saves them or fails. Reports who was asked, what came of it and what was saved: what was
     * returned last for the key, by this walk or, if that has returned others since, by another one.
     */
    method SaveCredentials() returns (asked: seq<nat>, outcome: Storing, saved: Option<Creds>)
      requires Valid()
      ensures !Saves() ==> asked == [] && outcome == Declined
      ensures "svn:auth:no-auth-cache" in Parameters() ==> asked == [] && saved == None
      ensures Saves() ==> asked == AskedInAll(table, realm, baton.cache[cacheKey], providerIdx)
      ensures Saves() ==> outcome == FirstAnswer([table[providerIdx]] + table, baton.cache[cacheKey], realm, 0)
      ensures saved.Some? <==> outcome.Stored?
      ensures saved.Some? ==> Saves() && saved == LastReturned(baton.returned, cacheKey)
      ensures saved.Some? ==>
                (saved.value != Mine() <==>
                 LastReturned(baton.returned[mineAt + 1..], cacheKey) !in {None, Some(Mine())})
    {
      hide HasGiven, AskedFrom, FirstAnswer, LastReturned;
      LastSince(baton.returned, cacheKey, mineAt);
      asked, outcome, saved := [], Declined, None;
      if |table| <= providerIdx || cacheKey !in baton.cache || NO_AUTH_CACHE in Parameters() {
        return;
      }
      var provider, creds := table[providerIdx], baton.cache[cacheKey];
      OneMore(provider, table, creds, realm);
      if provider.canSave {
        asked, outcome := [providerIdx], provider.saves(creds, realm);
      }
      if outcome.Declined? {
        var others;
        others, outcome := AskAll(table, realm, creds);
        asked := asked + others;
      }
      if outcome.Stored? {
        saved := Some(creds);
      }
    }
  }

  /** Asks every provider from the top to save, until one does or fails. */
  method AskAll(table: seq<Provider>, realm: string, creds: Creds) returns (asked: seq<nat>, outcome: Storing)
    ensures asked == AskedFrom(table, realm, creds, 0)
    ensures outcome == FirstAnswer(table, creds, realm, 0)
  {
    hide AskedFrom, FirstAnswer;
    asked := [];
    assert Joined([], AskedFrom(table, realm, creds, 0)) == AskedFrom(table, realm, creds, 0);
    ghost var all := AskedFrom(table, realm, creds, 0);
    for i := 0 to |table|
      invariant Joined(asked, AskedFrom(table, realm, creds, i)) == all
      invariant FirstAnswer(table, creds, realm, i) == FirstAnswer(table, creds, realm, 0)
    {
      AskedStep(table, realm, creds, asked, i);
      if table[i].canSave {
        asked := asked + [i];
        outcome := table[i].saves(creds, realm);
        if !outcome.Declined? {
          return;
        }
      }
    }
    NoneLeft(table, realm, creds, asked);
    outcome := Declined;
  }

  function Joined(a: seq<nat>, b: seq<nat>): seq<nat> {
    a + b
  }

  lemma AskedStep(table: seq<Provider>, realm: string, creds: Creds, asked: seq<nat>, i: nat)
    requires i < |table|
    ensures var next := if table[i].canSave then asked + [i] else asked;
            Joined(asked, AskedFrom(table, realm, creds, i)) ==
            if !Ask(table[i], creds, realm).Declined? then next
            else Joined(next, AskedFrom(table, realm, creds, i + 1))
    ensures FirstAnswer(table, creds, realm, i) ==
            if !Ask(table[i], creds, realm).Declined? then Ask(table[i], creds, realm)
            else FirstAnswer(table, creds, realm, i + 1)
  {
    var rest := if !Ask(table[i], creds, realm).Declined? then [] else AskedFrom(table, realm, creds, i + 1);
    if table[i].canSave {
      JoinedBoth(asked, [i], rest);
    } else {
      assert AskedFrom(table, realm, creds, i) == [] + rest == rest;
    }
    assert asked + [i] + [] == asked + [i];
  }

  lemma JoinedBoth(a: seq<nat>, b: seq<nat>, c: seq<nat>)
    ensures Joined(a + b, c) == Joined(a, b + c)
  {
  }

  lemma {:induction false} NoneLeft(table: seq<Provider>, realm: string, creds: Creds, asked: seq<nat>)
    ensures Joined(asked, AskedFrom(table, realm, creds, |table|)) == asked
    ensures FirstAnswer(table, creds, realm, |table|) == Declined
  {
  }

  function Ask(p: Provider, creds: Creds, realm: string): Storing {
    if p.canSave then p.saves(creds, realm) else Declined
  }

  /** The first answer, from place `i` on, that is not to decline. */
  function FirstAnswer(table: seq<Provider>, creds: Creds, realm: string, i: nat): Storing
    requires i <= |table|
    decreases |table| - i
  {
    if i == |table| then Declined
    else if !Ask(table[i], creds, realm).Declined? then Ask(table[i], creds, realm)
    else FirstAnswer(table, creds, realm, i + 1)
  }

  /** All from `i` up to `k` that can save decline to. */
  predicate DeclineTo(table: seq<Provider>, creds: Creds, realm: string, i: nat, k: nat)
    requires k <= |table|
  {
    forall j :: i <= j < k && table[j].canSave ==> table[j].saves(creds, realm) == Declined
  }

  /** They are saved exactly if some provider saves them, and all before it that can save decline. */
  lemma {:induction false} SavedBySome(table: seq<Provider>, creds: Creds, realm: string, i: nat)
    requires i <= |table|
    ensures FirstAnswer(table, creds, realm, i) == Stored <==>
            exists k: nat :: i <= k < |table| && table[k].canSave && table[k].saves(creds, realm) == Stored
                             && DeclineTo(table, creds, realm, i, k)
    ensures FirstAnswer(table, creds, realm, i) == Declined <==> DeclineTo(table, creds, realm, i, |table|)
    decreases |table| - i
  {
    if i < |table| {
      SavedBySome(table, creds, realm, i + 1);
      var saves := table[i].canSave && table[i].saves(creds, realm) == Stored;
      var declines := table[i].canSave ==> table[i].saves(creds, realm) == Declined;
      assert DeclineTo(table, creds, realm, i, i);
      forall k: nat | i < k <= |table|
        ensures DeclineTo(table, creds, realm, i, k) <==> declines && DeclineTo(table, creds, realm, i + 1, k)
      {
      }
    }
  }

  /** Provider `k` is asked: it can save, and all from `i` up to it decline. */
  predicate IsAsked(table: seq<Provider>, creds: Creds, realm: string, i: nat, k: nat) {
    i <= k < |table| && table[k].canSave && DeclineTo(table, creds, realm, i, k)
  }

  predicate AscendingPlaces(at: seq<nat>) {
    forall a, b :: 0 <= a < b < |at| ==> at[a] < at[b]
  }

  /** Those asked are, in order, the providers that can save, as long as all before them decline. */
  lemma {:induction false} AskedAre(table: seq<Provider>, creds: Creds, realm: string, i: nat)
    requires i <= |table|
    ensures AscendingPlaces(AskedFrom(table, realm, creds, i))
    ensures forall k: nat :: k in AskedFrom(table, realm, creds, i) <==> IsAsked(table, creds, realm, i, k)
    decreases |table| - i
  {
    hide IsAsked, AscendingPlaces;
    if i == |table| {
      NoPlaces(i);
      forall k: nat
        ensures !IsAsked(table, creds, realm, i, k)
      {
        AskedLater(table, creds, realm, i, k);
      }
    } else {
      AskedAre(table, creds, realm, i + 1);
      var rest := AskedFrom(table, realm, creds, i + 1);
      forall k: nat
        ensures k in AskedFrom(table, realm, creds, i) <==> IsAsked(table, creds, realm, i, k)
        ensures k in rest ==> k > i
      {
        AskedLater(table, creds, realm, i, k);
      }
      Ascends(i, rest);
      NoPlaces(i);
      assert [] + rest == rest && [i] + [] == [i];
    }
  }

  lemma NoPlaces(i: nat)
    ensures AscendingPlaces([]) && AscendingPlaces([i])
  {
  }

  lemma Ascends(i: nat, rest: seq<nat>)
    requires AscendingPlaces(rest) && forall k :: k in rest ==> k > i
    ensures AscendingPlaces([i] + rest)
  {
    assert forall a :: 0 <= a < |rest| ==> rest[a] in rest;
  }

  lemma {:induction false} AskedLater(table: seq<Provider>, creds: Creds, realm: string, i: nat, k: nat)
    requires i <= |table|
    ensures IsAsked(table, creds, realm, i, k) <==>
            && i < |table|
            && if k == i then table[i].canSave
               else Ask(table[i], creds, realm).Declined? && IsAsked(table, creds, realm, i + 1, k)
    ensures IsAsked(table, creds, realm, i + 1, k) ==> k > i
  {
    if i < k < |table| {
      assert DeclineTo(table, creds, realm, i, k) <==>
        (table[i].canSave ==> table[i].saves(creds, realm) == Declined) && DeclineTo(table, creds, realm, i + 1, k);
    }
  }

  lemma {:induction false} OneMore(p: Provider, table: seq<Provider>, creds: Creds, realm: string)
    ensures FirstAnswer([p] + table, creds, realm, 0) ==
            if !Ask(p, creds, realm).Declined? then Ask(p, creds, realm) else FirstAnswer(table, creds, realm, 0)
  {
    Shifted(p, table, creds, realm, 0);
  }

  lemma {:induction false} Shifted(p: Provider, table: seq<Provider>, creds: Creds, realm: string, i: nat)
    requires i <= |table|
    ensures FirstAnswer([p] + table, creds, realm, i + 1) == FirstAnswer(table, creds, realm, i)
    decreases |table| - i
  {
    if i < |table| {
      assert ([p] + table)[i + 1] == table[i];
      Shifted(p, table, creds, realm, i + 1);
    }
  }

  /** Those asked from place `i` on: who can save, up to the first that does not decline. */
  function AskedFrom(table: seq<Provider>, realm: string, creds: Creds, i: nat): seq<nat>
    requires i <= |table|
    decreases |table| - i
  {
    if i == |table| then []
    else
      (if table[i].canSave then [i] else [])
      + if !Ask(table[i], creds, realm).Declined? then [] else AskedFrom(table, realm, creds, i + 1)
  }

  /** The provider at `first` is asked before all of them are. */
  function AskedInAll(table: seq<Provider>, realm: string, creds: Creds, first: nat): seq<nat>
    requires first < |table|
  {
    (if table[first].canSave then [first] else [])
    + if !Ask(table[first], creds, realm).Declined? then [] else AskedFrom(table, realm, creds, 0)
  }

  // ------------------------------------------------------------------- whole walks

  /**
   * Asks for first credentials and then for more until there are none: a cached set first, if there
   * is one, then all that the providers of the kind offer, in the order of registration, up to the
   * first error.
   */
  method WalkAll(baton: AuthBaton, kind: string, realm: string) returns (walk: seq<Creds>, failure: Option<string>)
    requires baton.Valid() && kind in baton.tables && AllFinite(Rows(baton.tables[kind], realm))
    modifies baton`cache, baton`returned
    ensures var offered, key := Offered(Rows(baton.tables[kind], realm)), CacheKey(kind, realm);
            walk == (if key in old(baton.cache) then [old(baton.cache)[key]] else []) + offered
    ensures failure == FirstFailure(Rows(baton.tables[kind], realm))
    ensures walk != [] ==> baton.cache == old(baton.cache)[CacheKey(kind, realm) := Last(walk)]
  {
    hide Nth, Offered, FirstFailure, HasGiven, Row, Filter, LastReturned, CacheKey, IterState.Placed;
    ghost var rows := Rows(baton.tables[kind], realm);
    ghost var all := Offered(rows);
    ghost var key := CacheKey(kind, realm);
    var reply, state := baton.FirstCredentials(kind, realm);
    NthOfFinite(rows, 0);
    if !reply.offer.Given? {
      return [], if reply.offer.Failed? then Some(reply.offer.error) else None;
    }
    var rest;
    rest, failure := WalkOn(state.value);
    walk := [reply.offer.creds] + rest;
    assert key !in old(baton.cache) ==> all == [all[0]] + all[1..];
  }

  /** Asks for more until there are none. */
  method WalkOn(iter: IterState) returns (walk: seq<Creds>, failure: Option<string>)
    requires iter.Valid() && AllFinite(Rows(iter.table, iter.realm))
    requires iter.given <= |Offered(Rows(iter.table, iter.realm))|
    modifies iter, iter.baton`cache, iter.baton`returned
    ensures walk == Offered(Rows(iter.table, iter.realm))[old(iter.given)..]
    ensures failure == FirstFailure(Rows(iter.table, iter.realm))
    ensures iter.baton.cache == if walk == [] then old(iter.baton.cache)
                                else old(iter.baton.cache)[iter.cacheKey := Last(walk)]
  {
    hide Nth, Offered, FirstFailure, HasGiven, Row, Rows, LastReturned, IterState.Placed;
    ghost var rows := Rows(iter.table, iter.realm);
    ghost var all, start := Offered(rows), iter.given;
    walk, failure := [], None;
    var more := true;
    while more
      invariant iter.Valid() && start <= iter.given <= |all| && walk == all[start..iter.given]
      invariant iter.baton.cache == if walk == [] then old(iter.baton.cache)
                                    else old(iter.baton.cache)[iter.cacheKey := Last(walk)]
      invariant if more then failure == None else iter.given == |all| && failure == FirstFailure(rows)
      decreases more, |all| - iter.given
    {
      NthOfFinite(rows, iter.given);
      var offer := iter.NextCredentials();
      more := offer.Given?;
      if more {
        assert all[start..iter.given] == all[start..iter.given - 1] + [offer.creds];
        walk := walk + [offer.creds];
      } else if offer.Failed? {
        failure := Some(offer.error);
      }
    }
  }

  /** All the credentials one provider offers for a realm: only the first if it cannot retry. */
  function CredsOf(p: Provider, realm: string): seq<Creds> {
    match p.attempts(realm)
    case Finite(creds, _) => if p.canRetry || |creds| <= 1 then creds else [creds[0]]
    case Endless(nth) => [nth(0)]
  }

  /** The error a provider comes to after them. */
  function FailureOf(p: Provider, realm: string): Option<string> {
    match p.attempts(realm)
    case Finite(creds, failure) => if p.canRetry || creds == [] then failure else None
    case Endless(_) => None
  }

  lemma RowIs(p: Provider, realm: string)
    requires p.canRetry ==> p.attempts(realm).Finite?
    ensures Row(p, realm) == Finite(CredsOf(p, realm), FailureOf(p, realm))
  {
    var a := p.attempts(realm);
    if a.Finite? && !p.canRetry && a.creds != [] {
      assert At(a, 0) == Given(a.creds[0]);
      assert |a.creds| == 1 ==> a.creds == [a.creds[0]];
    }
  }

  /** One list after the other. */
  function Concat(shares: seq<seq<Creds>>): seq<Creds> {
    if shares == [] then [] else shares[0] + Concat(shares[1..])
  }

  /** The offers are the rows, one after the other, up to the first that fails. */
  lemma {:induction false} OffersByRow(rows: seq<Attempts>) returns (shares: seq<seq<Creds>>)
    requires AllFinite(rows)
    ensures |shares| <= |rows| && Offered(rows) == Concat(shares)
    ensures forall i :: 0 <= i < |shares| ==> shares[i] == rows[i].creds
    ensures forall i :: 0 <= i < |shares| - 1 ==> rows[i].failure.None?
    ensures if FirstFailure(rows).None? then |shares| == |rows|
            else shares != [] && rows[|shares| - 1].failure == FirstFailure(rows)
  {
    if rows == [] {
      shares := [];
    } else if rows[0].failure.Some? {
      shares := [rows[0].creds];
      assert shares[1..] == [] && Concat(shares) == rows[0].creds + [] == rows[0].creds;
    } else {
      var rest := OffersByRow(rows[1..]);
      shares := [rows[0].creds] + rest;
      assert shares[1..] == rest;
    }
  }

  /** Registered providers, by kind: at ascending places, and at all of them. */
  ghost predicate PlacesOf(providers: seq<Provider>, kind: string, at: seq<nat>) {
    && (forall i, j :: 0 <= i < j < |at| ==> at[i] < at[j])
    && (forall i :: 0 <= i < |at| ==> at[i] < |providers| && providers[at[i]].kind == kind)
    && (forall k :: 0 <= k < |providers| && providers[k].kind == kind ==> k in at)
  }

  lemma {:induction false} TableRows(
      tables: map<string, seq<Provider>>, providers: seq<Provider>, kind: string, realm: string, at: seq<nat>)
    requires Grouped(tables, providers) && kind in tables && |at| == |tables[kind]|
    requires forall i :: 0 <= i < |at| ==> at[i] < |providers| && tables[kind][i] == providers[at[i]]
    requires forall k :: 0 <= k < |providers| && providers[k].kind == kind && providers[k].canRetry ==>
               providers[k].attempts(realm).Finite?
    ensures forall i :: 0 <= i < |at| ==> providers[at[i]].kind == kind
    ensures forall i :: 0 <= i < |at| ==>
              Rows(tables[kind], realm)[i]
              == Finite(CredsOf(providers[at[i]], realm), FailureOf(providers[at[i]], realm))
  {
    hide CredsOf, FailureOf, Row, Filter;
    forall i | 0 <= i < |at|
      ensures providers[at[i]].kind == kind
      ensures Rows(tables[kind], realm)[i]
              == Finite(CredsOf(providers[at[i]], realm), FailureOf(providers[at[i]], realm))
    {
      assert tables[kind][i] in tables[kind];
      FilterKeeps(providers, kind, tables[kind][i]);
      RowIs(tables[kind][i], realm);
    }
  }

  /**
   * Registers providers and walks: the providers of the kind are asked in the order in which they
   * were registered, and the offers of each come before those of the next. The first error ends it.
   */
  method WalkRegistered(providers: seq<Provider>, kind: string, realm: string)
    returns (walk: seq<Creds>, failure: Option<string>, ghost at: seq<nat>, ghost shares: seq<seq<Creds>>)
    requires exists k :: 0 <= k < |providers| && providers[k].kind == kind
    requires forall k :: 0 <= k < |providers| && providers[k].kind == kind && providers[k].canRetry ==>
               providers[k].attempts(realm).Finite?
    ensures PlacesOf(providers, kind, at) && |shares| <= |at|
    ensures walk == Concat(shares)
    ensures forall i :: 0 <= i < |shares| ==> shares[i] == CredsOf(providers[at[i]], realm)
    ensures forall i :: 0 <= i < |shares| - 1 ==> FailureOf(providers[at[i]], realm).None?
    ensures if failure.None? then |shares| == |at|
            else shares != [] && FailureOf(providers[at[|shares| - 1]], realm) == failure
  {
    hide Offered, FirstFailure, CredsOf, FailureOf, Row, Rows, Grouped, Concat;
    var baton := new AuthBaton(providers);
    at := TableInOrder(baton.tables, providers, kind);
    TableRows(baton.tables, providers, kind, realm, at);
    ghost var rows := Rows(baton.tables[kind], realm);
    assert AllFinite(rows);
    shares := OffersByRow(rows);
    walk, failure := WalkAll(baton, kind, realm);
    assert walk == Offered(rows);
  }

  // ---------------------------------------------------------- any sequence of calls

  /** A call on a baton, or on one of the walks begun on it, by the order in which they were begun. */
  datatype AuthCall =
    | First(kind: string, realm: string)
    | Next(walk: nat)
    | Save(walk: nat)
    | ForgetOne(kind: string, realm: string)
    | ForgetAll

  datatype AuthResult =
    | FirstReply(reply: Reply)
    | NextOffer(offer: Offer)
    | SaveReply(outcome: Storing, saved: Option<Creds>)
    | Forgotten
    | NoWalk

  /** A walk: what it is for, what it has been given by providers, and whether it has run out. */
  datatype WalkState = WalkState(kind: string, realm: string, given: nat, over: bool)

  datatype AuthState = AuthState(cache: map<string, Creds>, returned: seq<Returned>, walks: seq<WalkState>)

  function KeyOf(w: WalkState): string {
    CacheKey(w.kind, w.realm)
  }

  /** Credentials are answered for a key, and cached. */
  function Answering(s: AuthState, key: string, creds: Creds): AuthState {
    s.(cache := s.cache[key := creds], returned := s.returned + [Returned(key, creds)])
  }

  type Tables = map<string, seq<Provider>>

  predicate FirstStep(tables: Tables, kind: string, realm: string, reply: Reply, s: AuthState, s': AuthState) {
    var key := CacheKey(kind, realm);
    && (reply.NoProvider? <==> kind !in tables)
    && (reply.Answered? ==> reply.offer == FirstOf(s.cache, key, Rows(tables[kind], realm)))
    && s' ==
       if reply.Answered? && reply.offer.Given? then
         Answering(s, key, reply.offer.creds).(
           walks := s.walks + [WalkState(kind, realm, if key in s.cache then 0 else 1, false)])
       else s
  }

  predicate NextStep(tables: Tables, walk: nat, offer: Offer, s: AuthState, s': AuthState)
    requires walk < |s.walks|
  {
    var w := s.walks[walk];
    && w.kind in tables && offer == Nth(Rows(tables[w.kind], w.realm), w.given)
    && s' ==
       if offer.Given? then
         Answering(s, KeyOf(w), offer.creds).(walks := s.walks[walk := w.(given := w.given + 1, over := false)])
       else s.(walks := s.walks[walk := w.(over := offer.Exhausted?)])
  }

  /** Provider `i` is asked to save first, then all in turn. */
  predicate AsksFrom(table: seq<Provider>, i: nat, creds: Creds, realm: string, outcome: Storing) {
    i < |table| && outcome == FirstAnswer([table[i]] + table, creds, realm, 0)
  }

  /** What is saved, if anything, was answered most recently for the key. */
  ghost predicate SaveStep(
      tables: Tables, seen: Parameters, walk: nat, outcome: Storing, saved: Option<Creds>, s: AuthState)
    requires walk < |s.walks|
  {
    var w := s.walks[walk];
    var key := KeyOf(w);
    && w.kind in tables
    && (if w.over || key !in s.cache || NO_AUTH_CACHE in seen then outcome == Declined
        else exists i :: AsksFrom(tables[w.kind], i, s.cache[key], w.realm, outcome))
    && saved == (if outcome.Stored? then LastReturned(s.returned, key) else None)
    && (saved.Some? ==> key in s.cache && saved == Some(s.cache[key]))
  }

  /** What a call answers, and what it changes. */
  ghost predicate StepOf(
      tables: Tables, seen: Parameters, call: AuthCall, result: AuthResult, s: AuthState, s': AuthState)
  {
    match call
    case First(kind, realm) => result.FirstReply? && FirstStep(tables, kind, realm, result.reply, s, s')
    case Next(walk) =>
      if walk < |s.walks| then result.NextOffer? && NextStep(tables, walk, result.offer, s, s')
      else result.NoWalk? && s' == s
    case Save(walk) =>
      if walk < |s.walks| then
        result.SaveReply? && SaveStep(tables, seen, walk, result.outcome, result.saved, s) && s' == s
      else result.NoWalk? && s' == s
    case ForgetOne(kind, realm) => result.Forgotten? && s' == s.(cache := s.cache - {CacheKey(kind, realm)})
    case ForgetAll => result.Forgotten? && s' == s.(cache := map[])
  }

  /** The states between the calls, each of which leads from one to the next. */
  ghost predicate IsHistory(
      tables: Tables, seen: Parameters, calls: seq<AuthCall>, results: seq<AuthResult>, states: seq<AuthState>)
  {
    && |results| == |calls| && |states| == |calls| + 1
    && forall n :: 0 <= n < |calls| ==> StepOf(tables, seen, calls[n], results[n], states[n], states[n + 1])
  }

  ghost predicate Stands(walk: IterState, w: WalkState, baton: AuthBaton)
    reads walk, baton, walk.baton
  {
    && walk.baton == baton && walk.Valid() && w.kind in baton.tables
    && walk.table == baton.tables[w.kind] && walk.realm == w.realm && walk.cacheKey == KeyOf(w)
    && walk.given == w.given && (w.over <==> walk.providerIdx == |walk.table|)
    && walk.Parameters() == baton.Seen()
  }

  ghost predicate InState(baton: AuthBaton, walks: seq<IterState>, s: AuthState)
    reads baton, walks, set i | 0 <= i < |walks| :: walks[i].baton
  {
    && baton.Valid() && baton.cache == s.cache && baton.returned == s.returned
    && |walks| == |s.walks|
    && (forall i :: 0 <= i < |walks| ==> Stands(walks[i], s.walks[i], baton))
    && (forall i, j :: 0 <= i < j < |walks| ==> walks[i] != walks[j])
  }

  method SaveOn(baton: AuthBaton, walks: seq<IterState>, walk: nat, ghost s: AuthState)
    returns (outcome: Storing, saved: Option<Creds>)
    requires InState(baton, walks, s) && walk < |walks|
    ensures SaveStep(baton.tables, baton.Seen(), walk, outcome, saved, s)
  {
    hide LastReturned, HasGiven, FirstAnswer, AskedInAll;
    var iter := walks[walk];
    assert Stands(iter, s.walks[walk], baton);
    var asked;
    asked, outcome, saved := iter.SaveCredentials();
    if iter.Saves() {
      assert AsksFrom(iter.table, iter.providerIdx, baton.cache[iter.cacheKey], iter.realm, outcome);
    }
  }

  method NextOn(baton: AuthBaton, walks: seq<IterState>, walk: nat, ghost s: AuthState)
    returns (offer: Offer, ghost s': AuthState)
    requires InState(baton, walks, s) && walk < |walks|
    modifies baton`cache, baton`returned, walks[walk]
    ensures InState(baton, walks, s') && NextStep(baton.tables, walk, offer, s, s')
  {
    hide LastReturned, HasGiven, Nth, Rows;
    ghost var w := s.walks[walk];
    assert Stands(walks[walk], w, baton);
    offer := walks[walk].NextCredentials();
    s' :=
      if offer.Given? then
        Answering(s, KeyOf(w), offer.creds).(walks := s.walks[walk := w.(given := w.given + 1, over := false)])
      else s.(walks := s.walks[walk := w.(over := offer.Exhausted?)]);
    forall i | 0 <= i < |walks|
      ensures Stands(walks[i], s'.walks[i], baton)
    {
      assert old(Stands(walks[i], s.walks[i], baton));
    }
  }

  method FirstOn(baton: AuthBaton, walks: seq<IterState>, kind: string, realm: string, ghost s: AuthState)
    returns (reply: Reply, walks': seq<IterState>, ghost s': AuthState)
    requires InState(baton, walks, s)
    modifies baton`cache, baton`returned
    ensures InState(baton, walks', s') && FirstStep(baton.tables, kind, realm, reply, s, s')
    ensures forall i :: 0 <= i < |walks'| ==> walks'[i] in walks || fresh(walks'[i])
  {
    hide LastReturned, HasGiven, Nth, Rows;
    var state;
    reply, state := baton.FirstCredentials(kind, realm);
    walks', s' := walks, s;
    if state.Some? {
      ghost var key := CacheKey(kind, realm);
      s' := Answering(s, key, reply.offer.creds).(
        walks := s.walks + [WalkState(kind, realm, if key in s.cache then 0 else 1, false)]);
      walks' := walks + [state.value];
    }
    forall i | 0 <= i < |walks'|
      ensures Stands(walks'[i], s'.walks[i], baton)
    {
      assert i < |walks| ==> old(Stands(walks[i], s.walks[i], baton));
    }
  }

  /**
   * Makes any calls in any order, on any number of walks, and reports what each of them answers.
   * Whatever is saved is what was answered most recently for its key.
   */
  method Session(baton: AuthBaton, calls: seq<AuthCall>)
    returns (results: seq<AuthResult>, ghost states: seq<AuthState>)
    requires baton.Valid()
    modifies baton`cache, baton`returned
    ensures baton.Valid()
    ensures IsHistory(baton.tables, baton.Seen(), calls, results, states)
    ensures states[0] == AuthState(old(baton.cache), old(baton.returned), [])
    ensures Last(states).cache == baton.cache && Last(states).returned == baton.returned
  {
    hide StepOf, Stands;
    var walks: seq<IterState> := [];
    ghost var s := AuthState(baton.cache, baton.returned, []);
    results, states := [], [s];
    for n := 0 to |calls|
      invariant InState(baton, walks, s) && |states| == n + 1 && Last(states) == s
      invariant forall i :: 0 <= i < |walks| ==> fresh(walks[i])
      invariant IsHistory(baton.tables, baton.Seen(), calls[..n], results, states)
      invariant states[0] == AuthState(old(baton.cache), old(baton.returned), [])
    {
      var result;
      result, walks, s := Make(baton, walks, calls[n], s);
      OneMoreCall(baton.tables, baton.Seen(), calls, results, states, n, result, s);
      results, states := results + [result], states + [s];
    }
    assert calls[..|calls|] == calls;
  }

  lemma OneMoreCall(
      tables: Tables, seen: Parameters, calls: seq<AuthCall>, results: seq<AuthResult>, states: seq<AuthState>,
      n: nat, result: AuthResult, s: AuthState)
    requires n < |calls| && IsHistory(tables, seen, calls[..n], results, states)
    requires StepOf(tables, seen, calls[n], result, Last(states), s)
    ensures IsHistory(tables, seen, calls[..n + 1], results + [result], states + [s])
  {
    hide StepOf;
  }

  method Make(baton: AuthBaton, walks: seq<IterState>, call: AuthCall, ghost s: AuthState)
    returns (result: AuthResult, walks': seq<IterState>, ghost s': AuthState)
    requires InState(baton, walks, s)
    modifies baton`cache, baton`returned, walks
    ensures InState(baton, walks', s') && StepOf(baton.tables, baton.Seen(), call, result, s, s')
    ensures forall i :: 0 <= i < |walks'| ==> walks'[i] in walks || fresh(walks'[i])
  {
    hide LastReturned, HasGiven, Nth, Rows, FirstStep, NextStep, SaveStep;
    walks', s', result := walks, s, NoWalk;
    match call {
      case First(kind, realm) =>
        var reply;
        reply, walks', s' := FirstOn(baton, walks, kind, realm, s);
        result := FirstReply(reply);
      case Next(walk) =>
        if walk < |walks| {
          var offer;
          offer, s' := NextOn(baton, walks, walk, s);
          result := NextOffer(offer);
        }
      case Save(walk) =>
        if walk < |walks| {
          var outcome, saved := SaveOn(baton, walks, walk, s);
          result := SaveReply(outcome, saved);
        }
      case ForgetOne(kind, realm) =>
        baton.Forget(Some((kind, realm)));
        s', result := s.(cache := baton.cache), Forgotten;
      case ForgetAll =>
        baton.Forget(None);
        s', result := s.(cache := baton.cache), Forgotten;
    }
  }
}
