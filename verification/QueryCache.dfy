/** The least-recently-used cache of parsed queries. */
module QueryCache {
  import opened Collections
  import opened Lexer
  import opened QueryKey

  datatype Parsed<S> = Statement(statement: S) | ParseError(message: string)
  datatype Entry<S> = Entry(statement: S, hitCount: nat, lastAccessed: nat)

  // ---------------------------------------------------- recency, most recent first

  /** Using a key moves it to the front; at most c keys are kept. */
  function Touch(recent: seq<string>, key: string, c: nat): seq<string> {
    Take([key] + Without(recent, key), c)
  }

  /** The keys kept after a history of uses, oldest use first. */
  function Recent(history: seq<string>, c: nat): seq<string> {
    if history == [] then [] else Touch(Recent(history[..|history| - 1], c), history[|history| - 1], c)
  }

  /** The distinct keys of a history by their last use, latest first. */
  function ByLastUse(history: seq<string>): seq<string> {
    if history == [] then []
    else [history[|history| - 1]] + Without(ByLastUse(history[..|history| - 1]), history[|history| - 1])
  }

  function LastUse(history: seq<string>, key: string): int {
    if history == [] then -1
    else if history[|history| - 1] == key then |history| - 1
    else LastUse(history[..|history| - 1], key)
  }

  /** Removal keeps the order of what stays: a prefix of the list gives a prefix of the result. */
  lemma {:induction false} WithoutTake<T>(s: seq<T>, x: T, c: nat)
    requires NoDup(s)
    ensures Take(Without(Take(s, c), x), c - 1 + (if c == 0 then 1 else 0)) ==
      Take(Without(s, x), c - 1 + (if c == 0 then 1 else 0))
    decreases |s|
  {
    if s == [] || c == 0 || c >= |s| {
    } else {
      assert Take(s, c)[1..] == Take(s[1..], c - 1);
      if s[0] == x {
        assert x !in s[1..];
        WithoutAbsent(s[1..], x);
        WithoutAbsent(s[1..][..c - 1], x);
      } else if c == 1 {
      } else {
        WithoutTake(s[1..], x, c - 1);
        TakeCons(s[0], Without(Take(s[1..], c - 1), x), c - 1);
        TakeCons(s[0], Without(s[1..], x), c - 1);
      }
    }
  }

  lemma TakeCons<T>(x: T, s: seq<T>, c: nat)
    requires c > 0
    ensures Take([x] + s, c) == [x] + Take(s, c - 1)
  {
  }

  lemma {:induction false} ByLastUseKeys(history: seq<string>)
    ensures NoDup(ByLastUse(history))
    ensures forall k :: k in ByLastUse(history) <==> k in history
    decreases |history|
  {
    if history != [] {
      var n := |history| - 1;
      var earlier, last := history[..n], history[n];
      ByLastUseKeys(earlier);
      WithoutMeans(ByLastUse(earlier), last);
      assert history == earlier + [last];
    }
  }

  lemma {:induction false} ByLastUseMeans(history: seq<string>)
    ensures NoDup(ByLastUse(history))
    ensures forall k :: k in ByLastUse(history) <==> k in history
    ensures forall i, j :: 0 <= i < j < |ByLastUse(history)| ==>
      LastUse(history, ByLastUse(history)[i]) > LastUse(history, ByLastUse(history)[j])
    decreases |history|
  {
    hide NoDup, Without;
    ByLastUseKeys(history);
    if history != [] {
      var n := |history| - 1;
      var earlier, last := history[..n], history[n];
      ByLastUseMeans(earlier);
      WithoutMeans(ByLastUse(earlier), last);
      WithoutOrder(earlier, last);
      LastUseBelow(earlier);
      var s, rest := ByLastUse(history), Without(ByLastUse(earlier), last);
      forall i, j | 0 <= i < j < |s| ensures LastUse(history, s[i]) > LastUse(history, s[j]) {
        assert s[j] == rest[j - 1] && rest[j - 1] in rest;
        if i > 0 {
          assert s[i] == rest[i - 1] && rest[i - 1] in rest;
        }
      }
    }
  }

  lemma {:induction false} LastUseBelow(history: seq<string>)
    ensures forall k :: LastUse(history, k) < |history|
    decreases |history|
  {
    if history != [] {
      LastUseBelow(history[..|history| - 1]);
    }
  }

  lemma WithoutOrder(history: seq<string>, x: string)
    requires NoDup(ByLastUse(history))
    requires forall i, j :: 0 <= i < j < |ByLastUse(history)| ==>
      LastUse(history, ByLastUse(history)[i]) > LastUse(history, ByLastUse(history)[j])
    ensures var s := Without(ByLastUse(history), x);
      forall i, j :: 0 <= i < j < |s| ==> LastUse(history, s[i]) > LastUse(history, s[j])
  {
    hide LastUse;
    KeepsOrder(ByLastUse(history), x, (k: string) => LastUse(history, k));
  }

  lemma {:induction false} KeepsOrder(s: seq<string>, x: string, f: string -> int)
    requires forall i, j :: 0 <= i < j < |s| ==> f(s[i]) > f(s[j])
    ensures forall i, j :: 0 <= i < j < |Without(s, x)| ==> f(Without(s, x)[i]) > f(Without(s, x)[j])
    ensures forall i :: 0 <= i < |Without(s, x)| ==> Without(s, x)[i] in s
    decreases |s|
  {
    if s != [] {
      KeepsOrder(s[1..], x, f);
    }
  }

  /** Keeping c keys all along is the same as keeping the c keys used last. */
  lemma {:induction false} RecentIsPrefix(history: seq<string>, c: nat)
    ensures Recent(history, c) == Take(ByLastUse(history), c)
    decreases |history|
  {
    if history != [] {
      var n := |history| - 1;
      var earlier, last := history[..n], history[n];
      RecentIsPrefix(earlier, c);
      ByLastUseMeans(earlier);
      var full := ByLastUse(earlier);
      WithoutTake(full, last, c);
      if c > 0 {
        TakeCons(last, Without(Take(full, c), last), c);
        TakeCons(last, Without(full, last), c);
      }
    }
  }

  // -------------------------------------------------------------------- the cache

  /** The list holds the cached keys, by falling access time. */
  ghost predicate Ranked<S>(recent: seq<string>, entries: map<string, Entry<S>>, clock: nat) {
    && (forall k :: k in recent <==> k in entries)
    && (forall k :: k in entries ==> entries[k].lastAccessed <= clock)
    && (forall i, j :: 0 <= i < j < |recent| ==> entries[recent[i]].lastAccessed > entries[recent[j]].lastAccessed)
  }

  /** Every cached statement is the parse of a text whose key it is filed under. */
  ghost predicate Traced<S>(parse: string -> Parsed<S>, entries: map<string, Entry<S>>, origin: map<string, string>) {
    && entries.Keys == origin.Keys
    && forall k :: k in entries ==> Normalize(origin[k]) == k && parse(origin[k]) == Statement(entries[k].statement)
  }

  lemma RankedNoDup<S>(recent: seq<string>, entries: map<string, Entry<S>>, clock: nat)
    requires Ranked(recent, entries, clock)
    ensures NoDup(recent) && |entries| == |recent|
  {
    NoDupCardinality(recent);
    assert entries.Keys == Elems(recent);
  }

  /** The entry with the least access time is the last of the list, and no other entry has that time. */
  lemma LeastIsLast<S>(recent: seq<string>, entries: map<string, Entry<S>>, clock: nat)
    requires Ranked(recent, entries, clock) && recent != []
    ensures var last := recent[|recent| - 1];
      && last in entries
      && forall k :: k in entries ==>
        && entries[last].lastAccessed <= entries[k].lastAccessed
        && (entries[k].lastAccessed <= entries[last].lastAccessed ==> k == last)
  {
    var last := recent[|recent| - 1];
    assert last in recent;
    forall k | k in entries
      ensures entries[last].lastAccessed <= entries[k].lastAccessed
      ensures entries[k].lastAccessed <= entries[last].lastAccessed ==> k == last
    {
      assert k in recent;
      var i :| 0 <= i < |recent| && recent[i] == k;
    }
  }

  lemma RankedInsert<S>(recent: seq<string>, entries: map<string, Entry<S>>, clock: nat, key: string, e: Entry<S>)
    requires Ranked(recent, entries, clock) && key !in entries && e.lastAccessed == clock + 1
    ensures Ranked([key] + recent, entries[key := e], clock + 1)
  {
    var r := [key] + recent;
    forall i, j | 0 <= i < j < |r|
      ensures entries[key := e][r[i]].lastAccessed > entries[key := e][r[j]].lastAccessed
    {
      assert r[j] == recent[j - 1] && r[j] in recent;
      if i > 0 {
        assert r[i] == recent[i - 1] && r[i] in recent;
      }
    }
  }

  lemma RankedRemove<S>(recent: seq<string>, entries: map<string, Entry<S>>, clock: nat, key: string)
    requires Ranked(recent, entries, clock)
    ensures Ranked(Without(recent, key), entries - {key}, clock)
  {
    RankedNoDup(recent, entries, clock);
    WithoutMeans(recent, key);
    var time := (k: string) => if k in entries then entries[k].lastAccessed else 0;
    forall i, j | 0 <= i < j < |recent| ensures time(recent[i]) > time(recent[j]) {
      assert recent[i] in recent && recent[j] in recent;
    }
    KeepsOrder(recent, key, time);
  }

  lemma RankedDropLast<S>(recent: seq<string>, entries: map<string, Entry<S>>, clock: nat)
    requires Ranked(recent, entries, clock) && recent != []
    ensures Ranked(recent[..|recent| - 1], entries - {recent[|recent| - 1]}, clock)
  {
    hide *;
    RankedNoDup(recent, entries, clock);
    RankedRemove(recent, entries, clock, recent[|recent| - 1]);
    WithoutLast(recent);
  }

  /** A hit takes the key from its place to the front. */
  lemma RankedHit<S>(recent: seq<string>, entries: map<string, Entry<S>>, clock: nat, key: string, e: Entry<S>, c: nat)
    requires Ranked(recent, entries, clock) && key in entries && e.lastAccessed == clock + 1 && |recent| <= c
    ensures Ranked(Touch(recent, key, c), entries[key := e], clock + 1) && |Touch(recent, key, c)| == |recent|
  {
    hide Ranked, NoDup, Without;
    RankedNoDup(recent, entries, clock);
    RankedRemove(recent, entries, clock, key);
    RankedInsert(Without(recent, key), entries - {key}, clock, key, e);
    assert (entries - {key})[key := e] == entries[key := e];
    assert key in recent by { RankedKeys(recent, entries, clock); }
    ShorterWithout(recent, key);
  }

  lemma RankedKeys<S>(recent: seq<string>, entries: map<string, Entry<S>>, clock: nat)
    requires Ranked(recent, entries, clock)
    ensures forall k :: k in recent <==> k in entries
  {
  }

  lemma TracedGet<S>(parse: string -> Parsed<S>, entries: map<string, Entry<S>>, origin: map<string, string>,
                     key: string)
    requires Traced(parse, entries, origin) && key in entries
    ensures key in origin && Normalize(origin[key]) == key && parse(origin[key]) == Statement(entries[key].statement)
  {
    hide Normalize;
  }

  lemma TracedKeep<S>(parse: string -> Parsed<S>, entries: map<string, Entry<S>>, origin: map<string, string>,
                      key: string, e: Entry<S>)
    requires Traced(parse, entries, origin) && key in entries && e.statement == entries[key].statement
    ensures Traced(parse, entries[key := e], origin)
  {
    hide Normalize;
  }

  lemma TracedInsert<S>(parse: string -> Parsed<S>, entries: map<string, Entry<S>>, origin: map<string, string>,
                        query: string, e: Entry<S>)
    requires Traced(parse, entries, origin) && parse(query) == Statement(e.statement)
    ensures Traced(parse, entries[Normalize(query) := e], origin[Normalize(query) := query])
  {
    hide Normalize;
  }

  lemma TracedRemove<S>(parse: string -> Parsed<S>, entries: map<string, Entry<S>>, origin: map<string, string>,
                        key: string)
    requires Traced(parse, entries, origin)
    ensures Traced(parse, entries - {key}, origin - {key})
  {
    hide Normalize;
  }

  /** What a miss does to the list of keys. */
  lemma TouchNew(recent: seq<string>, key: string, c: nat)
    requires key !in recent && |recent| <= c
    ensures Touch(recent, key, c) ==
      if c == 0 then [] else if |recent| >= c then [key] + recent[..|recent| - 1] else [key] + recent
  {
    WithoutAbsent(recent, key);
    if |recent| >= c > 0 {
      assert ([key] + recent)[..c] == [key] + recent[..|recent| - 1];
    }
  }

  class QueryCache<S> {
    const parse: string -> Parsed<S>
    const capacity: nat
    var entries: map<string, Entry<S>>
    var clock: nat
    var totalHits: nat
    var totalMisses: nat

    /** The cached keys, most recently used first. */
    ghost var recent: seq<string>
    /** The text each cached statement was parsed from. */
    ghost var origin: map<string, string>

    ghost predicate Valid()
      reads this
    {
      Ranked(recent, entries, clock) && |recent| <= capacity && Traced(parse, entries, origin)
    }

    constructor (parse: string -> Parsed<S>, capacity: nat)
      ensures Valid() && this.parse == parse && this.capacity == capacity && recent == [] && origin == map[]
      ensures totalHits == 0 && totalMisses == 0
    {
      this.parse, this.capacity := parse, capacity;
      entries, clock, totalHits, totalMisses := map[], 0, 0, 0;
      recent, origin := [], map[];
    }

    /** Remove the entry with the smallest access time. */
    method EvictLru()
      requires Valid()
      modifies this
      ensures Valid() && clock == old(clock) && totalHits == old(totalHits) && totalMisses == old(totalMisses)
      ensures old(recent) == [] ==> recent == [] && entries == old(entries) && origin == old(origin)
      ensures old(recent) != [] ==>
        && recent == old(recent)[..|old(recent)| - 1]
        && entries == old(entries) - {old(recent)[|old(recent)| - 1]}
        && origin == old(origin) - {old(recent)[|old(recent)| - 1]}
    {
      hide Ranked, Traced, Normalize;
      RankedNoDup(recent, entries, clock);
      if |entries| == 0 {
        return;
      }
      LeastIsLast(recent, entries, clock);
      RankedDropLast(recent, entries, clock);
      TracedRemove(parse, entries, origin, recent[|recent| - 1]);
      var lru: string :| lru in entries &&
        forall k :: k in entries ==> entries[lru].lastAccessed <= entries[k].lastAccessed;
      assert lru == recent[|recent| - 1];
      entries := entries - {lru};
      recent, origin := recent[..|recent| - 1], origin - {lru};
    }

    /** A hit returns the statement cached for the key; a miss parses, and caches only what parses. */
    method GetOrParse(query: string) returns (r: Parsed<S>)
      requires Valid()
      modifies this
      ensures Valid()
      ensures r.Statement? ==> recent == Touch(old(recent), Normalize(query), capacity)
      ensures r.ParseError? ==>
        recent == old(recent) && origin == old(origin) && entries == old(entries) && clock == old(clock)
      ensures old(Normalize(query) in entries) ==>
        && Normalize(query) in old(origin) && r == parse(old(origin)[Normalize(query)]) && origin == old(origin)
        && totalHits == old(totalHits) + 1 && totalMisses == old(totalMisses)
        && var entry := old(entries)[Normalize(query)];
           entries == old(entries)[Normalize(query) := entry.(lastAccessed := clock, hitCount := entry.hitCount + 1)]
      ensures old(Normalize(query) !in entries) ==>
        r == parse(query) && totalHits == old(totalHits) && totalMisses == old(totalMisses) + 1
      ensures old(Normalize(query) !in entries) && r.Statement? && capacity > 0 ==>
        && Normalize(query) in entries && entries[Normalize(query)] == Entry(r.statement, 0, clock)
        && forall k :: k in entries && k != Normalize(query) ==> k in old(entries) && entries[k] == old(entries)[k]
      ensures old(Normalize(query) !in entries) && capacity == 0 ==> entries == old(entries)
      ensures forall k :: k in origin ==> (k in old(origin) && origin[k] == old(origin)[k]) || origin[k] == query
    {
      hide Ranked, Traced, Normalize, Touch;
      var key := Normalize(query);
      RankedKeys(recent, entries, clock);
      if key in entries {
        r := Hit(key);
        return;
      }
      totalMisses := totalMisses + 1;
      r := parse(query);
      if r.ParseError? {
        return;
      }
      TouchNew(recent, key, capacity);
      RankedNoDup(recent, entries, clock);
      if capacity > 0 {
        Store(query, r.statement);
      }
    }

    /** A cached statement is handed out and counted. */
    method Hit(key: string) returns (r: Parsed<S>)
      requires Valid() && key in entries
      modifies this
      ensures Valid() && recent == Touch(old(recent), key, capacity) && origin == old(origin)
      ensures key in origin && r == parse(origin[key]) && r.Statement?
      ensures totalHits == old(totalHits) + 1 && totalMisses == old(totalMisses)
      ensures entries == old(entries)[key :=
        old(entries)[key].(lastAccessed := clock, hitCount := old(entries)[key].hitCount + 1)]
    {
      hide Ranked, Traced, Normalize, Touch;
      var entry := entries[key];
      RankedHit(recent, entries, clock, key, entry.(lastAccessed := clock + 1, hitCount := entry.hitCount + 1),
                capacity);
      TracedGet(parse, entries, origin, key);
      TracedKeep(parse, entries, origin, key, entry.(lastAccessed := clock + 1, hitCount := entry.hitCount + 1));
      clock := clock + 1;
      entries := entries[key := entry.(lastAccessed := clock, hitCount := entry.hitCount + 1)];
      totalHits := totalHits + 1;
      recent := Touch(recent, key, capacity);
      r := Statement(entry.statement);
    }

    /** A new statement takes the place of the one used longest ago once the cache is full. */
    method Store(query: string, statement: S)
      requires Valid() && capacity > 0 && Normalize(query) !in entries && parse(query) == Statement(statement)
      modifies this
      ensures Valid() && totalHits == old(totalHits) && totalMisses == old(totalMisses)
      ensures recent ==
        [Normalize(query)] + if |old(recent)| >= capacity then old(recent)[..|old(recent)| - 1] else old(recent)
      ensures Normalize(query) in entries && entries[Normalize(query)] == Entry(statement, 0, clock)
      ensures forall k :: k in entries && k != Normalize(query) ==> k in old(entries) && entries[k] == old(entries)[k]
      ensures forall k :: k in origin ==> (k in old(origin) && origin[k] == old(origin)[k]) || origin[k] == query
    {
      hide Ranked, Traced, Normalize;
      var key := Normalize(query);
      RankedNoDup(recent, entries, clock);
      if |entries| >= capacity {
        EvictLru();
      }
      RankedInsert(recent, entries, clock, key, Entry(statement, 0, clock + 1));
      TracedInsert(parse, entries, origin, query, Entry(statement, 0, clock + 1));
      clock := clock + 1;
      entries := entries[key := Entry(statement, 0, clock)];
      origin := origin[key := query];
      recent := [key] + recent;
    }

    method Contains(query: string) returns (b: bool)
      requires Valid()
      ensures b <==> Normalize(query) in recent
    {
      hide Normalize;
      b := Normalize(query) in entries;
    }

    method Invalidate(query: string)
      requires Valid()
      modifies this
      ensures Valid() && recent == Without(old(recent), Normalize(query))
      ensures entries == old(entries) - {Normalize(query)} && origin == old(origin) - {Normalize(query)}
      ensures clock == old(clock) && totalHits == old(totalHits) && totalMisses == old(totalMisses)
    {
      hide Ranked, Traced, Normalize, NoDup, Without;
      var key := Normalize(query);
      TracedRemove(parse, entries, origin, key);
      RankedNoDup(recent, entries, clock);
      RankedRemove(recent, entries, clock, key);
      WithoutMeans(recent, key);
      entries := entries - {key};
      recent, origin := Without(recent, key), origin - {key};
    }

    method Clear()
      requires Valid()
      modifies this
      ensures Valid() && recent == [] && entries == map[] && totalHits == totalMisses == 0
    {
      entries, totalHits, totalMisses, clock := map[], 0, 0, 0;
      recent, origin := [], map[];
    }
  }

  // ----------------------------------------------------------------- whole runs

  /** The keys of the queries that got a statement, in order. */
  function Uses<S>(queries: seq<string>, results: seq<Parsed<S>>): seq<string>
    requires |queries| == |results|
  {
    if queries == [] then []
    else
      var n := |queries| - 1;
      Uses(queries[..n], results[..n]) + (if results[n].Statement? then [Normalize(queries[n])] else [])
  }

  /** A statement handed out for query i is the parse of a text of the run, not later than i, with its key. */
  ghost predicate Explained<S>(parse: string -> Parsed<S>, queries: seq<string>, i: nat, r: Parsed<S>)
    requires i < |queries|
  {
    exists j :: 0 <= j <= i && Normalize(queries[j]) == Normalize(queries[i]) && r == parse(queries[j])
  }

  ghost predicate FromRun(queries: seq<string>, n: nat, text: string)
    requires n <= |queries|
  {
    exists j :: 0 <= j < n && queries[j] == text
  }

  lemma HitExplained<S>(parse: string -> Parsed<S>, queries: seq<string>, n: nat, text: string, r: Parsed<S>)
    requires n < |queries| && FromRun(queries, n, text) && Normalize(text) == Normalize(queries[n]) && r == parse(text)
    ensures Explained(parse, queries, n, r)
  {
    hide Normalize;
  }

  lemma MissExplained<S>(parse: string -> Parsed<S>, queries: seq<string>, n: nat, r: Parsed<S>)
    requires n < |queries| && r == parse(queries[n])
    ensures Explained(parse, queries, n, r)
  {
    hide Normalize;
  }

  lemma FromRunLater(queries: seq<string>, n: nat)
    requires n < |queries|
    ensures FromRun(queries, n + 1, queries[n])
    ensures forall text :: FromRun(queries, n, text) ==> FromRun(queries, n + 1, text)
  {
  }

  /** After any run on a new cache it holds exactly the c keys used last, and every result is the parse
      of a text of the run, not later than the query, with the same key. */
  method Run<S>(parse: string -> Parsed<S>, c: nat, queries: seq<string>)
    returns (cache: QueryCache<S>, results: seq<Parsed<S>>)
    ensures cache.Valid() && cache.parse == parse && cache.capacity == c && |results| == |queries|
    ensures cache.recent == Take(ByLastUse(Uses(queries, results)), c)
    ensures forall i :: 0 <= i < |results| ==> Explained(parse, queries, i, results[i])
    ensures cache.totalHits + cache.totalMisses == |queries|
  {
    hide *;
    hide Uses;
    cache := new QueryCache<S>(parse, c);
    results := [];
    ghost var history: seq<string> := [];
    RunStart<S>(queries, c);
    for n := 0 to |queries|
      invariant cache.Valid() && fresh(cache) && cache.parse == parse && cache.capacity == c && |results| == n
      invariant history == Uses(queries[..n], results) && cache.recent == Recent(history, c)
      invariant cache.totalHits + cache.totalMisses == n
      invariant forall k :: k in cache.origin ==> FromRun(queries, n, cache.origin[k])
      invariant forall i :: 0 <= i < n ==> Explained(parse, queries, i, results[i])
    {
      var key := Normalize(queries[n]);
      ghost var origin, entries := cache.origin, cache.entries;
      OriginKey(cache);
      var r := cache.GetOrParse(queries[n]);
      if key in entries {
        HitExplained(parse, queries, n, origin[key], r);
      } else {
        MissExplained(parse, queries, n, r);
      }
      FromRunLater(queries, n);
      UsesStep(queries, results, n, r);
      RecentStep(history, key, c);
      if r.Statement? {
        history := history + [key];
      }
      results := results + [r];
    }
    assert queries[..|queries|] == queries;
    RecentIsPrefix(history, c);
  }

  lemma OriginKey<S>(cache: QueryCache<S>)
    requires cache.Valid()
    ensures forall k :: k in cache.entries ==> k in cache.origin && Normalize(cache.origin[k]) == k
  {
    hide Normalize, Ranked;
  }

  lemma RunStart<S>(queries: seq<string>, c: nat)
    ensures Uses<S>(queries[..0], []) == [] && Recent([], c) == []
  {
  }

  lemma RecentStep(history: seq<string>, key: string, c: nat)
    ensures Recent(history + [key], c) == Touch(Recent(history, c), key, c)
  {
    assert (history + [key])[..|history|] == history;
  }

  lemma UsesStep<S>(queries: seq<string>, results: seq<Parsed<S>>, n: nat, r: Parsed<S>)
    requires n < |queries| && |results| == n
    ensures Uses(queries[..n + 1], results + [r]) ==
            Uses(queries[..n], results) + (if r.Statement? then [Normalize(queries[n])] else [])
  {
    assert queries[..n + 1][..n] == queries[..n] && (results + [r])[..n] == results;
  }

  // ---------------------------------------------- when a hit is as good as a parse

  /** Two texts with one key that does not end in a dot, whose literals hold only single blanks, have the same
      token kinds: a parser that looks at kinds only cannot tell them apart, and the cache is transparent. */
  lemma SameKeySameKinds(u: Unicode, a: string, b: string)
    requires Sound(u) && NoComment(a) && NoComment(b) && !Spoiled(u, a) && !Spoiled(u, b)
    requires Normalize(a) == Normalize(b) && (Normalize(a) == "" || Normalize(a)[|Normalize(a)| - 1] != '.')
    ensures KindsOf(u, a) == KindsOf(u, b)
  {
    hide KindsOf, Normalize, Spoiled;
    KeyKeepsKindsWithoutDot(u, a);
    KeyKeepsKindsWithoutDot(u, b);
  }

  /** In particular two texts without quotes. */
  lemma SamePlainKeySameKinds(u: Unicode, a: string, b: string)
    requires Sound(u) && Plain(a) && Plain(b)
    requires Normalize(a) == Normalize(b) && (Normalize(a) == "" || Normalize(a)[|Normalize(a)| - 1] != '.')
    ensures KindsOf(u, a) == KindsOf(u, b)
  {
    hide KindsOf, Normalize, Spoiled;
    PlainNotSpoiled(u, a);
    PlainNotSpoiled(u, b);
    SameKeySameKinds(u, a, b);
  }

  /** White space inside a string literal is not significant for the key but is for the literal:
      these two texts share a cache entry. */
  lemma QuotedTextsCollide(u: Unicode)
    ensures Normalize("'a  b'") == Normalize("'a b'")
    ensures KindsOf(u, "'a  b'") != KindsOf(u, "'a b'")
  {
    QuotedKeys();
    hide *;
    QuotedKinds(u, "a  b");
    QuotedKinds(u, "a b");
    assert "a  b"[2] != "a b"[2] && "a  b" != "a b";
    assert "'" + "a  b" + "'" == "'a  b'" && "'" + "a b" + "'" == "'a b'";
  }

  lemma QuotedKeys()
    ensures Normalize("'a  b'") == Normalize("'a b'")
  {
    var tail := "b'";
    assert WordSpan(tail) == 2 by {
      assert IsWhitespace(tail[0]) == false && IsWhitespace(tail[1]) == false;
    }
    assert Words(tail) == [tail] by {
      assert tail[2..] == "" && tail[..2] == tail;
    }
    SkipSpace(tail);
    SkipSpace(" " + tail);
    FirstWord("'a", " " + tail);
    FirstWord("'a", " " + (" " + tail));
    assert "'a" + (" " + tail) == "'a b'" && "'a" + (" " + (" " + tail)) == "'a  b'";
  }

  lemma SkipSpace(s: string)
    ensures Words(" " + s) == Words(s)
  {
    assert (" " + s)[1..] == s;
  }

  lemma FirstWord(w: string, s: string)
    requires w != [] && (forall i :: 0 <= i < |w| ==> !IsWhitespace(w[i])) && s != [] && IsWhitespace(s[0])
    ensures Words(w + s) == [w] + Words(s)
  {
    var t := w + s;
    var n := WordSpan(t);
    assert t[|w|] == s[0] && forall i :: 0 <= i < |w| ==> t[i] == w[i];
    assert n == |w|;
    assert t[..n] == w && t[n..] == s;
    assert !IsWhitespace(t[0]);
  }

  lemma {:induction false} QuotedBody(quote: char, s: string)
    requires forall i :: 0 <= i < |s| ==> s[i] != quote && s[i] != '\\'
    ensures StringBody(quote, s + [quote]) == Token(Str(s), |s| + 1)
    decreases |s|
  {
    if s == [] {
      assert s + [quote] == [quote];
    } else {
      QuotedBody(quote, s[1..]);
      assert (s + [quote])[1..] == s[1..] + [quote] && s == [s[0]] + s[1..];
    }
  }

  lemma QuotedKinds(u: Unicode, s: string)
    requires forall i :: 0 <= i < |s| ==> s[i] != '\'' && s[i] != '\\'
    ensures KindsOf(u, "'" + s + "'") == Ok([Str(s)])
  {
    var r := "'" + s + "'";
    assert r[0] == '\'' && r[1..] == s + ['\''];
    QuotedBody('\'', s);
    assert Skip(r) == r by {
      assert |r| >= 2 && r[..2] == [r[0], r[1]];
    }
    KindsStep(u, r);
    assert r[|s| + 2..] == "";
    KindsStep(u, "");
    assert [Str(s)] + [] == [Str(s)];
  }
}
