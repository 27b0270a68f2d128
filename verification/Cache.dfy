/** The cache service: handlers over a map of timestamped entries, compared with the history of requests. */
module CacheService {
  import opened Outcomes
  import opened JsonTree
  import M = MessageClass

  /** CacheEntry. The content is the JSON value whose text is stored. */
  datatype CacheEntry = CacheEntry(ctime: int, maxAge: int, content: Json) {
    predicate Expired(now: int) { now - ctime >= maxAge }
  }

  const DEFAULT_MAX_AGE := 5 * 60

  datatype Reply = Done | InvalidContent | NullValue | Content(content: Json)

  datatype Stats = Stats(writes: nat, writesFailed: nat, removals: nat, hits: nat, hitsExpired: nat, misses: nat) {
    /** "total_calls" in status() */
    function Total(): nat { writes + writesFailed + removals + hits + hitsExpired + misses }
  }

  datatype State = State(cache: map<string, CacheEntry>, stats: Stats)

  const INITIAL := State(map[], Stats(0, 0, 0, 0, 0, 0))

  /** One request, or one pass of the cleaner, at a time of the clock. */
  datatype Event =
    | Store(key: string, maxAge: int, value: Json, now: int)
    | Retrieve(key: string, now: int)
    | Remove(key: string, now: int)
    | Clean(now: int)

  function NewEntry(maxAge: int, value: Json, now: int): CacheEntry {
    CacheEntry(now, if maxAge != 0 then maxAge else DEFAULT_MAX_AGE, value)
  }

  function Fresh(cache: map<string, CacheEntry>, now: int): map<string, CacheEntry> {
    map k | k in cache && !cache[k].Expired(now) :: cache[k]
  }

  /** What a handler answers and leaves behind. A cleaner pass answers nobody. */
  function Step(s: State, ev: Event): (State, Reply) {
    match ev
    case Store(key, maxAge, value, now) =>
      if key == "" then (s.(stats := s.stats.(writesFailed := s.stats.writesFailed + 1)), InvalidContent)
      else (State(s.cache[key := NewEntry(maxAge, value, now)], s.stats.(writes := s.stats.writes + 1)), Done)
    case Retrieve(key, now) =>
      if key == "" || key !in s.cache then (s.(stats := s.stats.(misses := s.stats.misses + 1)), NullValue)
      else if s.cache[key].Expired(now) then
        (State(s.cache - {key}, s.stats.(hitsExpired := s.stats.hitsExpired + 1)), NullValue)
      else (s.(stats := s.stats.(hits := s.stats.hits + 1)), Content(s.cache[key].content))
    case Remove(key, now) =>
      (State(s.cache - {key}, s.stats.(removals := s.stats.removals + 1)), Done)
    case Clean(now) => (s.(cache := Fresh(s.cache, now)), Done)
  }

  class Cache {
    var cache: map<string, CacheEntry>
    var writes: nat
    var writesFailed: nat
    var removals: nat
    var hits: nat
    var hitsExpired: nat
    var misses: nat

    function View(): State
      reads this
    {
      State(cache, Stats(writes, writesFailed, removals, hits, hitsExpired, misses))
    }

    constructor ()
      ensures View() == INITIAL
    {
      cache := map[];
      writes, writesFailed, removals, hits, hitsExpired, misses := 0, 0, 0, 0, 0, 0;
    }

    method StoreValue(key: string, maxAge: int, value: Json, now: int) returns (r: Reply)
      modifies this
      ensures (View(), r) == Step(old(View()), Store(key, maxAge, value, now))
    {
      if key == "" {
        writesFailed := writesFailed + 1;
        return InvalidContent;
      }
      cache := cache[key := NewEntry(maxAge, value, now)];
      writes := writes + 1;
      return Done;
    }

    method RetrieveValue(key: string, now: int) returns (r: Reply)
      modifies this
      ensures (View(), r) == Step(old(View()), Retrieve(key, now))
    {
      var found := key in cache;
      if key == "" || !found {
        misses := misses + 1;
        return NullValue;
      }
      var entry := cache[key];
      if entry.Expired(now) {
        cache := cache - {key};
        hitsExpired := hitsExpired + 1;
        return NullValue;
      }
      hits := hits + 1;
      return Content(entry.content);
    }

    method RemoveKey(key: string, now: int)
      modifies this
      ensures View() == Step(old(View()), Remove(key, now)).0
    {
      cache := cache - {key};
      removals := removals + 1;
    }

    /** One pass of the cleaner over the keys present when it starts. */
    method CleanerPass(now: int) returns (removed: nat)
      modifies this`cache
      ensures View() == Step(old(View()), Clean(now)).0
      ensures removed == |old(cache)| - |cache|
    {
      removed := 0;
      var keys := cache.Keys;
      while keys != {}
        invariant keys <= cache.Keys && cache.Keys <= old(cache).Keys
        invariant forall k | k in cache :: cache[k] == old(cache)[k]
        invariant forall k | k in old(cache) && k !in keys :: k in cache <==> !old(cache)[k].Expired(now)
        invariant |cache.Keys| + removed == |old(cache).Keys|
        decreases keys
      {
        var k :| k in keys;
        if cache[k].Expired(now) {
          assert (cache - {k}).Keys == cache.Keys - {k};
          cache := cache - {k};
          removed := removed + 1;
        }
        keys := keys - {k};
      }
      assert cache == Fresh(old(cache), now);
      assert |cache.Keys| == |cache| && |old(cache).Keys| == |old(cache)|;
    }
  }

  // ----- runs -----

  function Run(h: seq<Event>): State {
    if h == [] then INITIAL else Step(Run(h[..|h| - 1]), h[|h| - 1]).0
  }

  function Now(ev: Event): int { ev.now }

  ghost predicate Monotone(h: seq<Event>) {
    forall i, j | 0 <= i < j < |h| :: Now(h[i]) <= Now(h[j])
  }

  /** The reference: the last store of the key that no remove has followed. */
  function LastStore(h: seq<Event>, key: string): (r: Option<Event>)
    ensures r.Some? ==> r.value.Store? && r.value.key == key != ""
  {
    if h == [] then None
    else
      var before, ev := h[..|h| - 1], h[|h| - 1];
      if ev.Store? && ev.key == key && key != "" then Some(ev)
      else if ev.Remove? && ev.key == key then None
      else LastStore(before, key)
  }

  /** The age at which a store stops being answered: its max_age, or five minutes. */
  predicate TooOld(store: Event, now: int)
    requires store.Store?
  {
    now - store.now >= (if store.maxAge == 0 then 300 else store.maxAge)
  }

  /** The reference answer: that store's value, while it is younger than its age limit. */
  function Answer(h: seq<Event>, key: string, now: int): Reply {
    match LastStore(h, key)
    case None => NullValue
    case Some(store) => if TooOld(store, now) then NullValue else Content(store.value)
  }

  /** Since the key's last store that no remove has followed, a cleaner pass or a retrieve of the key was made at a
      time when that store counted as expired. */
  predicate SawExpiry(h: seq<Event>, key: string) {
    h != []
    && var before := h[..|h| - 1];
       match h[|h| - 1]
       case Store(k, _, _, _) => !(k == key && k != "") && SawExpiry(before, key)
       case Remove(k, _) => k != key && SawExpiry(before, key)
       case Retrieve(k, now) => SawExpiry(before, key) || (k == key && ExpiredBy(before, key, now))
       case Clean(now) => SawExpiry(before, key) || ExpiredBy(before, key, now)
  }

  predicate ExpiredBy(h: seq<Event>, key: string, now: int) {
    LastStore(h, key).Some? && TooOld(LastStore(h, key).value, now)
  }

  /** Over every run, with any clock: the cache holds exactly the last stores whose expiry nobody has seen. */
  lemma {:induction false} HeldIff(h: seq<Event>, key: string)
    ensures key in Run(h).cache <==> LastStore(h, key).Some? && !SawExpiry(h, key)
    ensures key in Run(h).cache ==>
              var store := LastStore(h, key).value;
              Run(h).cache[key] == CacheEntry(store.now, if store.maxAge == 0 then 300 else store.maxAge, store.value)
  {
    if h != [] {
      HeldIff(h[..|h| - 1], key);
    }
  }

  /** A retrieve answers as the reference exactly when it is not the case that the reference has a value whose expiry
      was seen earlier. */
  lemma RetrieveIsAnswerIff(h: seq<Event>, key: string, now: int)
    ensures Step(Run(h), Retrieve(key, now)).1 == Answer(h, key, now)
       <==> !(Answer(h, key, now).Content? && SawExpiry(h, key))
  {
    HeldIff(h, key);
  }

  /** With a clock that never goes back, a store that was once seen expired stays expired. */
  lemma {:induction false} ExpiryStays(h: seq<Event>, key: string, now: int)
    requires Monotone(h + [Retrieve(key, now)]) && SawExpiry(h, key)
    ensures ExpiredBy(h, key, now)
  {
    var n := |h| - 1;
    var all := h + [Retrieve(key, now)];
    assert all[n] == h[n] && all[n + 1] == Retrieve(key, now);
    assert Now(h[n]) <= now;
    if SawExpiry(h[..n], key) {
      var shorter := h[..n] + [Retrieve(key, Now(h[n]))];
      forall i, j | 0 <= i < j < |shorter| ensures Now(shorter[i]) <= Now(shorter[j]) {
        assert Now(shorter[i]) == Now(all[i]) && Now(shorter[j]) == Now(all[j]);
      }
      ExpiryStays(h[..n], key, Now(h[n]));
    }
  }

  /** So then every retrieve answers as the reference, whatever cleaner passes have been made. */
  lemma RetrieveIsAnswer(h: seq<Event>, key: string, now: int)
    requires Monotone(h + [Retrieve(key, now)])
    ensures Step(Run(h), Retrieve(key, now)).1 == Answer(h, key, now)
  {
    RetrieveIsAnswerIff(h, key, now);
    if SawExpiry(h, key) { ExpiryStays(h, key, now); }
  }

  /** In numbers: retrieve gives a value exactly when the last store of the key that no remove has followed stored it
      less than its max_age, or 300 seconds, ago; and null otherwise. */
  lemma RetrieveInNumbers(h: seq<Event>, key: string, now: int, v: Json)
    requires Monotone(h + [Retrieve(key, now)])
    ensures Step(Run(h), Retrieve(key, now)).1 == Content(v) <==>
              match LastStore(h, key)
              case Some(Store(_, a, w, t)) => w == v && now - t < (if a != 0 then a else 300)
              case _ => false
    ensures !Step(Run(h), Retrieve(key, now)).1.Content? ==> Step(Run(h), Retrieve(key, now)).1 == NullValue
  {
    RetrieveIsAnswer(h, key, now);
  }

  /** The replies of the other requests do not depend on the history. */
  lemma OtherReplies(s: State, key: string, maxAge: int, v: Json, now: int)
    ensures Step(s, Store(key, maxAge, v, now)).1 == if key == "" then InvalidContent else Done
    ensures Step(s, Remove(key, now)).1 == Done
  {
  }

  function WithoutCleaner(h: seq<Event>): seq<Event> {
    if h == [] then []
    else WithoutCleaner(h[..|h| - 1]) + if h[|h| - 1].Clean? then [] else [h[|h| - 1]]
  }

  lemma {:induction false} CleanerIgnored(h: seq<Event>, key: string)
    ensures LastStore(WithoutCleaner(h), key) == LastStore(h, key)
  {
    if h != [] {
      var n := |h| - 1;
      var before := WithoutCleaner(h[..n]);
      CleanerIgnored(h[..n], key);
      if h[n].Clean? {
        assert before + [] == before;
      } else {
        assert (before + [h[n]])[..|before|] == before;
      }
    }
  }

  /** An expiry seen without the cleaner is seen with it. */
  lemma {:induction false} CleanerSeesMore(h: seq<Event>, key: string)
    ensures SawExpiry(WithoutCleaner(h), key) ==> SawExpiry(h, key)
  {
    if h != [] {
      var n := |h| - 1;
      var before := WithoutCleaner(h[..n]);
      CleanerSeesMore(h[..n], key);
      CleanerIgnored(h[..n], key);
      if h[n].Clean? {
        assert before + [] == before;
      } else {
        assert (before + [h[n]])[..|before|] == before;
      }
    }
  }

  /** Dropping all cleaner passes from a run changes an answer exactly when only a cleaner pass saw the expiry of a
      value that the reference still has. */
  lemma CleanerIsTransparentIff(h: seq<Event>, key: string, now: int)
    ensures Step(Run(h), Retrieve(key, now)).1 == Step(Run(WithoutCleaner(h)), Retrieve(key, now)).1
       <==> !(Answer(h, key, now).Content? && SawExpiry(h, key) && !SawExpiry(WithoutCleaner(h), key))
  {
    CleanerIgnored(h, key);
    CleanerSeesMore(h, key);
    HeldIff(h, key);
    HeldIff(WithoutCleaner(h), key);
  }

  /** Transparency: with a clock that never goes back that cannot happen. */
  lemma CleanerIsTransparent(h: seq<Event>, key: string, now: int)
    requires Monotone(h + [Retrieve(key, now)])
    ensures Step(Run(h), Retrieve(key, now)).1 == Step(Run(WithoutCleaner(h)), Retrieve(key, now)).1
  {
    CleanerIsTransparentIff(h, key, now);
    if SawExpiry(h, key) { ExpiryStays(h, key, now); }
  }

  /** An input where it does happen: a cleaner pass ahead of a clock that is then set back loses a live entry. */
  lemma ClockSetBack(key: string, value: Json)
    requires key != ""
    ensures var h := [Store(key, 10, value, 0), Clean(10)];
            Answer(h, key, 5) == Content(value) && Step(Run(h), Retrieve(key, 5)).1 == NullValue
  {
    var h := [Store(key, 10, value, 0), Clean(10)];
    assert h[..1] == [h[0]] && h[..1][..0] == [];
    assert Run(h[..1]) == Step(INITIAL, h[0]).0;
    assert Run(h) == Step(Run(h[..1]), h[1]).0;
    assert LastStore(h[..1], key) == Some(h[0]);
  }

  // ----- the counters -----

  function Requests(h: seq<Event>): nat {
    if h == [] then 0 else Requests(h[..|h| - 1]) + if h[|h| - 1].Clean? then 0 else 1
  }

  /** The six counters always sum to the number of store, retrieve and remove calls. */
  lemma {:induction false} CountersAccount(h: seq<Event>)
    ensures Run(h).stats.Total() == Requests(h)
  {
    if h != [] { CountersAccount(h[..|h| - 1]); }
  }

  /** How many requests of the run were stores under a non-empty key, stores under none, and removes. */
  function Stores(h: seq<Event>, named: bool): nat {
    if h == [] then 0
    else
      Stores(h[..|h| - 1], named) + if h[|h| - 1].Store? && (h[|h| - 1].key != "") == named then 1 else 0
  }

  function Removes(h: seq<Event>): nat {
    if h == [] then 0 else Removes(h[..|h| - 1]) + if h[|h| - 1].Remove? then 1 else 0
  }

  lemma {:induction false} WritesAndRemovals(h: seq<Event>)
    ensures Run(h).stats.writes == Stores(h, true) && Run(h).stats.writesFailed == Stores(h, false)
    ensures Run(h).stats.removals == Removes(h)
  {
    if h != [] { WritesAndRemovals(h[..|h| - 1]); }
  }

  /** How many retrieves of the run were the first to see that their key's last store was too old. */
  function FoundExpired(h: seq<Event>): nat {
    if h == [] then 0
    else
      var before, ev := h[..|h| - 1], h[|h| - 1];
      FoundExpired(before)
      + if ev.Retrieve? && ExpiredBy(before, ev.key, ev.now) && !SawExpiry(before, ev.key) then 1 else 0
  }

  /** How many retrieves of the run asked for a key without a store, or whose store's expiry had been seen. */
  function Missed(h: seq<Event>): nat {
    if h == [] then 0
    else
      var before, ev := h[..|h| - 1], h[|h| - 1];
      Missed(before)
      + if ev.Retrieve? && (LastStore(before, ev.key) == None || SawExpiry(before, ev.key)) then 1 else 0
  }

  lemma {:induction false} ExpiredAndMissed(h: seq<Event>)
    ensures Run(h).stats.hitsExpired == FoundExpired(h) && Run(h).stats.misses == Missed(h)
  {
    if h != [] {
      var before := h[..|h| - 1];
      ExpiredAndMissed(before);
      if h[|h| - 1].Retrieve? { HeldIff(before, h[|h| - 1].key); }
    }
  }

  /** How many retrieves of the run asked for a value the reference has, its expiry not seen before. */
  function Served(h: seq<Event>): nat {
    if h == [] then 0
    else
      var before, ev := h[..|h| - 1], h[|h| - 1];
      Served(before)
      + if ev.Retrieve? && Answer(before, ev.key, ev.now).Content? && !SawExpiry(before, ev.key) then 1 else 0
  }

  /** The hits are exactly those retrieves. */
  lemma {:induction false} HitsAreServed(h: seq<Event>)
    ensures Run(h).stats.hits == Served(h)
  {
    if h != [] {
      var before := h[..|h| - 1];
      HitsAreServed(before);
      if h[|h| - 1].Retrieve? {
        HeldIff(before, h[|h| - 1].key);
      }
    }
  }

  /** How many retrieves of the run the reference answers with a value. */
  function Answered(h: seq<Event>): nat {
    if h == [] then 0
    else
      var before, ev := h[..|h| - 1], h[|h| - 1];
      Answered(before) + if ev.Retrieve? && Answer(before, ev.key, ev.now).Content? then 1 else 0
  }

  /** Which are all of them when the clock never goes back. */
  lemma {:induction false} HitsAreAnswered(h: seq<Event>)
    requires Monotone(h)
    ensures Run(h).stats.hits == Answered(h)
  {
    if h != [] {
      var n := |h| - 1;
      HitsAreAnswered(h[..n]);
      if h[n].Retrieve? {
        assert h == h[..n] + [h[n]];
        RetrieveIsAnswer(h[..n], h[n].key, h[n].now);
      }
    }
  }

  // ----- the reply document -----

  /** The content travels in an empty document under the key, read as a dotted path: the client finds it there. */
  lemma ReplyCarriesContent(key: string, content: Json)
    requires M.Keys(key) != []
    ensures Put(EMPTY_OBJECT, M.Keys(key), content).Ok?
    ensures Find(Put(EMPTY_OBJECT, M.Keys(key), content).value, M.Keys(key)) == Some(content)
  {
    var keys := M.Keys(key);
    PutSucceedsIff(EMPTY_OBJECT, keys, content);
    forall i | 0 <= i < |keys| ensures PassableAt(EMPTY_OBJECT, keys[..i]) {}
    PutThenLookup(EMPTY_OBJECT, keys, content, []);
    assert keys + [] == keys;
  }
}
