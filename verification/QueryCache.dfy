/** The keyed fetch cache (`src/query.rs`): its operations, and exact eviction. */
module QueryCache {
  import opened Basics
  import opened Options

  datatype FetchToken<K> = FetchToken(key: K, generation: nat)

  datatype Query<K, V> = Ready(value: V) | Pending | Missing(token: FetchToken<K>)

  datatype Slot<V> = Loading | Loaded(value: V)

  datatype Cached<V> = Cached(slot: Slot<V>, generation: nat, lastUsed: nat)

  datatype Cache<K(==), V> = Cache(entries: map<K, Cached<V>>, capacity: nat, clock: nat, generation: nat)

  // ----- the operations on values -----

  function Empty<K, V>(capacity: nat): Cache<K, V> {
    Cache(map[], if capacity == 0 then 1 else capacity, 0, 0)
  }

  function AfterRead<K, V>(c: Cache<K, V>, key: K): Cache<K, V> {
    var clock := c.clock + 1;
    if key in c.entries then c.(clock := clock, entries := c.entries[key := c.entries[key].(lastUsed := clock)])
    else c.(clock := clock, entries := c.entries[key := Cached(Loading, c.generation, clock)])
  }

  function Found<K, V>(c: Cache<K, V>, key: K): Query<K, V> {
    if key !in c.entries then Missing(FetchToken(key, c.generation))
    else match c.entries[key].slot
         case Loaded(v) => Ready(v)
         case Loading => Pending
  }

  predicate Accepts<K, V>(c: Cache<K, V>, token: FetchToken<K>) {
    token.key in c.entries && c.entries[token.key].generation == token.generation
  }

  /** The entries once a fetched value has been put in, before anything is evicted. */
  function Stored<K, V>(c: Cache<K, V>, token: FetchToken<K>, value: V): map<K, Cached<V>>
    requires Accepts(c, token)
  {
    c.entries[token.key := Cached(Loaded(value), token.generation, c.clock + 1)]
  }

  function AfterFulfill<K, V>(c: Cache<K, V>, token: FetchToken<K>, value: V): Cache<K, V> {
    if !Accepts(c, token) then c
    else c.(clock := c.clock + 1, entries := Survivors(Stored(c, token, value), c.capacity))
  }

  function AfterAbandon<K, V>(c: Cache<K, V>, token: FetchToken<K>): Cache<K, V> {
    if Accepts(c, token) then c.(entries := c.entries - {token.key}) else c
  }

  function AfterInvalidate<K, V>(c: Cache<K, V>, key: K): Cache<K, V> {
    c.(generation := c.generation + 1, entries := c.entries - {key})
  }

  function AfterClear<K, V>(c: Cache<K, V>): Cache<K, V> {
    c.(generation := c.generation + 1, entries := map[])
  }

  // ----- eviction -----

  function InFlight<K, V>(entries: map<K, Cached<V>>): set<K> {
    set k | k in entries && entries[k].slot.Loading?
  }

  function Resolved<K, V>(entries: map<K, Cached<V>>): set<K> {
    set k | k in entries && entries[k].slot.Loaded?
  }

  /** The resolved entries used after `key` was. */
  function Newer<K, V>(entries: map<K, Cached<V>>, key: K): set<K>
    requires key in entries
  {
    set k | k in entries && entries[k].slot.Loaded? && entries[k].lastUsed > entries[key].lastUsed
  }

  /** In-flight entries stay; a resolved one stays when those used after it and those in
      flight leave room for it. */
  predicate Survives<K, V>(entries: map<K, Cached<V>>, capacity: nat, key: K)
    requires key in entries
  {
    entries[key].slot.Loading? || |Newer(entries, key)| + |InFlight(entries)| < capacity
  }

  function Survivors<K, V>(entries: map<K, Cached<V>>, capacity: nat): map<K, Cached<V>> {
    map k | k in entries && Survives(entries, capacity, k) :: entries[k]
  }

  predicate NoTwoAlike<K, V>(entries: map<K, Cached<V>>) {
    forall j, k :: j in entries && k in entries && j != k ==> entries[j].lastUsed != entries[k].lastUsed
  }

  /** The coldest resolved entry. */
  predicate IsVictim<K, V>(entries: map<K, Cached<V>>, v: K) {
    && v in entries && entries[v].slot.Loaded?
    && forall k :: k in entries && entries[k].slot.Loaded? ==> entries[v].lastUsed <= entries[k].lastUsed
  }

  lemma TwoKinds<K, V>(entries: map<K, Cached<V>>)
    ensures |entries| == |InFlight(entries)| + |Resolved(entries)|
  {
    var a, b := InFlight(entries), Resolved(entries);
    assert a !! b && a + b == entries.Keys;
    assert |a + b| == |a| + |b|;
  }

  lemma FewerMembers<T>(a: set<T>, b: set<T>)
    requires a <= b
    ensures |a| <= |b|
    decreases |b|
  {
    if x :| x in b {
      FewerMembers(a - {x}, b - {x});
    }
  }

  lemma NewerAreResolved<K, V>(entries: map<K, Cached<V>>, key: K)
    requires key in entries
    ensures Newer(entries, key) <= Resolved(entries) - {key}
  {
  }

  /** Below the capacity everything survives. */
  lemma AllSurvive<K, V>(entries: map<K, Cached<V>>, capacity: nat)
    requires |entries| <= capacity || Resolved(entries) == {}
    ensures Survivors(entries, capacity) == entries
  {
    hide Newer, InFlight;
    forall k | k in entries ensures Survives(entries, capacity, k) {
      if entries[k].slot.Loaded? {
        assert k in Resolved(entries);
        RoomForIt(entries, k);
      }
    }
  }

  lemma RoomForIt<K, V>(entries: map<K, Cached<V>>, key: K)
    requires key in Resolved(entries)
    ensures |Newer(entries, key)| + |InFlight(entries)| < |entries|
  {
    TwoKinds(entries);
    NewerAreResolved(entries, key);
    FewerMembers(Newer(entries, key), Resolved(entries) - {key});
  }

  lemma WithoutOne<K, V>(entries: map<K, Cached<V>>, v: K)
    requires NoTwoAlike(entries) && v in entries && entries[v].slot.Loaded?
    ensures |entries - {v}| == |entries| - 1 && NoTwoAlike(entries - {v})
    ensures InFlight(entries - {v}) == InFlight(entries) && Resolved(entries - {v}) == Resolved(entries) - {v}
  {
    var rest := entries - {v};
    assert rest.Keys == entries.Keys - {v};
    assert |rest| == |rest.Keys|;
  }

  lemma SurvivesWithout<K, V>(entries: map<K, Cached<V>>, capacity: nat, v: K, k: K)
    requires IsVictim(entries, v) && k in entries && k != v && InFlight(entries - {v}) == InFlight(entries)
    ensures Survives(entries - {v}, capacity, k) == Survives(entries, capacity, k)
  {
    hide IsVictim, InFlight;
    if entries[k].slot.Loaded? { NewerWithout(entries, v, k); }
    hide Newer;
  }

  /** Over the capacity, dropping the victim changes nothing about who survives. */
  lemma DroppingTheVictim<K, V>(entries: map<K, Cached<V>>, capacity: nat, v: K)
    requires NoTwoAlike(entries) && IsVictim(entries, v) && |entries| > capacity
    ensures Survivors(entries - {v}, capacity) == Survivors(entries, capacity)
    ensures |entries - {v}| == |entries| - 1 && NoTwoAlike(entries - {v})
    ensures InFlight(entries - {v}) == InFlight(entries) && Resolved(entries - {v}) == Resolved(entries) - {v}
  {
    VictimGoes(entries, capacity, v);
    WithoutOne(entries, v);
    hide NoTwoAlike, InFlight, Resolved, Survives;
    forall k | k in entries - {v} ensures Survives(entries - {v}, capacity, k) == Survives(entries, capacity, k) {
      SurvivesWithout(entries, capacity, v, k);
    }
    hide IsVictim;
  }

  lemma NewerWithout<K, V>(entries: map<K, Cached<V>>, v: K, key: K)
    requires IsVictim(entries, v) && key in entries && key != v && entries[key].slot.Loaded?
    ensures Newer(entries - {v}, key) == Newer(entries, key)
  {
  }

  lemma VictimGoes<K, V>(entries: map<K, Cached<V>>, capacity: nat, v: K)
    requires NoTwoAlike(entries) && IsVictim(entries, v) && |entries| > capacity
    ensures !Survives(entries, capacity, v)
  {
    TwoKinds(entries);
    assert Newer(entries, v) == Resolved(entries) - {v};
  }

  lemma VictimExists<K, V>(entries: map<K, Cached<V>>) returns (v: K)
    requires Resolved(entries) != {}
    ensures IsVictim(entries, v)
    decreases |Resolved(entries)|
  {
    var k :| k in Resolved(entries);
    if IsVictim(entries, k) {
      v := k;
    } else {
      var rest := entries - {k};
      assert Resolved(rest) == Resolved(entries) - {k};
      var j :| j in entries && entries[j].slot.Loaded? && entries[j].lastUsed < entries[k].lastUsed;
      assert j in Resolved(rest);
      v := VictimExists(rest);
      forall i | i in entries && entries[i].slot.Loaded? ensures entries[v].lastUsed <= entries[i].lastUsed {
        if i == k { assert rest[v].lastUsed <= rest[j].lastUsed; } else { assert rest[v].lastUsed <= rest[i].lastUsed; }
      }
    }
  }

  function Room(capacity: nat, inFlight: nat): nat {
    if capacity > inFlight then capacity - inFlight else 0
  }

  /** How many resolved entries survive: as many as the in-flight ones leave room for. */
  lemma {:induction false} SurvivorCount<K, V>(entries: map<K, Cached<V>>, capacity: nat)
    requires NoTwoAlike(entries)
    ensures InFlight(Survivors(entries, capacity)) == InFlight(entries)
    ensures |Resolved(Survivors(entries, capacity))|
         == Min(|Resolved(entries)|, Room(capacity, |InFlight(entries)|))
    decreases |entries|
  {
    hide Survivors, InFlight, Resolved, IsVictim, NoTwoAlike;
    TwoKinds(entries);
    if |entries| <= capacity || Resolved(entries) == {} {
      AllSurvive(entries, capacity);
    } else {
      var v := VictimExists(entries);
      DroppingTheVictim(entries, capacity, v);
      assert v in Resolved(entries) by { VictimIsResolved(entries, v); }
      SurvivorCount(entries - {v}, capacity);
    }
  }

  lemma VictimIsResolved<K, V>(entries: map<K, Cached<V>>, v: K)
    requires IsVictim(entries, v)
    ensures v in Resolved(entries)
  {
  }

  /** Whatever survives was used after whatever is evicted. */
  lemma SurvivorsAreNewer<K, V>(entries: map<K, Cached<V>>, capacity: nat, kept: K, gone: K)
    requires kept in Resolved(entries) && gone in Resolved(entries)
    requires Survives(entries, capacity, kept) && !Survives(entries, capacity, gone)
    ensures entries[kept].lastUsed > entries[gone].lastUsed
  {
    if entries[kept].lastUsed <= entries[gone].lastUsed {
      FewerMembers(Newer(entries, gone), Newer(entries, kept));
    }
  }

  // ----- what every operation keeps -----

  ghost predicate CacheOk<K, V>(c: Cache<K, V>) {
    && c.capacity >= 1 && NoTwoAlike(c.entries)
    && (forall k :: k in c.entries ==> c.entries[k].lastUsed <= c.clock && c.entries[k].generation <= c.generation)
    && |Resolved(c.entries)| <= c.capacity
  }

  lemma EmptyOk<K, V>(capacity: nat)
    ensures CacheOk(Empty<K, V>(capacity))
  {
    assert Resolved(Empty<K, V>(capacity).entries) == {};
  }

  lemma ReadOk<K, V>(c: Cache<K, V>, key: K)
    requires CacheOk(c)
    ensures CacheOk(AfterRead(c, key))
  {
    assert Resolved(AfterRead(c, key).entries) == Resolved(c.entries);
  }

  lemma StoredOk<K, V>(c: Cache<K, V>, token: FetchToken<K>, value: V)
    requires CacheOk(c) && Accepts(c, token)
    ensures NoTwoAlike(Stored(c, token, value))
  {
  }

  lemma FulfillOk<K, V>(c: Cache<K, V>, token: FetchToken<K>, value: V)
    requires CacheOk(c)
    ensures CacheOk(AfterFulfill(c, token, value))
  {
    if Accepts(c, token) {
      var stored := Stored(c, token, value);
      StoredOk(c, token, value);
      SurvivorCount(stored, c.capacity);
      assert |Resolved(Survivors(stored, c.capacity))| <= c.capacity;
      hide Survives, Resolved;
    }
  }

  lemma FewerOk<K, V>(c: Cache<K, V>, gone: set<K>)
    requires CacheOk(c)
    ensures CacheOk(c.(entries := c.entries - gone))
  {
    FewerMembers(Resolved(c.entries - gone), Resolved(c.entries));
  }

  lemma AbandonOk<K, V>(c: Cache<K, V>, token: FetchToken<K>)
    requires CacheOk(c)
    ensures CacheOk(AfterAbandon(c, token))
  {
    FewerOk(c, {token.key});
  }

  lemma InvalidateOk<K, V>(c: Cache<K, V>, key: K)
    requires CacheOk(c)
    ensures CacheOk(AfterInvalidate(c, key))
  {
    FewerOk(c, {key});
    hide Resolved, NoTwoAlike;
  }

  lemma ClearOk<K, V>(c: Cache<K, V>)
    requires CacheOk(c)
    ensures CacheOk(AfterClear(c))
  {
    assert Resolved(AfterClear(c).entries) == {};
  }

  /** The value just stored is the newest; it stays exactly when the other fetches in
      flight do not fill the capacity alone. Otherwise `fulfill` still says true. */
  lemma StoredValueStaysIff<K, V>(c: Cache<K, V>, token: FetchToken<K>, value: V)
    requires CacheOk(c) && Accepts(c, token)
    ensures Found(AfterFulfill(c, token, value), token.key) == Ready(value)
       <==> |InFlight(c.entries) - {token.key}| < c.capacity
  {
    var stored := Stored(c, token, value);
    assert InFlight(stored) == InFlight(c.entries) - {token.key};
    assert Newer(stored, token.key) == {};
  }

  /** Nothing is evicted exactly when all entries, in flight or not, fit the capacity or
      nothing is resolved: not only resolved values count. */
  lemma NothingEvictedIff<K, V>(c: Cache<K, V>, token: FetchToken<K>, value: V)
    requires CacheOk(c) && Accepts(c, token)
    ensures AfterFulfill(c, token, value).entries == Stored(c, token, value)
       <==> |c.entries| <= c.capacity
  {
    var stored := Stored(c, token, value);
    assert stored.Keys == c.entries.Keys;
    assert |stored| == |c.entries|;
    StoredOk(c, token, value);
    if |stored| <= c.capacity {
      AllSurvive(stored, c.capacity);
    } else {
      assert token.key in Resolved(stored);
      var v := VictimExists(stored);
      VictimGoes(stored, c.capacity, v);
      assert v !in Survivors(stored, c.capacity);
    }
  }

  // ----- the class -----

  class QueryCache<K(==), V> {
    var entries: map<K, Cached<V>>
    var capacity: nat
    var clock: nat
    var generation: nat

    ghost function Value(): Cache<K, V>
      reads this
    {
      Cache(entries, capacity, clock, generation)
    }

    ghost predicate Valid()
      reads this
    {
      CacheOk(Value())
    }

    constructor (size: nat)
      ensures Value() == Empty(size) && Valid()
    {
      entries := map[];
      capacity := if size > 1 then size else 1;
      clock := 0;
      generation := 0;
      new;
      EmptyOk<K, V>(size);
    }

    method Read(key: K) returns (found: Query<K, V>)
      requires Valid()
      modifies this
      ensures Valid() && Value() == AfterRead(old(Value()), key) && found == Found(old(Value()), key)
    {
      hide CacheOk;
      ReadOk(Value(), key);
      clock := clock + 1;
      if key in entries {
        entries := entries[key := entries[key].(lastUsed := clock)];
        match entries[key].slot {
          case Loaded(value) => found := Ready(value);
          case Loading => found := Pending;
        }
        return;
      }
      entries := entries[key := Cached(Loading, generation, clock)];
      found := Missing(FetchToken(key, generation));
    }

    method Fulfill(token: FetchToken<K>, value: V) returns (accepted: bool)
      requires Valid()
      modifies this
      ensures Valid() && Value() == AfterFulfill(old(Value()), token, value)
      ensures accepted == Accepts(old(Value()), token)
    {
      hide CacheOk, Survivors;
      FulfillOk(Value(), token, value);
      if token.key !in entries || entries[token.key].generation != token.generation {
        return false;
      }
      StoredOk(Value(), token, value);
      clock := clock + 1;
      entries := entries[token.key := entries[token.key].(slot := Loaded(value), lastUsed := clock)];
      EvictOverCapacity();
      accepted := true;
    }

    method Abandon(token: FetchToken<K>)
      requires Valid()
      modifies this`entries
      ensures Valid() && Value() == AfterAbandon(old(Value()), token)
    {
      AbandonOk(Value(), token);
      if token.key in entries && entries[token.key].generation == token.generation {
        entries := entries - {token.key};
      }
    }

    method Invalidate(key: K)
      requires Valid()
      modifies this`entries, this`generation
      ensures Valid() && Value() == AfterInvalidate(old(Value()), key)
    {
      InvalidateOk(Value(), key);
      generation := generation + 1;
      entries := entries - {key};
    }

    method Clear()
      requires Valid()
      modifies this`entries, this`generation
      ensures Valid() && Value() == AfterClear(old(Value()))
    {
      ClearOk(Value());
      generation := generation + 1;
      entries := map[];
    }

    /** Removes the coldest resolved entry while there are too many entries. */
    method EvictOverCapacity()
      requires NoTwoAlike(entries)
      modifies this`entries
      ensures entries == Survivors(old(entries), capacity)
    {
      hide Survivors, NoTwoAlike, IsVictim, Resolved;
      while |entries| > capacity
        invariant Survivors(entries, capacity) == Survivors(old(entries), capacity) && NoTwoAlike(entries)
        decreases |entries|
      {
        var victim := LeastRecent();
        if victim.None? {
          break;
        }
        DroppingTheVictim(entries, capacity, victim.value);
        entries := entries - {victim.value};
      }
      AllSurvive(entries, capacity);
    }

    /** The search for the victim, entry by entry in any order. */
    method LeastRecent() returns (victim: Option<K>)
      ensures match victim case None => Resolved(entries) == {} case Some(k) => IsVictim(entries, k)
    {
      victim := None;
      var left := entries.Keys;
      while left != {}
        invariant left <= entries.Keys
        invariant victim.None? ==> forall k :: k in entries.Keys - left ==> entries[k].slot.Loading?
        invariant victim.Some? ==> victim.value in entries && entries[victim.value].slot.Loaded?
        invariant victim.Some? ==> forall k :: k in entries.Keys - left && entries[k].slot.Loaded? ==>
                    entries[victim.value].lastUsed <= entries[k].lastUsed
        decreases |left|
      {
        var k :| k in left;
        left := left - {k};
        if entries[k].slot.Loaded?
           && (victim.None? || entries[k].lastUsed < entries[victim.value].lastUsed) {
          victim := Some(k);
        }
      }
    }
  }
}
