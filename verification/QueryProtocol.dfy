/** The cache and its callers over whole runs: tokens are handed out, held while the value
    is fetched, and given back once. A value is stood for by the moment it was fetched. */
module QueryProtocol {
  import opened QueryCache

  /** A token somebody holds, and when it was handed out. */
  datatype Held<K> = Held(token: FetchToken<K>, since: nat)

  datatype World<K(==)> = World(
    cache: Cache<K, nat>, held: map<nat, Held<K>>, nextId: nat, now: nat,
    dropped: map<K, nat>, clearedAt: nat)

  datatype Event<K> =
    | Read(key: K)
    | Fulfill(id: nat, fetchedAt: nat)
    | Abandon(id: nat)
    | Invalidate(key: K)
    | Clear

  function Started<K>(capacity: nat): World<K> {
    World(Empty(capacity), map[], 0, 1, map[], 0)
  }

  /** A token is given back at most once, with a value fetched while it was held. */
  predicate Enabled<K>(w: World<K>, e: Event<K>) {
    match e
    case Fulfill(id, at) => id in w.held && w.held[id].since <= at <= w.now
    case Abandon(id) => id in w.held
    case _ => true
  }

  /** When `key` was last invalidated or cleared. */
  function LastDrop<K>(w: World<K>, key: K): nat {
    if key in w.dropped && w.dropped[key] > w.clearedAt then w.dropped[key] else w.clearedAt
  }

  function Next<K>(w: World<K>, e: Event<K>): World<K>
    requires Enabled(w, e)
  {
    var t := w.now + 1;
    match e
    case Read(key) =>
      var w' := w.(cache := AfterRead(w.cache, key), now := t);
      (match Found(w.cache, key)
       case Missing(token) => w'.(held := w.held[w.nextId := Held(token, t)], nextId := w.nextId + 1)
       case _ => w')
    case Fulfill(id, at) =>
      w.(cache := AfterFulfill(w.cache, w.held[id].token, at), held := w.held - {id}, now := t)
    case Abandon(id) =>
      w.(cache := AfterAbandon(w.cache, w.held[id].token), held := w.held - {id}, now := t)
    case Invalidate(key) =>
      w.(cache := AfterInvalidate(w.cache, key), dropped := w.dropped[key := t], now := t)
    case Clear =>
      w.(cache := AfterClear(w.cache), clearedAt := t, now := t)
  }

  predicate Possible<K>(w: World<K>, run: seq<Event<K>>)
    decreases |run|
  {
    run == [] || (Enabled(w, run[0]) && Possible(Next(w, run[0]), run[1..]))
  }

  function After<K>(w: World<K>, run: seq<Event<K>>): World<K>
    requires Possible(w, run)
    decreases |run|
  {
    if run == [] then w else After(Next(w, run[0]), run[1..])
  }

  // ----- the invariant -----

  /** The token's key has not been invalidated or cleared since it was handed out. */
  predicate Current<K>(w: World<K>, id: nat)
    requires id in w.held
  {
    LastDrop(w, w.held[id].token.key) < w.held[id].since
  }

  predicate CurrentFor<K>(w: World<K>, key: K, id: nat) {
    id in w.held && w.held[id].token.key == key && Current(w, id)
  }

  predicate InFlightAt<K>(w: World<K>, key: K) {
    key in w.cache.entries && w.cache.entries[key].slot.Loading?
  }

  /** A current token's entry waits for it; a superseded token matches no entry. */
  predicate TokenOk<K>(w: World<K>, id: nat)
    requires id in w.held
  {
    var token := w.held[id].token;
    && w.held[id].since <= w.now && id < w.nextId && token.generation <= w.cache.generation
    && (if Current(w, id) then InFlightAt(w, token.key) && Accepts(w.cache, token)
        else token.generation < w.cache.generation && !Accepts(w.cache, token))
  }

  ghost predicate TokensOk<K>(w: World<K>) {
    forall id :: id in w.held ==> TokenOk(w, id)
  }

  predicate SameKey<K>(w: World<K>, i: nat, j: nat)
    requires i in w.held && j in w.held
  {
    w.held[i].token.key == w.held[j].token.key
  }

  ghost predicate OneEach<K>(w: World<K>) {
    forall i, j :: i in w.held && j in w.held && SameKey(w, i, j) && Current(w, i) && Current(w, j) ==> i == j
  }

  ghost predicate SomeoneFetches<K(!new)>(w: World<K>) {
    forall key :: InFlightAt(w, key) ==> exists id :: CurrentFor(w, key, id)
  }

  ghost predicate Fresh<K>(w: World<K>) {
    forall key :: key in w.cache.entries && w.cache.entries[key].slot.Loaded? ==>
      LastDrop(w, key) < w.cache.entries[key].slot.value
  }

  ghost predicate TimesOk<K>(w: World<K>) {
    w.clearedAt <= w.now && (forall key :: key in w.dropped ==> w.dropped[key] <= w.now)
  }

  ghost predicate Inv<K(!new)>(w: World<K>) {
    CacheOk(w.cache) && TimesOk(w) && TokensOk(w) && OneEach(w) && SomeoneFetches(w) && Fresh(w)
  }

  lemma StartedInv<K(!new)>(capacity: nat)
    ensures Inv(Started<K>(capacity))
  {
    EmptyOk<K, nat>(capacity);
  }

  lemma {:induction false} RunKeeps<K(!new)>(w: World<K>, run: seq<Event<K>>)
    requires Inv(w) && Possible(w, run)
    ensures Inv(After(w, run))
    decreases |run|
  {
    hide Inv, Next, Enabled;
    if run != [] {
      NextKeeps(w, run[0]);
      RunKeeps(Next(w, run[0]), run[1..]);
    }
  }

  lemma NextKeeps<K(!new)>(w: World<K>, e: Event<K>)
    requires Inv(w) && Enabled(w, e)
    ensures Inv(Next(w, e))
  {
    hide Inv;
    match e
    case Read(key) => ReadKeeps(w, key);
    case Fulfill(id, at) => FulfillKeeps(w, id, at);
    case Abandon(id) => AbandonKeeps(w, id);
    case Invalidate(key) => InvalidateKeeps(w, key);
    case Clear => ClearKeeps(w);
  }

  lemma ReadKeeps<K(!new)>(w: World<K>, key: K)
    requires Inv(w)
    ensures Inv(Next(w, Read(key)))
  {
    ReadOk(w.cache, key);
    hide CacheOk;
    var w' := Next(w, Read(key));
    if key in w.cache.entries {
      assert w'.held == w.held;
      SameEntriesKeep(w, w');
    } else {
      MissKeeps(w, key);
    }
  }

  /** What a hit changes is no part of the invariant but the cache's own. */
  lemma SameEntriesKeep<K(!new)>(w: World<K>, w': World<K>)
    requires Inv(w) && CacheOk(w'.cache)
    requires w'.held == w.held && w'.nextId == w.nextId && w'.dropped == w.dropped && w'.clearedAt == w.clearedAt
    requires w'.now >= w.now && w'.cache.generation == w.cache.generation
    requires w'.cache.entries.Keys == w.cache.entries.Keys
    requires forall k :: k in w.cache.entries ==>
               w'.cache.entries[k].slot == w.cache.entries[k].slot
               && w'.cache.entries[k].generation == w.cache.entries[k].generation
    ensures Inv(w')
  {
    hide CacheOk;
    assert TokensOk(w');
    assert OneEach(w');
    forall key | InFlightAt(w', key) ensures exists id :: CurrentFor(w', key, id) {
      assert InFlightAt(w, key);
      var id :| CurrentFor(w, key, id);
      assert CurrentFor(w', key, id);
    }
  }

  lemma MissKeeps<K(!new)>(w: World<K>, key: K)
    requires Inv(w) && key !in w.cache.entries && CacheOk(AfterRead(w.cache, key))
    ensures Inv(Next(w, Read(key)))
  {
    hide CacheOk;
    var w' := Next(w, Read(key));
    forall id | id in w'.held ensures TokenOk(w', id) { MissToken(w, key, id); }
    assert OneEach(w');
    assert CurrentFor(w', key, w.nextId);
    forall k | InFlightAt(w', k) ensures exists id :: CurrentFor(w', k, id) {
      if k != key {
        assert InFlightAt(w, k);
        var id :| CurrentFor(w, k, id);
        assert TokenOk(w, id);
        assert CurrentFor(w', k, id);
      }
    }
  }

  lemma MissToken<K(!new)>(w: World<K>, key: K, id: nat)
    requires TimesOk(w) && key !in w.cache.entries
    requires if id in w.held then TokenOk(w, id) else id == w.nextId
    ensures TokenOk(Next(w, Read(key)), id)
  {
  }

  /** Giving back a superseded token changes nothing but who holds what. */
  lemma StaleKeeps<K(!new)>(w: World<K>, id: nat)
    requires Inv(w) && id in w.held && !Current(w, id)
    ensures Inv(w.(held := w.held - {id}, now := w.now + 1))
  {
    hide CacheOk;
    var w' := w.(held := w.held - {id}, now := w.now + 1);
    forall j | j in w'.held ensures TokenOk(w', j) { assert TokenOk(w, j); }
    forall key | InFlightAt(w', key) ensures exists j :: CurrentFor(w', key, j) {
      assert InFlightAt(w, key);
      var j :| CurrentFor(w, key, j);
      assert CurrentFor(w', key, j);
    }
  }

  lemma FulfillKeeps<K(!new)>(w: World<K>, id: nat, at: nat)
    requires Inv(w) && Enabled(w, Fulfill(id, at))
    ensures Inv(Next(w, Fulfill(id, at)))
  {
    var token := w.held[id].token;
    assert TokenOk(w, id);
    if !Current(w, id) {
      StaleKeeps(w, id);
    } else {
      FulfillOk(w.cache, token, at);
      StoredOk(w.cache, token, at);
      var stored := Stored(w.cache, token, at);
      SurvivorCount(stored, w.cache.capacity);
      var w' := Next(w, Fulfill(id, at));
      SettledKeeps(w, w', id);
    }
  }

  /** A current token settles its key: the entry is gone or holds what was fetched, no other
      in-flight entry changes, and resolved ones only leave. */
  lemma SettledKeeps<K(!new)>(w: World<K>, w': World<K>, id: nat)
    requires Inv(w) && id in w.held && Current(w, id) && CacheOk(w'.cache)
    requires w' == w.(cache := w'.cache, held := w.held - {id}, now := w.now + 1)
    requires w'.cache.generation == w.cache.generation
    requires forall k :: k in w'.cache.entries && k != w.held[id].token.key ==>
               k in w.cache.entries && w'.cache.entries[k] == w.cache.entries[k]
    requires forall k :: InFlightAt(w, k) && k != w.held[id].token.key ==> k in w'.cache.entries
    requires var key := w.held[id].token.key;
             key in w'.cache.entries ==>
               && w'.cache.entries[key].slot.Loaded? && w'.cache.entries[key].slot.value >= w.held[id].since
               && w'.cache.entries[key].generation == w.held[id].token.generation
    ensures Inv(w')
  {
    hide CacheOk;
    var key := w.held[id].token.key;
    forall j | j in w'.held ensures TokenOk(w', j) { OtherTokenOk(w, w', id, j); }
    forall k | InFlightAt(w', k) ensures exists j :: CurrentFor(w', k, j) {
      assert InFlightAt(w, k);
      var j :| CurrentFor(w, k, j);
      assert CurrentFor(w', k, j);
    }
  }

  lemma OtherTokenOk<K(!new)>(w: World<K>, w': World<K>, id: nat, j: nat)
    requires Inv(w) && id in w.held && Current(w, id) && j in w.held && j != id
    requires w' == w.(cache := w'.cache, held := w.held - {id}, now := w.now + 1)
    requires w'.cache.generation == w.cache.generation
    requires forall k :: k in w'.cache.entries && k != w.held[id].token.key ==>
               k in w.cache.entries && w'.cache.entries[k] == w.cache.entries[k]
    requires forall k :: InFlightAt(w, k) && k != w.held[id].token.key ==> k in w'.cache.entries
    requires w.held[id].token.key in w'.cache.entries ==>
               w'.cache.entries[w.held[id].token.key].generation == w.held[id].token.generation
    ensures TokenOk(w', j)
  {
    hide CacheOk;
    assert TokenOk(w, j) && TokenOk(w, id);
  }

  lemma AbandonKeeps<K(!new)>(w: World<K>, id: nat)
    requires Inv(w) && Enabled(w, Abandon(id))
    ensures Inv(Next(w, Abandon(id)))
  {
    var token := w.held[id].token;
    assert TokenOk(w, id);
    AbandonOk(w.cache, token);
    if Current(w, id) {
      SettledKeeps(w, Next(w, Abandon(id)), id);
    } else {
      StaleKeeps(w, id);
    }
  }

  lemma InvalidateKeeps<K(!new)>(w: World<K>, key: K)
    requires Inv(w)
    ensures Inv(Next(w, Invalidate(key)))
  {
    InvalidateOk(w.cache, key);
    hide CacheOk;
    var w' := Next(w, Invalidate(key));
    forall id | id in w'.held ensures TokenOk(w', id) { InvalidateToken(w, key, id); }
    forall k | InFlightAt(w', k) ensures exists id :: CurrentFor(w', k, id) {
      assert InFlightAt(w, k);
      var id :| CurrentFor(w, k, id);
      assert CurrentFor(w', k, id);
    }
  }

  lemma InvalidateToken<K(!new)>(w: World<K>, key: K, id: nat)
    requires TimesOk(w) && id in w.held && TokenOk(w, id)
    ensures TokenOk(Next(w, Invalidate(key)), id)
    ensures Current(Next(w, Invalidate(key)), id) <==> Current(w, id) && w.held[id].token.key != key
  {
  }

  lemma ClearKeeps<K(!new)>(w: World<K>)
    requires Inv(w)
    ensures Inv(Next(w, Clear))
  {
    ClearOk(w.cache);
    hide CacheOk;
    var w' := Next(w, Clear);
    forall id | id in w'.held ensures TokenOk(w', id) { assert TokenOk(w, id); }
  }

  // ----- what every run promises -----

  /** A fetched value is taken exactly when its key was not invalidated or cleared since
      the token was handed out. */
  lemma AcceptsIffCurrent<K(!new)>(capacity: nat, run: seq<Event<K>>, id: nat)
    requires Possible(Started(capacity), run) && id in After(Started(capacity), run).held
    ensures var w := After(Started(capacity), run);
      Accepts(w.cache, w.held[id].token) <==> Current(w, id)
  {
    hide CacheOk;
    StartedInv<K>(capacity);
    RunKeeps(Started(capacity), run);
    assert TokenOk(After(Started(capacity), run), id);
  }

  /** A key is being fetched exactly when one current token for it is held, and never two. */
  lemma FetchingIffOneToken<K(!new)>(capacity: nat, run: seq<Event<K>>, key: K)
    requires Possible(Started(capacity), run)
    ensures var w := After(Started(capacity), run);
      && (InFlightAt(w, key) <==> exists id :: CurrentFor(w, key, id))
      && (forall i, j :: CurrentFor(w, key, i) && CurrentFor(w, key, j) ==> i == j)
  {
    hide CacheOk;
    StartedInv<K>(capacity);
    RunKeeps(Started(capacity), run);
    var w := After(Started(capacity), run);
    if id :| CurrentFor(w, key, id) {
      assert TokenOk(w, id);
    }
  }

  /** A cache has room for what was asked for, and for one value at least. */
  function Asked(capacity: nat): nat {
    if capacity == 0 then 1 else capacity
  }

  lemma {:induction false} RunKeepsCapacity<K>(w: World<K>, run: seq<Event<K>>)
    requires Possible(w, run)
    ensures After(w, run).cache.capacity == w.cache.capacity
    decreases |run|
  {
    hide Survivors, Accepts;
    if run != [] { RunKeepsCapacity(Next(w, run[0]), run[1..]); }
  }

  /** A hit never shows what was fetched before the key's last invalidation, and no more values
      are held than were asked for. */
  lemma HitsAreFresh<K(!new)>(capacity: nat, run: seq<Event<K>>, key: K)
    requires Possible(Started(capacity), run)
    ensures var w := After(Started(capacity), run);
      && (Found(w.cache, key).Ready? ==> LastDrop(w, key) < Found(w.cache, key).value)
      && |Resolved(w.cache.entries)| <= Asked(capacity)
  {
    StartedInv<K>(capacity);
    RunKeeps(Started(capacity), run);
    RunKeepsCapacity(Started(capacity), run);
  }

  /** In any run a value that is taken makes nothing go exactly when all the entries, in flight
      or not, are no more than was asked for. */
  lemma HoldsWhatWasAsked<K(!new)>(capacity: nat, run: seq<Event<K>>, id: nat, at: nat)
    requires Possible(Started(capacity), run) && Enabled(After(Started(capacity), run), Fulfill(id, at))
    requires var w := After(Started(capacity), run); Accepts(w.cache, w.held[id].token)
    ensures var w := After(Started(capacity), run);
      Next(w, Fulfill(id, at)).cache.entries.Keys == w.cache.entries.Keys <==> |w.cache.entries| <= Asked(capacity)
  {
    hide CacheOk, Survivors;
    StartedInv<K>(capacity);
    RunKeeps(Started(capacity), run);
    RunKeepsCapacity(Started(capacity), run);
    var w := After(Started(capacity), run);
    var token := w.held[id].token;
    NothingEvictedIff(w.cache, token, at);
    KeysSayAll(Stored(w.cache, token, at), w.cache.capacity);
  }

  lemma KeysSayAll<K>(entries: map<K, Cached<nat>>, capacity: nat)
    ensures Survivors(entries, capacity).Keys == entries.Keys <==> Survivors(entries, capacity) == entries
  {
    hide Survives;
  }

  /** Invalidating one key cancels no other key's fetch. */
  lemma OthersAreNotCancelled<K(!new)>(w: World<K>, key: K, id: nat)
    requires Inv(w) && id in w.held && w.held[id].token.key != key
    ensures var w' := Next(w, Invalidate(key));
      && id in w'.held && Accepts(w'.cache, w'.held[id].token) == Accepts(w.cache, w.held[id].token)
      && Found(w'.cache, w.held[id].token.key).Pending? == Found(w.cache, w.held[id].token.key).Pending?
  {
  }

  /** Giving back a superseded token, with a value or without, cannot disturb the newer
      fetch of its key. */
  lemma StaleTokensDoNothing<K(!new)>(w: World<K>, id: nat, at: nat)
    requires Inv(w) && Enabled(w, Fulfill(id, at)) && !Current(w, id)
    ensures Next(w, Fulfill(id, at)).cache == w.cache && Next(w, Abandon(id)).cache == w.cache
  {
    hide CacheOk;
    assert TokenOk(w, id);
  }

  /** Two keys read in a cache of one, and the first fetch comes back: `fulfill` takes the
      value, and the next read of its key misses. */
  lemma TakenValueIsGone()
    ensures var run := [Read(0), Read(1)];
      && Possible(Started<nat>(1), run)
      && var w := After(Started<nat>(1), run);
         && Enabled(w, Fulfill(0, 2)) && Accepts(w.cache, w.held[0].token)
         && Found(Next(w, Fulfill(0, 2)).cache, 0).Missing?
  {
    hide Survives;
    var run := [Read(0), Read(1)];
    assert run[1..] == [Read(1)] && run[1..][1..] == [];
    var w0 := Started<nat>(1);
    var w1 := Next(w0, run[0]);
    var w := Next(w1, run[1]);
    assert After(w1, run[1..]) == w;
    assert InFlight(w.cache.entries) - {0} == {1};
    assert CacheOk(w.cache) by { StartedInv<nat>(1); NextKeeps(w0, run[0]); NextKeeps(w1, run[1]); OfInv(w); }
    StoredValueStaysIff(w.cache, w.held[0].token, 2);
    OnlyThatValue(w.cache, w.held[0].token, 2);
  }

  lemma OfInv<K(!new)>(w: World<K>)
    requires Inv(w)
    ensures CacheOk(w.cache)
  {
  }

  /** After a value is taken its key shows that value or nothing. */
  lemma OnlyThatValue<K, V>(c: Cache<K, V>, token: FetchToken<K>, value: V)
    requires Accepts(c, token)
    ensures var r := Found(AfterFulfill(c, token, value), token.key); r == Ready(value) || r.Missing?
  {
    hide Survives;
  }
}
