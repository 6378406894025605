/** Eviction against the history of touches: reads, and values stored. */
module QueryTouches {
  import opened QueryCache
  import opened QueryProtocol

  /** When each key was last read or stored. */
  function Touched<K>(w: World<K>, e: Event<K>, touched: map<K, nat>): map<K, nat>
    requires Enabled(w, e)
  {
    match e
    case Read(key) => touched[key := w.now + 1]
    case Fulfill(id, _) =>
      var token := w.held[id].token;
      if Accepts(w.cache, token) then touched[token.key := w.now + 1] else touched
    case _ => touched
  }

  function TouchedAfter<K>(w: World<K>, run: seq<Event<K>>, touched: map<K, nat>): map<K, nat>
    requires Possible(w, run)
    decreases |run|
  {
    if run == [] then touched else TouchedAfter(Next(w, run[0]), run[1..], Touched(w, run[0], touched))
  }

  /** The times of use stand in the order of the touches. */
  ghost predicate InTouchOrder<K(!new)>(entries: map<K, Cached<nat>>, now: nat, touched: map<K, nat>) {
    && (forall k :: k in entries ==> k in touched && touched[k] <= now)
    && (forall j, k :: j in entries && k in entries ==>
          (entries[j].lastUsed < entries[k].lastUsed <==> touched[j] < touched[k]))
  }

  lemma FewerInOrder<K(!new)>(entries: map<K, Cached<nat>>, fewer: map<K, Cached<nat>>, now: nat, touched: map<K, nat>)
    requires InTouchOrder(entries, now, touched)
    requires forall k :: k in fewer ==> k in entries && fewer[k] == entries[k]
    ensures InTouchOrder(fewer, now + 1, touched)
  {
  }

  /** Touching a key makes it the last in both orders. */
  lemma TouchInOrder<K(!new)>(entries: map<K, Cached<nat>>, now: nat, touched: map<K, nat>, key: K, entry: Cached<nat>)
    requires InTouchOrder(entries, now, touched)
    requires forall k :: k in entries ==> entries[k].lastUsed < entry.lastUsed
    ensures InTouchOrder(entries[key := entry], now + 1, touched[key := now + 1])
  {
  }

  lemma SurvivorsAreSome<K(!new)>(entries: map<K, Cached<nat>>, capacity: nat, now: nat, touched: map<K, nat>)
    requires InTouchOrder(entries, now, touched)
    ensures InTouchOrder(Survivors(entries, capacity), now, touched)
  {
    hide Survives;
  }

  lemma TouchStep<K(!new)>(w: World<K>, e: Event<K>, touched: map<K, nat>)
    requires CacheOk(w.cache) && Enabled(w, e) && InTouchOrder(w.cache.entries, w.now, touched)
    ensures InTouchOrder(Next(w, e).cache.entries, w.now + 1, Touched(w, e, touched))
    ensures Next(w, e).now == w.now + 1
  {
    hide InTouchOrder, Survivors;
    match e
    case Read(key) => TouchInOrder(w.cache.entries, w.now, touched, key, AfterRead(w.cache, key).entries[key]);
    case Fulfill(id, at) =>
      var token := w.held[id].token;
      if Accepts(w.cache, token) {
        var stored := Stored(w.cache, token, at);
        TouchInOrder(w.cache.entries, w.now, touched, token.key, stored[token.key]);
        SurvivorsAreSome(stored, w.cache.capacity, w.now + 1, touched[token.key := w.now + 1]);
      } else {
        FewerInOrder(w.cache.entries, w.cache.entries, w.now, touched);
      }
    case _ => FewerInOrder(w.cache.entries, Next(w, e).cache.entries, w.now, touched);
  }

  lemma {:induction false} TouchRun<K(!new)>(w: World<K>, run: seq<Event<K>>, touched: map<K, nat>)
    requires Inv(w) && Possible(w, run) && InTouchOrder(w.cache.entries, w.now, touched)
    ensures var r := After(w, run); InTouchOrder(r.cache.entries, r.now, TouchedAfter(w, run, touched))
    decreases |run|
  {
    hide Inv, Next, Enabled, Touched, InTouchOrder;
    if run != [] {
      CacheOfInv(w);
      NextKeeps(w, run[0]);
      TouchStep(w, run[0], touched);
      TouchRun(Next(w, run[0]), run[1..], Touched(w, run[0], touched));
    }
  }

  lemma CacheOfInv<K(!new)>(w: World<K>)
    requires Inv(w)
    ensures CacheOk(w.cache)
  {
    hide CacheOk;
  }

  lemma NothingTouched<K(!new)>(capacity: nat)
    ensures InTouchOrder(Started<K>(capacity).cache.entries, Started<K>(capacity).now, map[])
  {
  }

  /** Exact eviction, over any run: when a value is taken, whatever resolved entry stays was
      read or stored later than whatever goes, and nothing in flight goes. */
  lemma EvictsTheLongestUntouched<K(!new)>(capacity: nat, run: seq<Event<K>>, e: Event<K>, kept: K, gone: K)
    requires Possible(Started(capacity), run) && e.Fulfill?
    requires var w := After(Started(capacity), run);
      Enabled(w, e) && Accepts(w.cache, w.held[e.id].token)
      && kept in Resolved(Next(w, e).cache.entries)
      && gone in w.cache.entries && gone !in Next(w, e).cache.entries
    ensures var w := After(Started(capacity), run);
      var touched := Touched(w, e, TouchedAfter(Started(capacity), run, map[]));
      && kept in touched && gone in touched && touched[kept] > touched[gone]
      && (gone != w.held[e.id].token.key ==> gone in Resolved(w.cache.entries))
  {
    hide CacheOk, InTouchOrder, NoTwoAlike, Inv, Newer;
    var start := Started<K>(capacity);
    StartedInv<K>(capacity);
    NothingTouched<K>(capacity);
    RunKeeps(start, run);
    TouchRun(start, run, map[]);
    var w := After(start, run);
    CacheOfInv(w);
    var touched := TouchedAfter(start, run, map[]);
    var token := w.held[e.id].token;
    var stored := Stored(w.cache, token, e.fetchedAt);
    StoredInOrder(w, e, touched);
    SurvivorsAreNewer(stored, w.cache.capacity, kept, gone);
    OrderOf(stored, w.now + 1, Touched(w, e, touched), gone, kept);
  }

  lemma StoredInOrder<K(!new)>(w: World<K>, e: Event<K>, touched: map<K, nat>)
    requires CacheOk(w.cache) && e.Fulfill? && Enabled(w, e) && Accepts(w.cache, w.held[e.id].token)
    requires InTouchOrder(w.cache.entries, w.now, touched)
    ensures InTouchOrder(Stored(w.cache, w.held[e.id].token, e.fetchedAt), w.now + 1, Touched(w, e, touched))
  {
    hide InTouchOrder;
    var token := w.held[e.id].token;
    TouchInOrder(w.cache.entries, w.now, touched, token.key, Stored(w.cache, token, e.fetchedAt)[token.key]);
  }

  lemma OrderOf<K(!new)>(entries: map<K, Cached<nat>>, now: nat, touched: map<K, nat>, j: K, k: K)
    requires InTouchOrder(entries, now, touched) && j in entries && k in entries
    requires entries[j].lastUsed < entries[k].lastUsed
    ensures j in touched && k in touched && touched[j] < touched[k]
  {
  }
}
