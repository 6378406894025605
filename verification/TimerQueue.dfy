/** The native timer queue (`TimerQueue` in `src/js_repl.rs`). Instants are milliseconds. */
module TimerQueue {
  import opened Basics

  datatype Timer = Timer(due: nat, delay: nat, repeat: bool)

  datatype Queue = Queue(nextId: nat, entries: map<nat, Timer>)

  // ----- finding an id -----

  /** The id `k` places after `start`, counting from 1 to the largest and round again. */
  function At(start: nat, k: nat): (id: nat)
    requires 1 <= start
    ensures 1 <= id <= U32_MAX
  {
    1 + (start - 1 + k) % U32_MAX
  }

  function Follower(id: nat): nat {
    if id == U32_MAX then 1 else id + 1
  }

  /** The first `k` ids from `start` on are taken, and the next one is not. */
  predicate FirstFree(used: set<nat>, start: nat, k: nat)
    requires 1 <= start
  {
    k < U32_MAX && At(start, k) !in used && forall j :: 0 <= j < k ==> At(start, j) in used
  }

  lemma AtFollows(start: nat, k: nat)
    requires 1 <= start
    ensures At(start, k + 1) == Follower(At(start, k))
  {
    var n := start - 1 + k;
    assert n + 1 == (n / U32_MAX) * U32_MAX + (n % U32_MAX + 1);
    if n % U32_MAX + 1 == U32_MAX {
      assert n + 1 == (n / U32_MAX + 1) * U32_MAX;
    }
  }

  lemma AtIsInjective(start: nat, j: nat, k: nat)
    requires 1 <= start && j < k < U32_MAX
    ensures At(start, j) != At(start, k)
  {
  }

  /** Round the circle, an id comes only once: a set holding the first `k` is that large. */
  lemma {:induction false} TakenIds(used: set<nat>, start: nat, k: nat)
    requires 1 <= start && k <= U32_MAX && forall j :: 0 <= j < k ==> At(start, j) in used
    ensures |used| >= k
  {
    hide At;
    if k > 0 {
      var last := At(start, k - 1);
      forall j | 0 <= j < k - 1 ensures At(start, j) in used - {last} {
        AtIsInjective(start, j, k - 1);
      }
      TakenIds(used - {last}, start, k - 1);
    }
  }

  // ----- the operations on values -----

  function Scheduled(q: Queue, id: nat, now: nat, delay: nat, repeat: bool): Queue {
    Queue(Follower(id), q.entries[id := Timer(now + delay, delay, repeat)])
  }

  function Cleared(q: Queue, id: nat): Queue {
    q.(entries := q.entries - {id})
  }

  function Refreshed(q: Queue, id: nat, now: nat): Queue {
    if id in q.entries then q.(entries := q.entries[id := q.entries[id].(due := now + q.entries[id].delay)]) else q
  }

  predicate IsDue(q: Queue, now: nat, id: nat) {
    id in q.entries && q.entries[id].due <= now
  }

  predicate Earlier(q: Queue, a: nat, b: nat)
    requires a in q.entries && b in q.entries
  {
    q.entries[a].due < q.entries[b].due || (q.entries[a].due == q.entries[b].due && a < b)
  }

  /** The ids of `ids` are timers, each before the next. */
  predicate Ordered(q: Queue, ids: seq<nat>) {
    && (forall i :: 0 <= i < |ids| ==> ids[i] in q.entries)
    && (forall i, j :: 0 <= i < j < |ids| ==> Earlier(q, ids[i], ids[j]))
  }

  /** A batch: exactly the due timers, once each, by due time and then by id. */
  ghost predicate IsBatch(q: Queue, now: nat, ids: seq<nat>) {
    Ordered(q, ids) && forall id :: id in ids <==> IsDue(q, now, id)
  }

  /** What is left of a timer once its batch is taken. */
  function Rearmed(t: Timer, now: nat): Timer {
    if t.due <= now then t.(due := now + t.delay) else t
  }

  function Taken(q: Queue, now: nat): Queue {
    q.(entries := map id | id in q.entries && (q.entries[id].due > now || q.entries[id].repeat)
                    :: Rearmed(q.entries[id], now))
  }

  lemma OrderedTail(q: Queue, ids: seq<nat>)
    requires Ordered(q, ids) && ids != []
    ensures Ordered(q, ids[1..]) && ids[0] !in ids[1..]
  {
  }

  lemma SameMembers(a: seq<nat>, b: seq<nat>)
    requires forall id :: id in a <==> id in b
    ensures a == [] <==> b == []
  {
    if a != [] { assert a[0] in a; }
    if b != [] { assert b[0] in b; }
  }

  /** There is only one batch. */
  lemma {:induction false} BatchIsUnique(q: Queue, a: seq<nat>, b: seq<nat>)
    requires Ordered(q, a) && Ordered(q, b) && forall id :: id in a <==> id in b
    ensures a == b
    decreases |a|
  {
    SameMembers(a, b);
    if a != [] {
      assert a[0] in b;
      assert b[0] in a;
      assert a[0] == b[0];
      OrderedTail(q, a);
      OrderedTail(q, b);
      forall id ensures id in a[1..] <==> id in b[1..] {
        assert id in a <==> id == a[0] || id in a[1..];
        assert id in b <==> id == b[0] || id in b[1..];
      }
      BatchIsUnique(q, a[1..], b[1..]);
    }
  }

  ghost predicate QueueOk(q: Queue) {
    && 1 <= q.nextId <= U32_MAX
    && (forall id :: id in q.entries ==> 1 <= id <= U32_MAX && q.entries[id].delay >= 1)
  }

  /** With delays of at least a millisecond nothing is due once a batch is taken, and
      exactly the one-shots of the batch are gone. */
  lemma TakenLeavesNothingDue(q: Queue, now: nat, ids: seq<nat>)
    requires QueueOk(q) && IsBatch(q, now, ids)
    ensures forall id :: !IsDue(Taken(q, now), now, id)
    ensures IsBatch(Taken(q, now), now, []) && QueueOk(Taken(q, now))
    ensures forall id :: id in q.entries && id !in Taken(q, now).entries <==> id in ids && !q.entries[id].repeat
  {
  }

  // ----- delays -----

  /** A JavaScript number, as far as a delay can tell. */
  datatype JsNumber = NaN | Infinite | Finite(value: real)

  const MAX_DELAY: nat := 2147483647

  /** `normalizeDelay`: out of range means at once; a fraction is cut off. */
  function NormalizedDelay(delay: JsNumber): (r: nat)
    ensures 1 <= r <= MAX_DELAY
    ensures delay.Finite? && 1.0 <= delay.value <= MAX_DELAY as real ==>
              r as real <= delay.value < r as real + 1.0
    ensures delay.Finite? && r > 1 ==> 2.0 <= delay.value <= MAX_DELAY as real
  {
    match delay
    case Finite(x) => if x < 1.0 || x > MAX_DELAY as real then 1 else x.Floor
    case _ => 1
  }

  // ----- the class -----

  class TimerQueue {
    var nextId: nat
    var entries: map<nat, Timer>

    ghost function Value(): Queue
      reads this
    {
      Queue(nextId, entries)
    }

    ghost predicate Valid()
      reads this
    {
      QueueOk(Value())
    }

    constructor ()
      ensures Valid() && Value() == Queue(1, map[])
    {
      nextId := 1;
      entries := map[];
    }

    method Schedule(now: nat, delay: nat, repeat: bool) returns (id: nat)
      requires Valid() && delay >= 1 && |entries| < U32_MAX
      modifies this
      ensures Valid() && 1 <= id <= U32_MAX && id !in old(entries)
      ensures exists k :: FirstFree(old(entries).Keys, old(nextId), k) && id == At(old(nextId), k)
      ensures Value() == Scheduled(old(Value()), id, now, delay, repeat)
    {
      id := NextAvailableId();
      entries := entries[id := Timer(now + delay, delay, repeat)];
    }

    /** Tries ids in turn; while some id is free this ends. */
    method NextAvailableId() returns (id: nat)
      requires Valid() && |entries| < U32_MAX
      modifies this`nextId
      ensures Valid() && id !in entries && 1 <= id <= U32_MAX && nextId == Follower(id)
      ensures exists k :: FirstFree(entries.Keys, old(nextId), k) && id == At(old(nextId), k)
    {
      hide At;
      ghost var start, k := nextId, 0;
      assert At(start, 0) == start by { AtStart(start); }
      while true
        invariant 1 <= nextId <= U32_MAX && nextId == At(start, k) && k < U32_MAX
        invariant forall j :: 0 <= j < k ==> At(start, j) in entries.Keys
        decreases U32_MAX - k
      {
        id := nextId;
        nextId := if nextId < U32_MAX then nextId + 1 else 1;
        if id != 0 && id !in entries {
          assert FirstFree(entries.Keys, start, k);
          return;
        }
        AtFollows(start, k);
        k := k + 1;
        if k == U32_MAX { TakenIds(entries.Keys, start, k); }
      }
    }

    method Clear(id: nat)
      requires Valid()
      modifies this`entries
      ensures Valid() && Value() == Cleared(old(Value()), id)
    {
      entries := entries - {id};
    }

    method Refresh(now: nat, id: nat)
      requires Valid()
      modifies this`entries
      ensures Valid() && Value() == Refreshed(old(Value()), id, now)
    {
      if id in entries {
        entries := entries[id := entries[id].(due := now + entries[id].delay)];
      }
    }

    method TakeDue(now: nat) returns (due: seq<nat>)
      requires Valid()
      modifies this`entries
      ensures Valid() && IsBatch(old(Value()), now, due) && Value() == Taken(old(Value()), now)
    {
      hide Ordered;
      due := SortedDue(now);
      ghost var q := Value();
      OrderedOnce(q, due);
      for i := 0 to |due|
        invariant Value() == q.(entries := PartlyTaken(q, now, due[..i]))
      {
        assert due[..i + 1] == due[..i] + [due[i]];
        assert due[i] in due && due[i] !in due[..i];
        var timer := entries[due[i]];
        entries := entries - {due[i]};
        if timer.repeat {
          entries := entries[due[i] := timer.(due := now + timer.delay)];
        }
      }
      assert due[..|due|] == due;
      TakenLeavesNothingDue(q, now, due);
    }

    /** The due timers, collected in any order and sorted. */
    method SortedDue(now: nat) returns (due: seq<nat>)
      ensures IsBatch(Value(), now, due)
    {
      due := [];
      var left := entries.Keys;
      ghost var q := Value();
      while left != {}
        invariant left <= entries.Keys && Ordered(q, due)
        invariant forall id :: id in due <==> IsDue(q, now, id) && id !in left
        decreases |left|
      {
        var id :| id in left;
        left := left - {id};
        if entries[id].due <= now {
          var i := 0;
          while i < |due| && (entries[due[i]].due < entries[id].due
                              || (entries[due[i]].due == entries[id].due && due[i] < id))
            invariant i <= |due| && forall j :: 0 <= j < i ==> Earlier(q, due[j], id)
          {
            i := i + 1;
          }
          InsertOrdered(q, due, i, id);
          due := due[..i] + [id] + due[i..];
        }
      }
    }
  }

  lemma AtStart(start: nat)
    requires 1 <= start <= U32_MAX
    ensures At(start, 0) == start
  {
  }

  lemma OrderedOnce(q: Queue, ids: seq<nat>)
    requires Ordered(q, ids)
    ensures forall i, j :: 0 <= i < j < |ids| ==> ids[i] != ids[j]
    ensures forall i :: 0 <= i < |ids| ==> ids[i] in q.entries
  {
  }

  lemma InsertOrdered(q: Queue, ids: seq<nat>, i: nat, id: nat)
    requires Ordered(q, ids) && id in q.entries && id !in ids && i <= |ids|
    requires forall j :: 0 <= j < i ==> Earlier(q, ids[j], id)
    requires i < |ids| ==> !Earlier(q, ids[i], id)
    ensures Ordered(q, ids[..i] + [id] + ids[i..])
    ensures forall k :: k in ids[..i] + [id] + ids[i..] <==> k in ids || k == id
  {
    var r := ids[..i] + [id] + ids[i..];
    assert ids == ids[..i] + ids[i..];
    forall j | i <= j < |ids| ensures Earlier(q, id, ids[j]) {
      assert ids[i] in ids;
    }
    forall a, b | 0 <= a < b < |r| ensures Earlier(q, r[a], r[b]) {
    }
  }

  /** The entries when the timers in `done` have been taken. */
  function PartlyTaken(q: Queue, now: nat, done: seq<nat>): map<nat, Timer> {
    map id | id in q.entries && (id !in done || q.entries[id].repeat)
      :: if id in done then q.entries[id].(due := now + q.entries[id].delay) else q.entries[id]
  }
}
