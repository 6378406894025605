/** The native timer queue and its JavaScript mirror, over whole runs: `run_due_timers` in
    `src/js_repl.rs` with the timer map of `src/js_repl_bootstrap.js`. A callback is any
    sequence of schedule, clear and refresh calls; it runs between two dispatches. */
module TimerBridge {
  import opened Basics
  import opened TimerQueue

  /** Both sides, the ids of the current batch still to be dispatched, and three records for
      the statements: one-shots of the batch that nobody cleared, ids that belong to
      intervals, and the callbacks called so far. */
  datatype Bridge = Bridge(
    native: Queue, js: map<nat, bool>, batch: seq<nat>, now: nat,
    waiting: set<nat>, intervals: set<nat>, fired: seq<nat>)

  datatype Event =
    | Schedule(id: nat, delay: nat, repeat: bool)
    | Clear(id: nat)
    | Refresh(id: nat)
    | Wait(ms: nat)
    | Take(ids: seq<nat>)
    | Dispatch
    | Throw

  function Started(): Bridge {
    Bridge(Queue(1, map[]), map[], [], 0, {}, {}, [])
  }

  /** The native side decides the id and the batch; a new batch waits for the last. */
  ghost predicate Enabled(b: Bridge, e: Event) {
    match e
    case Schedule(id, delay, _) =>
      delay >= 1 && b.native.nextId >= 1
      && exists k :: FirstFree(b.native.entries.Keys, b.native.nextId, k) && id == At(b.native.nextId, k)
    case Take(ids) => b.batch == [] && IsBatch(b.native, b.now, ids)
    case Dispatch => b.batch != []
    case _ => true
  }

  function OneShots(q: Queue, ids: seq<nat>): set<nat> {
    set id | id in ids && id in q.entries && !q.entries[id].repeat
  }

  /** `__wakuRunTimer` for the next id of the batch. */
  function Dispatched(b: Bridge): Bridge
    requires b.batch != []
  {
    var id := b.batch[0];
    var b' := b.(batch := b.batch[1..], waiting := b.waiting - {id});
    if id !in b.js then b'
    else b'.(fired := b.fired + [id], js := if b.js[id] then b.js else b.js - {id})
  }

  ghost function Next(b: Bridge, e: Event): Bridge
    requires Enabled(b, e)
  {
    match e
    case Schedule(id, delay, repeat) =>
      b.(native := Scheduled(b.native, id, b.now, delay, repeat), js := b.js[id := repeat],
         intervals := if repeat then b.intervals + {id} else b.intervals)
    case Clear(id) => b.(native := Cleared(b.native, id), js := b.js - {id}, waiting := b.waiting - {id})
    case Refresh(id) => b.(native := Refreshed(b.native, id, b.now))
    case Wait(ms) => b.(now := b.now + ms)
    case Take(ids) => b.(native := Taken(b.native, b.now), batch := ids, waiting := OneShots(b.native, ids))
    case Dispatch => Dispatched(b)
    case Throw => b.(batch := [], waiting := {})
  }

  ghost predicate Possible(b: Bridge, run: seq<Event>)
    decreases |run|
  {
    run == [] || (Enabled(b, run[0]) && Possible(Next(b, run[0]), run[1..]))
  }

  function Schedules(run: seq<Event>): nat {
    if run == [] then 0 else (if run[0].Schedule? then 1 else 0) + Schedules(run[1..])
  }

  ghost function After(b: Bridge, run: seq<Event>): Bridge
    requires Possible(b, run)
    decreases |run|
  {
    if run == [] then b else After(Next(b, run[0]), run[1..])
  }

  /** Ids have not started over, and will not in `more` further calls. */
  predicate NoWrap(b: Bridge, more: nat) {
    b.native.nextId + more <= U32_MAX
  }

  /** Every id around was handed out before the next one. */
  ghost predicate Below(b: Bridge) {
    && b.native.nextId >= 1
    && (forall id :: id in b.native.entries ==> id < b.native.nextId)
    && (forall id :: id in b.js ==> id < b.native.nextId)
    && (forall id :: id in b.batch ==> id < b.native.nextId)
  }

  lemma FreshId(b: Bridge, id: nat, delay: nat, repeat: bool)
    requires Below(b) && Enabled(b, Schedule(id, delay, repeat)) && b.native.nextId <= U32_MAX
    ensures id == b.native.nextId
  {
    AtStart(b.native.nextId);
    assert At(b.native.nextId, 0) !in b.native.entries.Keys;
    var k :| FirstFree(b.native.entries.Keys, b.native.nextId, k) && id == At(b.native.nextId, k);
  }

  lemma BelowStays(b: Bridge, e: Event, more: nat)
    requires Below(b) && Enabled(b, e) && NoWrap(b, Schedules([e]) + more)
    ensures Below(Next(b, e)) && NoWrap(Next(b, e), more) && Next(b, e).native.nextId >= b.native.nextId
  {
    hide At, FirstFree, Ordered;
    assert Schedules([e]) == if e.Schedule? then 1 else 0;
    match e
    case Schedule(id, delay, repeat) => FreshId(b, id, delay, repeat);
    case Take(ids) => assert forall id :: id in ids ==> IsDue(b.native, b.now, id);
    case Dispatch => assert forall id :: id in b.batch[1..] ==> id in b.batch;
    case _ =>
  }

  lemma SchedulesFirst(run: seq<Event>)
    requires run != []
    ensures Schedules(run) == Schedules([run[0]]) + Schedules(run[1..])
  {
  }

  // ----- the mirror -----

  /** The JavaScript map is the native queue and the one-shots that still wait in the batch. */
  ghost predicate Mirror(b: Bridge) {
    && QueueOk(b.native)
    && b.js.Keys == b.native.entries.Keys + b.waiting
    && b.native.entries.Keys !! b.waiting
    && (forall id :: id in b.waiting ==> id in b.batch && !b.js[id])
    && (forall id :: id in b.native.entries ==> b.js[id] == b.native.entries[id].repeat)
    && (forall i, j :: 0 <= i < j < |b.batch| ==> b.batch[i] != b.batch[j])
    && (forall id :: id in b.batch && id in b.js && id !in b.waiting ==> b.js[id])
  }

  ghost predicate Inv(b: Bridge) {
    Mirror(b) && Below(b)
  }

  lemma NextKeeps(b: Bridge, e: Event, more: nat)
    requires Inv(b) && Enabled(b, e) && !e.Throw? && NoWrap(b, Schedules([e]) + more)
    ensures Inv(Next(b, e)) && NoWrap(Next(b, e), more)
  {
    hide At, FirstFree, Below;
    BelowStays(b, e, more);
    assert Schedules([e]) == if e.Schedule? then 1 else 0;
    match e
    case Schedule(id, delay, repeat) => ScheduleKeeps(b, id, delay, repeat);
    case Clear(id) => ClearKeeps(b, id);
    case Refresh(id) =>
    case Wait(ms) =>
    case Take(ids) => TakeKeeps(b, ids);
    case Dispatch => DispatchKeeps(b);
  }

  lemma ScheduleKeeps(b: Bridge, id: nat, delay: nat, repeat: bool)
    requires Inv(b) && Enabled(b, Schedule(id, delay, repeat)) && b.native.nextId < U32_MAX
    ensures Mirror(Next(b, Schedule(id, delay, repeat)))
  {
    FreshId(b, id, delay, repeat);
    hide FirstFree, At;
  }

  lemma ClearKeeps(b: Bridge, id: nat)
    requires Mirror(b)
    ensures Mirror(Next(b, Clear(id)))
  {
  }

  lemma TakeKeeps(b: Bridge, ids: seq<nat>)
    requires Mirror(b) && b.batch == [] && IsBatch(b.native, b.now, ids)
    ensures Mirror(Next(b, Take(ids)))
  {
    TakenLeavesNothingDue(b.native, b.now, ids);
    OrderedOnce(b.native, ids);
    assert b.waiting == {};
  }

  lemma DispatchKeeps(b: Bridge)
    requires Mirror(b) && b.batch != []
    ensures Mirror(Dispatched(b))
  {
    var id := b.batch[0];
    assert b.batch == [id] + b.batch[1..];
    assert forall k :: k in b.batch <==> k == id || k in b.batch[1..];
    if id in b.js && !b.js[id] {
      assert id in b.waiting;
    }
  }

  predicate NoThrow(run: seq<Event>) {
    forall i :: 0 <= i < |run| ==> !run[i].Throw?
  }

  /** While callbacks do not throw, the two maps agree at every moment of every run. */
  lemma {:induction false} RunMirrors(b: Bridge, run: seq<Event>)
    requires Inv(b) && Possible(b, run) && NoThrow(run) && NoWrap(b, Schedules(run))
    ensures Inv(After(b, run))
    decreases |run|
  {
    hide Inv, Next, Enabled, Schedules, NoWrap;
    if run != [] {
      SchedulesFirst(run);
      NextKeeps(b, run[0], Schedules(run[1..]));
      RunMirrors(Next(b, run[0]), run[1..]);
    }
  }

  /** From the start on, that is. */
  lemma StartedMirrors(run: seq<Event>)
    requires Possible(Started(), run) && NoThrow(run) && 1 + Schedules(run) <= U32_MAX
    ensures Mirror(After(Started(), run))
  {
    assert Inv(Started());
    RunMirrors(Started(), run);
  }

  /** A throwing callback abandons its batch: the maps still agree exactly when no one-shot
      was waiting behind it. */
  lemma ThrowKeepsMirrorIff(b: Bridge)
    requires Mirror(b)
    ensures Mirror(Next(b, Throw)) <==> b.waiting == {}
  {
    if b.waiting != {} {
      var id :| id in b.waiting;
      assert id in b.js;
    }
  }

  // ----- what fires -----

  function Count(ids: seq<nat>, id: nat): nat {
    multiset(ids)[id]
  }

  /** Handed out and gone from the JavaScript map: fired as a one-shot, or cleared. */
  predicate Dead(b: Bridge, id: nat) {
    id < b.native.nextId && id !in b.js
  }

  lemma DeadStep(b: Bridge, e: Event, more: nat, id: nat)
    requires Below(b) && Enabled(b, e) && NoWrap(b, Schedules([e]) + more) && Dead(b, id)
    ensures Dead(Next(b, e), id) && Count(Next(b, e).fired, id) == Count(b.fired, id)
  {
    hide At, FirstFree, Below, IsBatch;
    BelowStays(b, e, more);
    assert Schedules([e]) == if e.Schedule? then 1 else 0;
    if e.Schedule? { FreshId(b, e.id, e.delay, e.repeat); }
  }

  /** Once cleared, or fired as a one-shot, a timer never fires again, whatever else
      happens: in its batch or later, and even if callbacks throw. */
  lemma {:induction false} DeadStaysDead(b: Bridge, run: seq<Event>, id: nat)
    requires Below(b) && Possible(b, run) && NoWrap(b, Schedules(run)) && Dead(b, id)
    ensures Dead(After(b, run), id) && Count(After(b, run).fired, id) == Count(b.fired, id)
    decreases |run|
  {
    hide Below, Next, Enabled, Schedules, NoWrap, Dead;
    if run != [] {
      SchedulesFirst(run);
      DeadStep(b, run[0], Schedules(run[1..]), id);
      BelowStays(b, run[0], Schedules(run[1..]));
      DeadStaysDead(Next(b, run[0]), run[1..], id);
    }
  }

  lemma ClearedNeverFires(b: Bridge, id: nat, run: seq<Event>)
    requires Below(b) && id < b.native.nextId && NoWrap(b, Schedules(run))
    requires Possible(Next(b, Clear(id)), run)
    ensures Count(After(Next(b, Clear(id)), run).fired, id) == Count(b.fired, id)
  {
    BelowStays(b, Clear(id), Schedules(run));
    DeadStaysDead(Next(b, Clear(id)), run, id);
  }

  /** A one-shot that has fired is dead, and none fired twice. */
  ghost predicate ShotsOk(b: Bridge) {
    && (forall id :: id in b.js ==> (b.js[id] <==> id in b.intervals))
    && (forall id :: id in b.intervals ==> id < b.native.nextId)
    && (forall id :: id in b.fired ==> id < b.native.nextId)
    && (forall id :: id in b.fired && id !in b.intervals ==> Count(b.fired, id) == 1 && id !in b.js)
  }

  lemma ShotsStep(b: Bridge, e: Event, more: nat)
    requires ShotsOk(b) && Below(b) && Enabled(b, e) && NoWrap(b, Schedules([e]) + more)
    ensures ShotsOk(Next(b, e))
  {
    hide At, FirstFree, IsBatch;
    assert Schedules([e]) == if e.Schedule? then 1 else 0;
    if e.Schedule? { FreshId(b, e.id, e.delay, e.repeat); }
  }

  /** No one-shot fires twice in any run. */
  lemma {:induction false} OneShotsFireOnce(b: Bridge, run: seq<Event>)
    requires ShotsOk(b) && Below(b) && Possible(b, run) && NoWrap(b, Schedules(run))
    ensures ShotsOk(After(b, run))
    decreases |run|
  {
    hide Below, Next, Enabled, Schedules, NoWrap, ShotsOk;
    if run != [] {
      SchedulesFirst(run);
      ShotsStep(b, run[0], Schedules(run[1..]));
      BelowStays(b, run[0], Schedules(run[1..]));
      OneShotsFireOnce(Next(b, run[0]), run[1..]);
    }
  }

  /** From the start on, throws included: whoever is in the list of calls and not an interval is
      there once, and gone. */
  lemma StartedFireOnce(run: seq<Event>, id: nat)
    requires Possible(Started(), run) && 1 + Schedules(run) <= U32_MAX
    ensures var b := After(Started(), run);
      id in b.fired && id !in b.intervals ==> Count(b.fired, id) == 1 && id !in b.js
  {
    assert ShotsOk(Started()) && Below(Started());
    OneShotsFireOnce(Started(), run);
  }

  /** Neither side will bring this id up again. */
  predicate Stranded(b: Bridge, id: nat) {
    id < b.native.nextId && id !in b.native.entries && id !in b.batch
  }

  lemma StrandedStep(b: Bridge, e: Event, more: nat, id: nat)
    requires Below(b) && Enabled(b, e) && NoWrap(b, Schedules([e]) + more) && Stranded(b, id)
    ensures Stranded(Next(b, e), id) && Count(Next(b, e).fired, id) == Count(b.fired, id)
    ensures id in b.js && e != Clear(id) ==> id in Next(b, e).js
  {
    hide At, FirstFree, Below, Ordered;
    BelowStays(b, e, more);
    assert Schedules([e]) == if e.Schedule? then 1 else 0;
    if e.Schedule? { FreshId(b, e.id, e.delay, e.repeat); }
  }

  /** What a throw leaves behind: a waiting one-shot never fires and stays in the JavaScript
      map until somebody clears it. */
  lemma {:induction false} StrandedNeverFires(b: Bridge, run: seq<Event>, id: nat)
    requires Below(b) && Possible(b, run) && NoWrap(b, Schedules(run)) && Stranded(b, id)
    ensures Stranded(After(b, run), id) && Count(After(b, run).fired, id) == Count(b.fired, id)
    ensures id in b.js && Clear(id) !in run ==> id in After(b, run).js
    decreases |run|
  {
    hide Below, Next, Enabled, Schedules, NoWrap, Stranded;
    if run != [] {
      SchedulesFirst(run);
      StrandedStep(b, run[0], Schedules(run[1..]), id);
      BelowStays(b, run[0], Schedules(run[1..]));
      StrandedNeverFires(Next(b, run[0]), run[1..], id);
    }
  }

  lemma ThrowStrandsTheWaiting(b: Bridge, id: nat, run: seq<Event>)
    requires Inv(b) && id in b.waiting && NoWrap(b, Schedules(run)) && Possible(Next(b, Throw), run)
    requires Clear(id) !in run
    ensures var r := After(Next(b, Throw), run);
      id in r.js && id !in r.native.entries && Count(r.fired, id) == Count(b.fired, id)
  {
    hide QueueOk;
    assert Below(Next(b, Throw));
    StrandedNeverFires(Next(b, Throw), run, id);
  }

  lemma {:induction false} Extended(b: Bridge, run: seq<Event>, after: Bridge, e: Event)
    returns (longer: seq<Event>, next: Bridge)
    requires Possible(b, run) && After(b, run) == after && Enabled(after, e)
    ensures longer == run + [e] && next == Next(after, e)
    ensures Possible(b, longer) && After(b, longer) == next
    decreases |run|
  {
    hide Next, Enabled;
    longer, next := run + [e], Next(after, e);
    if run == [] {
      assert longer[1..] == [];
    } else {
      var tail, _ := Extended(Next(b, run[0]), run[1..], after, e);
      assert longer[1..] == tail;
    }
  }

  /** Two one-shots due at the same moment. */
  function TwoDue(): Queue {
    Queue(3, map[1 := Timer(1, 1, false), 2 := Timer(1, 1, false)])
  }

  lemma FirstIds()
    ensures Enabled(Started(), Schedule(1, 1, false))
    ensures var b := Next(Started(), Schedule(1, 1, false)); Enabled(b, Schedule(2, 1, false))
    ensures Next(Next(Started(), Schedule(1, 1, false)), Schedule(2, 1, false))
         == Bridge(TwoDue(), map[1 := false, 2 := false], [], 0, {}, {}, [])
  {
    assert FirstFree(Started().native.entries.Keys, 1, 0) && At(1, 0) == 1;
    var b := Next(Started(), Schedule(1, 1, false));
    assert FirstFree(b.native.entries.Keys, 2, 0) && At(2, 0) == 2;
  }

  lemma BothDue()
    ensures IsBatch(TwoDue(), 1, [1, 2]) && OneShots(TwoDue(), [1, 2]) == {1, 2}
  {
    var q := TwoDue();
    assert Earlier(q, 1, 2);
    assert forall id :: id in [1, 2] <==> id == 1 || id == 2;
  }

  /** Two timers fall due together and the callback of the first throws: the second is still
      in the JavaScript map, is in no queue, and has not been called. */
  lemma SecondTimerIsStranded() returns (run: seq<Event>)
    ensures Possible(Started(), run)
    ensures var b := After(Started(), run);
      b.js == map[2 := false] && 2 !in b.native.entries && b.batch == [] && b.fired == [1] && !Mirror(b)
  {
    hide Enabled, IsBatch, TwoDue, Mirror;
    FirstIds();
    BothDue();
    run := [];
    var b := Started();
    run, b := Extended(Started(), run, b, Schedule(1, 1, false));
    run, b := Extended(Started(), run, b, Schedule(2, 1, false));
    assert Enabled(b, Wait(1)) by { AlwaysEnabled(b); }
    run, b := Extended(Started(), run, b, Wait(1));
    assert Enabled(b, Take([1, 2])) by { TakeEnabled(b, [1, 2]); }
    run, b := Extended(Started(), run, b, Take([1, 2]));
    assert Enabled(b, Dispatch) by { AlwaysEnabled(b); }
    run, b := Extended(Started(), run, b, Dispatch);
    assert Enabled(b, Throw) by { AlwaysEnabled(b); }
    run, b := Extended(Started(), run, b, Throw);
    NothingTaken();
    assert b.js == map[2 := false];
    assert !Mirror(b) by { NotMirrored(b); }
  }

  lemma AlwaysEnabled(b: Bridge)
    ensures Enabled(b, Wait(1)) && Enabled(b, Throw) && (b.batch != [] ==> Enabled(b, Dispatch))
  {
  }

  lemma TakeEnabled(b: Bridge, ids: seq<nat>)
    requires b.batch == [] && IsBatch(b.native, b.now, ids)
    ensures Enabled(b, Take(ids))
  {
    hide IsBatch;
  }

  lemma NothingTaken()
    ensures Taken(TwoDue(), 1).entries == map[]
  {
  }

  lemma NotMirrored(b: Bridge)
    requires 2 in b.js && 2 !in b.native.entries && b.batch == []
    ensures !Mirror(b)
  {
    hide QueueOk;
  }

  // ----- the JavaScript side -----

  /** The timer map of the bootstrap script, and the calls it makes to the native queue. */
  class JsTimers {
    const native: TimerQueue
    var timers: map<nat, bool>

    ghost predicate Valid()
      reads this, native
    {
      native.Valid()
    }

    constructor (queue: TimerQueue)
      requires queue.Valid()
      ensures native == queue && timers == map[] && Valid()
    {
      native := queue;
      timers := map[];
    }

    /** This side and the native one as part of a whole: `b` says the rest. */
    ghost function Within(b: Bridge): Bridge
      reads this, native
    {
      b.(native := native.Value(), js := timers)
    }

    method ScheduleTimer(delay: JsNumber, repeat: bool, now: nat, ghost b: Bridge) returns (id: nat)
      requires Valid() && |native.entries| < U32_MAX && b == Within(b) && b.now == now
      modifies this, native
      ensures Valid()
      ensures var e := Schedule(id, NormalizedDelay(delay), repeat);
        Enabled(b, e) && Within(Next(b, e)) == Next(b, e)
    {
      id := native.Schedule(now, NormalizedDelay(delay), repeat);
      timers := timers[id := repeat];
    }

    method ClearTimer(id: nat, ghost b: Bridge)
      requires Valid() && b == Within(b)
      modifies this, native
      ensures Valid() && Within(Next(b, Clear(id))) == Next(b, Clear(id))
    {
      timers := timers - {id};
      native.Clear(id);
    }

    /** `__wakuRunTimer`, up to the call of the callback. */
    method RunTimer(id: nat, ghost b: Bridge) returns (calls: bool)
      requires Valid() && b == Within(b) && b.batch != [] && b.batch[0] == id
      modifies this
      ensures Valid() && Within(Next(b, Dispatch)) == Next(b, Dispatch)
      ensures Next(b, Dispatch).fired == if calls then b.fired + [id] else b.fired
    {
      if id !in timers {
        return false;
      }
      if !timers[id] {
        timers := timers - {id};
      }
      calls := true;
    }
  }
}
