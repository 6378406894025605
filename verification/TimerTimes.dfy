/** When timers fall due: a batch against what the calls before it say, call by call, with no
    queue in between. */
module TimerTimes {
  import opened TimerQueue
  import opened TimerBridge

  /** When a timer was last set - scheduled, refreshed, or taken as an interval - and how long
      it was asked to wait. */
  datatype Alarm = Alarm(since: nat, delay: nat, repeat: bool) {
    function Due(): nat {
      since + delay
    }
  }

  function Heard(alarms: map<nat, Alarm>, now: nat, e: Event): map<nat, Alarm> {
    match e
    case Schedule(id, delay, repeat) => alarms[id := Alarm(now, delay, repeat)]
    case Clear(id) => alarms - {id}
    case Refresh(id) => if id in alarms then alarms[id := alarms[id].(since := now)] else alarms
    case Take(ids) =>
      map id | id in alarms && (id !in ids || alarms[id].repeat)
        :: if id in ids then alarms[id].(since := now) else alarms[id]
    case _ => alarms
  }

  /** The time that has gone by. */
  function Clock(run: seq<Event>): nat {
    if run == [] then 0 else Clock(run[..|run| - 1]) + (if run[|run| - 1].Wait? then run[|run| - 1].ms else 0)
  }

  function Alarms(run: seq<Event>): map<nat, Alarm> {
    if run == [] then map[] else Heard(Alarms(run[..|run| - 1]), Clock(run[..|run| - 1]), run[|run| - 1])
  }

  /** The queue holds what was heard. */
  predicate Keeps(b: Bridge, alarms: map<nat, Alarm>, now: nat) {
    b.now == now && b.native.entries.Keys == alarms.Keys
    && forall id :: id in alarms ==>
         b.native.entries[id] == Timer(alarms[id].Due(), alarms[id].delay, alarms[id].repeat)
  }

  lemma KeepsOn(b: Bridge, alarms: map<nat, Alarm>, e: Event)
    requires Keeps(b, alarms, b.now) && Enabled(b, e)
    ensures Keeps(Next(b, e), Heard(alarms, b.now, e), if e.Wait? then b.now + e.ms else b.now)
  {
    hide FirstFree, At, Ordered;
    if e.Take? {
      assert forall id :: id in e.ids <==> IsDue(b.native, b.now, id);
    }
  }

  lemma {:induction false} LastEvent(b: Bridge, run: seq<Event>)
    requires Possible(b, run) && run != []
    ensures var init := run[..|run| - 1];
      Possible(b, init) && Enabled(After(b, init), run[|run| - 1])
      && After(b, run) == Next(After(b, init), run[|run| - 1])
    decreases |run|
  {
    hide Next, Enabled;
    if |run| == 1 {
      assert run[1..] == [] && run[..0] == [];
    } else {
      LastEvent(Next(b, run[0]), run[1..]);
      assert run[1..][..|run| - 2] == run[..|run| - 1][1..];
    }
  }

  lemma {:induction false} RunKeepsTimes(run: seq<Event>)
    requires Possible(Started(), run)
    ensures Keeps(After(Started(), run), Alarms(run), Clock(run))
    decreases |run|
  {
    hide Next, Enabled, Heard, Keeps;
    if run == [] {
      assert Keeps(Started(), map[], 0) by { NothingHeard(); }
    } else {
      LastEvent(Started(), run);
      RunKeepsTimes(run[..|run| - 1]);
      var b := After(Started(), run[..|run| - 1]);
      assert b.now == Clock(run[..|run| - 1]) by { KeepsClock(b, Alarms(run[..|run| - 1]), Clock(run[..|run| - 1])); }
      KeepsOn(b, Alarms(run[..|run| - 1]), run[|run| - 1]);
    }
  }

  lemma NothingHeard()
    ensures Keeps(Started(), map[], 0)
  {
  }

  lemma KeepsClock(b: Bridge, alarms: map<nat, Alarm>, now: nat)
    requires Keeps(b, alarms, now)
    ensures b.now == now
  {
  }

  /** In any run, throws and all, a batch is the timers whose delay has gone by since they were
      last set, each once, the longest due first and the smaller id first among equals: no
      timer fires early, and none that is due is left out. */
  lemma BatchesAreOnTime(run: seq<Event>, ids: seq<nat>)
    requires Possible(Started(), run) && Enabled(After(Started(), run), Take(ids))
    ensures var alarms := Alarms(run);
      && (forall id :: id in ids <==> id in alarms && alarms[id].Due() <= Clock(run))
      && forall i, j :: 0 <= i < j < |ids| ==>
           ids[i] in alarms && ids[j] in alarms
           && (alarms[ids[i]].Due() < alarms[ids[j]].Due()
               || (alarms[ids[i]].Due() == alarms[ids[j]].Due() && ids[i] < ids[j]))
  {
    RunKeepsTimes(run);
    var b := After(Started(), run);
    assert forall id :: id in ids <==> IsDue(b.native, b.now, id);
    assert forall i, j :: 0 <= i < j < |ids| ==> Earlier(b.native, ids[i], ids[j]);
  }

  // ----- one timer -----

  /** Scheduled and then left alone, a timer is in the batch once `delay` milliseconds have gone
      by, and not before. */
  lemma DueAfterItsDelay(run: seq<Event>, id: nat, delay: nat, repeat: bool, ms: nat, ids: seq<nat>)
    requires var run' := run + [Schedule(id, delay, repeat)] + [Wait(ms)];
      Possible(Started(), run') && Enabled(After(Started(), run'), Take(ids))
    ensures id in ids <==> ms >= delay
  {
    hide Possible, Enabled, Next;
    var a, run' := run + [Schedule(id, delay, repeat)], run + [Schedule(id, delay, repeat)] + [Wait(ms)];
    BatchesAreOnTime(run', ids);
    assert run'[..|run'| - 1] == a && a[..|a| - 1] == run;
  }
}
