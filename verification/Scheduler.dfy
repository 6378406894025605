/** The rebuild scheduler of the dev script (`scripts/dev.ts`) as a state machine: every
    event runs to its next `await`, and events interleave in any order. Building, stopping
    the app and preparing a launch take a start step and a later finish step. */
module Scheduler {
  import opened Options

  datatype Target = App | Daemon

  /** What a turn of the drain loop builds, and the change counters when it began. */
  datatype Job = Job(target: Target, appRevision: nat, daemonRevision: nat)

  /** Where the top level of the script waits. */
  datatype Startup = InitialBuild(revision: nat) | InitialStop | InitialPrepare | Ready | Exited

  /** Where `drainBuildQueue` waits. */
  datatype Drain = Idle | StopFirst(job: Job) | Building(job: Job) | StopAfter | Prepare

  /** The script's variables, where it waits, and three records: the counters when the last
      build of each kind began, and whether startup ended with a target left in the queue. */
  datatype Dev = Dev(
    app: Option<nat>, stopping: bool, building: bool, queued: Option<Target>, debounced: Option<Target>,
    appRevision: nat, daemonRevision: nat, timer: bool, startup: Startup, drain: Drain, launches: nat,
    appBuilt: nat, daemonBuilt: nat, left: bool)

  datatype Event =
    | Edit(target: Target)
    | TimerFires
    | InitialBuilt(ok: bool)
    | InitialStopped
    | InitialPrepared
    | StoppedFirst
    | Built(ok: bool)
    | StoppedAfter
    | Prepared
    | Signal
    | AppExits(id: nat)

  function Merged(current: Option<Target>, next: Target): Target {
    if current == Some(App) || next == App then App else Daemon
  }

  function Begin(): Dev {
    Dev(None, false, true, None, None, 0, 0, false, InitialBuild(0), Idle, 0, 0, 0, false)
  }

  /** `scheduleBuild`, up to the timer it sets. */
  function Scheduled(d: Dev, target: Target): Dev {
    if d.stopping then d
    else d.(daemonRevision := d.daemonRevision + 1,
            appRevision := if target == App then d.appRevision + 1 else d.appRevision,
            debounced := Some(Merged(d.debounced, target)), timer := true)
  }

  function Launched(d: Dev): Dev {
    d.(app := Some(d.launches), launches := d.launches + 1)
  }

  /** The head of the drain loop, and what follows the loop when it ends. */
  function LoopHead(d: Dev, windows: bool): Dev {
    if d.queued.None? || d.stopping then d.(building := false, drain := Idle)
    else
      var target := d.queued.value;
      var job := Job(target, d.appRevision, d.daemonRevision);
      var d' := d.(queued := None, daemonBuilt := d.daemonRevision, left := false,
                   appBuilt := if target == App then d.appRevision else d.appBuilt);
      if windows then d'.(app := None, drain := StopFirst(job)) else d'.(drain := Building(job))
  }

  function Drained(d: Dev, windows: bool): Dev {
    if d.building || d.stopping then d else LoopHead(d.(building := true), windows)
  }

  function TimerFired(d: Dev, windows: bool): Dev {
    var d' := d.(timer := false);
    Drained(match d.debounced
            case Some(t) => d'.(queued := Some(Merged(d.queued, t)), debounced := None)
            case None => d',
            windows)
  }

  function InitiallyBuilt(d: Dev, revision: nat, ok: bool, windows: bool): Dev {
    var d' := d.(building := false);
    if !ok then d'.(startup := Exited, timer := false)
    else if d.appRevision == revision then d'.(app := None, startup := InitialStop, left := d.queued.Some?)
    else if d.queued.Some? then Drained(d'.(startup := Ready), windows)
    else d'.(startup := Ready)
  }

  function JobBuilt(d: Dev, job: Job, ok: bool, windows: bool): Dev {
    if !ok || d.stopping then LoopHead(if windows && !d.stopping then Launched(d) else d, windows)
    else if job.target == Daemon && !windows then LoopHead(d, windows)
    else if job.target == App && d.appRevision != job.appRevision then LoopHead(d, windows)
    else d.(app := None, drain := StopAfter)
  }

  function Stopped(d: Dev): Dev {
    if d.stopping then d else d.(stopping := true, timer := false, app := None)
  }

  predicate Enabled(d: Dev, e: Event) {
    && !d.startup.Exited?
    && match e
       case TimerFires => d.timer
       case InitialBuilt(_) => d.startup.InitialBuild?
       case InitialStopped => d.startup.InitialStop?
       case InitialPrepared => d.startup.InitialPrepare?
       case StoppedFirst => d.drain.StopFirst?
       case Built(_) => d.drain.Building?
       case StoppedAfter => d.drain.StopAfter?
       case Prepared => d.drain.Prepare?
       case _ => true
  }

  function Next(d: Dev, e: Event, windows: bool): Dev
    requires Enabled(d, e)
  {
    match e
    case Edit(target) => Scheduled(d, target)
    case TimerFires => TimerFired(d, windows)
    case InitialBuilt(ok) => InitiallyBuilt(d, d.startup.revision, ok, windows)
    case InitialStopped => d.(startup := InitialPrepare)
    case InitialPrepared => (var d' := d.(startup := Ready); if d.stopping then d' else Launched(d'))
    case StoppedFirst => d.(drain := Building(d.drain.job))
    case Built(ok) => JobBuilt(d, d.drain.job, ok, windows)
    case StoppedAfter => d.(drain := Prepare)
    case Prepared => LoopHead(if d.stopping then d else Launched(d), windows)
    case Signal => Stopped(d)
    case AppExits(id) => if d.app == Some(id) then Stopped(d) else d
  }

  predicate Possible(d: Dev, run: seq<Event>, windows: bool)
    decreases |run|
  {
    run == [] || (Enabled(d, run[0]) && Possible(Next(d, run[0], windows), run[1..], windows))
  }

  function After(d: Dev, run: seq<Event>, windows: bool): Dev
    requires Possible(d, run, windows)
    decreases |run|
  {
    if run == [] then d else After(Next(d, run[0], windows), run[1..], windows)
  }

  // ----- what every step keeps -----

  /** One build at a time: the initial one, or the drain's. */
  predicate OneBuild(d: Dev) {
    && (d.building <==> d.startup.InitialBuild? || !d.drain.Idle?)
    && !(d.startup.InitialBuild? && !d.drain.Idle?)
  }

  /** Changes that no build of their kind began after are still waiting, an app change as
      an app build. */
  predicate NothingLost(d: Dev) {
    && d.appBuilt <= d.appRevision && d.daemonBuilt <= d.daemonRevision
    && (d.appRevision > d.appBuilt ==> d.debounced == Some(App) || d.queued == Some(App))
    && (d.daemonRevision > d.daemonBuilt ==> d.debounced.Some? || d.queued.Some?)
  }

  /** Whatever waits is on its way, but for a daemon change left over from startup. */
  predicate OnItsWay(d: Dev) {
    && (d.debounced.Some? <==> d.timer)
    && (d.queued.Some? && !d.building ==> d.left)
    && (d.left ==> d.queued == Some(Daemon) && !d.building)
  }

  predicate InitialOk(d: Dev) {
    d.startup.InitialBuild? ==>
      && d.startup.revision == d.appBuilt && d.startup.revision <= d.appRevision && !d.left
      && (d.queued == Some(App) || d.debounced == Some(App) ==> d.appRevision > d.startup.revision)
  }

  predicate Inv(d: Dev) {
    && OneBuild(d)
    && (d.stopping ==> d.app.None?)
    && (!d.stopping && !d.startup.Exited? ==> NothingLost(d) && OnItsWay(d) && InitialOk(d))
  }

  lemma BeginInv()
    ensures Inv(Begin())
  {
  }

  lemma LoopHeadKeeps(d: Dev, windows: bool)
    requires d.building && !d.startup.InitialBuild? && !d.startup.Exited? && (d.stopping ==> d.app.None?)
    requires !d.stopping ==> NothingLost(d) && (d.debounced.Some? <==> d.timer) && (d.left ==> d.queued.Some?)
    ensures Inv(LoopHead(d, windows))
  {
  }

  lemma TimerKeeps(d: Dev, windows: bool)
    requires Inv(d) && d.timer && !d.startup.Exited?
    ensures Inv(TimerFired(d, windows))
  {
    if d.debounced.Some? && !d.building && !d.stopping {
      var q := d.(timer := false, queued := Some(Merged(d.queued, d.debounced.value)), debounced := None);
      LoopHeadKeeps(q.(building := true), windows);
    }
  }

  lemma NextKeeps(d: Dev, e: Event, windows: bool)
    requires Inv(d) && Enabled(d, e)
    ensures Inv(Next(d, e, windows))
  {
    match e
    case TimerFires => TimerKeeps(d, windows);
    case InitialBuilt(ok) => InitialKeeps(d, ok, windows);
    case Built(ok) => BuiltKeeps(d, ok, windows);
    case Prepared => LoopHeadKeeps(if d.stopping then d else Launched(d), windows);
    case _ =>
  }

  lemma InitialKeeps(d: Dev, ok: bool, windows: bool)
    requires Inv(d) && Enabled(d, InitialBuilt(ok))
    ensures Inv(Next(d, InitialBuilt(ok), windows))
  {
    LoopHeadKeeps(d.(startup := Ready), windows);
  }

  lemma BuiltKeeps(d: Dev, ok: bool, windows: bool)
    requires Inv(d) && Enabled(d, Built(ok))
    ensures Inv(Next(d, Built(ok), windows))
  {
    LoopHeadKeeps(d, windows);
    if !d.stopping { LoopHeadKeeps(Launched(d), windows); }
  }

  lemma {:induction false} RunKeeps(d: Dev, run: seq<Event>, windows: bool)
    requires Inv(d) && Possible(d, run, windows)
    ensures Inv(After(d, run, windows))
    decreases |run|
  {
    hide Inv, Next, Enabled;
    if run != [] {
      NextKeeps(d, run[0], windows);
      RunKeeps(Next(d, run[0], windows), run[1..], windows);
    }
  }

  // ----- what every run promises -----

  /** At rest nothing is unbuilt: with no timer, no drain and startup over, every change is
      older than the last build of its kind, unless startup left a daemon change behind. */
  lemma QuietMeansBuilt(run: seq<Event>, windows: bool)
    requires Possible(Begin(), run, windows)
    ensures var d := After(Begin(), run, windows);
      d.startup.Ready? && d.drain.Idle? && !d.timer && !d.stopping && !d.left ==>
        d.appBuilt == d.appRevision && d.daemonBuilt == d.daemonRevision && d.queued.None?
  {
    BeginInv();
    RunKeeps(Begin(), run, windows);
  }

  /** In every run at most one build is under way; while it keeps running, an edit that no
      build has begun after waits, an app edit as an app build; and a queue that nobody
      drains is one that startup left. */
  lemma NoEditIsLost(run: seq<Event>, windows: bool)
    requires Possible(Begin(), run, windows)
    ensures var d := After(Begin(), run, windows);
      && !(d.startup.InitialBuild? && d.drain.Building?)
      && (!d.stopping && !d.startup.Exited? ==>
            && (d.appRevision > d.appBuilt ==> d.debounced == Some(App) || d.queued == Some(App))
            && (d.daemonRevision > d.daemonBuilt ==> d.debounced.Some? || d.queued.Some?)
            && (d.debounced.Some? ==> d.timer)
            && (d.queued.Some? ==> d.building || (d.left && d.queued == Some(Daemon))))
  {
    BeginInv();
    RunKeeps(Begin(), run, windows);
  }

  /** Once stopping, the script never has an app again. */
  lemma {:induction false} NoLaunchAfterStopping(d: Dev, run: seq<Event>, windows: bool)
    requires Inv(d) && d.stopping && Possible(d, run, windows)
    ensures var r := After(d, run, windows); r.stopping && r.app.None? && r.launches == d.launches
    decreases |run|
  {
    hide Inv, Next, Enabled;
    if run == [] {
      StoppingHasNoApp(d);
    } else {
      NextKeeps(d, run[0], windows);
      StoppingStep(d, run[0], windows);
      NoLaunchAfterStopping(Next(d, run[0], windows), run[1..], windows);
    }
  }

  lemma StoppingHasNoApp(d: Dev)
    requires Inv(d) && d.stopping
    ensures d.app.None?
  {
  }

  lemma StoppingStep(d: Dev, e: Event, windows: bool)
    requires Inv(d) && d.stopping && Enabled(d, e)
    ensures Next(d, e, windows).stopping && Next(d, e, windows).launches == d.launches
  {
  }

  /** A signal, or the exit of the app that the script has. */
  predicate EndsIt(d: Dev, e: Event) {
    e.Signal? || (e.AppExits? && d.app.Some? && e.id == d.app.value)
  }

  /** Some event of the run is one at its moment. */
  predicate EndsIn(d: Dev, run: seq<Event>, windows: bool)
    requires Possible(d, run, windows)
    decreases |run|
  {
    run != [] && (EndsIt(d, run[0]) || EndsIn(Next(d, run[0], windows), run[1..], windows))
  }

  lemma EndStep(d: Dev, e: Event, windows: bool)
    requires Enabled(d, e)
    ensures var r := Next(d, e, windows);
      (r.stopping <==> d.stopping || EndsIt(d, e)) && (r.stopping && (d.stopping ==> !d.timer) ==> !r.timer)
  {
    hide LoopHead, TimerFired, JobBuilt, InitiallyBuilt;
    LoopHeadStops(windows);
    TimerStops(d, windows);
    if e.Built? { BuiltStops(d, d.drain.job, e.ok, windows); }
    if e.InitialBuilt? { InitialStops(d, d.startup.revision, e.ok, windows); }
  }

  lemma TimerStops(d: Dev, windows: bool)
    ensures TimerFired(d, windows).stopping == d.stopping && !TimerFired(d, windows).timer
  {
    hide LoopHead;
    LoopHeadStops(windows);
  }

  lemma BuiltStops(d: Dev, job: Job, ok: bool, windows: bool)
    ensures var r := JobBuilt(d, job, ok, windows); r.stopping == d.stopping && r.timer == d.timer
  {
    hide LoopHead;
    LoopHeadStops(windows);
  }

  lemma InitialStops(d: Dev, revision: nat, ok: bool, windows: bool)
    ensures var r := InitiallyBuilt(d, revision, ok, windows); r.stopping == d.stopping && (r.timer ==> d.timer)
  {
    hide LoopHead;
    LoopHeadStops(windows);
  }

  /** The drain's turns neither stop the script nor set its timer. */
  lemma LoopHeadStops(windows: bool)
    ensures forall x: Dev :: LoopHead(x, windows).stopping == x.stopping && LoopHead(x, windows).timer == x.timer
  {
  }

  /** The exit of the current app is the end at once; that of any other changes nothing. */
  lemma ExitsOfOldAppsAreIgnored(d: Dev, id: nat, windows: bool)
    requires Enabled(d, AppExits(id)) && !d.stopping
    ensures var r := Next(d, AppExits(id), windows);
      r == if d.app == Some(id) then d.(stopping := true, timer := false, app := None) else d
  {
  }

  /** A script that is not stopping stops exactly when a signal comes or the app that it has
      exits; then its timer is off for good. */
  lemma {:induction false} StopsIff(d: Dev, run: seq<Event>, windows: bool)
    requires Possible(d, run, windows) && (d.stopping ==> !d.timer)
    ensures var r := After(d, run, windows);
      && (r.stopping <==> d.stopping || EndsIn(d, run, windows))
      && (r.stopping ==> !r.timer)
    decreases |run|
  {
    hide Next, Enabled, EndsIt;
    if run != [] {
      EndStep(d, run[0], windows);
      StopsIff(Next(d, run[0], windows), run[1..], windows);
    }
  }

  /** The edits of a run, and those of the app among them. */
  function Edits(run: seq<Event>, appOnly: bool): nat {
    if run == [] then 0
    else (if run[0].Edit? && (appOnly ==> run[0].target == App) then 1 else 0) + Edits(run[1..], appOnly)
  }

  /** While the script is not stopping, its counters count every edit: all of them as changes of
      the daemon, and those of the app as changes of the app besides. */
  lemma {:induction false} EditsAreCounted(d: Dev, run: seq<Event>, windows: bool)
    requires Possible(d, run, windows)
    ensures var r := After(d, run, windows);
      !r.stopping ==> r.daemonRevision == d.daemonRevision + Edits(run, false)
                      && r.appRevision == d.appRevision + Edits(run, true) && !d.stopping
    decreases |run|
  {
    hide Next, Enabled;
    if run != [] {
      EditStep(d, run[0], windows);
      EditsAreCounted(Next(d, run[0], windows), run[1..], windows);
    }
  }

  lemma EditStep(d: Dev, e: Event, windows: bool)
    requires Enabled(d, e)
    ensures var r := Next(d, e, windows);
      !r.stopping ==> !d.stopping && r.daemonRevision == d.daemonRevision + (if e.Edit? then 1 else 0)
                      && r.appRevision == d.appRevision + (if e.Edit? && e.target == App then 1 else 0)
  {
    hide LoopHead;
    LoopHeadKeepsCounts(windows);
  }

  lemma LoopHeadKeepsCounts(windows: bool)
    ensures forall x: Dev :: LoopHead(x, windows).stopping == x.stopping
              && LoopHead(x, windows).daemonRevision == x.daemonRevision
              && LoopHead(x, windows).appRevision == x.appRevision
  {
  }

  /** After a build the app is stopped for a new one exactly when the build was good, the
      script is not stopping, and no app change came since it began; a daemon alone needs that
      only where it cannot be replaced while the app runs. */
  lemma RelaunchIff(run: seq<Event>, ok: bool, windows: bool)
    requires Possible(Begin(), run, windows) && After(Begin(), run, windows).drain.Building?
    ensures var d := After(Begin(), run, windows);
      !d.startup.Exited? ==>
        (Next(d, Built(ok), windows).drain.StopAfter? <==>
           ok && !d.stopping && (if d.drain.job.target == App then d.appRevision == d.appBuilt else windows))
  {
    BeginInv();
    RunKeeps(Begin(), run, windows);
    BeginUp(windows);
    RunUp(Begin(), run, windows);
  }

  lemma BeginUp(windows: bool)
    ensures AppUp(Begin(), windows)
  {
  }

  /** The initial build ends the same way: the first launch follows it exactly when it was good
      and no app change came meanwhile. */
  lemma FirstLaunchIff(run: seq<Event>, ok: bool, windows: bool)
    requires Possible(Begin(), run, windows) && After(Begin(), run, windows).startup.InitialBuild?
    ensures var d := After(Begin(), run, windows);
      !d.stopping ==>
        (Next(d, InitialBuilt(ok), windows).startup.InitialStop? <==> ok && d.appRevision == d.appBuilt)
  {
    hide LoopHead;
    BeginInv();
    RunKeeps(Begin(), run, windows);
    DrainLeavesStartup(After(Begin(), run, windows).(building := true, startup := Ready), windows);
  }

  /** The initial build leaves its queue undrained exactly when something waits there and no
      app change came during the build; then it is a daemon change. */
  lemma LeftIff(d: Dev, windows: bool)
    requires Inv(d) && d.startup.InitialBuild? && !d.stopping
    ensures var r := Next(d, InitialBuilt(true), windows);
      && (r.queued.Some? && !r.building <==> d.queued.Some? && d.appRevision == d.startup.revision)
      && (r.left <==> d.queued.Some? && d.appRevision == d.startup.revision)
      && (r.left ==> r.queued == Some(Daemon))
  {
    hide NothingLost;
    assert d.appRevision == d.startup.revision ==> d.queued != Some(App);
    assert d.queued.Some? ==> d.queued.value == App || d.queued.value == Daemon;
  }

  /** What was left waits in the queue, and nothing builds it. */
  predicate Waits(d: Dev) {
    d.left && d.queued == Some(Daemon) && d.drain.Idle? && !d.startup.InitialBuild?
  }

  lemma LeftWaits(d: Dev)
    requires Inv(d) && d.left && !d.stopping && !d.startup.Exited?
    ensures Waits(d)
  {
  }

  /** It waits for the next edit's timer through everything else: more edits, the rest of
      startup, signals and exits of the app. */
  lemma {:induction false} LeftStays(d: Dev, run: seq<Event>, windows: bool)
    requires Inv(d) && d.left && !d.stopping && !d.startup.Exited? && Possible(d, run, windows)
    requires forall i :: 0 <= i < |run| ==> !run[i].TimerFires?
    ensures var r := After(d, run, windows); r.left && r.queued == Some(Daemon) && r.daemonBuilt == d.daemonBuilt
  {
    LeftWaits(d);
    WaitsOn(d, run, windows);
  }

  lemma {:induction false} WaitsOn(d: Dev, run: seq<Event>, windows: bool)
    requires Waits(d) && Possible(d, run, windows) && forall i :: 0 <= i < |run| ==> !run[i].TimerFires?
    ensures var r := After(d, run, windows); Waits(r) && r.daemonBuilt == d.daemonBuilt
    decreases |run|
  {
    if run != [] {
      WaitsOn(Next(d, run[0], windows), run[1..], windows);
    }
  }

  /** A run that ends so: the daemon edit made during the initial build is never built. */
  lemma DaemonEditIsLeft() returns (run: seq<Event>)
    ensures Possible(Begin(), run, false)
    ensures var d := After(Begin(), run, false);
      && d.startup.Ready? && d.drain.Idle? && !d.timer && !d.stopping && d.app.Some?
      && d.daemonRevision > d.daemonBuilt && d.left
  {
    run := [];
    var d := Begin();
    run, d := Extended(Begin(), run, d, Edit(Daemon), false);
    run, d := Extended(Begin(), run, d, TimerFires, false);
    run, d := Extended(Begin(), run, d, InitialBuilt(true), false);
    run, d := Extended(Begin(), run, d, InitialStopped, false);
    run, d := Extended(Begin(), run, d, InitialPrepared, false);
  }

  lemma {:induction false} Extended(d: Dev, run: seq<Event>, after: Dev, e: Event, windows: bool)
    returns (longer: seq<Event>, next: Dev)
    requires Possible(d, run, windows) && After(d, run, windows) == after && Enabled(after, e)
    ensures longer == run + [e] && next == Next(after, e, windows)
    ensures Possible(d, longer, windows) && After(d, longer, windows) == next
    decreases |run|
  {
    hide Next, Enabled;
    longer, next := run + [e], Next(after, e, windows);
    if run == [] {
      assert longer[1..] == [];
    } else {
      var tail, _ := Extended(Next(d, run[0], windows), run[1..], after, e, windows);
      assert longer[1..] == tail;
    }
  }

  // ----- one app at a time -----

  /** The drain is on its way to a launch. */
  predicate Launching(d: Dev, windows: bool) {
    d.drain.StopAfter? || d.drain.Prepare? || (windows && (d.drain.StopFirst? || d.drain.Building?))
  }

  /** Where the drain goes on to a launch, the app is down. */
  predicate AppDown(d: Dev, windows: bool) {
    && (Launching(d, windows) ==> d.app.None?)
    && (d.startup.InitialBuild? ==> d.app.None?)
  }

  /** Does this step launch an app while the script still has one? */
  predicate Overwrites(d: Dev, e: Event, windows: bool)
    requires Enabled(d, e)
  {
    d.app.Some? && Next(d, e, windows).launches > d.launches
  }

  /** Startup is about to launch while a drain has launched, or is on its way to a launch. */
  predicate Overlap(d: Dev, windows: bool) {
    d.startup.InitialPrepare? && !d.stopping && (d.app.Some? || Launching(d, windows))
  }

  /** Some step of the run launches over an app. */
  ghost predicate OverwritesIn(d: Dev, run: seq<Event>, windows: bool)
    requires Possible(d, run, windows)
    decreases |run|
  {
    run != [] && (Overwrites(d, run[0], windows) || OverwritesIn(Next(d, run[0], windows), run[1..], windows))
  }

  /** Some step of the run is startup's launch into an overlap. */
  ghost predicate OverlapsIn(d: Dev, run: seq<Event>, windows: bool)
    requires Possible(d, run, windows)
    decreases |run|
  {
    run != [] &&
    ((run[0].InitialPrepared? && Overlap(d, windows)) || OverlapsIn(Next(d, run[0], windows), run[1..], windows))
  }

  predicate LoopHeadIs(d: Dev, windows: bool) {
    var r := LoopHead(d, windows);
    r.startup == d.startup && r.launches == d.launches && (!d.startup.InitialBuild? ==> AppDown(r, windows))
  }

  lemma LoopHeadIsDown(d: Dev, windows: bool)
    ensures LoopHeadIs(d, windows)
  {
  }

  lemma BuiltDown(d: Dev, ok: bool, windows: bool)
    requires OneBuild(d) && AppDown(d, windows) && d.drain.Building?
    ensures var r := JobBuilt(d, d.drain.job, ok, windows);
      AppDown(r, windows) && (d.app.Some? ==> r.launches == d.launches)
  {
    hide LoopHead;
    LoopHeadIsDown(d, windows);
    LoopHeadIsDown(Launched(d), windows);
  }

  lemma TimerDown(d: Dev, windows: bool)
    requires OneBuild(d) && AppDown(d, windows)
    ensures var r := TimerFired(d, windows);
      AppDown(r, windows) && r.launches == d.launches
  {
    hide LoopHead;
    var x := d.(timer := false, building := true);
    LoopHeadIsDown(x, windows);
    if d.debounced.Some? {
      LoopHeadIsDown(x.(queued := Some(Merged(d.queued, d.debounced.value)), debounced := None), windows);
    }
  }

  lemma InitialDown(d: Dev, ok: bool, windows: bool)
    requires OneBuild(d) && AppDown(d, windows) && d.startup.InitialBuild?
    ensures var r := InitiallyBuilt(d, d.startup.revision, ok, windows);
      AppDown(r, windows) && r.launches == d.launches
  {
    hide LoopHead;
    LoopHeadIsDown(d.(building := true, startup := Ready), windows);
  }

  /** Only startup's launch into an overlap can leave a drain about to launch over an app. */
  lemma AppDownStep(d: Dev, e: Event, windows: bool)
    requires OneBuild(d) && AppDown(d, windows) && Enabled(d, e) && !(e.InitialPrepared? && Overlap(d, windows))
    ensures AppDown(Next(d, e, windows), windows) && !Overwrites(d, e, windows)
  {
    hide LoopHead, JobBuilt, TimerFired, InitiallyBuilt;
    match e
    case TimerFires => TimerDown(d, windows);
    case InitialBuilt(ok) => InitialDown(d, ok, windows);
    case Built(ok) => BuiltDown(d, ok, windows);
    case Prepared => LoopHeadIsDown(if d.stopping then d else Launched(d), windows);
    case _ =>
  }

  lemma OneBuildOfInv(d: Dev)
    requires Inv(d)
    ensures OneBuild(d)
  {
  }

  lemma {:induction false} NoOverlapNoOverwrite(d: Dev, run: seq<Event>, windows: bool)
    requires Inv(d) && AppDown(d, windows) && Possible(d, run, windows) && !OverlapsIn(d, run, windows)
    ensures !OverwritesIn(d, run, windows) && AppDown(After(d, run, windows), windows)
    decreases |run|
  {
    hide Inv, AppDown, Next, Enabled, Overwrites, Overlap, OneBuild;
    if run != [] {
      OneBuildOfInv(d);
      AppDownStep(d, run[0], windows);
      NextKeeps(d, run[0], windows);
      NoOverlapNoOverwrite(Next(d, run[0], windows), run[1..], windows);
    }
  }

  /** No run launches an app over one the script still has, unless startup launched into an
      overlap before. */
  lemma OverwriteNeedsOverlap(run: seq<Event>, windows: bool)
    requires Possible(Begin(), run, windows) && OverwritesIn(Begin(), run, windows)
    ensures OverlapsIn(Begin(), run, windows)
  {
    BeginInv();
    if !OverlapsIn(Begin(), run, windows) { NoOverlapNoOverwrite(Begin(), run, windows); }
  }

  /** No drain is under way at any moment of the run at which startup waits. */
  ghost predicate StartupAlone(d: Dev, run: seq<Event>, windows: bool)
    requires Possible(d, run, windows)
    decreases |run|
  {
    && (d.startup.InitialStop? || d.startup.InitialPrepare? ==> d.drain.Idle?)
    && (run == [] || StartupAlone(Next(d, run[0], windows), run[1..], windows))
  }

  predicate NoAppYet(d: Dev) {
    (d.startup.InitialBuild? || d.startup.InitialStop? || d.startup.InitialPrepare?) ==> d.drain.Idle? && d.app.None?
  }

  /** The drain's own steps leave startup where it is; a timer that starts no turn leaves the
      app alone. */
  lemma DrainLeavesStartup(d: Dev, windows: bool)
    ensures LoopHead(d, windows).startup == d.startup
    ensures LoopHead(d, windows).drain.Idle? ==> LoopHead(d, windows).app == d.app
  {
  }

  lemma TimerLeavesStartup(d: Dev, windows: bool)
    ensures TimerFired(d, windows).startup == d.startup
    ensures TimerFired(d, windows).drain.Idle? ==> TimerFired(d, windows).app == d.app
    ensures d.building ==> TimerFired(d, windows).drain == d.drain && TimerFired(d, windows).app == d.app
  {
    hide LoopHead;
    var x := d.(timer := false, building := true);
    DrainLeavesStartup(x, windows);
    if d.debounced.Some? {
      DrainLeavesStartup(x.(queued := Some(Merged(d.queued, d.debounced.value)), debounced := None), windows);
    }
  }

  lemma BuiltLeavesStartup(d: Dev, job: Job, ok: bool, windows: bool)
    ensures JobBuilt(d, job, ok, windows).startup == d.startup
  {
    hide LoopHead;
    DrainLeavesStartup(d, windows);
    DrainLeavesStartup(Launched(d), windows);
  }

  lemma NoAppYetStep(d: Dev, e: Event, windows: bool)
    requires OneBuild(d) && NoAppYet(d) && Enabled(d, e)
    requires var r := Next(d, e, windows); r.startup.InitialStop? || r.startup.InitialPrepare? ==> r.drain.Idle?
    ensures NoAppYet(Next(d, e, windows)) && !Overlap(d, windows)
  {
    hide LoopHead, TimerFired, JobBuilt;
    match e
    case TimerFires => TimerLeavesStartup(d, windows);
    case Built(ok) => BuiltLeavesStartup(d, d.drain.job, ok, windows);
    case Prepared => DrainLeavesStartup(if d.stopping then d else Launched(d), windows);
    case InitialBuilt(ok) => DrainLeavesStartup(d.(building := true, startup := Ready), windows);
    case _ =>
  }

  lemma {:induction false} AloneNoOverlap(d: Dev, run: seq<Event>, windows: bool)
    requires Inv(d) && NoAppYet(d) && Possible(d, run, windows) && StartupAlone(d, run, windows)
    ensures !OverlapsIn(d, run, windows)
    decreases |run|
  {
    hide Inv, NoAppYet, Next, Enabled, Overlap, OneBuild;
    if run != [] {
      OneBuildOfInv(d);
      StartsAlone(Next(d, run[0], windows), run[1..], windows);
      NoAppYetStep(d, run[0], windows);
      NextKeeps(d, run[0], windows);
      AloneNoOverlap(Next(d, run[0], windows), run[1..], windows);
    }
  }

  lemma StartsAlone(d: Dev, run: seq<Event>, windows: bool)
    requires Possible(d, run, windows) && StartupAlone(d, run, windows)
    ensures d.startup.InitialStop? || d.startup.InitialPrepare? ==> d.drain.Idle?
  {
  }

  /** So none does where no drain is under way while startup waits. */
  lemma AloneNoOverwrite(run: seq<Event>, windows: bool)
    requires Possible(Begin(), run, windows) && StartupAlone(Begin(), run, windows)
    ensures !OverwritesIn(Begin(), run, windows)
  {
    BeginInv();
    AloneNoOverlap(Begin(), run, windows);
    NoOverlapNoOverwrite(Begin(), run, windows);
  }

  lemma TwoSteps(d: Dev, a: Event, b: Event, windows: bool)
    requires Enabled(d, a) && Enabled(Next(d, a, windows), b)
    ensures Possible(d, [a, b], windows)
    ensures OverwritesIn(d, [a, b], windows)
       <==> Overwrites(d, a, windows) || Overwrites(Next(d, a, windows), b, windows)
  {
    hide Next, Enabled, Overwrites;
    var d1 := Next(d, a, windows);
    assert [a, b][1..] == [b];
    OneStep(d1, b, windows);
  }

  lemma OneStep(d: Dev, e: Event, windows: bool)
    requires Enabled(d, e)
    ensures Possible(d, [e], windows) && (OverwritesIn(d, [e], windows) <==> Overwrites(d, e, windows))
  {
    hide Next, Enabled, Overwrites;
    assert [e][1..] == [];
  }

  /** A drain on its way to a launch over a running app gets there. */
  lemma LaunchGoesThrough(d: Dev, windows: bool) returns (more: seq<Event>)
    requires !d.startup.Exited? && !d.stopping && d.app.Some? && Launching(d, windows)
    ensures Possible(d, more, windows) && OverwritesIn(d, more, windows)
  {
    if d.drain.StopAfter? {
      more := [StoppedAfter, Prepared];
      DrainLaunches(d.(drain := Prepare), Prepared, windows);
      TwoSteps(d, StoppedAfter, Prepared, windows);
    } else if d.drain.Prepare? {
      more := [Prepared];
      DrainLaunches(d, Prepared, windows);
      OneStep(d, Prepared, windows);
    } else if d.drain.StopFirst? {
      more := [StoppedFirst, Built(false)];
      DrainLaunches(d.(drain := Building(d.drain.job)), Built(false), windows);
      TwoSteps(d, StoppedFirst, Built(false), windows);
    } else {
      more := [Built(false)];
      DrainLaunches(d, Built(false), windows);
      OneStep(d, Built(false), windows);
    }
  }

  lemma DrainLaunches(d: Dev, e: Event, windows: bool)
    requires Enabled(d, e) && !d.stopping && d.app.Some?
    requires e.Prepared? || (windows && e == Built(false))
    ensures Overwrites(d, e, windows)
  {
  }

  lemma {:induction false} OverwritesLater(d: Dev, e: Event, more: seq<Event>, windows: bool)
    requires Enabled(d, e) && Possible(Next(d, e, windows), more, windows)
    ensures Possible(d, [e] + more, windows)
    ensures OverwritesIn(d, [e] + more, windows)
       <==> Overwrites(d, e, windows) || OverwritesIn(Next(d, e, windows), more, windows)
  {
    hide Next, Enabled, Overwrites;
    assert ([e] + more)[1..] == more;
  }

  /** Exactly when something can be launched over: once startup has launched, then or in some
      continuation, if and only if its launch fell into an overlap. */
  lemma OverwriteIffOverlap(run: seq<Event>, windows: bool)
    requires Possible(Begin(), run, windows) && After(Begin(), run, windows).startup.InitialPrepare?
    ensures var d := After(Begin(), run, windows);
      (exists more :: Possible(d, [InitialPrepared] + more, windows)
                      && OverwritesIn(d, [InitialPrepared] + more, windows))
      <==> Overlap(d, windows)
  {
    hide Inv;
    BeginInv();
    RunKeeps(Begin(), run, windows);
    if OverlapsIn(Begin(), run, windows) { OverlapEndsStartup(Begin(), run, windows); }
    NoOverlapNoOverwrite(Begin(), run, windows);
    var d := After(Begin(), run, windows);
    if Overlap(d, windows) {
      OverlapOverwrites(d, windows);
    } else if more :| Possible(d, [InitialPrepared] + more, windows)
                     && OverwritesIn(d, [InitialPrepared] + more, windows) {
      NoOverlapAfter(d, more, windows);
    }
  }

  lemma {:induction false} OverlapEndsStartup(d: Dev, run: seq<Event>, windows: bool)
    requires Possible(d, run, windows) && (d.startup.Ready? || OverlapsIn(d, run, windows))
    ensures After(d, run, windows).startup.Ready?
    decreases |run|
  {
    hide Overlap, LoopHead;
    if run != [] {
      var r := Next(d, run[0], windows);
      if d.startup.Ready? { ReadyStays(d, run[0], windows); }
      OverlapEndsStartup(r, run[1..], windows);
    }
  }

  lemma OverlapOverwrites(d: Dev, windows: bool)
    requires Overlap(d, windows)
    ensures exists more :: Possible(d, [InitialPrepared] + more, windows)
                           && OverwritesIn(d, [InitialPrepared] + more, windows)
  {
    var r := Next(d, InitialPrepared, windows);
    var more := [];
    if d.app.None? { more := LaunchGoesThrough(r, windows); }
    OverwritesLater(d, InitialPrepared, more, windows);
  }

  lemma NoOverlapAfter(d: Dev, more: seq<Event>, windows: bool)
    requires Inv(d) && AppDown(d, windows) && d.startup.InitialPrepare? && !Overlap(d, windows)
    requires Possible(d, [InitialPrepared] + more, windows)
    ensures !OverwritesIn(d, [InitialPrepared] + more, windows)
  {
    hide Inv, AppDown, Overwrites, OneBuild, Overlap;
    var r := Next(d, InitialPrepared, windows);
    assert ([InitialPrepared] + more)[1..] == more;
    OneBuildOfInv(d);
    AppDownStep(d, InitialPrepared, windows);
    NextKeeps(d, InitialPrepared, windows);
    PreparedOnce(r, more, windows);
    NoOverlapNoOverwrite(r, more, windows);
  }

  /** Startup launches once. */
  lemma {:induction false} PreparedOnce(d: Dev, run: seq<Event>, windows: bool)
    requires d.startup.Ready? && Possible(d, run, windows)
    ensures !OverlapsIn(d, run, windows)
    decreases |run|
  {
    hide Overlap, LoopHead;
    if run != [] {
      ReadyStays(d, run[0], windows);
      PreparedOnce(Next(d, run[0], windows), run[1..], windows);
    }
  }

  lemma ReadyStays(d: Dev, e: Event, windows: bool)
    requires d.startup.Ready? && Enabled(d, e)
    ensures Next(d, e, windows).startup.Ready? && !e.InitialPrepared?
  {
    hide LoopHead, TimerFired, JobBuilt;
    match e
    case TimerFires => TimerLeavesStartup(d, windows);
    case Built(ok) => BuiltLeavesStartup(d, d.drain.job, ok, windows);
    case Prepared => DrainLeavesStartup(if d.stopping then d else Launched(d), windows);
    case _ =>
  }

  /** One way into it: a drain launches while startup still waits, and startup launches over
      the drain's app. */
  lemma StartupCanOverwrite() returns (run: seq<Event>)
    ensures Possible(Begin(), run, false)
    ensures var d := After(Begin(), run, false);
      Enabled(d, InitialPrepared) && Overwrites(d, InitialPrepared, false)
  {
    var d;
    run, d := DrainDuringStartup();
    run, d := Extended(Begin(), run, d, Prepared, false);
    run, d := Extended(Begin(), run, d, InitialStopped, false);
  }

  /** The other way: startup ends while the drain prepares, and the drain launches over
      startup's app. */
  lemma DrainCanOverwrite() returns (run: seq<Event>)
    ensures Possible(Begin(), run, false)
    ensures var d := After(Begin(), run, false);
      d.startup.Ready? && Enabled(d, Prepared) && Overwrites(d, Prepared, false)
  {
    var d;
    run, d := DrainDuringStartup();
    run, d := Extended(Begin(), run, d, InitialStopped, false);
    run, d := Extended(Begin(), run, d, InitialPrepared, false);
  }

  lemma DrainDuringStartup() returns (run: seq<Event>, d: Dev)
    ensures Possible(Begin(), run, false) && After(Begin(), run, false) == d
    ensures d.startup.InitialStop? && d.drain.Prepare? && !d.stopping && d.app.None?
  {
    run, d := [], Begin();
    run, d := Extended(Begin(), run, d, InitialBuilt(true), false);
    run, d := Extended(Begin(), run, d, Edit(App), false);
    run, d := Extended(Begin(), run, d, TimerFires, false);
    run, d := Extended(Begin(), run, d, Built(true), false);
    run, d := Extended(Begin(), run, d, StoppedAfter, false);
  }

  // ----- the app comes back -----

  /** A launch is still to come: from the drain, from startup, or, where the app had to stop
      before its build, from the build that a newer app change will get. */
  predicate LaunchToCome(d: Dev, windows: bool) {
    || d.drain.StopAfter? || d.drain.Prepare? || d.startup.InitialStop? || d.startup.InitialPrepare?
    || (windows && (d.drain.StopFirst? || d.drain.Building? || d.appRevision > d.appBuilt))
  }

  predicate AppUp(d: Dev, windows: bool) {
    && (d.launches > 0 && !d.stopping ==> d.app.Some? || LaunchToCome(d, windows))
    && (d.drain.StopFirst? ==> windows)
    && (d.drain.StopFirst? || d.drain.Building? ==>
          d.drain.job.target == App ==> d.appBuilt == d.drain.job.appRevision)
    && (d.startup.InitialBuild? ==> d.launches == 0)
  }

  lemma LoopHeadUp(d: Dev, windows: bool)
    requires d.launches > 0 && !d.stopping ==> d.app.Some? || LaunchToCome(d.(drain := Idle), windows)
    requires d.startup.InitialBuild? ==> d.launches == 0
    ensures AppUp(LoopHead(d, windows), windows)
  {
  }

  lemma TimerUp(d: Dev, windows: bool)
    requires AppUp(d, windows) && OneBuild(d)
    ensures AppUp(TimerFired(d, windows), windows)
  {
    hide LoopHead;
    var x := d.(timer := false, building := true);
    if !d.building && !d.stopping {
      if d.debounced.Some? {
        LoopHeadUp(x.(queued := Some(Merged(d.queued, d.debounced.value)), debounced := None), windows);
      } else {
        LoopHeadUp(x, windows);
      }
    }
  }

  lemma BuiltUp(d: Dev, ok: bool, windows: bool)
    requires AppUp(d, windows) && Inv(d) && Enabled(d, Built(ok))
    ensures AppUp(Next(d, Built(ok), windows), windows)
  {
    hide LoopHead;
    var job := d.drain.job;
    if !ok || d.stopping {
      LoopHeadUp(if windows && !d.stopping then Launched(d) else d, windows);
    } else if (job.target == Daemon && !windows) || (job.target == App && d.appRevision != job.appRevision) {
      LoopHeadUp(d, windows);
    }
  }

  lemma InitialUp(d: Dev, ok: bool, windows: bool)
    requires AppUp(d, windows) && Inv(d) && Enabled(d, InitialBuilt(ok))
    ensures AppUp(Next(d, InitialBuilt(ok), windows), windows)
  {
    hide LoopHead;
    LoopHeadUp(d.(building := true, startup := Ready), windows);
  }

  lemma StepUp(d: Dev, e: Event, windows: bool)
    requires AppUp(d, windows) && Inv(d) && Enabled(d, e)
    ensures AppUp(Next(d, e, windows), windows)
  {
    hide LoopHead, TimerFired, JobBuilt, InitiallyBuilt;
    match e
    case TimerFires => TimerUp(d, windows);
    case Built(ok) => BuiltUp(d, ok, windows);
    case InitialBuilt(ok) => InitialUp(d, ok, windows);
    case Prepared => LoopHeadUp(if d.stopping then d else Launched(d), windows);
    case _ =>
  }

  lemma {:induction false} RunUp(d: Dev, run: seq<Event>, windows: bool)
    requires AppUp(d, windows) && Inv(d) && Possible(d, run, windows)
    ensures AppUp(After(d, run, windows), windows)
    decreases |run|
  {
    hide Inv, Next, Enabled, AppUp;
    if run != [] {
      StepUp(d, run[0], windows);
      NextKeeps(d, run[0], windows);
      RunUp(Next(d, run[0], windows), run[1..], windows);
    }
  }

  /** Once it has launched an app, the script at rest has one, whatever builds failed. */
  lemma RestingHasTheApp(run: seq<Event>, windows: bool)
    requires Possible(Begin(), run, windows)
    ensures var d := After(Begin(), run, windows);
      d.launches > 0 && d.startup.Ready? && d.drain.Idle? && !d.timer && !d.stopping ==> d.app.Some?
  {
    BeginInv();
    RunKeeps(Begin(), run, windows);
    RunUp(Begin(), run, windows);
  }

  /** No app build is on its way or under way. */
  predicate DaemonOnly(d: Dev) {
    && d.startup.Ready? && !d.stopping && d.queued != Some(App) && d.debounced != Some(App)
    && (d.drain.Idle? || (d.drain.Building? && d.drain.job.target == Daemon))
  }

  /** Where a running daemon can be replaced, edits of the daemon alone never stop or
      relaunch the app. */
  lemma {:induction false} DaemonEditsKeepTheApp(d: Dev, run: seq<Event>)
    requires DaemonOnly(d) && Possible(d, run, false)
    requires forall i :: 0 <= i < |run| ==> run[i] == Edit(Daemon) || run[i].TimerFires? || run[i].Built?
    ensures var r := After(d, run, false); DaemonOnly(r) && r.app == d.app && r.launches == d.launches
    decreases |run|
  {
    hide DaemonOnly, Next, Enabled;
    if run != [] {
      DaemonStep(d, run[0]);
      DaemonEditsKeepTheApp(Next(d, run[0], false), run[1..]);
    }
  }

  lemma DaemonStep(d: Dev, e: Event)
    requires DaemonOnly(d) && Enabled(d, e) && (e == Edit(Daemon) || e.TimerFires? || e.Built?)
    ensures var r := Next(d, e, false); DaemonOnly(r) && r.app == d.app && r.launches == d.launches
  {
    TargetIsDaemon(d.queued);
    TargetIsDaemon(d.debounced);
  }

  lemma TargetIsDaemon(t: Option<Target>)
    ensures t.Some? && t != Some(App) ==> t == Some(Daemon)
  {
    if t.Some? {
      match t.value
      case App =>
      case Daemon =>
    }
  }

  // ----- the script -----

  class DevScript {
    const mustStopBeforeBuild: bool
    var app: Option<nat>
    var stopping: bool
    var building: bool
    var queuedBuild: Option<Target>
    var debouncedBuild: Option<Target>
    var appChangeRevision: nat
    var daemonChangeRevision: nat
    var rebuildTimer: bool
    var startup: Startup
    var drain: Drain
    var launches: nat
    ghost var appBuilt: nat
    ghost var daemonBuilt: nat
    ghost var left: bool

    ghost function Value(): Dev
      reads this
    {
      Dev(app, stopping, building, queuedBuild, debouncedBuild, appChangeRevision, daemonChangeRevision,
          rebuildTimer, startup, drain, launches, appBuilt, daemonBuilt, left)
    }

    constructor (windows: bool)
      ensures Value() == Begin() && mustStopBeforeBuild == windows
    {
      mustStopBeforeBuild := windows;
      app, stopping, building, queuedBuild, debouncedBuild := None, false, true, None, None;
      appChangeRevision, daemonChangeRevision, rebuildTimer, launches := 0, 0, false, 0;
      startup, drain := InitialBuild(0), Idle;
      appBuilt, daemonBuilt, left := 0, 0, false;
    }

    method ScheduleBuild(target: Target)
      modifies this
      ensures Value() == Scheduled(old(Value()), target)
    {
      if stopping {
        return;
      }
      daemonChangeRevision := daemonChangeRevision + 1;
      if target == App {
        appChangeRevision := appChangeRevision + 1;
      }
      debouncedBuild := Some(Merged(debouncedBuild, target));
      rebuildTimer := true;
    }

    method RebuildTimerFires()
      modifies this
      ensures Value() == TimerFired(old(Value()), mustStopBeforeBuild)
    {
      rebuildTimer := false;
      if debouncedBuild.Some? {
        queuedBuild := Some(Merged(queuedBuild, debouncedBuild.value));
        debouncedBuild := None;
      }
      DrainBuildQueue();
    }

    /** Up to the first `await`. */
    method DrainBuildQueue()
      modifies this
      ensures Value() == Drained(old(Value()), mustStopBeforeBuild)
    {
      if building || stopping {
        return;
      }
      building := true;
      TurnLoop();
    }

    /** The loop condition and the start of a turn, or the end of the loop: when it ends
        nothing is queued or the script is stopping, so the queue is never drained anew. */
    method TurnLoop()
      modifies this
      ensures Value() == LoopHead(old(Value()), mustStopBeforeBuild)
    {
      if queuedBuild.None? || stopping {
        building, drain := false, Idle;
        return;
      }
      var job := Job(queuedBuild.value, appChangeRevision, daemonChangeRevision);
      queuedBuild := None;
      daemonBuilt, left := daemonChangeRevision, false;
      appBuilt := if job.target == App then appChangeRevision else appBuilt;
      if mustStopBeforeBuild {
        app, drain := None, StopFirst(job);
      } else {
        drain := Building(job);
      }
    }

    method LaunchApp()
      modifies this`app, this`launches
      ensures Value() == Launched(old(Value()))
    {
      app := Some(launches);
      launches := launches + 1;
    }

    /** The drain goes on after `build`. */
    method BuildFinishes(ok: bool)
      requires drain.Building?
      modifies this
      ensures Value() == JobBuilt(old(Value()), old(drain.job), ok, mustStopBeforeBuild)
    {
      var job := drain.job;
      if !ok || stopping {
        if mustStopBeforeBuild && !stopping {
          LaunchApp();
        }
        TurnLoop();
        return;
      }
      if job.target == Daemon && !mustStopBeforeBuild {
        TurnLoop();
        return;
      }
      if job.target == App && appChangeRevision != job.appRevision {
        TurnLoop();
        return;
      }
      app, drain := None, StopAfter;
    }

    /** The drain goes on after `prepareHyprlandLaunch`. */
    method PrepareFinishes()
      requires drain.Prepare? && !startup.Exited?
      modifies this
      ensures Value() == Next(old(Value()), Prepared, mustStopBeforeBuild)
    {
      if !stopping {
        LaunchApp();
      }
      TurnLoop();
    }

    /** The top level goes on after the initial build. */
    method InitialBuildFinishes(ok: bool)
      requires startup.InitialBuild?
      modifies this
      ensures Value() == Next(old(Value()), InitialBuilt(ok), mustStopBeforeBuild)
    {
      var initialAppRevision := startup.revision;
      building := false;
      if !ok {
        startup, rebuildTimer := Exited, false;
        return;
      }
      if appChangeRevision == initialAppRevision {
        app, startup, left := None, InitialStop, queuedBuild.Some?;
      } else {
        startup := Ready;
        if queuedBuild.Some? {
          DrainBuildQueue();
        }
      }
    }

    method Cleanup()
      modifies this
      ensures Value() == Stopped(old(Value()))
    {
      if stopping {
        return;
      }
      stopping, rebuildTimer, app := true, false, None;
    }

    method AppExited(id: nat)
      requires !startup.Exited?
      modifies this
      ensures Value() == Next(old(Value()), AppExits(id), mustStopBeforeBuild)
    {
      if stopping || app != Some(id) {
        return;
      }
      app, stopping, rebuildTimer := None, true, false;
    }
  }
}
