/** The periodic fix scheduler of applications/modem_shell/src/gnss/gnss.c as a timed system: start
    work that reschedules itself, timeout work, fix events, and a user who starts, stops and
    changes modes at any time.

    Timers expire on time into the first-in first-out system work queue, whose thread runs the
    handlers one at a time with arbitrary delay. Every handler calls the modem first, where it can
    block: being taken from the queue and finishing are two steps, between which everything else
    may happen. gnss_stop cancels the two works in two steps in the same way. */
module GnssModel {
  import opened Wrappers

  datatype OpMode = Continuous | SingleFix | PeriodicFix | PeriodicFixGnss

  /** A delayable work item: not scheduled, waiting for its due time, or in the work queue. */
  datatype Work = Idle | Delayed(due: nat) | Queued

  datatype Item = StartItem | TimeoutItem | StopItem

  datatype State = State(
    now: nat,
    mode: OpMode, interval: nat, retry: nat,
    start: Work, timeout: Work, queue: seq<Item>,
    running: Option<Item>, // the handler inside its modem call
    cancelled: bool,       // the start work has been cancelled while its handler runs
    stopping: bool,        // the user is between the two cancels of gnss_stop
    search: nat,           // searches started so far, in whatever mode
    timeoutOf: nat,        // the search that scheduled the latest timeout
    stopOf: nat)           // the search whose fix submitted the latest stop work

  // --------------------------------------------------------- kernel services

  /** The queue without an item. */
  function Remove(q: seq<Item>, x: Item): seq<Item> {
    if q == [] then [] else (if q[0] == x then [] else [q[0]]) + Remove(q[1..], x)
  }

  /** k_work_schedule: nothing happens unless the item is idle or running, and not being
      cancelled; no delay submits it. */
  function ScheduleStart(s: State, delay: nat): State {
    if !s.start.Idle? || s.cancelled then s
    else if delay == 0 then s.(start := Queued, queue := s.queue + [StartItem])
    else s.(start := Delayed(s.now + delay))
  }

  function ScheduleTimeout(s: State, delay: nat): State {
    if !s.timeout.Idle? then s
    else if delay == 0 then s.(timeout := Queued, queue := s.queue + [TimeoutItem], timeoutOf := s.search)
    else s.(timeout := Delayed(s.now + delay), timeoutOf := s.search)
  }

  /** k_work_cancel_delayable; work whose handler runs counts as being cancelled until that ends. */
  function CancelStart(s: State): State {
    s.(start := Idle, queue := Remove(s.queue, StartItem), cancelled := s.running == Some(StartItem))
  }

  /** The same; a timeout is scheduled only by the start handler, so never while its own runs. */
  function CancelTimeout(s: State): State {
    s.(timeout := Idle, queue := Remove(s.queue, TimeoutItem))
  }

  /** k_work_submit of the stop work, which is queued at most once. */
  function SubmitStop(s: State): State {
    if StopItem in s.queue then s else s.(queue := s.queue + [StopItem], stopOf := s.search)
  }

  // ------------------------------------------------------------------ code

  /** The work queue thread takes the first item and enters its handler. */
  function TakeFirst(s: State): State
    requires s.queue != []
  {
    var s1 := s.(queue := s.queue[1..], running := Some(s.queue[0]));
    match s.queue[0]
    case StartItem => s1.(start := Idle)
    case TimeoutItem => s1.(timeout := Idle)
    case StopItem => s1
  }

  /** start_gnss_work_fn schedules a timeout. */
  predicate HasTimeout(s: State) {
    0 < s.retry < s.interval
  }

  /** start_gnss_work_fn behind its modem call. */
  function FinishStart(s: State): State {
    var s1 := ScheduleStart(s.(search := s.search + 1), s.interval);
    var s2 := if HasTimeout(s) then ScheduleTimeout(s1, s.retry) else s1;
    s2.(running := None, cancelled := false)
  }

  /** The handler comes back from the modem and ends; the other two do nothing more. */
  function FinishRunning(s: State): State {
    if s.running == Some(StartItem) then FinishStart(s) else s.(running := None)
  }

  /** The fix event case of gnss_event_handler. */
  function Fix(s: State): State {
    if s.mode == PeriodicFix then SubmitStop(CancelTimeout(s)) else s
  }

  /** gnss_start: outside the periodic mode the modem starts a search at once. */
  function UserStart(s: State): State {
    if s.mode == PeriodicFix then ScheduleStart(s, 0) else s.(search := s.search + 1)
  }

  /** gnss_stop up to and including the first cancel. */
  function StopFirst(s: State): State {
    if s.mode == PeriodicFix then CancelTimeout(s).(stopping := true) else s
  }

  /** The second cancel. */
  function StopSecond(s: State): State {
    CancelStart(s).(stopping := false)
  }

  /** The four mode setters. */
  function SetMode(s: State, mode: OpMode, interval: nat, retry: nat): State {
    if mode == PeriodicFix then s.(mode := mode, interval := interval, retry := retry)
    else s.(mode := mode)
  }

  // ------------------------------------------------------------------ steps

  datatype Step =
    | Tick
    | ExpireStart | ExpireTimeout
    | Take | Finish
    | FixEvent
    | BeginStart | BeginStop | EndStop
    | ChangeMode(mode: OpMode, interval: nat, retry: nat)

  /** Time does not pass a due timer; one user thread does one thing at a time. */
  predicate Enabled(s: State, step: Step) {
    match step
    case Tick => (s.start.Delayed? ==> s.start.due > s.now) && (s.timeout.Delayed? ==> s.timeout.due > s.now)
    case ExpireStart => s.start.Delayed? && s.start.due <= s.now
    case ExpireTimeout => s.timeout.Delayed? && s.timeout.due <= s.now
    case Take => s.running.None? && s.queue != []
    case Finish => s.running.Some?
    case FixEvent => true
    case BeginStart => !s.stopping
    case BeginStop => !s.stopping
    case EndStop => s.stopping
    case ChangeMode(_, _, _) => !s.stopping
  }

  function Apply(s: State, step: Step): State
    requires Enabled(s, step)
  {
    match step
    case Tick => s.(now := s.now + 1)
    case ExpireStart => s.(start := Queued, queue := s.queue + [StartItem])
    case ExpireTimeout => s.(timeout := Queued, queue := s.queue + [TimeoutItem])
    case Take => TakeFirst(s)
    case Finish => FinishRunning(s)
    case FixEvent => Fix(s)
    case BeginStart => UserStart(s)
    case BeginStop => StopFirst(s)
    case EndStop => StopSecond(s)
    case ChangeMode(m, i, r) => SetMode(s, m, i, r)
  }

  predicate Initial(s: State) {
    && s.start == Idle && s.timeout == Idle && s.queue == [] && s.running == None
    && !s.cancelled && !s.stopping && s.search == 0 && s.timeoutOf == 0 && s.stopOf == 0
  }

  predicate ValidRun(s: State, steps: seq<Step>)
    decreases |steps|
  {
    steps == [] || (Enabled(s, steps[0]) && ValidRun(Apply(s, steps[0]), steps[1..]))
  }

  function Run(s: State, steps: seq<Step>): State
    requires ValidRun(s, steps)
    decreases |steps|
  {
    if steps == [] then s else Run(Apply(s, steps[0]), steps[1..])
  }

  // ------------------------------------------------------------- invariants

  /** A pending timeout belongs to the latest search and comes before a pending start: strictly
      earlier while both wait, and ahead of it in the queue. A running start has none pending, and a
      running timeout belongs to the latest search too. */
  predicate TimeoutFirst(s: State) {
    && (s.timeout.Delayed? ==> s.start.Delayed? && s.timeout.due < s.start.due)
    && (s.timeout.Queued? ==> s.start.Delayed? || (s.start.Queued? && Ahead(s.queue, TimeoutItem)))
    && (!s.timeout.Idle? ==> s.timeoutOf == s.search && s.running != Some(StartItem))
    && (s.running == Some(TimeoutItem) ==> s.timeoutOf == s.search)
  }

  /** Stop work belongs to the latest search, and no start will run before it. */
  predicate StopFirstInLine(s: State) {
    && (StopItem in s.queue ==> Ahead(s.queue, StopItem) && s.running != Some(StartItem))
    && (StopItem in s.queue || s.running == Some(StopItem) ==> s.stopOf == s.search)
  }

  /** No x behind a start item. */
  predicate Ahead(q: seq<Item>, x: Item) {
    q == [] || (if q[0] == StartItem then x !in q[1..] else Ahead(q[1..], x))
  }

  predicate Unique(q: seq<Item>) {
    q == [] || (q[0] !in q[1..] && Unique(q[1..]))
  }

  /** What holds of the queue, the timers and the running handler in every run. */
  predicate Consistent(s: State) {
    && Unique(s.queue)
    && (s.start.Queued? <==> StartItem in s.queue)
    && (s.timeout.Queued? <==> TimeoutItem in s.queue)
    && (s.start.Delayed? ==> s.start.due >= s.now)
    && (s.timeout.Delayed? ==> s.timeout.due >= s.now)
    && (s.running == Some(StartItem) ==> !s.start.Delayed?)
    && (s.cancelled ==> s.running == Some(StartItem) && s.start == Idle)
  }

  lemma {:induction false} NoneAhead(q: seq<Item>, x: Item)
    ensures x !in q ==> Ahead(q, x)
  {
    if q != [] {
      NoneAhead(q[1..], x);
    }
  }

  predicate RemoveOk(q: seq<Item>, x: Item) {
    var r := Remove(q, x);
    && (forall y :: y in r <==> y in q && y != x)
    && (Unique(q) ==> Unique(r))
    && (forall z :: Ahead(q, z) ==> Ahead(r, z))
  }

  lemma {:induction false} RemoveLaws(q: seq<Item>, x: Item)
    ensures RemoveOk(q, x)
  {
    if q != [] {
      RemoveLaws(q[1..], x);
      var r := Remove(q[1..], x);
      assert ([q[0]] + r)[1..] == r && [] + r == r;
      forall z ensures z !in r ==> Ahead(r, z) { NoneAhead(r, z); }
    }
  }

  predicate AppendOk(q: seq<Item>, x: Item) {
    var r := q + [x];
    && (forall y :: y in r <==> y in q || y == x)
    && (Unique(q) ==> Unique(r))
    && (forall z :: StartItem !in q || (z != x && Ahead(q, z)) ==> Ahead(r, z))
    && (x != StartItem ==> (StartItem in q <==> !Ahead(r, x)))
  }

  lemma {:induction false} AppendLaws(q: seq<Item>, x: Item)
    requires x !in q
    ensures AppendOk(q, x)
  {
    if q != [] {
      AppendLaws(q[1..], x);
      var r := q + [x];
      assert r[1..] == q[1..] + [x] && r[0] == q[0];
      assert x in r[1..] by { assert r[1..][|q| - 1] == x; }
      if q[0] == StartItem {
        assert x != StartItem ==> !Ahead(r, x);
      } else {
        assert Ahead(r, x) <==> Ahead(r[1..], x);
        assert StartItem in q <==> StartItem in q[1..];
      }
    } else {
      assert (q + [x])[1..] == [];
    }
  }

  predicate TailOk(q: seq<Item>)
    requires q != []
  {
    && Unique(q[1..]) && q[0] !in q[1..]
    && (forall y :: y in q <==> y == q[0] || y in q[1..])
    && (forall z :: Ahead(q, z) ==> if q[0] == StartItem then z !in q[1..] else Ahead(q[1..], z))
  }

  lemma TailLaws(q: seq<Item>)
    requires q != [] && Unique(q)
    ensures TailOk(q)
  {
  }

  /** The laws a step needs of the queue it changes. */
  lemma QueueLaws(s: State, step: Step)
    requires Enabled(s, step) && Consistent(s)
    ensures var q := s.queue;
      match step
      case Take => TailOk(q)
      case ExpireStart => AppendOk(q, StartItem)
      case ExpireTimeout => AppendOk(q, TimeoutItem)
      case Finish => s.start == Idle ==> AppendOk(q, StartItem)
      case FixEvent => RemoveOk(q, TimeoutItem) && (StopItem !in q ==> AppendOk(Remove(q, TimeoutItem), StopItem))
      case BeginStart => s.start == Idle ==> AppendOk(q, StartItem)
      case BeginStop => RemoveOk(q, TimeoutItem)
      case EndStop => RemoveOk(q, StartItem)
      case _ => true
  {
    hide Ahead, Unique, AppendOk, TailOk;
    match step
    case Take => TailLaws(s.queue);
    case ExpireTimeout => AppendLaws(s.queue, TimeoutItem);
    case FixEvent =>
      RemoveLaws(s.queue, TimeoutItem);
      if StopItem !in s.queue { AppendLaws(Remove(s.queue, TimeoutItem), StopItem); }
    case BeginStop => RemoveLaws(s.queue, TimeoutItem);
    case EndStop => RemoveLaws(s.queue, StartItem);
    case _ => if StartItem !in s.queue { AppendLaws(s.queue, StartItem); }
  }

  lemma ConsistentStep(s: State, step: Step)
    requires Consistent(s) && Enabled(s, step)
    ensures Consistent(Apply(s, step))
  {
    hide Unique, Ahead;
    QueueLaws(s, step);
    if step == Finish {
      hide AppendOk;
      FinishConsistent(s);
    } else if step == FixEvent {
      hide AppendOk, RemoveOk, Fix;
      FixConsistent(s);
    } else if step == BeginStop {
      hide AppendOk;
    } else if step == EndStop {
      hide AppendOk;
    }
  }

  lemma FinishConsistent(s: State)
    requires Consistent(s) && s.running.Some? && (s.start == Idle ==> AppendOk(s.queue, StartItem))
    ensures Consistent(FinishRunning(s))
  {
    hide Unique, Ahead;
  }

  lemma FixConsistent(s: State)
    requires Consistent(s) && RemoveOk(s.queue, TimeoutItem)
    requires StopItem !in s.queue ==> AppendOk(Remove(s.queue, TimeoutItem), StopItem)
    ensures Consistent(Fix(s))
  {
    hide Unique, Ahead;
  }

  /** gnss_start starts a search itself. */
  predicate DirectStart(s: State, step: Step) {
    step == BeginStart && s.mode != PeriodicFix
  }

  /** No timeout of an earlier search is pending or running. */
  predicate NoTimeout(s: State) {
    s.timeout == Idle && s.running != Some(TimeoutItem)
  }

  /** No stop work of an earlier search is queued or running. */
  predicate NoStop(s: State) {
    StopItem !in s.queue && s.running != Some(StopItem)
  }

  /** What one step has to meet to keep the timeouts first: the second cancel of gnss_stop finds no
      timeout, a start handler that schedules a timeout can also schedule the next start, and no
      timeout is left from the periodic mode when a search is started directly. */
  predicate Clean(s: State, step: Step) {
    && (step == EndStop ==> s.timeout == Idle)
    && (step == Finish && s.running == Some(StartItem) && HasTimeout(s) ==> s.start == Idle && !s.cancelled)
    && (DirectStart(s, step) ==> NoTimeout(s))
  }

  lemma TimeoutFirstStepIff(s: State, step: Step)
    requires Consistent(s) && TimeoutFirst(s) && Enabled(s, step)
    ensures TimeoutFirst(Apply(s, step)) <==> Clean(s, step)
  {
    hide Unique, Ahead;
    QueueLaws(s, step);
  }

  /** What one step has to meet to keep stop work first in line: a fix that submits stop work does
      not arrive while a start is queued or its handler runs, and no stop work is left from the
      periodic mode when a search is started directly. */
  predicate Timely(s: State, step: Step) {
    && (step == FixEvent && s.mode == PeriodicFix && StopItem !in s.queue ==>
          !s.start.Queued? && s.running != Some(StartItem))
    && (DirectStart(s, step) ==> NoStop(s))
  }

  lemma StopFirstStepIff(s: State, step: Step)
    requires Consistent(s) && StopFirstInLine(s) && Enabled(s, step)
    ensures StopFirstInLine(Apply(s, step)) <==> Timely(s, step)
  {
    hide Unique, Ahead;
    QueueLaws(s, step);
  }

  /** What a start handler leaves scheduled, and when. */
  lemma FinishStartMeans(s: State)
    ensures var t := FinishStart(s);
      && t.running == None && !t.cancelled && t.search == s.search + 1
      && t.now == s.now && t.mode == s.mode && t.interval == s.interval && t.retry == s.retry
      && t.start == (if s.start != Idle || s.cancelled then s.start
                     else if s.interval == 0 then Queued else Delayed(s.now + s.interval))
      && t.timeout == (if s.timeout == Idle && 0 < s.retry < s.interval then Delayed(s.now + s.retry) else s.timeout)
      && (t.timeout != s.timeout ==> t.timeoutOf == t.search)
  {
  }

  /** Outside the periodic mode fixes, stops and the starts of the user leave work, queue and running
      handler alone. */
  lemma OtherModesLeaveWork(s: State, step: Step)
    requires s.mode != PeriodicFix && Enabled(s, step)
    requires step == FixEvent || step == BeginStop || step == BeginStart
    ensures Apply(s, step) == if step == BeginStart then s.(search := s.search + 1) else s
  {
  }

  // ------------------------------------------------------------ main results

  predicate AlwaysTimeoutFirst(s: State, steps: seq<Step>)
    requires ValidRun(s, steps)
    decreases |steps|
  {
    TimeoutFirst(s) && (steps == [] || AlwaysTimeoutFirst(Apply(s, steps[0]), steps[1..]))
  }

  predicate CleanRun(s: State, steps: seq<Step>)
    requires ValidRun(s, steps)
    decreases |steps|
  {
    steps == [] || (Clean(s, steps[0]) && CleanRun(Apply(s, steps[0]), steps[1..]))
  }

  predicate AlwaysStopFirst(s: State, steps: seq<Step>)
    requires ValidRun(s, steps)
    decreases |steps|
  {
    StopFirstInLine(s) && (steps == [] || AlwaysStopFirst(Apply(s, steps[0]), steps[1..]))
  }

  predicate TimelyRun(s: State, steps: seq<Step>)
    requires ValidRun(s, steps)
    decreases |steps|
  {
    steps == [] || (Timely(s, steps[0]) && TimelyRun(Apply(s, steps[0]), steps[1..]))
  }

  /** The user's side of it: in the periodic mode no gnss_start and no part of a gnss_stop falls into a
      run of the start handler, and none of its runs begins during a gnss_stop; in the other modes
      gnss_start waits until no timeout of the periodic mode is left. */
  predicate Apart(s: State, step: Step) {
    match step
    case Take => s.queue != [] && s.queue[0] == StartItem ==> !s.stopping
    case BeginStart => if s.mode == PeriodicFix then s.running != Some(StartItem) else NoTimeout(s)
    case BeginStop => s.mode == PeriodicFix ==> s.running != Some(StartItem)
    case _ => true
  }

  predicate ApartRun(s: State, steps: seq<Step>)
    requires ValidRun(s, steps)
    decreases |steps|
  {
    steps == [] || (Apart(s, steps[0]) && ApartRun(Apply(s, steps[0]), steps[1..]))
  }

  /** What the user keeps that way. */
  predicate Undisturbed(s: State) {
    && (s.stopping ==> s.timeout == Idle && s.running != Some(StartItem))
    && (s.running == Some(StartItem) ==> s.start == Idle && !s.cancelled)
  }

  lemma UndisturbedStep(s: State, step: Step)
    requires Consistent(s) && Undisturbed(s) && Enabled(s, step) && Apart(s, step)
    ensures Clean(s, step) && Undisturbed(Apply(s, step))
  {
  }

  lemma {:induction false} ApartIsClean(s: State, steps: seq<Step>)
    requires Consistent(s) && Undisturbed(s) && ValidRun(s, steps) && ApartRun(s, steps)
    ensures CleanRun(s, steps)
    decreases |steps|
  {
    if steps != [] {
      hide Consistent, Undisturbed, Clean, Apart;
      ConsistentStep(s, steps[0]);
      UndisturbedStep(s, steps[0]);
      ApartIsClean(Apply(s, steps[0]), steps[1..]);
    }
  }

  lemma {:induction false} AlwaysIff(s: State, steps: seq<Step>)
    requires Consistent(s) && ValidRun(s, steps)
    ensures TimeoutFirst(s) ==> (AlwaysTimeoutFirst(s, steps) <==> CleanRun(s, steps))
    ensures StopFirstInLine(s) ==> (AlwaysStopFirst(s, steps) <==> TimelyRun(s, steps))
    decreases |steps|
  {
    if steps != [] {
      hide Consistent, TimeoutFirst, StopFirstInLine, Clean, Timely;
      ConsistentStep(s, steps[0]);
      if TimeoutFirst(s) { TimeoutFirstStepIff(s, steps[0]); }
      if StopFirstInLine(s) { StopFirstStepIff(s, steps[0]); }
      AlwaysIff(Apply(s, steps[0]), steps[1..]);
    }
  }

  /** In exactly the clean runs a pending timeout always implies a pending start with a strictly
      later due time, both for the latest search; users who keep apart meet the condition. */
  lemma TimeoutBeforeStartIff(s: State, steps: seq<Step>)
    requires Initial(s) && ValidRun(s, steps)
    ensures AlwaysTimeoutFirst(s, steps) <==> CleanRun(s, steps)
    ensures ApartRun(s, steps) ==> AlwaysTimeoutFirst(s, steps)
  {
    AlwaysIff(s, steps);
    if ApartRun(s, steps) {
      ApartIsClean(s, steps);
    }
  }

  /** In exactly the runs whose fixes are timely, stop work always belongs to the latest search and
      no start can run before it. */
  lemma StopBeforeStartIff(s: State, steps: seq<Step>)
    requires Initial(s) && ValidRun(s, steps)
    ensures AlwaysStopFirst(s, steps) <==> TimelyRun(s, steps)
  {
    AlwaysIff(s, steps);
  }

  lemma {:induction false} Reached(s: State, steps: seq<Step>)
    requires Consistent(s) && ValidRun(s, steps)
    ensures Consistent(Run(s, steps))
    ensures AlwaysTimeoutFirst(s, steps) ==> TimeoutFirst(Run(s, steps))
    ensures AlwaysStopFirst(s, steps) ==> StopFirstInLine(Run(s, steps))
    decreases |steps|
  {
    if steps != [] {
      hide Consistent, TimeoutFirst, StopFirstInLine;
      ConsistentStep(s, steps[0]);
      Reached(Apply(s, steps[0]), steps[1..]);
    }
  }

  /** In clean runs no timeout is pending when a start runs, the timeout a start schedules is due
      before the next start, and a timeout that runs ends the very search that scheduled it. */
  lemma TimeoutsEndTheirOwnSearch(s: State, steps: seq<Step>)
    requires Initial(s) && ValidRun(s, steps) && CleanRun(s, steps)
    ensures var e := Run(s, steps);
      && (e.running == Some(StartItem) ==> e.timeout == Idle)
      && (e.running == Some(StartItem) && Clean(e, Finish) ==>
            var t := Apply(e, Finish);
            && (t.timeout != Idle <==> HasTimeout(e))
            && (t.timeout != Idle ==> t.timeout == Delayed(e.now + e.retry) && t.start == Delayed(e.now + e.interval)
                                      && t.timeoutOf == t.search == e.search + 1))
      && (e.queue != [] && e.queue[0] == StartItem ==> e.timeout == Idle)
      && (e.queue != [] && e.queue[0] == TimeoutItem ==> e.timeoutOf == e.search)
      && (e.running == Some(TimeoutItem) ==> e.timeoutOf == e.search)
  {
    AlwaysIff(s, steps);
    Reached(s, steps);
    if Run(s, steps).queue != [] { TailLaws(Run(s, steps).queue); }
  }

  /** In runs with timely fixes, stop work that is next or running ends the very search whose fix
      submitted it. */
  lemma StopsEndTheirOwnSearch(s: State, steps: seq<Step>)
    requires Initial(s) && ValidRun(s, steps) && TimelyRun(s, steps)
    ensures var e := Run(s, steps);
      && (e.queue != [] && e.queue[0] == StopItem ==> e.running != Some(StartItem) && e.stopOf == e.search)
      && (e.running == Some(StopItem) ==> e.stopOf == e.search)
  {
    AlwaysIff(s, steps);
    Reached(s, steps);
    if Run(s, steps).queue != [] { TailLaws(Run(s, steps).queue); }
  }

  // ------------------------------------------------------------------ periods

  /** A search is on or over, and the next start is waiting for the end of its interval. */
  predicate Waiting(s: State) {
    && s.interval > 0 && s.start == Delayed(s.now + s.interval)
    && s.timeout == (if HasTimeout(s) then Delayed(s.now + s.retry) else Idle)
    && s.queue == [] && s.running == None && !s.cancelled && (HasTimeout(s) ==> s.timeoutOf == s.search)
  }

  function Ticks(n: nat): (r: seq<Step>)
    ensures |r| == n
  {
    if n == 0 then [] else [Tick] + Ticks(n - 1)
  }

  lemma {:induction false} TicksPass(s: State, n: nat, rest: seq<Step>)
    requires s.start.Delayed? ==> s.now + n <= s.start.due
    requires s.timeout.Delayed? ==> s.now + n <= s.timeout.due
    ensures ValidRun(s, Ticks(n) + rest) <==> ValidRun(s.(now := s.now + n), rest)
    ensures ValidRun(s, Ticks(n) + rest) ==> Run(s, Ticks(n) + rest) == Run(s.(now := s.now + n), rest)
    decreases n
  {
    if n == 0 {
      assert Ticks(0) + rest == rest;
    } else {
      assert (Ticks(n) + rest)[1..] == Ticks(n - 1) + rest;
      TicksPass(s.(now := s.now + 1), n - 1, rest);
    }
  }

  /** One interval: the timeout, if there is one, and the next start, each when it is due. */
  function Period(interval: nat, retry: nat): seq<Step> {
    if 0 < retry < interval
    then Ticks(retry) + [ExpireTimeout, Take, Finish] + (Ticks(interval - retry) + [ExpireStart, Take, Finish])
    else Ticks(interval) + [ExpireStart, Take, Finish]
  }

  /** A due timeout ends its search and leaves the next start waiting. */
  lemma TimeoutRuns(s: State, rest: seq<Step>)
    requires s.timeout == Delayed(s.now) && s.queue == [] && s.running == None
    ensures var t := s.(timeout := Idle);
      && (ValidRun(s, [ExpireTimeout, Take, Finish] + rest) <==> ValidRun(t, rest))
      && (ValidRun(t, rest) ==> Run(s, [ExpireTimeout, Take, Finish] + rest) == Run(t, rest))
  {
    hide ValidRun, Run;
    var steps := [ExpireTimeout, Take, Finish] + rest;
    var s1 := Apply(s, ExpireTimeout);
    assert s1.queue == [TimeoutItem];
    var s2 := Apply(s1, Take);
    assert s2.queue == [];
    var s3 := Apply(s2, Finish);
    assert s3 == s.(timeout := Idle);
    assert steps[1..] == [Take, Finish] + rest && steps[1..][1..] == [Finish] + rest && steps[1..][1..][1..] == rest;
    Unroll(s, steps, s1);
    Unroll(s1, steps[1..], s2);
    Unroll(s2, steps[1..][1..], s3);
  }

  /** A due start runs the next search and schedules the one after it. */
  lemma StartRuns(s: State)
    requires s.start == Delayed(s.now) && s.interval > 0 && s.timeout == Idle && s.queue == []
    requires s.running == None && !s.cancelled
    ensures var steps := [ExpireStart, Take, Finish];
      ValidRun(s, steps) && Waiting(Run(s, steps)) && Run(s, steps).search == s.search + 1
      && Run(s, steps).now == s.now && Run(s, steps).interval == s.interval && Run(s, steps).retry == s.retry
  {
    hide ValidRun, Run;
    var steps := [ExpireStart, Take, Finish];
    var s1 := Apply(s, ExpireStart);
    assert s1.queue == [StartItem];
    var s2 := Apply(s1, Take);
    assert s2 == s.(start := Idle, running := Some(StartItem));
    var s3 := Apply(s2, Finish);
    assert steps[1..] == [Take, Finish] && steps[1..][1..] == [Finish];
    Unroll(s2, steps[1..][1..], s3);
    Unroll(s1, steps[1..], s2);
    Unroll(s, steps, s1);
  }

  /** One undisturbed interval leads from a search to the next, exactly interval seconds later. */
  lemma PeriodRepeats(s: State)
    requires Waiting(s)
    ensures var steps := Period(s.interval, s.retry);
      && ValidRun(s, steps)
      && var e := Run(s, steps);
         Waiting(e) && e.search == s.search + 1 && e.now == s.now + s.interval && e.interval == s.interval && e.retry == s.retry
  {
    hide ValidRun, Run;
    var last := [ExpireStart, Take, Finish];
    if HasTimeout(s) {
      var rest := Ticks(s.interval - s.retry) + last;
      var s1 := s.(now := s.now + s.retry);
      assert Period(s.interval, s.retry) == Ticks(s.retry) + ([ExpireTimeout, Take, Finish] + rest);
      TicksPass(s, s.retry, [ExpireTimeout, Take, Finish] + rest);
      TimeoutRuns(s1, rest);
      var s2 := s1.(timeout := Idle);
      TicksPass(s2, s.interval - s.retry, last);
      StartRuns(s2.(now := s.now + s.interval));
    } else {
      TicksPass(s, s.interval, last);
      StartRuns(s.(now := s.now + s.interval));
    }
  }

  // -------------------------------------------------------- the exceptions

  lemma Unroll(s: State, steps: seq<Step>, t: State)
    requires steps != [] && Enabled(s, steps[0]) && t == Apply(s, steps[0])
    ensures ValidRun(s, steps) <==> ValidRun(t, steps[1..])
    ensures ValidRun(s, steps) ==> Run(s, steps) == Run(t, steps[1..])
    ensures |steps| == 1 ==> ValidRun(s, steps) && Run(s, steps) == t
  {
  }

  /** The user has started a periodic mode: a search every 2 seconds, of at most 1 second each. */
  predicate Begun(s: State) {
    && s.mode == PeriodicFix && s.interval == 2 && s.retry == 1
    && s.start == Queued && s.queue == [StartItem] && s.timeout == Idle
    && s.running == None && !s.cancelled && !s.stopping
  }

  lemma Begins(s: State) returns (steps: seq<Step>)
    requires Initial(s)
    ensures ValidRun(s, steps) && Begun(Run(s, steps))
  {
    steps := [ChangeMode(PeriodicFix, 2, 1), BeginStart];
    var s1 := Apply(s, steps[0]);
    var s2 := Apply(s1, steps[1]);
    assert s2.queue == [StartItem];
    Unroll(s1, steps[1..], s2);
    Unroll(s, steps, s1);
  }

  /** A timeout is pending and nothing else. */
  predicate LeftBehind(s: State) {
    && s.mode == PeriodicFix && s.start == Idle && s.timeout == Delayed(s.now + 1) && s.queue == []
    && s.running == None && !s.cancelled && !s.stopping && s.timeoutOf == s.search
  }

  const HANDLER_DURING_STOP: seq<Step> := [BeginStop, Take, Finish, EndStop]
  const STOP_DURING_HANDLER: seq<Step> := [Take, BeginStop, EndStop, Finish]

  /** The start handler runs between the two cancels of gnss_stop: the timeout it schedules stays
      behind, alone. */
  lemma HandlerDuringStop(s: State)
    requires Begun(s)
    ensures ValidRun(s, HANDLER_DURING_STOP) && LeftBehind(Run(s, HANDLER_DURING_STOP))
  {
    var steps := HANDLER_DURING_STOP;
    assert Remove([StartItem], TimeoutItem) == [StartItem] by { assert [StartItem][1..] == []; }
    var s1 := Apply(s, steps[0]);
    var s2 := Apply(s1, steps[1]);
    assert s2.queue == [];
    var s3 := Apply(s2, steps[2]);
    var s4 := Apply(s3, steps[3]);
    Unroll(s3, steps[3..], s4);
    Unroll(s2, steps[2..], s3);
    Unroll(s1, steps[1..], s2);
    Unroll(s, steps, s1);
  }

  /** A whole gnss_stop falls into the modem call of the start handler: the handler cannot schedule
      the next start any more, but it does schedule its timeout. */
  lemma StopDuringHandler(s: State)
    requires Begun(s)
    ensures ValidRun(s, STOP_DURING_HANDLER) && LeftBehind(Run(s, STOP_DURING_HANDLER))
  {
    var steps := STOP_DURING_HANDLER;
    var s1 := Apply(s, steps[0]);
    assert s1.queue == [];
    var s2 := Apply(s1, steps[1]);
    var s3 := Apply(s2, steps[2]);
    var s4 := Apply(s3, steps[3]);
    Unroll(s3, steps[3..], s4);
    Unroll(s2, steps[2..], s3);
    Unroll(s1, steps[1..], s2);
    Unroll(s, steps, s1);
  }

  /** A timeout left behind does not keep the user from starting a search, here with five seconds... */
  lemma StartsBesideTimeout(s: State)
    requires LeftBehind(s)
    ensures var steps := [ChangeMode(PeriodicFix, 10, 5), BeginStart, Take, Finish];
      && ValidRun(s, steps)
      && Run(s, steps) == s.(interval := 10, retry := 5, start := Delayed(s.now + 10), search := s.search + 1)
  {
    hide ValidRun, Run;
    var steps := [ChangeMode(PeriodicFix, 10, 5), BeginStart, Take, Finish];
    var s1 := Apply(s, steps[0]);
    var s2 := Apply(s1, steps[1]);
    assert s2.queue == [StartItem];
    var s3 := Apply(s2, steps[2]);
    assert s3.queue == [];
    var s4 := Apply(s3, steps[3]);
    Unroll(s3, steps[3..], s4);
    Unroll(s2, steps[2..], s3);
    Unroll(s1, steps[1..], s2);
    Unroll(s, steps, s1);
  }

  /** ...and cuts that search short: it fires after one second. */
  lemma StaleTimeoutCutsShort(s: State)
    requires LeftBehind(s)
    ensures var steps := [ChangeMode(PeriodicFix, 10, 5), BeginStart, Take, Finish];
      && ValidRun(s, steps)
      && ValidRun(Run(s, steps), [Tick, ExpireTimeout])
      && var e := Run(Run(s, steps), [Tick, ExpireTimeout]);
         e.queue == [TimeoutItem] && e.timeoutOf < e.search && e.now == s.now + 1
  {
    hide ValidRun, Run;
    StartsBesideTimeout(s);
    var s4 := Run(s, [ChangeMode(PeriodicFix, 10, 5), BeginStart, Take, Finish]);
    var s5 := Apply(s4, Tick);
    var s6 := Apply(s5, ExpireTimeout);
    Unroll(s5, [Tick, ExpireTimeout][1..], s6);
    Unroll(s4, [Tick, ExpireTimeout], s5);
  }

  /** A gnss_start falls into the modem call of the start handler: the next start follows at once,
      with the timeout of the first still pending, which then ends the second. */
  lemma StartDuringHandler(s: State)
    requires Begun(s)
    ensures var steps := [Take, BeginStart, Finish, Take, Finish];
      && ValidRun(s, steps)
      && var e := Run(s, steps);
         e.timeout == Delayed(s.now + 1) && e.timeoutOf < e.search
  {
    var steps := [Take, BeginStart, Finish, Take, Finish];
    var s1 := Apply(s, steps[0]);
    assert s1.queue == [];
    var s2 := Apply(s1, steps[1]);
    assert s2.queue == [StartItem];
    var s3 := Apply(s2, steps[2]);
    var s4 := Apply(s3, steps[3]);
    var s5 := Apply(s4, steps[4]);
    Unroll(s4, steps[4..], s5);
    Unroll(s3, steps[3..], s4);
    Unroll(s2, steps[2..], s3);
    Unroll(s1, steps[1..], s2);
    Unroll(s, steps, s1);
  }

  /** A fix arrives when the next start is already queued: its stop work ends that next search. */
  lemma LateFixStopsNextSearch(s: State)
    requires Begun(s)
    ensures var steps := [FixEvent, Take, Finish, Take];
      && ValidRun(s, steps)
      && var e := Run(s, steps);
         e.running == Some(StopItem) && e.stopOf < e.search
  {
    var steps := [FixEvent, Take, Finish, Take];
    assert Remove([StartItem], TimeoutItem) == [StartItem] by { assert [StartItem][1..] == []; }
    var s1 := Apply(s, steps[0]);
    assert s1.queue == [StartItem, StopItem];
    var s2 := Apply(s1, steps[1]);
    assert s2.queue == [StopItem];
    var s3 := Apply(s2, steps[2]);
    var s4 := Apply(s3, steps[3]);
    Unroll(s3, steps[3..], s4);
    Unroll(s2, steps[2..], s3);
    Unroll(s1, steps[1..], s2);
    Unroll(s, steps, s1);
  }

  /** The first search of such a mode is on, with its timeout and the next start waiting. */
  predicate Searching(s: State) {
    && s.mode == PeriodicFix && s.interval == 2 && s.retry == 1
    && s.start == Delayed(s.now + 2) && s.timeout == Delayed(s.now + 1) && s.timeoutOf == s.search
    && s.queue == [] && s.running == None && !s.cancelled && !s.stopping
  }

  lemma Searches(s: State)
    requires Begun(s)
    ensures ValidRun(s, [Take, Finish]) && Searching(Run(s, [Take, Finish]))
  {
    var s1 := Apply(s, Take);
    assert s1.queue == [];
    var s2 := Apply(s1, Finish);
    Unroll(s1, [Take, Finish][1..], s2);
    Unroll(s, [Take, Finish], s1);
  }

  /** A mode change does not cancel what is scheduled, and gnss_stop does not in the new mode. The
      timeout of the periodic search ends one that is then started directly: it was due after one
      second, and this one was given no limit. */
  lemma ModeChangeKeepsTimeout(s: State)
    requires Searching(s)
    ensures var steps := [ChangeMode(Continuous, 0, 0), BeginStop, BeginStart, Tick, ExpireTimeout];
      && ValidRun(s, steps)
      && var e := Run(s, steps);
         e.queue == [TimeoutItem] && e.timeoutOf < e.search && e.now == s.now + 1
  {
    hide ValidRun, Run;
    var steps := [ChangeMode(Continuous, 0, 0), BeginStop, BeginStart, Tick, ExpireTimeout];
    var s1 := Apply(s, steps[0]);
    var s2 := Apply(s1, steps[1]);
    var s3 := Apply(s2, steps[2]);
    var s4 := Apply(s3, steps[3]);
    var s5 := Apply(s4, steps[4]);
    Unroll(s4, steps[4..], s5);
    Unroll(s3, steps[3..], s4);
    Unroll(s2, steps[2..], s3);
    Unroll(s1, steps[1..], s2);
    Unroll(s, steps, s1);
  }

  /** Nor does gnss_stop take back the stop work of a fix... */
  lemma StopWorkOutlivesStop(s: State)
    requires Searching(s)
    ensures var steps := [FixEvent, BeginStop, EndStop];
      && ValidRun(s, steps)
      && Run(s, steps) == s.(start := Idle, timeout := Idle, queue := [StopItem], stopOf := s.search)
  {
    hide ValidRun, Run;
    var steps := [FixEvent, BeginStop, EndStop];
    StopItemStays();
    var s1 := Apply(s, steps[0]);
    assert s1.queue == [StopItem];
    var s2 := Apply(s1, steps[1]);
    var s3 := Apply(s2, steps[2]);
    Unroll(s2, steps[2..], s3);
    Unroll(s1, steps[1..], s2);
    Unroll(s, steps, s1);
  }

  lemma StopItemStays()
    ensures Remove([StopItem], TimeoutItem) == Remove([StopItem], StartItem) == [StopItem]
  {
    assert [StopItem][1..] == [];
  }

  /** ...and that ends a search which is started directly after it. */
  lemma StopWorkEndsDirectSearch(s: State)
    requires s.queue == [StopItem] && s.running == None && !s.stopping && s.stopOf == s.search
    ensures var steps := [ChangeMode(Continuous, 0, 0), BeginStart, Take];
      && ValidRun(s, steps)
      && var e := Run(s, steps);
         e.running == Some(StopItem) && e.stopOf < e.search
  {
    hide ValidRun, Run;
    var steps := [ChangeMode(Continuous, 0, 0), BeginStart, Take];
    var s1 := Apply(s, steps[0]);
    var s2 := Apply(s1, steps[1]);
    var s3 := Apply(s2, steps[2]);
    Unroll(s2, steps[2..], s3);
    Unroll(s1, steps[1..], s2);
    Unroll(s, steps, s1);
  }
}
