/** The handlers and user operations of applications/modem_shell/src/gnss/gnss.c over their globals
    and work items. Each is the corresponding step of GnssModel, keeps queue, timers and running
    handler consistent, and says when a pending timeout still comes before the next start. */
module Gnss {
  import opened Wrappers
  import opened GnssModel

  class Scheduler {
    var now: nat
    var mode: OpMode
    var interval: nat
    var retry: nat
    var start: Work
    var timeout: Work
    var queue: seq<Item>
    var running: Option<Item>
    var cancelled: bool
    // History the properties speak about.
    ghost var stopping: bool
    ghost var search: nat
    ghost var timeoutOf: nat
    ghost var stopOf: nat

    ghost function View(): State
      reads this
    {
      State(now, mode, interval, retry, start, timeout, queue, running, cancelled, stopping, search, timeoutOf, stopOf)
    }

    ghost predicate Valid()
      reads this
    {
      Consistent(View())
    }

    constructor ()
      ensures Valid() && Initial(View()) && TimeoutFirst(View()) && StopFirstInLine(View()) && mode == Continuous
    {
      now, mode, interval, retry, start, timeout, queue := 0, Continuous, 0, 0, Idle, Idle, [];
      running, cancelled := None, false;
      stopping, search, timeoutOf, stopOf := false, 0, 0, 0;
    }

    /** Take an item out of the queue, front to back. */
    method Unqueue(x: Item)
      modifies this`queue
      ensures queue == Remove(old(queue), x)
    {
      var kept: seq<Item> := [];
      var rest := queue;
      while rest != []
        invariant Remove(old(queue), x) == kept + Remove(rest, x)
        decreases |rest|
      {
        ghost var more := Remove(rest[1..], x);
        assert Remove(rest, x) == if rest[0] == x then more else [rest[0]] + more;
        if rest[0] != x {
          kept := kept + [rest[0]];
        }
        rest := rest[1..];
      }
      queue := kept;
    }

    /** k_work_schedule of the start work. */
    method ScheduleStartWork(delay: nat)
      modifies this`start, this`queue
      ensures View() == ScheduleStart(old(View()), delay)
    {
      if start == Idle && !cancelled {
        if delay == 0 {
          start, queue := Queued, queue + [StartItem];
        } else {
          start := Delayed(now + delay);
        }
      }
    }

    /** k_work_schedule of the timeout work. */
    method ScheduleTimeoutWork(delay: nat)
      modifies this`timeout, this`queue, this`timeoutOf
      ensures View() == ScheduleTimeout(old(View()), delay)
    {
      if timeout == Idle {
        if delay == 0 {
          timeout, queue := Queued, queue + [TimeoutItem];
        } else {
          timeout := Delayed(now + delay);
        }
        timeoutOf := search;
      }
    }

    /** k_work_cancel_delayable of the start work. */
    method CancelStartWork()
      modifies this`start, this`queue, this`cancelled
      ensures View() == CancelStart(old(View()))
    {
      start := Idle;
      Unqueue(StartItem);
      cancelled := running == Some(StartItem);
    }

    /** k_work_cancel_delayable of the timeout work. */
    method CancelTimeoutWork()
      modifies this`timeout, this`queue
      ensures View() == CancelTimeout(old(View()))
    {
      timeout := Idle;
      Unqueue(TimeoutItem);
    }

    /** The work queue thread takes the next item and enters its handler. */
    method TakeNextItem()
      requires Valid() && running == None && queue != []
      modifies this
      ensures Valid() && View() == Apply(old(View()), Take)
      ensures running == Some(old(queue[0])) && [old(queue[0])] + queue == old(queue)
      ensures start == (if old(queue[0]) == StartItem then Idle else old(start))
      ensures timeout == (if old(queue[0]) == TimeoutItem then Idle else old(timeout))
      ensures old(TimeoutFirst(View())) ==> TimeoutFirst(View())
      ensures old(StopFirstInLine(View())) ==> StopFirstInLine(View())
      ensures old(TimeoutFirst(View())) && running == Some(StartItem) ==> timeout == Idle
      ensures old(TimeoutFirst(View())) && running == Some(TimeoutItem) ==> timeoutOf == search
      ensures old(StopFirstInLine(View())) && running == Some(StopItem) ==> stopOf == search
    {
      hide Consistent, TimeoutFirst, StopFirstInLine;
      StepKeeps(View(), Take);
      var item := queue[0];
      queue := queue[1..];
      running := Some(item);
      match item {
        case StartItem => start := Idle;
        case TimeoutItem => timeout := Idle;
        case StopItem =>
      }
      RunningSearch(View());
    }

    /** start_gnss_work_fn from its return from the modem (line 823) to its end. */
    method FinishStartGnssWorkFn()
      requires Valid() && running == Some(StartItem)
      modifies this
      ensures Valid() && View() == Apply(old(View()), Finish)
      ensures running == None && !cancelled && search == old(search) + 1
      ensures start == if old(start) != Idle || old(cancelled) then old(start)
                       else if interval == 0 then Queued else Delayed(now + interval)
      ensures timeout == if old(timeout) == Idle && 0 < retry < interval then Delayed(now + retry) else old(timeout)
      ensures timeout != old(timeout) ==> timeoutOf == search
      ensures old(TimeoutFirst(View())) ==>
                (TimeoutFirst(View()) <==> (0 < retry < interval ==> old(start) == Idle && !old(cancelled)))
      ensures old(StopFirstInLine(View())) ==> StopFirstInLine(View())
    {
      hide Consistent, TimeoutFirst, StopFirstInLine, FinishStart;
      StepKeeps(View(), Finish);
      FinishStartMeans(View());
      ScheduleNext();
    }

    /** Its statements. */
    method ScheduleNext()
      requires running == Some(StartItem)
      modifies this
      ensures View() == FinishStart(old(View()))
    {
      hide ScheduleStart, ScheduleTimeout;
      search := search + 1;
      ScheduleStartWork(interval);
      if retry > 0 && retry < interval {
        ScheduleTimeoutWork(retry);
      }
      running, cancelled := None, false;
    }

    /** stop_gnss_work_fn and handle_timeout_work_fn only stop the modem. */
    method FinishOtherWorkFn()
      requires Valid() && running.Some? && running != Some(StartItem)
      modifies this`running
      ensures Valid() && View() == Apply(old(View()), Finish) && running == None
      ensures old(TimeoutFirst(View())) ==> TimeoutFirst(View())
      ensures old(StopFirstInLine(View())) ==> StopFirstInLine(View())
    {
      hide Consistent, TimeoutFirst, StopFirstInLine;
      StepKeeps(View(), Finish);
      running := None;
    }

    /** The fix event case of gnss_event_handler. */
    method FixEventHandler()
      requires Valid()
      modifies this
      ensures Valid() && View() == Apply(old(View()), FixEvent)
      ensures mode != PeriodicFix ==> View() == old(View())
      ensures mode == PeriodicFix ==> timeout == Idle && start == old(start) && running == old(running)
      ensures mode == PeriodicFix ==> forall y :: y in queue <==> y == StopItem || (y in old(queue) && y != TimeoutItem)
      ensures mode == PeriodicFix && StopItem !in old(queue) ==> queue[|queue| - 1] == StopItem && stopOf == search
      ensures old(TimeoutFirst(View())) ==> TimeoutFirst(View())
      ensures old(StopFirstInLine(View())) ==>
                (StopFirstInLine(View()) <==>
                 (mode == PeriodicFix && StopItem !in old(queue) ==> start != Queued && running != Some(StartItem)))
    {
      hide Consistent, TimeoutFirst, StopFirstInLine;
      StepKeeps(View(), FixEvent);
      if mode == PeriodicFix {
        CancelTimeoutWork();
        if StopItem !in queue {
          queue := queue + [StopItem];
          stopOf := search;
        }
      }
      RemoveLaws(old(queue), TimeoutItem);
    }

    /** gnss_start */
    method GnssStart()
      requires Valid() && !stopping
      modifies this
      ensures Valid() && View() == Apply(old(View()), BeginStart)
      ensures mode == PeriodicFix && start != old(start) ==> start == Queued && queue == old(queue) + [StartItem]
      ensures mode == PeriodicFix ==> (start != old(start) <==> old(start) == Idle && !cancelled)
      ensures mode != PeriodicFix || start == old(start) ==> start == old(start) && queue == old(queue)
      ensures timeout == old(timeout) && running == old(running)
      ensures search == old(search) + if mode == PeriodicFix then 0 else 1
      ensures old(TimeoutFirst(View())) ==>
                (TimeoutFirst(View()) <==> (mode != PeriodicFix ==> timeout == Idle && running != Some(TimeoutItem)))
      ensures old(StopFirstInLine(View())) ==>
                (StopFirstInLine(View()) <==> (mode != PeriodicFix ==> StopItem !in queue && running != Some(StopItem)))
    {
      hide Consistent, TimeoutFirst, StopFirstInLine;
      StepKeeps(View(), BeginStart);
      if mode == PeriodicFix {
        ScheduleStartWork(0);
      } else {
        search := search + 1;
      }
    }

    /** gnss_stop, when no handler is taken or finishes in between. Nothing is pending afterwards,
        but a start handler that is inside its modem call will still finish. */
    method GnssStop()
      requires Valid() && !stopping
      modifies this
      ensures Valid()
      ensures var first := Apply(old(View()), BeginStop);
        View() == if old(mode) == PeriodicFix then Apply(first, EndStop) else first
      ensures mode == PeriodicFix ==> start == Idle && timeout == Idle && (running == Some(StartItem) <==> cancelled)
      ensures mode == PeriodicFix ==> forall y :: y in queue <==> y in old(queue) && y == StopItem
      ensures mode != PeriodicFix ==> View() == old(View())
      ensures old(TimeoutFirst(View())) ==> TimeoutFirst(View())
      ensures old(StopFirstInLine(View())) ==> StopFirstInLine(View())
    {
      hide Consistent, TimeoutFirst, StopFirstInLine;
      hide Fix, UserStart, FinishRunning, TakeFirst, SetMode, Remove;
      StepKeeps(View(), BeginStop);
      if mode == PeriodicFix {
        CancelTimeoutWork();
        stopping := true;
        RemoveLaws(old(queue), TimeoutItem);
        RemoveLaws(queue, StartItem);
        StepKeeps(View(), EndStop);
        CancelStartWork();
        stopping := false;
      }
    }

    /** gnss_set_periodic_fix_mode; whatever is scheduled stays scheduled. */
    method SetPeriodicFixMode(fixInterval: nat, fixRetry: nat)
      requires Valid() && !stopping
      modifies this`mode, this`interval, this`retry
      ensures Valid() && View() == Apply(old(View()), ChangeMode(PeriodicFix, fixInterval, fixRetry))
      ensures mode == PeriodicFix && interval == fixInterval && retry == fixRetry
      ensures old(TimeoutFirst(View())) ==> TimeoutFirst(View())
      ensures old(StopFirstInLine(View())) ==> StopFirstInLine(View())
    {
      hide Consistent, TimeoutFirst, StopFirstInLine;
      StepKeeps(View(), ChangeMode(PeriodicFix, fixInterval, fixRetry));
      mode := PeriodicFix;
      interval := fixInterval;
      retry := fixRetry;
    }

    /** The other three mode setters. */
    method SetOtherMode(m: OpMode)
      requires Valid() && !stopping && m != PeriodicFix
      modifies this`mode
      ensures Valid() && View() == Apply(old(View()), ChangeMode(m, interval, retry)) && mode == m
      ensures old(TimeoutFirst(View())) ==> TimeoutFirst(View())
      ensures old(StopFirstInLine(View())) ==> StopFirstInLine(View())
    {
      hide Consistent, TimeoutFirst, StopFirstInLine;
      StepKeeps(View(), ChangeMode(m, interval, retry));
      mode := m;
    }
  }

  /** What GnssModel proves of one step. */
  lemma StepKeeps(s: State, step: Step)
    requires Consistent(s) && Enabled(s, step)
    ensures Consistent(Apply(s, step))
    ensures TimeoutFirst(s) ==> (TimeoutFirst(Apply(s, step)) <==> Clean(s, step))
    ensures StopFirstInLine(s) ==> (StopFirstInLine(Apply(s, step)) <==> Timely(s, step))
  {
    hide Consistent, TimeoutFirst, StopFirstInLine;
    ConsistentStep(s, step);
    if TimeoutFirst(s) { TimeoutFirstStepIff(s, step); }
    if StopFirstInLine(s) { StopFirstStepIff(s, step); }
  }

  lemma RunningSearch(s: State)
    ensures TimeoutFirst(s) && s.running == Some(StartItem) ==> s.timeout == Idle
    ensures TimeoutFirst(s) && s.running == Some(TimeoutItem) ==> s.timeoutOf == s.search
    ensures StopFirstInLine(s) && s.running == Some(StopItem) ==> s.stopOf == s.search
  {
  }
}
