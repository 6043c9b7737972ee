/** The handlers and the main loop body of samples/modem_battery/src/main.c over the globals they
    share, each proved to be the corresponding steps of BatteryModel and to keep the interval and the
    history as every run of that model has them. */
module Battery {
  import opened BatteryModel

  class Sample {
    const c: Config
    var mode: Mode
    var refreshInterval: int
    var stateSem: nat
    // History.
    ghost var log: seq<Event>

    ghost function View(): Shared
      reads this
    {
      Shared(mode, refreshInterval, log)
    }

    /** The interval belongs to the state, and the history justifies every entry to NormalHighBat. */
    ghost predicate Valid()
      reads this
    {
      LogInv(c, View()) && stateSem <= 1
    }

    constructor (c: Config)
      ensures Valid() && this.c == c && View() == Shared(Init, c.highInterval, []) && stateSem == 1
    {
      this.c, mode, refreshInterval, stateSem, log := c, Init, c.highInterval, 1, [];
    }

    /** state_update */
    method StateUpdate(to: Mode)
      modifies this`mode, this`refreshInterval, this`log
      ensures View() == Update(c, old(View()), to)
      ensures to != Init ==> mode == to && log == old(log) + [Enter(old(mode), to)]
      ensures old(Valid()) && (to != Init ==> old(MayEnter(c, View(), to))) ==> Valid()
    {
      if to != Init && LogInv(c, View()) && MayEnter(c, View(), to) {
        UpdateKeeps(c, View(), to);
      }
      if to != Init {
        log := log + [Enter(mode, to)];
      }
      match to {
        case PofWarn =>
          mode := PofWarn;
          refreshInterval := c.pofInterval;
        case RxOnlyLowBat =>
          mode := RxOnlyLowBat;
          refreshInterval := c.lowInterval;
        case RxOnlyHighBat =>
          mode := RxOnlyHighBat;
          refreshInterval := c.highInterval;
        case NormalLowBat =>
          mode := NormalLowBat;
        case NormalHighBat =>
          mode := NormalHighBat;
        case Init =>
      }
    }

    /** Lines 357-365: the main loop reads the voltage before it takes the semaphore. */
    method ReadVoltage(v: int)
      requires Valid()
      modifies this`log
      ensures Valid() && ReadingInv(c, View(), v)
      ensures View() == old(View()).(log := old(log) + [Reading(v)])
    {
      Snoc(c, log, Reading(v));
      log := log + [Reading(v)];
    }

    /** low_level_state_update; the take is one that has been granted. */
    method LowLevelStateUpdate(powerOffOk: bool)
      requires Valid() && stateSem > 0
      modifies this
      ensures Valid() && View() == LowActivity(c, old(View()), powerOffOk).0
      ensures mode == if old(mode) == NormalHighBat && powerOffOk then NormalLowBat else old(mode)
      ensures stateSem == if old(mode) == NormalHighBat && !powerOffOk then 0 else 1
      ensures forall v :: old(ReadingInv(c, View(), v)) ==> ReadingInv(c, View(), v)
    {
      stateSem := stateSem - 1;
      if mode == NormalHighBat {
        if !powerOffOk {
          return;
        }
        StateUpdate(NormalLowBat);
      }
      stateSem := Give(stateSem);
    }

    /** pofwarn_state_update */
    method PofwarnStateUpdate()
      requires Valid() && stateSem > 0
      modifies this
      ensures Valid() && View() == Update(c, old(View()), PofWarn) && stateSem == 1
      ensures mode == PofWarn && refreshInterval == c.pofInterval
      ensures forall v :: old(ReadingInv(c, View(), v)) ==> ReadingInv(c, View(), v)
    {
      stateSem := stateSem - 1;
      StateUpdate(PofWarn);
      stateSem := Give(stateSem);
    }

    method RunInitActivity(v: int, m: Modem) returns (ok: bool)
      requires Valid() && mode == Init && ReadingInv(c, View(), v)
      modifies this`mode, this`refreshInterval, this`log
      ensures Valid() && (View(), ok) == InitActivity(c, old(View()), v, m)
    {
      if v < c.lowLevel {
        if !m.funcModeOk {
          return false;
        }
        StateUpdate(RxOnlyLowBat);
      } else {
        if !m.funcModeOk {
          return false;
        }
        StateUpdate(NormalHighBat);
      }
      ok := m.connectOk;
    }

    method RunPofwarnActivity(v: int, m: Modem) returns (ok: bool)
      requires Valid() && mode == PofWarn
      modifies this`mode, this`refreshInterval, this`log
      ensures Valid() && (View(), ok) == PofWarnActivity(c, old(View()), v, m)
    {
      if v >= c.pofVoltage * 100 {
        if !m.funcModeOk {
          return false;
        }
        if !m.connectOk {
          return false;
        }
        StateUpdate(RxOnlyLowBat);
      }
      ok := true;
    }

    method RunRxOnlyHighBatActivity(m: Modem) returns (ok: bool)
      requires Valid() && mode == RxOnlyHighBat
      modifies this`mode, this`refreshInterval, this`log
      ensures Valid() && (View(), ok) == RxOnlyHighBatActivity(c, old(View()), m)
    {
      if !m.evalOk {
        return false;
      }
      log := log + [Energy(m.estimate)];
      if m.estimate >= 7 {
        if !m.funcModeOk {
          return false;
        }
        StateUpdate(NormalHighBat);
      }
      ok := true;
    }

    method RunNormalLowBatActivity(m: Modem) returns (ok: bool)
      requires Valid() && mode == NormalLowBat
      modifies this`mode, this`refreshInterval, this`log
      ensures Valid() && (View(), ok) == NormalLowBatActivity(c, old(View()), m)
    {
      if !m.funcModeOk {
        return false;
      }
      if !m.connectOk {
        return false;
      }
      StateUpdate(RxOnlyLowBat);
      ok := true;
    }

    /** Lines 367-421: the main loop body from taking to giving the semaphore. */
    method MainIteration(v: int, m: Modem) returns (ok: bool)
      requires Valid() && stateSem > 0 && ReadingInv(c, View(), v)
      modifies this
      ensures Valid() && (View(), ok) == MainActivity(c, old(View()), v, m)
      ensures stateSem == if ok then 1 else 0
      ensures refreshInterval == if mode == PofWarn then c.pofInterval else if mode == RxOnlyLowBat then c.lowInterval
                                 else c.highInterval
      ensures ok <==> CallsOk(c, old(mode), v, m)
      ensures old(mode) == Init && m.funcModeOk ==> mode == if v >= c.lowLevel then NormalHighBat else RxOnlyLowBat
      ensures old(mode) == PofWarn ==>
                mode == if v >= c.pofVoltage * 100 && m.funcModeOk && m.connectOk then RxOnlyLowBat else PofWarn
      ensures old(mode) == RxOnlyLowBat ==> mode == if v >= c.lowLevel then RxOnlyHighBat else RxOnlyLowBat
      ensures old(mode) == RxOnlyHighBat ==>
                mode == if m.evalOk && m.estimate >= 7 && m.funcModeOk then NormalHighBat else RxOnlyHighBat
      ensures old(mode) == NormalLowBat ==> mode == if m.funcModeOk && m.connectOk then RxOnlyLowBat else NormalLowBat
      ensures old(mode) == NormalHighBat || (old(mode) == Init && !m.funcModeOk) ==> mode == old(mode)
      ensures mode == NormalHighBat && mode != old(mode) ==>
                (old(mode) == Init && v >= c.lowLevel) || (old(mode) == RxOnlyHighBat && m.evalOk && m.estimate >= 7)
    {
      stateSem := stateSem - 1;
      ok := true;
      match mode {
        case Init =>
          ok := RunInitActivity(v, m);
        case PofWarn =>
          ok := RunPofwarnActivity(v, m);
        case RxOnlyLowBat =>
          if v >= c.lowLevel {
            StateUpdate(RxOnlyHighBat);
          }
        case RxOnlyHighBat =>
          ok := RunRxOnlyHighBatActivity(m);
        case NormalLowBat =>
          ok := RunNormalLowBatActivity(m);
        case NormalHighBat =>
          // ip_traffic
      }
      if !ok {
        return;
      }
      stateSem := Give(stateSem);
    }
  }
}
