/** The battery sample samples/modem_battery/src/main.c as an interleaving of its main loop and its
    two work queue handlers under state_sem, with every modem call allowed to fail. */
module BatteryModel {
  datatype Mode = Init | PofWarn | RxOnlyLowBat | RxOnlyHighBat | NormalLowBat | NormalHighBat

  datatype Config = Config(highInterval: int, lowInterval: int, pofInterval: int, lowLevel: int, pofVoltage: int)

  /** What happens, in order: voltage readings, energy estimates, and state entries. */
  datatype Event = Reading(v: int) | Energy(estimate: int) | Enter(from: Mode, to: Mode)

  /** Results of the modem calls of one activity. */
  datatype Modem = Modem(funcModeOk: bool, connectOk: bool, evalOk: bool, estimate: int)

  /** The shared variables, the history, and whether every modem call succeeded. */
  datatype Shared = Shared(mode: Mode, interval: int, log: seq<Event>)

  /** state_update */
  function Update(c: Config, s: Shared, to: Mode): Shared {
    var interval := match to
      case PofWarn => c.pofInterval
      case RxOnlyLowBat => c.lowInterval
      case RxOnlyHighBat => c.highInterval
      case _ => s.interval;
    if to == Init then s else Shared(to, interval, s.log + [Enter(s.mode, to)])
  }

  /** init_activity; the second component is success. */
  function InitActivity(c: Config, s: Shared, v: int, m: Modem): (Shared, bool) {
    if !m.funcModeOk then (s, false)
    else (Update(c, s, if v < c.lowLevel then RxOnlyLowBat else NormalHighBat), m.connectOk)
  }

  /** pofwarn_activity */
  function PofWarnActivity(c: Config, s: Shared, v: int, m: Modem): (Shared, bool) {
    if v < c.pofVoltage * 100 then (s, true)
    else if !m.funcModeOk || !m.connectOk then (s, false)
    else (Update(c, s, RxOnlyLowBat), true)
  }

  /** rx_only_high_bat_activity */
  function RxOnlyHighBatActivity(c: Config, s: Shared, m: Modem): (Shared, bool) {
    if !m.evalOk then (s, false)
    else
      var s1 := s.(log := s.log + [Energy(m.estimate)]);
      if m.estimate < 7 then (s1, true)
      else if !m.funcModeOk then (s1, false)
      else (Update(c, s1, NormalHighBat), true)
  }

  /** normal_low_bat_activity */
  function NormalLowBatActivity(c: Config, s: Shared, m: Modem): (Shared, bool) {
    if !m.funcModeOk || !m.connectOk then (s, false) else (Update(c, s, RxOnlyLowBat), true)
  }

  /** The switch of the main loop. */
  function MainActivity(c: Config, s: Shared, v: int, m: Modem): (Shared, bool) {
    match s.mode
    case Init => InitActivity(c, s, v, m)
    case PofWarn => PofWarnActivity(c, s, v, m)
    case RxOnlyLowBat => (if v >= c.lowLevel then Update(c, s, RxOnlyHighBat) else s, true)
    case RxOnlyHighBat => RxOnlyHighBatActivity(c, s, m)
    case NormalLowBat => NormalLowBatActivity(c, s, m)
    case NormalHighBat => (s, true)
  }

  /** low_level_state_update between take and give. */
  function LowActivity(c: Config, s: Shared, powerOffOk: bool): (Shared, bool) {
    if s.mode != NormalHighBat then (s, true)
    else if !powerOffOk then (s, false)
    else (Update(c, s, NormalLowBat), true)
  }

  // ---------------------------------------------------------------- threads

  datatype Main = AtRead | AtTake(v: int) | Holding(v: int) | AtGive | Returned
  datatype Worker = Idle | Submitted | Owning | Releasing

  datatype State = State(sh: Shared, tokens: nat, main: Main, low: Worker, pof: Worker, leaked: nat)

  datatype Step =
    | MainRead(v: int, ok: bool) | MainTake | MainAct(m: Modem) | MainGive
    | LowSubmit | LowTake | LowAct(powerOffOk: bool) | LowGive
    | PofSubmit | PofTake | PofAct | PofGive

  predicate Enabled(s: State, step: Step) {
    match step
    case MainRead(_, _) => s.main.AtRead?
    case MainTake => s.main.AtTake? && s.tokens > 0
    case MainAct(_) => s.main.Holding?
    case MainGive => s.main.AtGive?
    case LowSubmit => s.low.Idle?
    case LowTake => s.low.Submitted? && s.tokens > 0
    case LowAct(_) => s.low.Owning?
    case LowGive => s.low.Releasing?
    case PofSubmit => s.pof.Idle?
    case PofTake => s.pof.Submitted? && s.tokens > 0
    case PofAct => s.pof.Owning?
    case PofGive => s.pof.Releasing?
  }

  /** k_sem_give on a semaphore with limit 1. */
  function Give(tokens: nat): nat {
    if tokens < 1 then tokens + 1 else tokens
  }

  function Apply(c: Config, s: State, step: Step): State
    requires Enabled(s, step)
  {
    match step
    case MainRead(v, ok) =>
      if ok then s.(main := AtTake(v), sh := s.sh.(log := s.sh.log + [Reading(v)])) else s.(main := Returned)
    case MainTake => s.(main := Holding(s.main.v), tokens := s.tokens - 1)
    case MainAct(m) =>
      var (sh, ok) := MainActivity(c, s.sh, s.main.v, m);
      if ok then s.(sh := sh, main := AtGive) else s.(sh := sh, main := Returned, leaked := s.leaked + 1)
    case MainGive => s.(main := AtRead, tokens := Give(s.tokens))
    case LowSubmit => s.(low := Submitted)
    case LowTake => s.(low := Owning, tokens := s.tokens - 1)
    case LowAct(powerOffOk) =>
      var (sh, ok) := LowActivity(c, s.sh, powerOffOk);
      if ok then s.(sh := sh, low := Releasing) else s.(sh := sh, low := Idle, leaked := s.leaked + 1)
    case LowGive => s.(low := Idle, tokens := Give(s.tokens))
    case PofSubmit => s.(pof := Submitted)
    case PofTake => s.(pof := Owning, tokens := s.tokens - 1)
    case PofAct => s.(pof := Releasing, sh := Update(c, s.sh, PofWarn))
    case PofGive => s.(pof := Idle, tokens := Give(s.tokens))
  }

  predicate Initial(c: Config, s: State) {
    s == State(Shared(Init, c.highInterval, []), 1, AtRead, Idle, Idle, 0)
  }

  predicate ValidRun(c: Config, s: State, steps: seq<Step>)
    decreases |steps|
  {
    steps == [] || (Enabled(s, steps[0]) && ValidRun(c, Apply(c, s, steps[0]), steps[1..]))
  }

  function Run(c: Config, s: State, steps: seq<Step>): State
    requires ValidRun(c, s, steps)
    decreases |steps|
  {
    if steps == [] then s else Run(c, Apply(c, s, steps[0]), steps[1..])
  }

  // -------------------------------------------------------------- properties

  /** The refresh interval of each state. */
  function IntervalOf(c: Config, m: Mode): int {
    match m
    case PofWarn => c.pofInterval
    case RxOnlyLowBat => c.lowInterval
    case _ => c.highInterval
  }

  function Holders(s: State): nat {
    (if s.main.Holding? || s.main.AtGive? then 1 else 0)
    + (if s.low.Owning? || s.low.Releasing? then 1 else 0)
    + (if s.pof.Owning? || s.pof.Releasing? then 1 else 0)
  }

  /** A reading at or above the low level since the last entry to PofWarn or NormalLowBat. */
  predicate GoodReading(c: Config, log: seq<Event>) {
    log != [] &&
    match log[|log| - 1]
    case Reading(v) => v >= c.lowLevel || GoodReading(c, log[..|log| - 1])
    case Enter(_, to) => to != PofWarn && to != NormalLowBat && GoodReading(c, log[..|log| - 1])
    case Energy(_) => GoodReading(c, log[..|log| - 1])
  }

  /** The states follow each other, from Init to m. */
  predicate Chained(log: seq<Event>, m: Mode) {
    if log == [] then m == Init
    else if log[|log| - 1].Enter? then log[|log| - 1].to == m && Chained(log[..|log| - 1], log[|log| - 1].from)
    else Chained(log[..|log| - 1], m)
  }

  /** Every entry to NormalHighBat in the history is justified by what comes before it. */
  predicate Justified(c: Config, log: seq<Event>) {
    log == [] ||
    (&& Justified(c, log[..|log| - 1])
     && (log[|log| - 1].Enter? && log[|log| - 1].to == NormalHighBat ==>
           EntryJustified(c, log[..|log| - 1], log[|log| - 1].from)))
  }

  predicate EntryJustified(c: Config, before: seq<Event>, from: Mode) {
    && GoodReading(c, before)
    && (from == Init
        || (from == RxOnlyHighBat && before[|before| - 1].Energy? && before[|before| - 1].estimate >= 7))
  }

  predicate LogInv(c: Config, sh: Shared) {
    && sh.interval == IntervalOf(c, sh.mode)
    && Chained(sh.log, sh.mode)
    && Justified(c, sh.log)
    && (sh.mode == RxOnlyHighBat ==> GoodReading(c, sh.log))
  }

  /** The voltage main still has to act on is a good reading, unless a warning came in since. */
  predicate ReadingInv(c: Config, sh: Shared, v: int) {
    v >= c.lowLevel && sh.mode != PofWarn && sh.mode != NormalLowBat ==> GoodReading(c, sh.log)
  }

  predicate Inv(c: Config, s: State) {
    && LogInv(c, s.sh)
    && (s.main.AtTake? || s.main.Holding? ==> ReadingInv(c, s.sh, s.main.v))
    && s.tokens + Holders(s) + s.leaked == 1
  }

  lemma Snoc(c: Config, log: seq<Event>, e: Event)
    ensures (log + [e])[..|log|] == log
    ensures GoodReading(c, log + [e]) <==>
            match e
            case Reading(v) => v >= c.lowLevel || GoodReading(c, log)
            case Enter(_, to) => to != PofWarn && to != NormalLowBat && GoodReading(c, log)
            case Energy(_) => GoodReading(c, log)
    ensures Justified(c, log + [e]) <==>
            Justified(c, log) && (e.Enter? && e.to == NormalHighBat ==> EntryJustified(c, log, e.from))
    ensures forall m :: Chained(log + [e], m) <==>
            if e.Enter? then e.to == m && Chained(log, e.from) else Chained(log, m)
  {
    assert (log + [e])[..|log|] == log;
  }

  /** What the history has to show before a state is entered: its justification, and for the states
      that set no interval of their own that the long one is in use. */
  predicate MayEnter(c: Config, sh: Shared, to: Mode) {
    && to != Init
    && (to == NormalHighBat ==> EntryJustified(c, sh.log, sh.mode))
    && (to == RxOnlyHighBat ==> GoodReading(c, sh.log))
    && (to == NormalHighBat || to == NormalLowBat ==> sh.interval == c.highInterval)
  }

  lemma UpdateKeeps(c: Config, sh: Shared, to: Mode)
    requires LogInv(c, sh) && MayEnter(c, sh, to)
    ensures LogInv(c, Update(c, sh, to))
    ensures to != PofWarn && to != NormalLowBat && GoodReading(c, sh.log) ==> GoodReading(c, Update(c, sh, to).log)
  {
    Snoc(c, sh.log, Enter(sh.mode, to));
  }

  lemma MainActKeeps(c: Config, sh: Shared, v: int, m: Modem)
    requires LogInv(c, sh) && ReadingInv(c, sh, v)
    ensures LogInv(c, MainActivity(c, sh, v, m).0)
  {
    hide GoodReading, Justified, Chained;
    match sh.mode
    case Init => UpdateInit(c, sh, v);
    case PofWarn => UpdateKeeps(c, sh, RxOnlyLowBat);
    case RxOnlyLowBat => if v >= c.lowLevel { UpdateKeeps(c, sh, RxOnlyHighBat); }
    case RxOnlyHighBat =>
      Snoc(c, sh.log, Energy(m.estimate));
      if m.evalOk && m.estimate >= 7 {
        UpdateKeeps(c, sh.(log := sh.log + [Energy(m.estimate)]), NormalHighBat);
      }
    case NormalLowBat => UpdateKeeps(c, sh, RxOnlyLowBat);
    case NormalHighBat =>
  }

  lemma UpdateInit(c: Config, sh: Shared, v: int)
    requires LogInv(c, sh) && ReadingInv(c, sh, v) && sh.mode == Init
    ensures LogInv(c, Update(c, sh, if v < c.lowLevel then RxOnlyLowBat else NormalHighBat))
  {
    UpdateKeeps(c, sh, if v < c.lowLevel then RxOnlyLowBat else NormalHighBat);
  }

  lemma InvStep(c: Config, s: State, step: Step)
    requires Inv(c, s) && Enabled(s, step)
    ensures Inv(c, Apply(c, s, step))
  {
    hide GoodReading, Justified, Chained, MainActivity;
    match step
    case MainRead(v, ok) => Snoc(c, s.sh.log, Reading(v));
    case MainAct(m) => MainActKeeps(c, s.sh, s.main.v, m);
    case LowAct(ok) => if s.sh.mode == NormalHighBat { UpdateKeeps(c, s.sh, NormalLowBat); }
    case PofAct => UpdateKeeps(c, s.sh, PofWarn);
    case _ =>
  }

  lemma {:induction false} InvRun(c: Config, s: State, steps: seq<Step>)
    requires Inv(c, s) && ValidRun(c, s, steps)
    ensures Inv(c, Run(c, s, steps))
    decreases |steps|
  {
    if steps != [] {
      InvStep(c, s, steps[0]);
      InvRun(c, Apply(c, s, steps[0]), steps[1..]);
    }
  }

  // ------------------------------------------------------------ main results

  /** In every run, whatever fails: the refresh interval is a fixed function of the state. */
  lemma IntervalFixed(c: Config, s: State, steps: seq<Step>)
    requires Initial(c, s) && ValidRun(c, s, steps)
    ensures var e := Run(c, s, steps);
      && (e.sh.mode == PofWarn ==> e.sh.interval == c.pofInterval)
      && (e.sh.mode == RxOnlyLowBat ==> e.sh.interval == c.lowInterval)
      && (e.sh.mode != PofWarn && e.sh.mode != RxOnlyLowBat ==> e.sh.interval == c.highInterval)
  {
    InvRun(c, s, steps);
  }

  lemma {:induction false} GoodReadingWitness(c: Config, log: seq<Event>) returns (j: nat)
    requires GoodReading(c, log)
    ensures j < |log| && log[j].Reading? && log[j].v >= c.lowLevel
    ensures forall k :: j < k < |log| && log[k].Enter? ==> log[k].to != PofWarn && log[k].to != NormalLowBat
    decreases |log|
  {
    var last := log[|log| - 1];
    if last.Reading? && last.v >= c.lowLevel {
      j := |log| - 1;
    } else {
      j := GoodReadingWitness(c, log[..|log| - 1]);
    }
  }

  lemma {:induction false} JustifiedPrefix(c: Config, log: seq<Event>, i: nat)
    requires Justified(c, log) && i < |log| && log[i].Enter? && log[i].to == NormalHighBat
    ensures EntryJustified(c, log[..i], log[i].from)
    decreases |log|
  {
    if i < |log| - 1 {
      assert log[..|log| - 1][..i] == log[..i];
      JustifiedPrefix(c, log[..|log| - 1], i);
    }
  }

  /** In every run, whatever fails: NormalHighBat is entered only from Init or from RxOnlyHighBat
      right after an energy estimate of at least 7, and always after a voltage reading at or
      above the low level with no entry to PofWarn or NormalLowBat since. */
  lemma NormalHighBatEntries(c: Config, s: State, steps: seq<Step>, i: nat) returns (j: nat)
    requires Initial(c, s) && ValidRun(c, s, steps)
    requires var log := Run(c, s, steps).sh.log; i < |log| && log[i].Enter? && log[i].to == NormalHighBat
    ensures var log := Run(c, s, steps).sh.log;
      && (log[i].from == Init
          || (log[i].from == RxOnlyHighBat && i > 0 && log[i - 1].Energy? && log[i - 1].estimate >= 7))
      && j < i && log[j].Reading? && log[j].v >= c.lowLevel
      && forall k :: j < k < i && log[k].Enter? ==> log[k].to != PofWarn && log[k].to != NormalLowBat
  {
    InvRun(c, s, steps);
    var log := Run(c, s, steps).sh.log;
    JustifiedPrefix(c, log, i);
    j := GoodReadingWitness(c, log[..i]);
  }

  lemma Unroll(c: Config, s: State, steps: seq<Step>, t: State)
    requires steps != [] && Enabled(s, steps[0]) && t == Apply(c, s, steps[0])
    ensures ValidRun(c, s, steps) <==> ValidRun(c, t, steps[1..])
    ensures ValidRun(c, s, steps) ==> Run(c, s, steps) == Run(c, t, steps[1..])
  {
  }

  /** The calls an activity makes in a mode succeed. */
  predicate CallsOk(c: Config, mode: Mode, v: int, m: Modem) {
    match mode
    case Init => m.funcModeOk && m.connectOk
    case PofWarn => v < c.pofVoltage * 100 || (m.funcModeOk && m.connectOk)
    case RxOnlyHighBat => m.evalOk && (m.estimate < 7 || m.funcModeOk)
    case NormalLowBat => m.funcModeOk && m.connectOk
    case _ => true
  }

  /** When the main loop leaves each state, and for which one. */
  lemma MainMoves(c: Config, sh: Shared, v: int, m: Modem)
    ensures var (t, ok) := MainActivity(c, sh, v, m);
      && (ok <==> CallsOk(c, sh.mode, v, m))
      && (sh.mode == Init && m.funcModeOk ==> t.mode == if v >= c.lowLevel then NormalHighBat else RxOnlyLowBat)
      && (sh.mode == PofWarn && ok && v >= c.pofVoltage * 100 ==> t.mode == RxOnlyLowBat)
      && (sh.mode == RxOnlyLowBat && v >= c.lowLevel ==> t.mode == RxOnlyHighBat)
      && (sh.mode == RxOnlyHighBat && ok && m.estimate >= 7 ==> t.mode == NormalHighBat)
      && (sh.mode == NormalLowBat && ok ==> t.mode == RxOnlyLowBat)
      && (t.mode != sh.mode ==>
            match sh.mode
            case Init => m.funcModeOk
            case PofWarn => ok && v >= c.pofVoltage * 100
            case RxOnlyLowBat => v >= c.lowLevel
            case RxOnlyHighBat => ok && m.estimate >= 7
            case NormalLowBat => ok
            case NormalHighBat => false)
  {
  }

  /** What the other steps do to the state: the low level handler leaves only NormalHighBat, once the
      modem is off, the warning enters PofWarn, and nothing else moves it. */
  lemma OthersMove(c: Config, s: State, step: Step)
    requires Enabled(s, step) && !step.MainAct?
    ensures Apply(c, s, step).sh.mode
         == if step.LowAct? && step.powerOffOk && s.sh.mode == NormalHighBat then NormalLowBat
            else if step.PofAct? then PofWarn
            else s.sh.mode
    ensures step.MainRead? && step.ok ==> Apply(c, s, step).sh.log == s.sh.log + [Reading(step.v)]
                                          && Apply(c, s, step).main == AtTake(step.v)
    ensures step.MainRead? && !step.ok ==> Apply(c, s, step).main == Returned
  {
  }

  /** One turn of the main loop, nobody else moving. */
  function Turn(v: int, m: Modem): seq<Step> {
    [MainRead(v, true), MainTake, MainAct(m), MainGive]
  }

  lemma TurnIs(c: Config, s: State, v: int, m: Modem)
    requires s.main.AtRead? && s.tokens == 1 && CallsOk(c, s.sh.mode, v, m)
    ensures ValidRun(c, s, Turn(v, m))
    ensures Run(c, s, Turn(v, m)) == s.(sh := MainActivity(c, s.sh.(log := s.sh.log + [Reading(v)]), v, m).0)
  {
    hide MainActivity;
    var sh1 := s.sh.(log := s.sh.log + [Reading(v)]);
    MainMoves(c, sh1, v, m);
    var steps := Turn(v, m);
    var s1 := Apply(c, s, steps[0]);
    var s2 := Apply(c, s1, steps[1]);
    var s3 := Apply(c, s2, steps[2]);
    var s4 := Apply(c, s3, steps[3]);
    Unroll(c, s3, steps[3..], s4);
    Unroll(c, s2, steps[2..], s3);
    Unroll(c, s1, steps[1..], s2);
    Unroll(c, s, steps, s1);
  }

  /** A battery at or above both levels, modem calls that succeed and an estimate of at least 7. */
  predicate Recovered(c: Config, v: int, m: Modem) {
    v >= c.lowLevel && v >= c.pofVoltage * 100 && m.funcModeOk && m.connectOk && m.evalOk && m.estimate >= 7
  }

  /** Recovery: with such a battery three turns of the main loop lead from any state to NormalHighBat,
      and further ones keep it there. */
  lemma {:induction false} Recovers(c: Config, s: State, v: int, m: Modem, turns: nat) returns (e: State)
    requires s.main.AtRead? && s.tokens == 1 && Recovered(c, v, m)
    ensures e.main.AtRead? && e.tokens == 1 && Reaches(c, s, v, m, turns, e)
    ensures turns >= 3 ==> e.sh.mode == NormalHighBat
    ensures turns >= 2 && s.sh.mode == RxOnlyLowBat ==> e.sh.mode == NormalHighBat
    ensures turns >= 1 && (s.sh.mode == RxOnlyHighBat || s.sh.mode == Init) ==> e.sh.mode == NormalHighBat
    ensures s.sh.mode == NormalHighBat ==> e.sh.mode == NormalHighBat
    decreases turns
  {
    if turns == 0 {
      e := s;
    } else {
      hide MainActivity;
      var sh1 := s.sh.(log := s.sh.log + [Reading(v)]);
      TurnIs(c, s, v, m);
      MainMoves(c, sh1, v, m);
      e := Recovers(c, Run(c, s, Turn(v, m)), v, m, turns - 1);
    }
  }

  /** e is what a number of turns of the main loop lead to. */
  predicate Reaches(c: Config, s: State, v: int, m: Modem, turns: nat, e: State)
    decreases turns
  {
    if turns == 0 then e == s
    else ValidRun(c, s, Turn(v, m)) && Reaches(c, Run(c, s, Turn(v, m)), v, m, turns - 1, e)
  }

  /** A modem call fails while the semaphore is held. */
  predicate Fails(c: Config, s: State, step: Step)
    requires Enabled(s, step)
  {
    match step
    case MainAct(m) => !MainActivity(c, s.sh, s.main.v, m).1
    case LowAct(ok) => !LowActivity(c, s.sh, ok).1
    case _ => false
  }

  predicate NoFailure(c: Config, s: State, steps: seq<Step>)
    requires ValidRun(c, s, steps)
    decreases |steps|
  {
    steps == [] || (!Fails(c, s, steps[0]) && NoFailure(c, Apply(c, s, steps[0]), steps[1..]))
  }

  lemma {:induction false} LeakedIff(c: Config, s: State, steps: seq<Step>)
    requires ValidRun(c, s, steps)
    ensures Run(c, s, steps).leaked >= s.leaked
    ensures Run(c, s, steps).leaked == s.leaked <==> NoFailure(c, s, steps)
    decreases |steps|
  {
    if steps != [] {
      hide MainActivity, LowActivity;
      LeakedIff(c, Apply(c, s, steps[0]), steps[1..]);
    }
  }

  /** Semaphore tokens plus holders is one exactly in the runs in which no modem call fails under
      the semaphore; otherwise it is zero from then on. */
  lemma SemaphoreIff(c: Config, s: State, steps: seq<Step>)
    requires Initial(c, s) && ValidRun(c, s, steps)
    ensures var e := Run(c, s, steps);
      && (e.tokens + Holders(e) == 1 <==> NoFailure(c, s, steps))
      && (e.tokens + Holders(e) == 0 <==> !NoFailure(c, s, steps))
  {
    InvRun(c, s, steps);
    LeakedIff(c, s, steps);
  }

  /** Such a run: the first function mode change fails, and no thread can ever take the semaphore. */
  lemma FailureLosesToken(c: Config, s: State)
    requires Initial(c, s)
    ensures var steps := [MainRead(0, true), MainTake, MainAct(Modem(false, false, false, 0))];
      && ValidRun(c, s, steps)
      && var e := Run(c, s, steps);
         e.tokens + Holders(e) == 0 && e.main.Returned? && !Enabled(e, LowTake) && !Enabled(e, PofTake)
  {
    var steps := [MainRead(0, true), MainTake, MainAct(Modem(false, false, false, 0))];
    var s1 := Apply(c, s, steps[0]);
    var s2 := Apply(c, s1, steps[1]);
    var s3 := Apply(c, s2, steps[2]);
    Unroll(c, s2, steps[2..], s3);
    Unroll(c, s1, steps[1..], s2);
    Unroll(c, s, steps, s1);
  }

  /** After such a failure the state and its refresh interval never change again. */
  lemma {:induction false} FrozenAfterFailure(c: Config, s: State, steps: seq<Step>)
    requires Inv(c, s) && s.leaked > 0 && ValidRun(c, s, steps)
    ensures Run(c, s, steps).sh.mode == s.sh.mode && Run(c, s, steps).sh.interval == s.sh.interval
    decreases |steps|
  {
    if steps != [] {
      var t := Apply(c, s, steps[0]);
      InvStep(c, s, steps[0]);
      FrozenAfterFailure(c, t, steps[1..]);
    }
  }
}
