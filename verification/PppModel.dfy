/** PPP control of applications/modem_shell/src/ppp as an interleaving of three threads: the
    controller (start, stop and restart, serialized with each other) and the downlink and uplink
    data threads. Every access to a shared variable is a step of its own. */
module PppModel {
  const NONE: int := -1
  const BUFF_SIZE: nat := 1500
  const SEM_LIMIT: nat := 2

  /** Where the controller stands. */
  datatype Ctrl =
    | Idle
    | StartCheck                        // if (ppp_up)
    | NetIf                             // ppp_ctrl_start_net_if
    | ZephyrCreate | ZephyrBind         // ppp_ctrl_zephyr_sckt_create
    | ModemCreate                       // ppp_ctrl_modem_sckt_create
    | Give1 | Give2                     // k_sem_give, twice
    | SetUp                             // ppp_up = true
    | Clear                             // failed start: ppp_up = false
    | StopBegin                         // ppp_ctrl_stop: ppp_up = false
    | Reset                             // k_sem_reset
    | CloseZephyr | CloseModem          // ppp_ctrl_close_sckts

  /** Where a data thread stands: before the first or second descriptor test, committed to
      k_sem_take, blocked in it, or handling data with both descriptors seen open. */
  datatype Thread = Check1 | Check2 | Commit | Blocked | Working

  datatype State = State(
    sem: nat, zfd: int, mfd: int, up: bool, mtu: nat,
    ctrl: Ctrl, restarting: bool,
    dl: Thread, ul: Thread)

  /** What the network interface set-up finds: no usable context, or a context with an IPv4 MTU
      (0 when unknown) and whether the interface comes up. */
  datatype NetIfResult = NoContext | Context(ipv4Mtu: nat, comesUp: bool)

  /** Results of the foreign calls a start makes; a socket is a descriptor or NONE. */
  datatype Env = Env(netIf: NetIfResult, zephyr: int, bindOk: bool, modem: int)

  predicate EnvOk(e: Env) {
    e.zephyr >= NONE && e.modem >= NONE
  }

  /** Lines 109-121. */
  function MtuAfter(mtu: nat, r: NetIfResult): nat {
    if r.NoContext? || r.ipv4Mtu == 0 then mtu
    else if r.ipv4Mtu <= BUFF_SIZE then r.ipv4Mtu
    else BUFF_SIZE
  }

  function Give(sem: nat): nat {
    if sem < SEM_LIMIT then sem + 1 else sem
  }

  /** k_sem_reset also aborts the takes that are blocked. */
  function Aborted(t: Thread): Thread {
    if t == Blocked then Check1 else t
  }

  function CtrlStep(s: State, e: Env): State
    requires s.ctrl != Idle
  {
    match s.ctrl
    case StartCheck => s.(ctrl := if s.up then Idle else NetIf, restarting := s.restarting && !s.up)
    case NetIf =>
      s.(mtu := MtuAfter(s.mtu, e.netIf),
         ctrl := if e.netIf.NoContext? || !e.netIf.comesUp then Clear else ZephyrCreate)
    case ZephyrCreate =>
      if s.zfd != NONE then s.(ctrl := ModemCreate)
      else s.(zfd := e.zephyr, ctrl := if e.zephyr < 0 then Clear else ZephyrBind)
    case ZephyrBind => s.(ctrl := if e.bindOk then ModemCreate else Clear)
    case ModemCreate =>
      if s.mfd != NONE then s.(ctrl := Give1)
      else s.(mfd := e.modem, ctrl := if e.modem < 0 then Clear else Give1)
    case Give1 => s.(sem := Give(s.sem), ctrl := Give2)
    case Give2 => s.(sem := Give(s.sem), ctrl := SetUp)
    case SetUp => s.(up := true, ctrl := Idle, restarting := false)
    case Clear => s.(up := false, ctrl := Reset, restarting := false)
    case StopBegin => s.(up := false, ctrl := Reset)
    case Reset => s.(sem := 0, dl := Aborted(s.dl), ul := Aborted(s.ul), ctrl := CloseZephyr)
    case CloseZephyr => s.(zfd := NONE, ctrl := CloseModem)
    case CloseModem => s.(mfd := NONE, ctrl := if s.restarting then StartCheck else Idle)
  }

  /** One step of a data thread that tests first and then second: its new place and the semaphore. */
  function ThreadStep(t: Thread, first: int, second: int, sem: nat): (Thread, nat) {
    match t
    case Check1 => (if first < 0 then Commit else Check2, sem)
    case Check2 => (if second < 0 then Commit else Working, sem)
    case Commit => if sem > 0 then (Check1, sem - 1) else (Blocked, sem)
    case Blocked => if sem > 0 then (Check1, sem - 1) else (Blocked, sem)
    case Working => (Check1, sem)
  }

  /** The downlink thread tests the modem descriptor first (ppp_mdm_data_rcv.c:56). */
  function DlStep(s: State): State {
    var (t, sem) := ThreadStep(s.dl, s.mfd, s.zfd, s.sem);
    s.(dl := t, sem := sem)
  }

  /** The uplink thread tests the Zephyr descriptor first (ppp_mdm_data_snd.c:58). */
  function UlStep(s: State): State {
    var (t, sem) := ThreadStep(s.ul, s.zfd, s.mfd, s.sem);
    s.(ul := t, sem := sem)
  }

  datatype Step = BeginStart | BeginStop | BeginRestart | Control(e: Env) | Downlink | Uplink

  predicate Enabled(s: State, step: Step) {
    match step
    case BeginStart => s.ctrl == Idle
    case BeginStop => s.ctrl == Idle
    case BeginRestart => s.ctrl == Idle
    case Control(e) => s.ctrl != Idle && EnvOk(e)
    case Downlink => true
    case Uplink => true
  }

  function Apply(s: State, step: Step): State
    requires Enabled(s, step)
  {
    match step
    case BeginStart => s.(ctrl := StartCheck, restarting := false)
    case BeginStop => s.(ctrl := StopBegin, restarting := false)
    case BeginRestart => s.(ctrl := StopBegin, restarting := true)
    case Control(e) => CtrlStep(s, e)
    case Downlink => DlStep(s)
    case Uplink => UlStep(s)
  }

  /** As the globals are defined and ppp_ctrl_init leaves them. */
  predicate Initial(s: State) {
    && s.sem == 0 && s.zfd == NONE && s.mfd == NONE && !s.up
    && s.ctrl == Idle && !s.restarting && s.dl == Check1 && s.ul == Check1
  }

  predicate ValidRun(s: State, steps: seq<Step>)
    decreases |steps|
  {
    steps == [] || (Enabled(s, steps[0]) && ValidRun(Apply(s, steps[0]), steps[1..]))
  }

  function Run(s: State, steps: seq<Step>): State
    requires ValidRun(s, steps)
    decreases |steps|
  {
    if steps == [] then s else Run(Apply(s, steps[0]), steps[1..])
  }

  // ------------------------------------------------------------- invariant

  function Waiting(t: Thread): nat {
    if t == Commit || t == Blocked then 1 else 0
  }

  /** Data threads committed to the semaphore. */
  function Committed(s: State): nat {
    Waiting(s.dl) + Waiting(s.ul)
  }

  predicate BothOpen(s: State) {
    s.zfd >= 0 && s.mfd >= 0
  }

  predicate BothNone(s: State) {
    s.zfd == NONE && s.mfd == NONE
  }

  predicate Settled(s: State) {
    if s.up then BothOpen(s) && Committed(s) <= s.sem else BothNone(s)
  }

  predicate Inv(s: State) {
    && s.sem <= SEM_LIMIT
    && match s.ctrl
       case Idle => Settled(s)
       case StartCheck => Settled(s)
       case StopBegin => Settled(s)
       case NetIf => !s.up && BothNone(s)
       case ZephyrCreate => !s.up && BothNone(s)
       case ZephyrBind => !s.up && s.zfd >= 0 && s.mfd == NONE
       case ModemCreate => !s.up && s.zfd >= 0 && s.mfd == NONE
       case Give1 => !s.up && BothOpen(s)
       case Give2 => !s.up && BothOpen(s) && Committed(s) <= s.sem + 1
       case SetUp => !s.up && BothOpen(s) && Committed(s) <= s.sem
       case Clear => !s.up
       case Reset => !s.up
       case CloseZephyr => !s.up
       case CloseModem => !s.up && s.zfd == NONE
  }

  lemma InvStep(s: State, step: Step)
    requires Inv(s) && Enabled(s, step)
    ensures Inv(Apply(s, step))
  {
  }

  lemma {:induction false} InvRun(s: State, steps: seq<Step>)
    requires Inv(s) && ValidRun(s, steps)
    ensures Inv(Run(s, steps))
    decreases |steps|
  {
    if steps != [] {
      InvStep(s, steps[0]);
      InvRun(Apply(s, steps[0]), steps[1..]);
    }
  }

  lemma {:induction false} MtuRun(s: State, steps: seq<Step>)
    requires s.mtu <= BUFF_SIZE && ValidRun(s, steps)
    ensures Run(s, steps).mtu <= BUFF_SIZE
    decreases |steps|
  {
    if steps != [] {
      MtuRun(Apply(s, steps[0]), steps[1..]);
    }
  }

  // ------------------------------------------------------------ main results

  /** No lost wake-up: in every interleaving, while ppp_up is set there is a semaphore token for
      every data thread committed to waiting, so each of them has a step that wakes it. */
  lemma NoLostWakeup(s: State, steps: seq<Step>)
    requires Initial(s) && ValidRun(s, steps)
    ensures var e := Run(s, steps);
      && (e.up ==> BothOpen(e) && Committed(e) <= e.sem)
      && (e.up && Waiting(e.dl) == 1 ==> Waiting(DlStep(e).dl) == 0)
      && (e.up && Waiting(e.ul) == 1 ==> Waiting(UlStep(e).ul) == 0)
  {
    InvRun(s, steps);
  }

  /** Between operations ppp_up holds exactly when both descriptors are open, and otherwise both
      are NONE: a failed start leaves nothing half open. */
  lemma UpIffOpen(s: State, steps: seq<Step>)
    requires Initial(s) && ValidRun(s, steps)
    ensures var e := Run(s, steps);
      e.ctrl == Idle ==> (e.up <==> BothOpen(e)) && (!e.up <==> BothNone(e))
  {
    InvRun(s, steps);
  }

  /** The MTU assertions of both data threads hold in every run. */
  lemma MtuAssertsHold(s: State, steps: seq<Step>)
    requires Initial(s) && s.mtu <= BUFF_SIZE && ValidRun(s, steps)
    ensures Run(s, steps).mtu <= BUFF_SIZE
  {
    MtuRun(s, steps);
  }

  /** A data thread stands at its MTU assertion. */
  predicate AtAssertion(s: State) {
    s.dl == Working || s.ul == Working
  }

  /** No run reaches an MTU assertion that fails, exactly when the configured MTU is at most 1500:
      beyond that, a context that reports no MTU leads a thread to it. */
  lemma MtuAssertsHoldIff(s: State)
    requires Initial(s)
    ensures (forall steps :: ValidRun(s, steps) && AtAssertion(Run(s, steps)) ==> Run(s, steps).mtu <= BUFF_SIZE)
            <==> s.mtu <= BUFF_SIZE
  {
    if s.mtu <= BUFF_SIZE {
      forall steps | ValidRun(s, steps) ensures Run(s, steps).mtu <= BUFF_SIZE { MtuRun(s, steps); }
    } else {
      UnknownMtuRun(s);
    }
  }

  /** A start on a context that reports no MTU, and the downlink thread's first data. */
  const UNKNOWN_MTU_RUN: seq<Step> :=
    var e := Control(Env(Context(0, true), 1, true, 2));
    [BeginStart, e, e, e, e, e, Downlink, Downlink]

  lemma UnknownMtuRun(s: State)
    requires Initial(s)
    ensures ValidRun(s, UNKNOWN_MTU_RUN)
    ensures AtAssertion(Run(s, UNKNOWN_MTU_RUN)) && Run(s, UNKNOWN_MTU_RUN).mtu == s.mtu
  {
    var steps := UNKNOWN_MTU_RUN;
    var s1 := Apply(s, steps[0]);
    var s2 := Apply(s1, steps[1]);
    var s3 := Apply(s2, steps[2]);
    var s4 := Apply(s3, steps[3]);
    var s5 := Apply(s4, steps[4]);
    var s6 := Apply(s5, steps[5]);
    var s7 := Apply(s6, steps[6]);
    var s8 := Apply(s7, steps[7]);
    assert s8.dl == Working && s8.mtu == s.mtu;
    Unroll(s7, steps[7..], s8);
    Unroll(s6, steps[6..], s7);
    Unroll(s5, steps[5..], s6);
    Unroll(s4, steps[4..], s5);
    Unroll(s3, steps[3..], s4);
    Unroll(s2, steps[2..], s3);
    Unroll(s1, steps[1..], s2);
    Unroll(s, steps, s1);
  }

  lemma Unroll(s: State, steps: seq<Step>, t: State)
    requires steps != [] && Enabled(s, steps[0]) && t == Apply(s, steps[0])
    ensures ValidRun(s, steps) <==> ValidRun(t, steps[1..])
    ensures ValidRun(s, steps) ==> Run(s, steps) == Run(t, steps[1..])
  {
  }

  /** Own steps a data thread is away from its data while both descriptors are open. */
  function Distance(t: Thread): nat {
    match t
    case Working => 0
    case Check2 => 1
    case Check1 => 2
    case Commit => 3
    case Blocked => 3
  }

  function ThreadOf(s: State, own: Step): Thread {
    if own == Downlink then s.dl else s.ul
  }

  function Count(steps: seq<Step>, own: Step): nat {
    if steps == [] then 0 else (if steps[0] == own then 1 else 0) + Count(steps[1..], own)
  }

  predicate DataSteps(steps: seq<Step>) {
    forall i :: 0 <= i < |steps| ==> steps[i] == Downlink || steps[i] == Uplink
  }

  lemma {:induction false} DataStepsValid(s: State, steps: seq<Step>)
    requires DataSteps(steps)
    ensures ValidRun(s, steps)
    decreases |steps|
  {
    if steps != [] {
      DataStepsValid(Apply(s, steps[0]), steps[1..]);
    }
  }

  /** Once a start has completed, a data thread reaches its data with at most three steps of its
      own, wherever it stood, however long it had been blocked and whatever the other does. */
  lemma {:induction false} ReachesData(s: State, steps: seq<Step>, own: Step) returns (k: nat)
    requires Inv(s) && s.up && s.ctrl == Idle
    requires DataSteps(steps) && (own == Downlink || own == Uplink)
    requires Count(steps, own) >= Distance(ThreadOf(s, own))
    ensures k <= |steps| && ValidRun(s, steps[..k]) && ThreadOf(Run(s, steps[..k]), own) == Working
    decreases |steps|
  {
    if ThreadOf(s, own) == Working {
      k := 0;
    } else {
      var t := Apply(s, steps[0]);
      InvStep(s, steps[0]);
      var j := ReachesData(t, steps[1..], own);
      k := j + 1;
      assert steps[..k][1..] == steps[1..][..j];
    }
  }

  /** What each data thread goes through: it handles data only when its two tests, in its own order,
      have found both descriptors open, commits to waiting as soon as one finds its descriptor
      closed, and takes one token each time it goes back to testing. */
  lemma ThreadsTest(s: State)
    ensures var t := DlStep(s);
      && (s.dl == Check1 ==> t.dl == if s.mfd >= 0 then Check2 else Commit)
      && (s.dl == Check2 ==> t.dl == if s.zfd >= 0 then Working else Commit)
      && (s.dl == Working ==> t.dl == Check1)
      && (Waiting(s.dl) == 1 ==> t.dl == if s.sem > 0 then Check1 else Blocked)
      && t.sem == s.sem - (if Waiting(s.dl) == 1 && s.sem > 0 then 1 else 0)
      && t == s.(dl := t.dl, sem := t.sem)
    ensures var t := UlStep(s);
      && (s.ul == Check1 ==> t.ul == if s.zfd >= 0 then Check2 else Commit)
      && (s.ul == Check2 ==> t.ul == if s.mfd >= 0 then Working else Commit)
      && (s.ul == Working ==> t.ul == Check1)
      && (Waiting(s.ul) == 1 ==> t.ul == if s.sem > 0 then Check1 else Blocked)
      && t.sem == s.sem - (if Waiting(s.ul) == 1 && s.sem > 0 then 1 else 0)
      && t == s.(ul := t.ul, sem := t.sem)
  {
  }

  /** Closing the sockets starts by taking all tokens back and waking whoever waits. */
  lemma ResetWakes(s: State, e: Env)
    requires s.ctrl == Reset
    ensures var t := CtrlStep(s, e);
      t.sem == 0 && t.dl != Blocked && t.ul != Blocked && t.zfd == s.zfd && t.mfd == s.mfd
      && (s.dl != Blocked ==> t.dl == s.dl) && (s.ul != Blocked ==> t.ul == s.ul)
  {
  }

  // ------------------------------------------------- the controller on its own

  /** Steps left until the controller is idle. */
  function Rank(s: State): nat {
    match s.ctrl
    case Idle => 0
    case CloseModem => if s.restarting then 14 else 1
    case CloseZephyr => if s.restarting then 15 else 2
    case Reset => if s.restarting then 16 else 3
    case Clear => 4
    case SetUp => 5
    case Give2 => 6
    case Give1 => 7
    case ModemCreate => 8
    case ZephyrBind => 9
    case ZephyrCreate => 10
    case NetIf => 11
    case StartCheck => 12
    case StopBegin => 17
  }

  /** The controller running to completion with no other thread moving in between. */
  function Alone(s: State, e: Env): State
    decreases Rank(s)
  {
    if s.ctrl == Idle then s else Alone(CtrlStep(s, e), e)
  }

  lemma AloneStep(s: State, e: Env)
    requires s.ctrl != Idle
    ensures Alone(s, e) == Alone(CtrlStep(s, e), e)
  {
  }

  /** Every call a start makes succeeds. */
  predicate StartOk(e: Env) {
    e.netIf.Context? && e.netIf.comesUp && e.zephyr >= 0 && e.bindOk && e.modem >= 0
  }

  lemma AloneIdle(s: State, e: Env)
    requires s.ctrl == Idle
    ensures Alone(s, e) == s
  {
  }

  /** A start, left alone: it is up afterwards exactly when it was before or every call succeeds, on the
      new descriptors, and otherwise closed. */
  lemma StartOpens(s: State, e: Env)
    requires Inv(s) && s.ctrl == StartCheck && EnvOk(e)
    ensures var t := Alone(s, e);
      && t.ctrl == Idle && (t.up <==> s.up || StartOk(e))
      && (t.up && !s.up ==> t.zfd == e.zephyr && t.mfd == e.modem && t.sem == 2)
      && (t.up <==> BothOpen(t)) && (!t.up <==> BothNone(t))
  {
    hide Alone;
    AloneStep(s, e);
    var s1 := CtrlStep(s, e);
    if s.up {
      AloneIdle(s1, e);
    } else {
      AloneStep(s1, e);
      var s2 := CtrlStep(s1, e);
      if s2.ctrl == ZephyrCreate {
        SocketsOpen(s2, e);
      } else {
        Closes(s2, e);
      }
    }
  }

  lemma SocketsOpen(s: State, e: Env)
    requires s.ctrl == ZephyrCreate && !s.up && BothNone(s) && s.sem <= SEM_LIMIT && EnvOk(e)
    ensures var t := Alone(s, e);
      && t.ctrl == Idle && (t.up <==> e.zephyr >= 0 && e.bindOk && e.modem >= 0)
      && (t.up ==> t.zfd == e.zephyr && t.mfd == e.modem && t.sem == 2)
      && (!t.up ==> BothNone(t))
  {
    hide Alone;
    AloneStep(s, e);
    var s1 := CtrlStep(s, e);
    if e.zephyr >= 0 {
      AloneStep(s1, e);
      var s2 := CtrlStep(s1, e);
      if e.bindOk {
        AloneStep(s2, e);
        var s3 := CtrlStep(s2, e);
        if e.modem >= 0 {
          AloneStep(s3, e);
          var s4 := CtrlStep(s3, e);
          AloneStep(s4, e);
          var s5 := CtrlStep(s4, e);
          AloneStep(s5, e);
          AloneIdle(CtrlStep(s5, e), e);
        } else {
          Closes(s3, e);
        }
      } else {
        Closes(s2, e);
      }
    } else {
      Closes(s1, e);
    }
  }

  /** From a failed start, or from a stop: down and closed. */
  lemma Closes(s: State, e: Env)
    requires s.ctrl == Clear || s.ctrl == StopBegin
    ensures var c := State(0, NONE, NONE, false, s.mtu, Idle, false, Aborted(s.dl), Aborted(s.ul));
      Alone(s, e) == if s.ctrl == StopBegin && s.restarting then Alone(c.(ctrl := StartCheck, restarting := true), e) else c
  {
    hide Alone;
    AloneStep(s, e);
    var s1 := CtrlStep(s, e);
    AloneStep(s1, e);
    var s2 := CtrlStep(s1, e);
    AloneStep(s2, e);
    var s3 := CtrlStep(s2, e);
    AloneStep(s3, e);
    var s4 := CtrlStep(s3, e);
    if s4.ctrl == Idle {
      AloneIdle(s4, e);
    }
  }

  /** The three operations, each left alone from where it begins. */
  lemma OperationsAlone(s: State, e: Env)
    requires Inv(s) && s.ctrl == Idle && EnvOk(e)
    ensures var t := Alone(Apply(s, BeginStart), e); t.ctrl == Idle && (t.up <==> s.up || StartOk(e))
    ensures var t := Alone(Apply(s, BeginStop), e); t.ctrl == Idle && !t.up && BothNone(t) && t.sem == 0
    ensures var t := Alone(Apply(s, BeginRestart), e); t.ctrl == Idle && (t.up <==> StartOk(e)) && (!t.up ==> BothNone(t))
  {
    hide Alone;
    StartOpens(Apply(s, BeginStart), e);
    Closes(Apply(s, BeginStop), e);
    var r := Apply(s, BeginRestart);
    Closes(r, e);
    StartOpens(State(0, NONE, NONE, false, r.mtu, StartCheck, true, Aborted(r.dl), Aborted(r.ul)), e);
  }
}
