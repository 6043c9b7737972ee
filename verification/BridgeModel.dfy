/** The UART bridge of applications/ifmcu_firmware/src/ifmcu_uart_bridge.c as a step system.

    Interrupt handlers are atomic steps; what a device delivers or accepts, the contiguous
    part of a ring that a claim yields, and the moments of suspend and resume are arbitrary.
    The class in UartBridge.dfy implements these steps over arrays. */
module BridgeModel {
  import opened Bytes

  /** Device index in the peers property. */
  type Dev = d: int | 0 <= d < 2

  function Peer(d: Dev): Dev {
    1 - d
  }

  /** One device: the ring its received bytes go to, its interrupt enables, and the history of
      bytes taken from it and given to it. */
  datatype Port = Port(ring: seq<byte>, paused: bool, rxOn: bool, txOn: bool,
                       taken: seq<byte>, given: seq<byte>)

  datatype State = State(p0: Port, p1: Port, active: bool) {
    function At(d: Dev): Port {
      if d == 0 then p0 else p1
    }

    /** The state with the port of d and the port of its peer replaced. */
    function With(d: Dev, ports: (Port, Port)): State {
      if d == 0 then this.(p0 := ports.0, p1 := ports.1) else this.(p1 := ports.0, p0 := ports.1)
    }
  }

  /** uart_fifo_read: an error, or the bytes on offer, of which as many as fit are read. */
  datatype Read = ReadError | ReadBytes(avail: seq<byte>)

  /** uart_fifo_fill: an error, or how many of the offered bytes the device takes at most. */
  datatype Write = WriteError | Accepts(n: nat)

  function Min(a: nat, b: nat): nat {
    if a < b then a else b
  }

  function Threshold(size: nat): nat {
    size / 3
  }

  function Space(size: nat, p: Port): int {
    size - |p.ring|
  }

  /** uart_bridge_handle_rx, where ring_buf_put_claim yields claim bytes. */
  function AfterRx(size: nat, own: Port, peer: Port, claim: nat, read: Read): (Port, Port) {
    if Space(size, own) < Threshold(size) then
      (own.(rxOn := false, paused := true), peer)
    else if claim == 0 then
      (own, peer)
    else match read
      case ReadError => (own, peer)
      case ReadBytes(avail) =>
        var got := avail[..Min(|avail|, claim)];
        (own.(ring := own.ring + got, taken := own.taken + got), peer.(txOn := true))
  }

  /** uart_bridge_handle_tx, where ring_buf_get_claim on the peer's ring yields claim bytes. */
  function AfterTx(size: nat, own: Port, peer: Port, claim: nat, write: Write): (Port, Port)
    requires claim <= |peer.ring|
  {
    if claim == 0 then
      (own.(txOn := false), peer)
    else match write
      case WriteError => (own, peer)
      case Accepts(n) =>
        var k := Min(n, claim);
        var drained := peer.(ring := peer.ring[k..]);
        var resumed := if peer.paused && Space(size, drained) > Threshold(size)
                       then drained.(rxOn := true, paused := false) else drained;
        (own.(given := own.given + peer.ring[..k]), resumed)
  }

  function AfterSuspend(s: State): State {
    State(s.p0.(rxOn := false), s.p1.(rxOn := false), false)
  }

  function AfterResume(s: State): State {
    State(s.p0.(rxOn := true), s.p1.(rxOn := true), true)
  }

  datatype Step = Rx(d: Dev, claim: nat, read: Read)
                | Tx(d: Dev, claim: nat, write: Write)
                | Suspend
                | Resume

  /** A claim yields nothing only when there is nothing to claim. */
  predicate ClaimOk(claim: nat, limit: int) {
    claim <= limit && (claim == 0 <==> limit == 0)
  }

  /** Handlers are installed only while the bridge is active. */
  predicate Enabled(size: nat, s: State, step: Step) {
    match step
    case Rx(d, claim, _) => s.active && ClaimOk(claim, Space(size, s.At(d)))
    case Tx(d, claim, _) => s.active && ClaimOk(claim, |s.At(Peer(d)).ring|)
    case Suspend => true
    case Resume => true
  }

  function Apply(size: nat, s: State, step: Step): State
    requires Enabled(size, s, step)
  {
    match step
    case Rx(d, claim, read) => s.With(d, AfterRx(size, s.At(d), s.At(Peer(d)), claim, read))
    case Tx(d, claim, write) => s.With(d, AfterTx(size, s.At(d), s.At(Peer(d)), claim, write))
    case Suspend => AfterSuspend(s)
    case Resume => AfterResume(s)
  }

  predicate Initial(s: State) {
    && !s.active
    && s.p0.ring == s.p1.ring == s.p0.taken == s.p1.taken == s.p0.given == s.p1.given == []
    && !s.p0.paused && !s.p1.paused
  }

  predicate ValidRun(size: nat, s: State, steps: seq<Step>)
    decreases |steps|
  {
    steps == [] || (Enabled(size, s, steps[0]) && ValidRun(size, Apply(size, s, steps[0]), steps[1..]))
  }

  function Run(size: nat, s: State, steps: seq<Step>): State
    requires ValidRun(size, s, steps)
    decreases |steps|
  {
    if steps == [] then s else Run(size, Apply(size, s, steps[0]), steps[1..])
  }

  // ------------------------------------------------------------- invariant

  predicate PortInv(size: nat, active: bool, own: Port, peer: Port) {
    && |own.ring| <= size
    && own.taken == peer.given + own.ring
    && (own.ring != [] ==> peer.txOn)
    && (active && !own.rxOn ==> own.paused && Space(size, own) <= Threshold(size))
  }

  predicate Inv(size: nat, s: State) {
    PortInv(size, s.active, s.p0, s.p1) && PortInv(size, s.active, s.p1, s.p0)
  }

  lemma RxKeeps(size: nat, own: Port, peer: Port, claim: nat, read: Read)
    requires PortInv(size, true, own, peer) && PortInv(size, true, peer, own)
    requires ClaimOk(claim, Space(size, own))
    ensures var (o, p) := AfterRx(size, own, peer, claim, read);
      PortInv(size, true, o, p) && PortInv(size, true, p, o)
  {
    if read.ReadBytes? {
      var got := read.avail[..Min(|read.avail|, claim)];
      assert peer.given + (own.ring + got) == own.taken + got;
    }
  }

  lemma TxKeeps(size: nat, own: Port, peer: Port, claim: nat, write: Write)
    requires PortInv(size, true, own, peer) && PortInv(size, true, peer, own)
    requires ClaimOk(claim, |peer.ring|)
    ensures var (o, p) := AfterTx(size, own, peer, claim, write);
      PortInv(size, true, o, p) && PortInv(size, true, p, o)
  {
    if write.Accepts? {
      var k := Min(write.n, claim);
      assert (own.given + peer.ring[..k]) + peer.ring[k..] == peer.taken;
    }
  }

  lemma InvStep(size: nat, s: State, step: Step)
    requires Inv(size, s) && Enabled(size, s, step)
    ensures Inv(size, Apply(size, s, step))
  {
    match step
    case Rx(d, claim, read) => hide PortInv, AfterRx; RxKeeps(size, s.At(d), s.At(Peer(d)), claim, read);
    case Tx(d, claim, write) => hide PortInv, AfterTx; TxKeeps(size, s.At(d), s.At(Peer(d)), claim, write);
    case Suspend =>
    case Resume =>
  }

  lemma {:induction false} InvRun(size: nat, s: State, steps: seq<Step>)
    requires Inv(size, s) && ValidRun(size, s, steps)
    ensures Inv(size, Run(size, s, steps))
    decreases |steps|
  {
    if steps != [] {
      InvStep(size, s, steps[0]);
      InvRun(size, Apply(size, s, steps[0]), steps[1..]);
    }
  }

  // ------------------------------------------------------------ main results

  /** In every run the bytes taken from a device are the bytes given to the other, followed by
      the ring contents: in order, nothing lost, nothing twice. */
  lemma Conservation(size: nat, s: State, steps: seq<Step>, d: Dev)
    requires Initial(s) && ValidRun(size, s, steps)
    ensures var e := Run(size, s, steps);
      e.At(d).taken == e.At(Peer(d)).given + e.At(d).ring && |e.At(d).ring| <= size
  {
    InvRun(size, s, steps);
  }

  /** In every run, a device whose receive interrupt is off while the bridge is active has bytes
      queued, little space, and a peer that is being asked to take them. */
  lemma FlowControl(size: nat, s: State, steps: seq<Step>, d: Dev)
    requires size >= 1 && Initial(s) && ValidRun(size, s, steps)
    ensures var e := Run(size, s, steps);
      e.active && !e.At(d).rxOn ==>
        Stopped(size, e, d) && e.At(d).ring != [] && e.At(Peer(d)).txOn
  {
    InvRun(size, s, steps);
  }

  /** No step gives up on a device the threshold test has let through, for exactly the ring
      sizes from 3 up. */
  lemma FullBranchUnreachableIff(size: nat)
    ensures size >= 3 <==>
            forall s: State, d: Dev, claim: nat, read: Read ::
              Enabled(size, s, Rx(d, claim, read)) && Space(size, s.At(d)) >= Threshold(size) ==> claim != 0
  {
    if size < 3 {
      var full := Port(seq<byte>(size, _ => 0), false, true, true, [], []);
      var s := State(full, full, true);
      assert Enabled(size, s, Rx(0, 0, ReadError)) && Space(size, s.At(0)) >= Threshold(size);
    }
  }

  /** The ring of d has less than a third of its size free, rounded down: the next receive interrupt
      stops d. */
  predicate Filled(size: nat, s: State, d: Dev) {
    3 * (Space(size, s.At(d)) + 1) <= size
  }

  /** The device d is offered bytes in this step and accepts some number of them. */
  predicate Accepting(step: Step, d: Dev) {
    step.Tx? && step.d == d && step.claim > 0 && step.write.Accepts?
  }

  /** The device d is read into free space in this step. */
  predicate Receiving(size: nat, s: State, step: Step, d: Dev) {
    step.Rx? && step.d == d && !Filled(size, s, d) && step.claim > 0 && step.read.ReadBytes?
  }

  /** When each of the interrupts and the paused flag of a device is on after a step. */
  lemma InterruptsIff(size: nat, s: State, step: Step, d: Dev)
    requires Enabled(size, s, step)
    ensures var t := Apply(size, s, step);
      var p, q := s.At(d), t.At(d);
      var stops := step.Rx? && step.d == d && Filled(size, s, d);
      var resumes := p.paused && Accepting(step, Peer(d)) && 3 * Space(size, q) > size;
      && (q.rxOn <==> !step.Suspend? && (step.Resume? || resumes || (p.rxOn && !stops)))
      && (q.txOn <==> Receiving(size, s, step, Peer(d))
                      || (p.txOn && !(step.Tx? && step.d == d && s.At(Peer(d)).ring == [])))
      && (q.paused <==> stops || (p.paused && !resumes))
      && (t.active <==> !step.Suspend? && (step.Resume? || s.active))
  {
    hide AfterRx, AfterTx;
    match step
    case Rx(e, claim, read) => RxFlags(size, s.At(e), s.At(Peer(e)), claim, read);
    case Tx(e, claim, write) => TxFlags(size, s.At(e), s.At(Peer(e)), claim, write);
    case Suspend =>
    case Resume =>
  }

  lemma RxFlags(size: nat, own: Port, peer: Port, claim: nat, read: Read)
    ensures var (o, p) := AfterRx(size, own, peer, claim, read);
      var stops := 3 * (Space(size, own) + 1) <= size;
      && (o.rxOn <==> own.rxOn && !stops) && (o.paused <==> own.paused || stops) && o.txOn == own.txOn
      && (p.txOn <==> peer.txOn || (!stops && claim > 0 && read.ReadBytes?)) && p.rxOn == peer.rxOn && p.paused == peer.paused
  {
  }

  lemma TxFlags(size: nat, own: Port, peer: Port, claim: nat, write: Write)
    requires claim <= |peer.ring|
    ensures var (o, p) := AfterTx(size, own, peer, claim, write);
      var resumes := peer.paused && claim > 0 && write.Accepts? && 3 * Space(size, p) > size;
      && (o.txOn <==> own.txOn && claim > 0) && o.rxOn == own.rxOn && o.paused == own.paused
      && (p.rxOn <==> peer.rxOn || resumes) && (p.paused <==> peer.paused && !resumes) && p.txOn == peer.txOn
  {
  }

  /** What is taken from and given to a device in a step: as much as is there and fits, in order, and
      nothing on an error, into a full ring or with too little space. */
  lemma TrafficIff(size: nat, s: State, step: Step, d: Dev)
    requires Enabled(size, s, step)
    ensures var p, q := s.At(d), Apply(size, s, step).At(d);
      && (if Receiving(size, s, step, d) then
            var k := if |step.read.avail| < step.claim then |step.read.avail| else step.claim;
            q.taken == p.taken + step.read.avail[..k]
          else q.taken == p.taken)
      && (if Accepting(step, d) then
            var k := if step.write.n < step.claim then step.write.n else step.claim;
            q.given == p.given + s.At(Peer(d)).ring[..k]
          else q.given == p.given)
  {
    hide AfterRx, AfterTx;
    match step
    case Rx(e, claim, read) => RxTraffic(size, s.At(e), s.At(Peer(e)), claim, read);
    case Tx(e, claim, write) => TxTraffic(size, s.At(e), s.At(Peer(e)), claim, write);
    case Suspend =>
    case Resume =>
  }

  lemma RxTraffic(size: nat, own: Port, peer: Port, claim: nat, read: Read)
    ensures var (o, p) := AfterRx(size, own, peer, claim, read);
      && o.given == own.given && p.given == peer.given && p.taken == peer.taken
      && o.taken == if 3 * (Space(size, own) + 1) > size && claim > 0 && read.ReadBytes?
                    then own.taken + read.avail[..if |read.avail| < claim then |read.avail| else claim] else own.taken
  {
  }

  lemma TxTraffic(size: nat, own: Port, peer: Port, claim: nat, write: Write)
    requires claim <= |peer.ring|
    ensures var (o, p) := AfterTx(size, own, peer, claim, write);
      && o.taken == own.taken && p.given == peer.given && p.taken == peer.taken
      && o.given == if claim > 0 && write.Accepts?
                    then own.given + peer.ring[..if write.n < claim then write.n else claim] else own.given
  {
  }

  // -------------------------------------------------------------- progress

  /** Flow control has stopped d: its receive interrupt is off because its ring filled up. */
  predicate Stopped(size: nat, s: State, d: Dev) {
    !s.At(d).rxOn && s.At(d).paused && Space(size, s.At(d)) <= Threshold(size)
  }

  /** Bytes the receive handler of d takes while the receive interrupt of d is off, because another
      interrupt of d runs it. */
  function Refilled(size: nat, s: State, steps: seq<Step>, d: Dev): int
    requires ValidRun(size, s, steps)
    decreases |steps|
  {
    if steps == [] then 0 else
      var t := Apply(size, s, steps[0]);
      (if s.At(d).rxOn then 0 else |t.At(d).taken| - |s.At(d).taken|) + Refilled(size, t, steps[1..], d)
  }

  /** The receive handler of d does not run while its interrupt is off. */
  predicate Gated(size: nat, s: State, steps: seq<Step>, d: Dev)
    requires ValidRun(size, s, steps)
    decreases |steps|
  {
    steps == [] ||
    (&& (steps[0].Rx? && steps[0].d == d ==> s.At(d).rxOn)
     && Gated(size, Apply(size, s, steps[0]), steps[1..], d))
  }

  function Prefix(size: nat, s: State, steps: seq<Step>, k: nat): (r: seq<Step>)
    requires ValidRun(size, s, steps) && k <= |steps|
    ensures ValidRun(size, s, r)
    decreases |steps|
  {
    if k == 0 then [] else
      var rest := Prefix(size, Apply(size, s, steps[0]), steps[1..], k - 1);
      assert ([steps[0]] + rest)[1..] == rest;
      [steps[0]] + rest
  }

  /** Bytes the peer must still accept before a stopped device is heard again. */
  function Needed(size: nat, s: State, d: Dev): int {
    Threshold(size) + 1 - Space(size, s.At(d))
  }

  lemma RxShape(size: nat, own: Port, peer: Port, claim: nat, read: Read)
    ensures var (o, p) := AfterRx(size, own, peer, claim, read);
      && p == peer.(txOn := p.txOn) && |o.taken| >= |own.taken|
      && (own.rxOn || !o.rxOn) && (own.paused ==> o.paused) && Space(size, o) <= Space(size, own)
  {
  }

  lemma TxShape(size: nat, own: Port, peer: Port, claim: nat, write: Write)
    requires claim <= |peer.ring|
    ensures var (o, p) := AfterTx(size, own, peer, claim, write);
      && o.ring == own.ring && o.rxOn == own.rxOn && o.paused == own.paused && o.taken == own.taken
      && p.taken == peer.taken
      && (peer.paused && !peer.rxOn ==> p.rxOn || (p.paused && (Space(size, p) <= Threshold(size) || p.ring == peer.ring)))
  {
  }

  /** Any step, suspend and resume included: a stopped device is switched on again, or it stays
      stopped and the measure has fallen by exactly what its peer accepted, less what it took. */
  lemma NeededStep(size: nat, s: State, step: Step, d: Dev)
    requires Inv(size, s) && Stopped(size, s, d) && Enabled(size, s, step)
    ensures var t := Apply(size, s, step);
      t.At(d).rxOn
      || (&& Stopped(size, t, d) && 0 < Needed(size, t, d)
          && Needed(size, t, d) == Needed(size, s, d) + (|t.At(d).taken| - |s.At(d).taken|)
                                   - (|t.At(Peer(d)).given| - |s.At(Peer(d)).given|))
  {
    hide AfterRx, AfterTx;
    InvStep(size, s, step);
    match step
    case Rx(e, claim, read) => RxShape(size, s.At(e), s.At(Peer(e)), claim, read);
    case Tx(e, claim, write) => TxShape(size, s.At(e), s.At(Peer(e)), claim, write);
    case Suspend =>
    case Resume =>
  }

  /** From any stopped state, in any run: once the peer has accepted threshold + 1 bytes (Needed
      already suffices), and as many more as the device took with its interrupt off, the receive
      interrupt has been switched on again. */
  lemma {:induction false} ResumesWithin(size: nat, s: State, steps: seq<Step>, d: Dev) returns (k: nat)
    requires Inv(size, s) && Stopped(size, s, d) && ValidRun(size, s, steps)
    requires |Run(size, s, steps).At(Peer(d)).given| - |s.At(Peer(d)).given|
          >= Needed(size, s, d) + Refilled(size, s, steps, d)
    ensures 0 < Needed(size, s, d) <= Threshold(size) + 1
    ensures k <= |steps| && Run(size, s, Prefix(size, s, steps, k)).At(d).rxOn
    decreases |steps|
  {
    assert Needed(size, s, d) > 0;
    var t := Apply(size, s, steps[0]);
    NeededStep(size, s, steps[0], d);
    InvStep(size, s, steps[0]);
    if t.At(d).rxOn {
      k := 1;
      assert Prefix(size, t, steps[1..], 0) == [];
      assert Prefix(size, s, steps, 1) == [steps[0]];
    } else {
      var j := ResumesWithin(size, t, steps[1..], d);
      k := j + 1;
      var rest := Prefix(size, t, steps[1..], j);
      assert Prefix(size, s, steps, k) == [steps[0]] + rest;
      assert ([steps[0]] + rest)[1..] == rest;
    }
  }

  /** A driver that runs the receive handler only while its interrupt is on refills nothing. */
  lemma {:induction false} GatedRefillsNothing(size: nat, s: State, steps: seq<Step>, d: Dev)
    requires ValidRun(size, s, steps) && Gated(size, s, steps, d)
    ensures Refilled(size, s, steps, d) == 0
    decreases |steps|
  {
    if steps != [] {
      if !s.At(d).rxOn {
        TakenOnlyByRx(size, s, steps[0], d);
      }
      GatedRefillsNothing(size, Apply(size, s, steps[0]), steps[1..], d);
    }
  }

  lemma TakenOnlyByRx(size: nat, s: State, step: Step, d: Dev)
    requires Enabled(size, s, step) && !(step.Rx? && step.d == d)
    ensures Apply(size, s, step).At(d).taken == s.At(d).taken
  {
  }

  /** The peer can always make that progress: its transmit interrupt is on and whatever part of
      the ring it is offered, accepting a byte of it lowers the measure or restarts the device. */
  lemma ProgressPossible(size: nat, s: State, d: Dev, claim: nat, n: nat)
    requires size >= 1 && Inv(size, s) && s.active && !s.At(d).rxOn && n > 0
    requires ClaimOk(claim, |s.At(d).ring|)
    ensures Stopped(size, s, d) && s.At(Peer(d)).txOn && Enabled(size, s, Tx(Peer(d), claim, Accepts(n)))
    ensures var t := Apply(size, s, Tx(Peer(d), claim, Accepts(n)));
      t.At(d).rxOn || Needed(size, t, d) < Needed(size, s, d)
  {
    NeededStep(size, s, Tx(Peer(d), claim, Accepts(n)), d);
  }
}
