/** The bridge driver of applications/ifmcu_firmware/src/ifmcu_uart_bridge.c over two ring
    buffers, each handler proved to be the corresponding step of BridgeModel. */
module UartBridge {
  import opened Bytes
  import opened BridgeModel
  import opened RingBuffer

  /** Lines 120-137: claim, read from the device into the claimed stretch, finish. */
  method FillFromDevice(rb: RingBuf, size: nat, read: Read) returns (claim: nat, got: seq<byte>)
    requires rb.Valid() && rb.buf.Length == size
    modifies rb, rb.buf
    ensures rb.Valid()
    ensures ClaimOk(claim, size - |old(rb.Contents())|)
    ensures got == if claim == 0 || read.ReadError? then [] else read.avail[..Min(|read.avail|, claim)]
    ensures rb.Contents() == old(rb.Contents()) + got
  {
    var pos;
    pos, claim := rb.PutClaim(size);
    got := [];
    if claim == 0 {
      return;
    }
    if read.ReadError? {
      var _ := rb.PutFinish(0);
      return;
    }
    got := read.avail[..Min(|read.avail|, claim)];
    rb.Fill(pos, got);
    assert rb.buf[rb.Tail()..][..|got|] == rb.buf[pos..pos + |got|];
    var _ := rb.PutFinish(|got|);
  }

  /** Lines 159-177: claim, offer the claimed stretch to the device, finish with what it took. */
  method DrainToDevice(rb: RingBuf, size: nat, write: Write) returns (claim: nat, sent: seq<byte>)
    requires rb.Valid() && rb.buf.Length == size
    modifies rb
    ensures rb.Valid()
    ensures ClaimOk(claim, |old(rb.Contents())|)
    ensures var k := if write.WriteError? then 0 else Min(write.n, claim);
      sent == old(rb.Contents())[..k] && rb.Contents() == old(rb.Contents())[k..]
    ensures claim == 0 || write.WriteError? ==> sent == [] && rb.Contents() == old(rb.Contents())
  {
    var pos;
    pos, claim := rb.GetClaim(size);
    sent := [];
    if claim == 0 {
      return;
    }
    if write.WriteError? {
      var _ := rb.GetFinish(0);
      return;
    }
    var k := Min(write.n, claim);
    sent := rb.buf[pos..pos + k];
    assert sent == rb.Contents()[..k];
    var _ := rb.GetFinish(k);
  }

  lemma TxCases(size: nat, own: Port, peer: Port, claim: nat, write: Write)
    requires claim <= |peer.ring|
    ensures claim == 0 ==> AfterTx(size, own, peer, claim, write) == (own.(txOn := false), peer)
    ensures claim > 0 && write.WriteError? ==> AfterTx(size, own, peer, claim, write) == (own, peer)
    ensures claim > 0 && write.Accepts? ==>
              var k := Min(write.n, claim);
              var p := peer.(ring := peer.ring[k..]);
              AfterTx(size, own, peer, claim, write)
              == (own.(given := own.given + peer.ring[..k]),
                  if p.paused && Space(size, p) > Threshold(size) then p.(rxOn := true, paused := false) else p)
  {
  }

  lemma ClaimMeans(claim: nat, limit: int)
    requires ClaimOk(claim, limit)
    ensures claim <= limit && (claim == 0 <==> limit == 0)
  {
  }

  class Bridge {
    const size: nat
    const ring0: RingBuf
    const ring1: RingBuf
    var paused: seq<bool>
    var rxOn: seq<bool>
    var txOn: seq<bool>
    var active: bool
    ghost var taken: seq<seq<byte>>
    ghost var given: seq<seq<byte>>

    ghost predicate Valid()
      reads this, ring0, ring0.buf, ring1, ring1.buf
    {
      && ring0 != ring1 && ring0.buf != ring1.buf
      && ring0.Valid() && ring1.Valid()
      && ring0.buf.Length == ring1.buf.Length == size
      && |paused| == |rxOn| == |txOn| == |taken| == |given| == 2
    }

    function RingOf(d: Dev): RingBuf {
      if d == 0 then ring0 else ring1
    }

    ghost function PortOf(d: Dev): Port
      requires Valid()
      reads this, ring0, ring0.buf, ring1, ring1.buf
    {
      Port(RingOf(d).Contents(), paused[d], rxOn[d], txOn[d], taken[d], given[d])
    }

    ghost function View(): State
      requires Valid()
      reads this, ring0, ring0.buf, ring1, ring1.buf
    {
      State(PortOf(0), PortOf(1), active)
    }

    /** uart_bridge_init; the interrupt enables the devices come with are not the bridge's. */
    constructor (size: nat, rx0: bool, rx1: bool, tx0: bool, tx1: bool)
      requires size > 0
      ensures Valid() && this.size == size && Initial(View())
      ensures fresh(ring0) && fresh(ring1) && fresh(ring0.buf) && fresh(ring1.buf)
    {
      var r0 := new RingBuf(size);
      var r1 := new RingBuf(size);
      this.size := size;
      ring0, ring1 := r0, r1;
      paused, rxOn, txOn := [false, false], [rx0, rx1], [tx0, tx1];
      taken, given := [[], []], [[], []];
      active := false;
    }

    /** uart_bridge_get_idx */
    function GetIdx(dev: Dev, own: bool): Dev {
      if dev == 0 then (if own then 0 else 1) else (if own then 1 else 0)
    }

    /** uart_bridge_handle_rx on an interrupt of device dev. */
    method HandleRx(dev: Dev, read: Read) returns (claim: nat)
      requires Valid()
      modifies this`paused, this`rxOn, this`txOn, this`taken, ring0, ring0.buf, ring1, ring1.buf
      ensures Valid()
      ensures ClaimOk(claim, Space(size, old(View()).At(dev))) || Space(size, old(View()).At(dev)) < Threshold(size)
      ensures rxOn[dev] <==> old(rxOn[dev]) && 3 * (old(Space(size, PortOf(dev))) + 1) > size
      ensures paused[dev] <==> old(paused[dev]) || 3 * (old(Space(size, PortOf(dev))) + 1) <= size
      ensures txOn[Peer(dev)] <==>
                || old(txOn[Peer(dev)])
                || (3 * (old(Space(size, PortOf(dev))) + 1) > size && claim > 0 && read.ReadBytes?)
      ensures View() == old(View()).With(dev, AfterRx(size, old(View()).At(dev), old(View()).At(Peer(dev)), claim, read))
    {
      hide RingBuf.Contents, RingBuf.Valid, ClaimOk;
      var own := RingOf(GetIdx(dev, true));
      claim := 0;
      var space := own.SpaceGet();
      if space < Threshold(size) {
        rxOn := rxOn[dev := false];
        paused := paused[dev := true];
        return;
      }
      claim := HandleRxWithSpace(dev, read);
    }

    /** Lines 120-141: the handler behind the threshold test. */
    method HandleRxWithSpace(dev: Dev, read: Read) returns (claim: nat)
      requires Valid() && Space(size, PortOf(dev)) >= Threshold(size)
      modifies this`txOn, this`taken, ring0, ring0.buf, ring1, ring1.buf
      ensures Valid()
      ensures ClaimOk(claim, Space(size, old(View()).At(dev)))
      ensures View() == old(View()).With(dev, AfterRx(size, old(View()).At(dev), old(View()).At(Peer(dev)), claim, read))
    {
      hide RingBuf.Contents, RingBuf.Valid, ClaimOk;
      var peer := GetIdx(dev, false);
      assert peer == Peer(dev);
      claim := Receive(dev, read);
      if claim == 0 || read.ReadError? {
        return;
      }
      txOn := txOn[peer := true];
    }

    /** Lines 120-137 on the ring of a device; what was read is added to its history. */
    method Receive(dev: Dev, read: Read) returns (claim: nat)
      requires Valid()
      modifies this`taken, RingOf(dev), RingOf(dev).buf
      ensures Valid() && PortOf(Peer(dev)) == old(PortOf(Peer(dev)))
      ensures ClaimOk(claim, Space(size, old(PortOf(dev))))
      ensures var p := old(PortOf(dev));
        var got := if claim == 0 || read.ReadError? then [] else read.avail[..Min(|read.avail|, claim)];
        PortOf(dev) == p.(ring := p.ring + got, taken := p.taken + got)
    {
      hide RingBuf.Contents, RingBuf.Valid, ClaimOk;
      var got;
      claim, got := FillFromDevice(RingOf(dev), size, read);
      taken := taken[dev := taken[dev] + got];
    }

    /** uart_bridge_handle_tx on an interrupt of device dev. */
    method HandleTx(dev: Dev, write: Write) returns (claim: nat)
      requires Valid()
      modifies this`paused, this`rxOn, this`txOn, this`given, ring0, ring0.buf, ring1, ring1.buf
      ensures Valid()
      ensures ClaimOk(claim, |old(View()).At(Peer(dev)).ring|)
      ensures txOn[dev] <==> old(txOn[dev]) && old(RingOf(Peer(dev)).Contents()) != []
      ensures rxOn[Peer(dev)] <==>
                || old(rxOn[Peer(dev)])
                || (&& old(paused[Peer(dev)]) && claim > 0 && write.Accepts?
                    && 3 * (size - |RingOf(Peer(dev)).Contents()|) > size)
      ensures View() == old(View()).With(dev, AfterTx(size, old(View()).At(dev), old(View()).At(Peer(dev)), claim, write))
    {
      hide RingBuf.Contents, RingBuf.Valid, ClaimOk, AfterTx, PortOf;
      PortsOfView(dev);
      ghost var own, peer := PortOf(dev), PortOf(Peer(dev));
      claim := HandleTxPorts(dev, write);
      PortsOfView(dev);
      ClaimMeans(claim, |peer.ring|);
      TxFlags(size, own, peer, claim, write);
    }

    lemma PortsOfView(dev: Dev)
      requires Valid()
      ensures View().At(dev) == PortOf(dev) && View().At(Peer(dev)) == PortOf(Peer(dev))
      ensures PortOf(dev).txOn == txOn[dev] && PortOf(Peer(dev)).rxOn == rxOn[Peer(dev)]
      ensures PortOf(Peer(dev)).paused == paused[Peer(dev)] && PortOf(Peer(dev)).ring == RingOf(Peer(dev)).Contents()
    {
    }

    /** The same, in terms of the two ports. */
    method HandleTxPorts(dev: Dev, write: Write) returns (claim: nat)
      requires Valid()
      modifies this`paused, this`rxOn, this`txOn, this`given, ring0, ring0.buf, ring1, ring1.buf
      ensures Valid() && ClaimOk(claim, |old(PortOf(Peer(dev))).ring|)
      ensures (PortOf(dev), PortOf(Peer(dev))) == AfterTx(size, old(PortOf(dev)), old(PortOf(Peer(dev))), claim, write)
    {
      hide RingBuf.Contents, RingBuf.Valid, ClaimOk, AfterTx;
      var peer := GetIdx(dev, false);
      assert peer == Peer(dev);
      ghost var own, other := PortOf(dev), PortOf(peer);
      claim := Transmit(dev, write);
      ClaimMeans(claim, |other.ring|);
      TxCases(size, own, other, claim, write);
      if claim == 0 {
        txOn := txOn[dev := false];
        return;
      }
      if write.WriteError? {
        return;
      }
      ResumePeer(peer);
    }

    /** Lines 159-177 from the ring of the peer; what the device took is added to its history. */
    method Transmit(dev: Dev, write: Write) returns (claim: nat)
      requires Valid()
      modifies this`given, RingOf(Peer(dev))
      ensures Valid() && ClaimOk(claim, |old(PortOf(Peer(dev))).ring|)
      ensures var own, peer := old(PortOf(dev)), old(PortOf(Peer(dev)));
        if claim == 0 || write.WriteError? then PortOf(dev) == own && PortOf(Peer(dev)) == peer
        else
          var k := Min(write.n, claim);
          && PortOf(dev) == own.(given := own.given + peer.ring[..k])
          && PortOf(Peer(dev)) == peer.(ring := peer.ring[k..])
    {
      hide RingBuf.Contents, RingBuf.Valid, ClaimOk;
      var sent;
      claim, sent := DrainToDevice(RingOf(Peer(dev)), size, write);
      if claim == 0 || write.WriteError? {
        return;
      }
      given := given[dev := given[dev] + sent];
    }

    /** Lines 181-187. */
    method ResumePeer(peer: Dev)
      requires Valid()
      modifies this`paused, this`rxOn
      ensures Valid() && PortOf(Peer(peer)) == old(PortOf(Peer(peer)))
      ensures var p := old(PortOf(peer));
        PortOf(peer) == if p.paused && Space(size, p) > Threshold(size) then p.(rxOn := true, paused := false) else p
    {
      hide RingBuf.Contents, RingBuf.Valid;
      var space := RingOf(peer).SpaceGet();
      if paused[peer] && space > Threshold(size) {
        rxOn := rxOn[peer := true];
        paused := paused[peer := false];
      }
    }

    /** PM_DEVICE_ACTION_SUSPEND */
    method SuspendAction()
      requires Valid()
      modifies this`rxOn, this`active
      ensures Valid() && View() == AfterSuspend(old(View()))
      ensures !rxOn[0] && !rxOn[1] && !active
    {
      rxOn := [false, false];
      active := false;
    }

    /** PM_DEVICE_ACTION_RESUME */
    method ResumeAction()
      requires Valid()
      modifies this`rxOn, this`active
      ensures Valid() && View() == AfterResume(old(View()))
      ensures rxOn[0] && rxOn[1] && active
    {
      active := true;
      rxOn := [true, true];
    }
  }
}
