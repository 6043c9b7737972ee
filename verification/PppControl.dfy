/** ppp_ctrl_start, ppp_ctrl_stop and the restart worker of
    applications/modem_shell/src/ppp/ppp_ctrl.c as methods over the shared globals. Each is proved
    to be the controller of PppModel running on its own, statement by statement. */
module PppControl {
  import opened PppModel

  /** The MTU in use after a start: that of the link where it is known, and 1500 at most. */
  function MtuFound(before: nat, e: Env): (mtu: nat)
    ensures e.netIf.Context? && 1 <= e.netIf.ipv4Mtu <= 1500 ==> mtu == e.netIf.ipv4Mtu
    ensures e.netIf.Context? && e.netIf.ipv4Mtu > 1500 ==> mtu == 1500
    ensures e.netIf.NoContext? || e.netIf.ipv4Mtu == 0 ==> mtu == before
  {
    match e.netIf
    case NoContext => before
    case Context(ipv4Mtu, _) => if ipv4Mtu == 0 then before else if ipv4Mtu > 1500 then 1500 else ipv4Mtu
  }

  class Ppp {
    var sem: nat
    var zfd: int
    var mfd: int
    var up: bool
    var mtu: nat
    var dl: Thread
    var ul: Thread

    function At(ctrl: Ctrl, restarting: bool): State
      reads this
    {
      State(sem, zfd, mfd, up, mtu, ctrl, restarting, dl, ul)
    }

    /** ppp_ctrl_init */
    constructor (configuredMtu: nat)
      ensures Initial(At(Idle, false)) && mtu == configuredMtu
    {
      sem, zfd, mfd, up, mtu, dl, ul := 0, NONE, NONE, false, configuredMtu, Check1, Check1;
    }

    /** ppp_ctrl_close_sckts */
    method CloseSockets(ghost restarting: bool, ghost e: Env)
      modifies this
      ensures Alone(old(At(Reset, restarting)), e)
           == Alone(At(if restarting then StartCheck else Idle, restarting), e)
      ensures BothNone(At(Idle, false)) && sem == 0
      ensures up == old(up) && mtu == old(mtu)
    {
      hide Alone;
      ghost var s0 := At(Reset, restarting);
      sem, dl, ul := 0, Aborted(dl), Aborted(ul);
      ghost var s1 := At(CloseZephyr, restarting);
      assert s1 == CtrlStep(s0, e);
      AloneStep(s0, e);
      if zfd != NONE {
        zfd := NONE;
      }
      ghost var s2 := At(CloseModem, restarting);
      assert s2 == CtrlStep(s1, e);
      AloneStep(s1, e);
      if mfd != NONE {
        mfd := NONE;
      }
      assert At(if restarting then StartCheck else Idle, restarting) == CtrlStep(s2, e);
      AloneStep(s2, e);
    }

    /** ppp_ctrl_zephyr_sckt_create followed by ppp_ctrl_modem_sckt_create */
    method CreateSockets(ghost restarting: bool, e: Env) returns (err: int)
      requires EnvOk(e) && sem <= SEM_LIMIT && zfd >= NONE && mfd >= NONE
      modifies this
      ensures Alone(old(At(ZephyrCreate, restarting)), e)
           == Alone(At(if err == 0 then SetUp else Clear, restarting), e)
      ensures err == 0 || err == -1
      ensures err == 0 ==> BothOpen(At(Idle, false)) && sem == SEM_LIMIT
      ensures old(zfd) == NONE && old(mfd) == NONE ==>
                && (err == 0 <==> e.zephyr >= 0 && e.bindOk && e.modem >= 0)
                && (err == 0 ==> zfd == e.zephyr && mfd == e.modem)
      ensures up == old(up) && mtu == old(mtu)
    {
      hide Alone;
      ghost var s0 := At(ZephyrCreate, restarting);
      if zfd == NONE {
        zfd := e.zephyr;
        if zfd < 0 {
          assert At(Clear, restarting) == CtrlStep(s0, e);
          AloneStep(s0, e);
          return -1;
        }
        ghost var s1 := At(ZephyrBind, restarting);
        assert s1 == CtrlStep(s0, e);
        AloneStep(s0, e);
        if !e.bindOk {
          assert At(Clear, restarting) == CtrlStep(s1, e);
          AloneStep(s1, e);
          return -1;
        }
        assert At(ModemCreate, restarting) == CtrlStep(s1, e);
        AloneStep(s1, e);
      }
      AloneStep(s0, e);
      ghost var s2 := At(ModemCreate, restarting);
      if mfd == NONE {
        mfd := e.modem;
        if mfd < 0 {
          assert At(Clear, restarting) == CtrlStep(s2, e);
          AloneStep(s2, e);
          return -1;
        }
      }
      ghost var s3 := At(Give1, restarting);
      assert s3 == CtrlStep(s2, e);
      AloneStep(s2, e);
      sem := Give(sem);
      ghost var s4 := At(Give2, restarting);
      assert s4 == CtrlStep(s3, e);
      AloneStep(s3, e);
      sem := Give(sem);
      assert At(SetUp, restarting) == CtrlStep(s4, e);
      AloneStep(s4, e);
      err := 0;
    }

    /** ppp_ctrl_start */
    method Start(ghost restarting: bool, e: Env) returns (ret: int)
      requires EnvOk(e) && Inv(At(Idle, false))
      modifies this
      ensures Alone(old(At(StartCheck, restarting)), e) == At(Idle, false)
      ensures ret == 0 <==> up
      ensures up <==> old(up) || StartOk(e)
      ensures up && !old(up) ==> zfd == e.zephyr && mfd == e.modem
      ensures mtu == if old(up) then old(mtu) else MtuFound(old(mtu), e)
      ensures up <==> BothOpen(At(Idle, false))
      ensures !up <==> BothNone(At(Idle, false))
      ensures old(up) ==> At(Idle, false) == old(At(Idle, false))
      ensures up && !old(up) ==> sem == SEM_LIMIT
      ensures old(mtu) <= BUFF_SIZE ==> mtu <= BUFF_SIZE
    {
      ghost var s0 := At(StartCheck, restarting);
      if up {
        assert At(Idle, false) == CtrlStep(s0, e);
        assert Alone(s0, e) == Alone(At(Idle, false), e);
        return 0;
      }
      ghost var s1 := At(NetIf, restarting);
      assert s1 == CtrlStep(s0, e);
      assert Alone(s0, e) == Alone(s1, e);
      mtu := MtuAfter(mtu, e.netIf);
      var err := if e.netIf.NoContext? || !e.netIf.comesUp then -1 else 0;
      ghost var s2 := At(if err == 0 then ZephyrCreate else Clear, restarting);
      assert s2 == CtrlStep(s1, e);
      assert Alone(s1, e) == Alone(s2, e);
      if err == 0 {
        err := CreateSockets(restarting, e);
      }
      assert Alone(s0, e) == Alone(At(if err == 0 then SetUp else Clear, restarting), e);
      if err == 0 {
        ghost var s3 := At(SetUp, restarting);
        up := true;
        assert At(Idle, false) == CtrlStep(s3, e);
        assert Alone(s3, e) == Alone(At(Idle, false), e);
        return 0;
      }
      ghost var s4 := At(Clear, restarting);
      up := false;
      assert At(Reset, false) == CtrlStep(s4, e);
      assert Alone(s4, e) == Alone(At(Reset, false), e);
      CloseSockets(false, e);
      ret := -1;
    }

    /** ppp_ctrl_stop */
    method Stop(ghost restarting: bool, ghost e: Env)
      modifies this
      ensures Alone(old(At(StopBegin, restarting)), e)
           == Alone(At(if restarting then StartCheck else Idle, restarting), e)
      ensures !up && BothNone(At(Idle, false)) && sem == 0 && mtu == old(mtu)
    {
      ghost var s0 := At(StopBegin, restarting);
      up := false;
      assert At(Reset, restarting) == CtrlStep(s0, e);
      assert Alone(s0, e) == Alone(At(Reset, restarting), e);
      CloseSockets(restarting, e);
    }

    /** ppp_ctrl_restart_worker */
    method Restart(e: Env)
      requires EnvOk(e)
      modifies this
      ensures Alone(old(At(StopBegin, true)), e) == At(Idle, false)
      ensures up <==> BothOpen(At(Idle, false))
      ensures !up <==> BothNone(At(Idle, false))
      ensures up <==> StartOk(e)
      ensures up ==> zfd == e.zephyr && mfd == e.modem && sem == SEM_LIMIT
      ensures mtu == MtuFound(old(mtu), e)
    {
      Stop(true, e);
      var _ := Start(true, e);
    }
  }
}
