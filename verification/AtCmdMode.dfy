/** AT command mode of applications/modem_shell/src/at/at_cmd_mode.c: the byte handler over its
    buffer, the pipelining slots, the worker and the bypass callback.

    The worker is taken to finish before the next byte arrives: it answers into the buffer the
    line is in. What the modem answers is arbitrary. */
module AtCmdMode {
  import opened Bytes
  import opened AtEditor
  import opened CStrings
  import opened AtPipeline

  class CommandMode {
    const cap: nat
    const atBuf: array<byte>
    const pipelined: array<byte>
    var mode: Mode
    var atCmdLen: nat
    var insideQuotes: bool
    var tail: byte
    var active: bool
    var pipeCnt: nat
    var pipeStart: seq<nat>
    var pipeLen: seq<nat>
    // History: lines dispatched, and commands handed to the modem.
    ghost var lines: seq<seq<byte>>
    ghost var sent: seq<seq<byte>>

    /** Buffers and counters in range; no relation between flag and text yet. */
    ghost predicate Shaped()
      reads this
    {
      && atBuf != pipelined
      && atBuf.Length == cap + 1 && pipelined.Length == MAX_LEN + 1
      && atCmdLen <= cap
      && |pipeStart| == |pipeLen| == MAX_PIPELINED
    }

    /** Nothing stale: every slot length and the slot count are zero. */
    ghost predicate SlotsClear()
      requires Shaped()
      reads this
    {
      pipeCnt == 0 && forall i :: 0 <= i < MAX_PIPELINED ==> pipeLen[i] == 0
    }

    ghost function Pending(): seq<byte>
      requires Shaped()
      reads this, atBuf
    {
      atBuf[..atCmdLen]
    }

    /** The flag agrees with the text, no slot is in use, and the modem has run exactly the
        commands of the lines dispatched so far. */
    ghost predicate Valid()
      reads this, atBuf
    {
      && Shaped()
      && SlotsClear()
      && insideQuotes == InsideQuotes(Pending())
      && sent == AllCommands(lines)
    }

    ghost function View(): Editor
      requires Shaped()
      reads this, atBuf
    {
      Editor(Pending(), lines)
    }

    ghost function SessionView(): Session
      requires Shaped()
      reads this, atBuf
    {
      Session(View(), tail, active)
    }

    /** The static data, and at_cmd_mode_start. */
    constructor (cap: nat, mode: Mode)
      ensures Valid() && SessionView() == Started([]) && this.cap == cap && this.mode == mode
      ensures sent == [] && fresh(atBuf) && fresh(pipelined)
    {
      this.cap, this.mode := cap, mode;
      atBuf := new byte[cap + 1](_ => 0);
      pipelined := new byte[MAX_LEN + 1](_ => 0);
      atCmdLen, insideQuotes, tail, active := 0, false, NUL, true;
      pipeCnt, pipeStart, pipeLen := 0, seq(MAX_PIPELINED, _ => 0), seq(MAX_PIPELINED, _ => 0);
      lines, sent := [], [];
    }

    /** nrf_modem_at_cmd: run the C string in cmd, answer into rspBuf. */
    method Modem(cmd: array<byte>, rspBuf: array<byte>, rsp: seq<byte>)
      modifies rspBuf, this`sent
      ensures sent == old(sent) + [CStr(old(cmd[..]), NUL)]
    {
      sent := sent + [CStr(cmd[..], NUL)];
      forall i | 0 <= i < rspBuf.Length && i < |rsp| {
        rspBuf[i] := rsp[i];
      }
    }

    /** Lines 107-113: copy one slot out, NUL-terminate and run it. */
    method RunSlot(i: nat, rsp: seq<byte>)
      requires Shaped() && i < MAX_PIPELINED
      requires pipeLen[i] <= MAX_LEN && pipeStart[i] + pipeLen[i] <= cap
      requires NUL !in atBuf[pipeStart[i]..pipeStart[i] + pipeLen[i]]
      modifies pipelined, this`sent, this`pipeLen
      ensures Shaped() && pipeLen == old(pipeLen)[i := 0]
      ensures sent == old(sent) + [old(atBuf[pipeStart[i]..pipeStart[i] + pipeLen[i]])]
    {
      var n := pipeLen[i];
      ghost var seg := atBuf[pipeStart[i]..pipeStart[i] + n];
      forall k | 0 <= k < n {
        pipelined[k] := atBuf[pipeStart[i] + k];
      }
      pipelined[n] := 0;
      assert pipelined[..][..n] == seg;
      CStrIs(pipelined[..], NUL, n);
      assert CStr(pipelined[..], NUL) == seg;
      Modem(pipelined, pipelined, rsp);
      pipeLen := pipeLen[i := 0];
    }

    /** Slot i points at the command c in the buffer, before index limit. */
    ghost predicate SlotHolds(i: nat, c: seq<byte>, limit: nat)
      requires Shaped() && i < MAX_PIPELINED
      reads this, atBuf
    {
      && c != [] && |c| <= MAX_LEN && NUL !in c && pipeLen[i] == |c|
      && pipeStart[i] + |c| <= limit <= cap
      && atBuf[pipeStart[i]..pipeStart[i] + |c|] == c
    }

    /** The first slots hold the commands k, the others are empty. */
    ghost predicate SlotsHold(k: seq<seq<byte>>, limit: nat)
      requires Shaped()
      reads this, atBuf
    {
      && pipeCnt == |k| <= MAX_PIPELINED
      && (forall i :: 0 <= i < |k| ==> SlotHolds(i, k[i], limit))
      && (forall i :: |k| <= i < MAX_PIPELINED ==> pipeLen[i] == 0)
    }

    /** at_cmd_mode_worker */
    method Worker(rsp: nat -> seq<byte>, ghost k: seq<seq<byte>>)
      requires Shaped() && SlotsHold(k, cap)
      modifies atBuf, pipelined, this`sent, this`pipeLen, this`pipeCnt
      ensures Shaped() && SlotsClear()
      ensures sent == old(sent) + if k == [] then [CStr(old(atBuf[..]), NUL)] else k
    {
      if pipeCnt != 0 {
        RunSlots(rsp, k);
      } else {
        Modem(atBuf, atBuf, rsp(0));
      }
      pipeCnt := 0;
    }

    /** Lines 105-115. */
    method RunSlots(rsp: nat -> seq<byte>, ghost k: seq<seq<byte>>)
      requires Shaped() && SlotsHold(k, cap)
      modifies pipelined, this`sent, this`pipeLen
      ensures Shaped() && forall j :: 0 <= j < MAX_PIPELINED ==> pipeLen[j] == 0
      ensures sent == old(sent) + k
    {
      for i := 0 to MAX_PIPELINED
        invariant Shaped()
        invariant forall j :: 0 <= j < i ==> pipeLen[j] == 0
        invariant forall j :: |k| <= j < MAX_PIPELINED ==> pipeLen[j] == 0
        invariant forall j :: i <= j < |k| ==> SlotHolds(j, k[j], cap)
        invariant sent == old(sent) + if i <= |k| then k[..i] else k
      {
        if i < |k| {
          assert SlotHolds(i, k[i], cap);
          assert k[..i + 1] == k[..i] + [k[i]];
        }
        if pipeLen[i] != 0 {
          RunSlot(i, rsp(i));
        }
      }
    }

    /** Lines 221-236: one token goes into a slot, unless ten are taken or it is too long. */
    method AddToken(start: nat, ghost stop: nat, ghost k: seq<seq<byte>>, ghost s: seq<byte>)
      requires Shaped() && start < stop <= cap && atBuf[stop] == NUL
      requires s == atBuf[start..stop] && forall i :: start <= i < stop ==> atBuf[i] != NUL
      requires SlotsHold(k, start)
      modifies this`pipeCnt, this`pipeStart, this`pipeLen
      ensures Shaped() && SlotsHold(if |k| >= MAX_PIPELINED || |s| > MAX_LEN then k else k + [s], stop)
    {
      if pipeCnt >= MAX_PIPELINED {
        // dropped
      } else {
        var n := Strlen(atBuf, start, NUL, stop);
        if n > MAX_LEN {
          // dropped
        } else {
          FillSlot(start, start + n, k, s);
        }
      }
    }

    /** Lines 232-235. */
    method FillSlot(start: nat, stop: nat, ghost k: seq<seq<byte>>, ghost s: seq<byte>)
      requires Shaped() && start < stop <= cap && stop - start <= MAX_LEN
      requires s == atBuf[start..stop] && NUL !in s
      requires SlotsHold(k, start) && |k| < MAX_PIPELINED
      modifies this`pipeCnt, this`pipeStart, this`pipeLen
      ensures Shaped() && SlotsHold(k + [s], stop)
    {
      pipeStart := pipeStart[pipeCnt := start];
      pipeLen := pipeLen[pipeCnt := stop - start];
      pipeCnt := pipeCnt + 1;
      forall i | 0 <= i < |k| ensures SlotHolds(i, k[i], stop) {
        assert old(SlotHolds(i, k[i], start));
      }
      assert SlotHolds(|k|, s, stop);
    }

    /** Between two strtok_r calls: from index next on the text t is still untouched, done are the
        segments before it, and the first slots hold those that qualify. */
    ghost predicate Cutting(t: seq<byte>, next: nat, done: seq<seq<byte>>)
      requires Shaped()
      reads this, atBuf
    {
      && next <= |t| <= cap && NUL !in t
      && atBuf[next..|t|] == t[next..] && atBuf[|t|] == NUL
      && Segments(t) == done + Segments(t[next..])
      && SlotsHold(Take(Fitting(done), MAX_PIPELINED), next)
      && var l := |Leftover(t)|;
         if done == [] then next == 0 else l <= next && atBuf[..l] == t[..l] && atBuf[l] == NUL
    }

    /** strtok_r on the untouched rest, in terms of the text t. */
    method NextToken(next: nat, ghost t: seq<byte>, ghost k: seq<seq<byte>>)
      returns (found: bool, start: nat, next': nat, ghost stop: nat)
      requires Shaped() && next <= |t| <= cap && NUL !in t
      requires atBuf[next..|t|] == t[next..] && atBuf[|t|] == NUL
      requires SlotsHold(k, next)
      modifies atBuf
      ensures Shaped() && SlotsHold(k, next)
      ensures !found ==> atBuf[..] == old(atBuf[..]) && LeadingPipes(t[next..]) == |t[next..]| && Segments(t[next..]) == []
      ensures found ==>
                && next <= start < stop <= next' <= |t|
                && start == next + LeadingPipes(t[next..]) && stop == start + FirstPipe(t[next..][LeadingPipes(t[next..])..])
                && atBuf[..] == old(atBuf[..])[stop := NUL]
                && atBuf[start..stop] == t[start..stop]
                && atBuf[next'..|t|] == t[next'..]
                && Segments(t[next..]) == [t[start..stop]] + Segments(t[next'..])
    {
      hide Segments, FirstPipe, LeadingPipes;
      ghost var end := |t|;
      forall i | next <= i < end ensures atBuf[i] != NUL && atBuf[i] == t[i] {
        assert atBuf[next..end][i - next] == t[next..][i - next] && t[i] in t;
      }
      found, start, next', stop := StrtokR(atBuf, next, end);
      if found {
        assert atBuf[next'..end] == t[next'..];
        assert t[next..][start - next..stop - next] == t[start..stop];
        assert old(atBuf[start..stop]) == t[start..stop] && old(atBuf[next'..end]) == t[next'..];
        forall i | 0 <= i < |k| ensures SlotHolds(i, k[i], next) {
          assert old(SlotHolds(i, k[i], next));
          assert atBuf[pipeStart[i]..pipeStart[i] + |k[i]|] == old(atBuf[pipeStart[i]..pipeStart[i] + |k[i]|]);
        }
      }
    }

    lemma SlotsHoldUpTo(k: seq<seq<byte>>, limit: nat, further: nat)
      requires Shaped() && SlotsHold(k, limit) && limit <= further <= cap
      ensures SlotsHold(k, further)
    {
      forall i | 0 <= i < |k| ensures SlotHolds(i, k[i], further) {
        assert SlotHolds(i, k[i], limit);
      }
    }

    /** One turn of lines 220-239. */
    method CutOne(next: nat, ghost t: seq<byte>, ghost done: seq<seq<byte>>)
      returns (found: bool, next': nat, ghost done': seq<seq<byte>>)
      requires Shaped() && Cutting(t, next, done)
      modifies atBuf, this`pipeCnt, this`pipeStart, this`pipeLen
      ensures Shaped()
      ensures if found then Cutting(t, next', done') && next' > next
              else Cutting(t, next, done) && Segments(t) == done && (done == [] ==> Leftover(t) == t && atBuf[..|t|] == t)
    {
      hide Segments, FirstPipe, LeadingPipes, Fitting, SlotsHold, SlotHolds;
      ghost var k := Take(Fitting(done), MAX_PIPELINED);
      ghost var stop;
      var start;
      found, start, next', stop := NextToken(next, t, k);
      done' := done;
      if found {
        ghost var s := t[start..stop];
        assert s == atBuf[start..stop];
        SlotsHoldUpTo(k, next, start);
        assert NUL !in s;
        AddToken(start, stop, k, s);
        TakeSnoc(done, s);
        done' := done + [s];
        SlotsHoldUpTo(Take(Fitting(done'), MAX_PIPELINED), stop, next');
      }
    }

    /** Lines 217-239: cut a line that has a '|' into slots. */
    method CutLine(ghost t: seq<byte>)
      requires Shaped() && SlotsClear() && |t| <= cap && NUL !in t
      requires atBuf[..|t|] == t && atBuf[|t|] == NUL
      modifies atBuf, this`pipeCnt, this`pipeStart, this`pipeLen
      ensures Shaped() && SlotsHold(Pipelined(t), cap)
      ensures Pipelined(t) == [] ==> CStr(atBuf[..], NUL) == Leftover(t)
    {
      hide Segments, Leftover;
      var next := 0;
      ghost var done: seq<seq<byte>> := [];
      assert t[0..] == t;
      assert Fitting(done) == [];
      var found := true;
      while found
        invariant Shaped() && Cutting(t, next, done)
        invariant !found ==> Segments(t) == done && (done == [] ==> Leftover(t) == t && atBuf[..|t|] == t)
        decreases |t| - next, if found then 1 else 0
      {
        var n;
        ghost var d;
        found, n, d := CutOne(next, t, done);
        if found {
          next, done := n, d;
        }
      }
      SlotsHoldUpTo(Pipelined(t), next, cap);
      LeftoverIsPrefix(t);
      CStrIs(atBuf[..], NUL, |Leftover(t)|);
    }

    lemma LeftoverIsPrefix(t: seq<byte>)
      requires Shaped() && |t| <= cap && NUL !in t
      requires var l := |Leftover(t)|; l <= |t| && atBuf[..l] == t[..l] && atBuf[l] == NUL
      ensures Leftover(t) == t[..|Leftover(t)|] && |Leftover(t)| < |atBuf[..]|
      ensures atBuf[..][..|Leftover(t)|] == Leftover(t) && NUL !in Leftover(t)
    {
      hide LeadingPipes, FirstPipe;
    }

    /** Lines 203-209: NUL-terminate the line and start over. */
    method CloseLine() returns (ghost line: seq<byte>)
      requires Valid()
      modifies this`atCmdLen, this`insideQuotes, this`pipeCnt, this`lines, atBuf
      ensures Shaped() && SlotsClear() && atCmdLen == 0 && !insideQuotes
      ensures line == old(Pending()) && lines == old(lines) + [line]
      ensures var t := CStr(line, NUL); |t| <= |line| <= cap && atBuf[..|t|] == t && atBuf[|t|] == NUL && CStr(atBuf[..], NUL) == t
    {
      line := Pending();
      ghost var t := CStr(line, NUL);
      atBuf[atCmdLen] := NUL;
      CStrTerminated(line, atBuf[..]);
      insideQuotes := false;
      atCmdLen := 0;
      lines := lines + [line];
      pipeCnt := 0;
      assert atBuf[..|t|] == t by { assert line[..|t|] == t; }
    }

    /** The send label, then the worker. */
    method Send(rsp: nat -> seq<byte>)
      requires Valid()
      modifies this`atCmdLen, this`insideQuotes, this`pipeCnt, this`pipeStart, this`pipeLen, this`lines, this`sent,
               atBuf, pipelined
      ensures Valid() && View() == Editor([], old(lines) + [old(Pending())])
    {
      hide CStr, AllCommands, Commands;
      ghost var line := CloseLine();
      AllCommandsSnoc(old(lines), line);
      Dispatch(rsp, CStr(line, NUL));
      assert Pending() == [];
    }

    /** Lines 211-249: cut the line in the buffer if it has a '|', and run the worker. */
    method Dispatch(rsp: nat -> seq<byte>, ghost t: seq<byte>)
      requires Shaped() && SlotsClear() && |t| <= cap
      requires atBuf[..|t|] == t && atBuf[|t|] == NUL && CStr(atBuf[..], NUL) == t
      modifies this`pipeCnt, this`pipeStart, this`pipeLen, this`sent, atBuf, pipelined
      ensures Shaped() && SlotsClear()
      ensures sent == old(sent) + Commands(t)
    {
      hide Segments, Fitting, Leftover, CStr, Take;
      ghost var k: seq<seq<byte>> := [];
      var piped := HasPipe(|t|);
      if piped {
        CutLine(t);
        k := Pipelined(t);
      }
      Worker(rsp, k);
    }

    /** strchr(at_buf, '|') */
    method HasPipe(ghost end: nat) returns (found: bool)
      requires Shaped() && end <= cap && atBuf[end] == NUL
      ensures found <==> PIPE in CStr(atBuf[..], NUL)
    {
      found := false;
      var i := 0;
      while atBuf[i] != NUL
        invariant i <= end
        invariant NUL !in atBuf[..i] && (found <==> PIPE in atBuf[..i])
        decreases end - i
      {
        if atBuf[i] == PIPE {
          found := true;
        }
        i := i + 1;
      }
      assert atBuf[..][..i] == atBuf[..i];
      CStrIs(atBuf[..], NUL, i);
    }

    /** Lines 130-148: backspace or delete. */
    method Erase()
      requires Valid()
      modifies this`atCmdLen, this`insideQuotes, atBuf
      ensures Valid() && lines == old(lines)
      ensures Pending() == if old(Pending()) == [] then [] else old(Pending())[..old(|Pending()|) - 1]
    {
      if atCmdLen == 0 {
        return;
      }
      ghost var p := Pending();
      atBuf[atCmdLen] := NUL;
      atCmdLen := atCmdLen - 1;
      if atBuf[atCmdLen] == QUOTE {
        insideQuotes := !insideQuotes;
      }
      atBuf[atCmdLen] := 0x20;
      atBuf[atCmdLen] := NUL;
      assert Pending() == p[..|p| - 1];
    }

    /** Lines 177-192: append, unless the buffer is full. */
    method Append(c: byte)
      requires Valid()
      modifies this`atCmdLen, this`insideQuotes, atBuf
      ensures Valid() && lines == old(lines)
      ensures Pending() == if old(|Pending()|) >= cap then old(Pending()) else old(Pending()) + [c]
    {
      if atCmdLen + 1 > cap {
        return;
      }
      ghost var p := Pending();
      atBuf[atCmdLen] := c;
      atCmdLen := atCmdLen + 1;
      assert Pending() == p + [c];
      QuotesAppend(p, c);
      if c == QUOTE {
        insideQuotes := !insideQuotes;
      }
    }

    /** Lines 151-175: does c end the line? */
    method EndsLine(c: byte) returns (send: bool)
      requires Valid()
      ensures send <==> Terminates(mode, Pending(), c)
    {
      send := false;
      if !insideQuotes {
        if c == NUL {
          send := mode == NullTerm;
        } else if c == CR {
          send := mode == CrTerm;
        } else if c == LF {
          if mode == LfTerm {
            send := true;
          } else if mode == CrLfTerm && atCmdLen > 0 && atBuf[atCmdLen - 1] == CR {
            send := true;
          }
        }
      }
    }

    /** at_cmd_mode_cmd_rx_handler: one byte is one step of the reference editor, the quote flag
        keeps its meaning, and the modem has run exactly the commands of the dispatched lines. */
    method RxHandler(c: byte, rsp: nat -> seq<byte>)
      requires Valid()
      modifies this`atCmdLen, this`insideQuotes, this`pipeCnt, this`pipeStart, this`pipeLen, this`lines, this`sent,
               atBuf, pipelined
      ensures Valid()
      ensures View() == Edit(cap, mode, old(View()), c)
      ensures sent == old(sent) + if lines == old(lines) then [] else Commands(CStr(old(Pending()), NUL))
    {
      hide AllCommands, Quotes, Commands;
      AllCommandsSnoc(lines, Pending());
      if c == BACKSPACE || c == DEL {
        Erase();
        return;
      }
      var send := EndsLine(c);
      if send {
        Send(rsp);
      } else {
        Append(c);
      }
    }

    /** Lines 261-274. */
    method CheckEscape(recv: seq<byte>) returns (escape: bool)
      requires recv != []
      ensures escape <==> EscapeHere(tail, recv)
    {
      escape := false;
      if tail == CAN && recv[0] == DC1 {
        escape := true;
      } else {
        var i := 0;
        while i < |recv| - 1
          invariant 0 <= i <= |recv| - 1
          invariant !escape && forall j :: 0 <= j < i ==> !(recv[j] == CAN && recv[j + 1] == DC1)
        {
          if recv[i] == CAN && recv[i + 1] == DC1 {
            escape := true;
            break;
          }
          i := i + 1;
        }
      }
    }

    /** at_cmd_mode_bypass_cb */
    method BypassCb(recv: seq<byte>, rsp: nat -> seq<byte>)
      requires Valid() && active && recv != []
      modifies this`active, this`tail, this`atCmdLen, this`insideQuotes, this`pipeCnt, this`pipeStart, this`pipeLen,
               this`lines, this`sent, atBuf, pipelined
      ensures Valid()
      ensures SessionView() == Bypass(cap, mode, old(SessionView()), recv)
      ensures active <==> !EscapeHere(old(tail), recv)
      ensures !active ==> lines == old(lines) && sent == old(sent) && Pending() == []
    {
      hide Edit, AllCommands;
      var escape := CheckEscape(recv);
      if escape {
        active := false;
        insideQuotes := false;
        tail := NUL;
        atCmdLen := 0;
        return;
      }
      tail := recv[|recv| - 1];
      ghost var e := View();
      for i := 0 to |recv|
        invariant Valid() && active && tail == recv[|recv| - 1]
        invariant EditAll(cap, mode, e, recv) == EditAll(cap, mode, View(), recv[i..])
      {
        assert recv[i..][1..] == recv[i + 1..];
        RxHandler(recv[i], rsp);
      }
    }
  }
}
