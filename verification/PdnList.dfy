/** The list of PDN contexts connected by the shell
    (applications/modem_shell/src/link/link_shell_pdn.c) and its reactivation after a network
    registration (applications/modem_shell/src/link/link.c). */
module PdnList {
  import opened Wrappers
  import opened Cgact

  datatype PdnInfo = PdnInfo(pdnId: int, cid: nat)

  // ------------------------------------------------------------- specification

  predicate Ascending(list: seq<PdnInfo>) {
    forall i, j :: 0 <= i < j < |list| ==> list[i].cid < list[j].cid
  }

  predicate Listed(list: seq<PdnInfo>, cid: nat) {
    exists i :: 0 <= i < |list| && list[i].cid == cid
  }

  /** link_shell_pdn_info_list_add: an entry with the CID already there stays as it is. */
  function Added(list: seq<PdnInfo>, p: PdnInfo): seq<PdnInfo> {
    if Listed(list, p.cid) then list else Inserted(list, p)
  }

  function Inserted(list: seq<PdnInfo>, p: PdnInfo): seq<PdnInfo> {
    if list == [] then [p]
    else if p.cid < list[0].cid then [p] + list
    else [list[0]] + Inserted(list[1..], p)
  }

  /** link_shell_pdn_info_list_remove: the first entry with the CID goes. */
  function Removed(list: seq<PdnInfo>, cid: nat): seq<PdnInfo> {
    if list == [] then []
    else if list[0].cid == cid then list[1..]
    else [list[0]] + Removed(list[1..], cid)
  }

  lemma HeadSmallest(list: seq<PdnInfo>)
    requires list != [] && Ascending(list)
    ensures Ascending(list[1..])
    ensures forall q :: q in list[1..] ==> q.cid > list[0].cid
    ensures forall q :: q in list <==> q == list[0] || q in list[1..]
  {
    assert list == [list[0]] + list[1..];
  }

  lemma ConsAscending(h: PdnInfo, r: seq<PdnInfo>)
    requires Ascending(r) && forall q :: q in r ==> q.cid > h.cid
    ensures Ascending([h] + r)
    ensures forall q :: q in [h] + r <==> q == h || q in r
  {
  }

  lemma {:induction false} InsertedLaws(list: seq<PdnInfo>, p: PdnInfo)
    requires Ascending(list) && forall q :: q in list ==> q.cid != p.cid
    ensures Ascending(Inserted(list, p))
    ensures forall q :: q in Inserted(list, p) <==> q in list || q == p
  {
    if list == [] {
    } else {
      hide Ascending;
      HeadSmallest(list);
      if p.cid < list[0].cid {
        ConsAscending(p, list);
      } else {
        InsertedLaws(list[1..], p);
        ConsAscending(list[0], Inserted(list[1..], p));
      }
    }
  }

  lemma {:induction false} RemovedLaws(list: seq<PdnInfo>, cid: nat)
    requires Ascending(list)
    ensures Ascending(Removed(list, cid))
    ensures forall q :: q in Removed(list, cid) <==> q in list && q.cid != cid
  {
    if list != [] {
      hide Ascending;
      HeadSmallest(list);
      if list[0].cid != cid {
        RemovedLaws(list[1..], cid);
        ConsAscending(list[0], Removed(list[1..], cid));
      }
    }
  }

  lemma ListedIff(list: seq<PdnInfo>, cid: nat)
    ensures Listed(list, cid) <==> exists q :: q in list && q.cid == cid
  {
    if Listed(list, cid) {
      var i :| 0 <= i < |list| && list[i].cid == cid;
      assert list[i] in list;
    }
  }

  // ------------------------------------------------------------- every history

  /** Results of the foreign calls of a connect, in the order they are made. */
  datatype ConnectEnv = ConnectEnv(createOk: bool, cid: nat, familyOk: bool, configureOk: bool,
                                   authOk: bool, activateOk: bool, pdnId: int)

  /** What the list is asked for: connects and disconnects by the user, and registrations to the
      network with the answer to the activation query, if any. Any of them may fail. */
  datatype Call =
    | Connected(env: ConnectEnv, withAuth: bool)
    | Disconnected(pdnCid: int, destroyOk: bool)
    | Registered(answer: Option<string>, activateOk: nat -> bool)

  predicate ConnectOk(e: ConnectEnv, withAuth: bool) {
    e.createOk && e.familyOk && e.configureOk && (withAuth ==> e.authOk) && e.activateOk
  }

  /** A context outlives a registration: it was reported active, can be activated, or is not asked
      about. A failed query asks about context 0 throughout. */
  predicate Keeps(answer: Option<string>, activateOk: nat -> bool, cid: nat) {
    match answer
    case Some(text) => cid < PDN_CONTEXTS_MAX && !Occurs(text, Pattern(cid)) ==> activateOk(cid)
    case None => cid == 0 ==> forall i :: 0 <= i < PDN_CONTEXTS_MAX ==> activateOk(i)
  }

  function Kept(list: seq<PdnInfo>, answer: Option<string>, activateOk: nat -> bool): seq<PdnInfo> {
    if list == [] then [] else
      (if Keeps(answer, activateOk, list[0].cid) then [list[0]] else []) + Kept(list[1..], answer, activateOk)
  }

  function Do(list: seq<PdnInfo>, call: Call): seq<PdnInfo> {
    match call
    case Connected(e, withAuth) => if ConnectOk(e, withAuth) then Added(list, PdnInfo(e.pdnId, e.cid)) else list
    case Disconnected(pdnCid, destroyOk) => if destroyOk then Removed(list, pdnCid % 256) else list
    case Registered(answer, activateOk) => Kept(list, answer, activateOk)
  }

  function Replay(calls: seq<Call>): seq<PdnInfo> {
    if calls == [] then [] else Do(Replay(calls[..|calls| - 1]), calls[|calls| - 1])
  }

  predicate Adds(call: Call, cid: nat) {
    call.Connected? && ConnectOk(call.env, call.withAuth) && call.env.cid == cid
  }

  predicate Drops(call: Call, cid: nat) {
    match call
    case Connected(_, _) => false
    case Disconnected(pdnCid, destroyOk) => destroyOk && pdnCid % 256 == cid
    case Registered(answer, activateOk) => !Keeps(answer, activateOk, cid)
  }

  /** Added by call k and not removed since. */
  predicate AddedSince(calls: seq<Call>, k: int, cid: nat) {
    && 0 <= k < |calls| && Adds(calls[k], cid)
    && forall j :: k < j < |calls| ==> !Drops(calls[j], cid)
  }

  /** Over every sequence of connects, disconnects and registrations the list stays strictly
      ascending, and a CID is in it exactly when it has been added and not removed since. */
  lemma {:induction false} MembershipIff(calls: seq<Call>, cid: nat)
    ensures Ascending(Replay(calls))
    ensures Listed(Replay(calls), cid) <==> exists k :: AddedSince(calls, k, cid)
    decreases |calls|
  {
    if calls != [] {
      var init, call := calls[..|calls| - 1], calls[|calls| - 1];
      MembershipIff(init, cid);
      DoLaws(Replay(init), call, cid);
      AddedSinceStep(calls, cid);
    }
  }

  lemma {:induction false} KeptLaws(list: seq<PdnInfo>, answer: Option<string>, activateOk: nat -> bool)
    requires Ascending(list)
    ensures Ascending(Kept(list, answer, activateOk))
    ensures forall q :: q in Kept(list, answer, activateOk) <==> q in list && Keeps(answer, activateOk, q.cid)
  {
    if list != [] {
      hide Ascending, Keeps;
      HeadSmallest(list);
      KeptLaws(list[1..], answer, activateOk);
      var r := Kept(list[1..], answer, activateOk);
      ConsAscending(list[0], r);
      assert [] + r == r;
    }
  }

  /** Two ascending lists with the same entries are the same. */
  lemma {:induction false} SameEntries(a: seq<PdnInfo>, b: seq<PdnInfo>)
    requires Ascending(a) && Ascending(b) && forall q :: q in a <==> q in b
    ensures a == b
  {
    if a == [] {
      HasFirst(b);
    } else {
      assert a[0] in b;
      HeadSmallest(a);
      HeadSmallest(b);
      SameEntries(a[1..], b[1..]);
      assert a == [a[0]] + a[1..] && b == [b[0]] + b[1..];
    }
  }

  lemma HasFirst(b: seq<PdnInfo>)
    ensures b != [] ==> exists q :: q in b
  {
    if b != [] {
      assert b[0] in b;
    }
  }

  lemma DoLaws(list: seq<PdnInfo>, call: Call, cid: nat)
    requires Ascending(list)
    ensures Ascending(Do(list, call))
    ensures Listed(Do(list, call), cid) <==> Adds(call, cid) || (!Drops(call, cid) && Listed(list, cid))
  {
    hide Ascending, Listed, Keeps, ConnectOk;
    match call
    case Connected(e, withAuth) => if ConnectOk(e, withAuth) { AddedLaws(list, PdnInfo(e.pdnId, e.cid), cid); }
    case Disconnected(pdnCid, destroyOk) =>
      ListedIff(list, cid);
      ListedIff(Do(list, call), cid);
      RemovedLaws(list, pdnCid % 256);
    case Registered(answer, activateOk) =>
      ListedIff(list, cid);
      ListedIff(Do(list, call), cid);
      KeptLaws(list, answer, activateOk);
  }

  /** Adding keeps every entry, also one with the same CID, and adds at most the new one. */
  lemma AddedEntries(list: seq<PdnInfo>, p: PdnInfo)
    requires Ascending(list)
    ensures forall q :: q in Added(list, p) <==> q in list || (q == p && !Listed(list, p.cid))
  {
    hide Ascending, Listed;
    ListedIff(list, p.cid);
    if !Listed(list, p.cid) { InsertedLaws(list, p); }
  }

  lemma AddedLaws(list: seq<PdnInfo>, p: PdnInfo, cid: nat)
    requires Ascending(list)
    ensures Ascending(Added(list, p))
    ensures Listed(Added(list, p), cid) <==> p.cid == cid || Listed(list, cid)
  {
    hide Ascending, Listed;
    ListedIff(list, cid);
    ListedIff(Added(list, p), cid);
    ListedIff(list, p.cid);
    if !Listed(list, p.cid) {
      InsertedLaws(list, p);
      assert p in Inserted(list, p);
    }
  }

  lemma AddedSinceStep(calls: seq<Call>, cid: nat)
    requires calls != []
    ensures var init, call := calls[..|calls| - 1], calls[|calls| - 1];
      (exists k :: AddedSince(calls, k, cid)) <==>
      Adds(call, cid) || (!Drops(call, cid) && exists k :: AddedSince(init, k, cid))
  {
    hide Adds, Drops;
    var init, call, n := calls[..|calls| - 1], calls[|calls| - 1], |calls| - 1;
    if Adds(call, cid) {
      assert AddedSince(calls, n, cid);
    }
    forall k | AddedSince(calls, k, cid) && k < n ensures !Drops(call, cid) && AddedSince(init, k, cid) {
      assert init[k] == calls[k] && calls[n] == call;
      assert forall j :: k < j < n ==> init[j] == calls[j];
    }
    if !Drops(call, cid) {
      forall k | AddedSince(init, k, cid) ensures AddedSince(calls, k, cid) {
        forall j | k < j < |calls| ensures !Drops(calls[j], cid) {
          assert j < n ==> init[j] == calls[j];
        }
      }
    }
  }

  // ------------------------------------------------------------------ code

  class PdnShell {
    var list: seq<PdnInfo>
    // History: every connect, disconnect and registration.
    ghost var calls: seq<Call>

    ghost predicate Valid()
      reads this
    {
      list == Replay(calls) && Ascending(list)
    }

    constructor ()
      ensures Valid() && list == [] && calls == []
    {
      list, calls := [], [];
    }

    ghost method Record(call: Call)
      requires list == Do(Replay(calls), call) && Ascending(Replay(calls))
      modifies this`calls
      ensures Valid() && calls == old(calls) + [call]
    {
      DoLaws(Replay(calls), call, 0);
      calls := calls + [call];
      assert calls[..|calls| - 1] == old(calls);
    }

    /** link_shell_pdn_info_list_add */
    method Add(pdnId: int, cid: nat) returns (info: PdnInfo)
      requires Ascending(list)
      modifies this`list
      ensures Ascending(list) && list == Added(old(list), PdnInfo(pdnId, cid))
      ensures info in list && info.cid == cid
      ensures forall q :: q in list <==> q in old(list) || q == info
      ensures !old(Listed(list, cid)) ==> info == PdnInfo(pdnId, cid)
    {
      AddedEntries(list, PdnInfo(pdnId, cid));
      AddedLaws(list, PdnInfo(pdnId, cid), cid);
      var i := 0;
      while i < |list|
        invariant i <= |list| && list == old(list)
        invariant forall j :: 0 <= j < i ==> list[j].cid != cid
      {
        if list[i].cid == cid {
          info := list[i];
          return;
        }
        i := i + 1;
      }
      info := PdnInfo(pdnId, cid);
      Insert(info);
    }

    /** Lines 162-168: before the first entry with a greater CID, or at the end. */
    method Insert(info: PdnInfo)
      modifies this`list
      ensures list == Inserted(old(list), info) && info in list
    {
      var i := 0;
      while i < |list| && !(info.cid < list[i].cid)
        invariant i <= |list| && list == old(list)
        invariant forall j :: 0 <= j < i ==> list[j].cid <= info.cid
      {
        i := i + 1;
      }
      InsertedAt(list, info, i);
      list := list[..i] + [info] + list[i..];
      assert list[i] == info;
    }

    /** link_shell_pdn_info_list_find: the index, or the length for none. */
    method Find(cid: nat) returns (i: nat)
      ensures i <= |list| && (i < |list| ==> list[i].cid == cid)
      ensures forall j :: 0 <= j < i ==> list[j].cid != cid
    {
      i := 0;
      while i < |list|
        invariant i <= |list|
        invariant forall j :: 0 <= j < i ==> list[j].cid != cid
      {
        if list[i].cid == cid {
          break;
        }
        i := i + 1;
      }
    }

    /** link_shell_pdn_info_list_remove */
    method RemoveCid(cid: nat)
      requires Ascending(list)
      modifies this`list
      ensures Ascending(list) && list == Removed(old(list), cid)
      ensures forall q :: q in list <==> q in old(list) && q.cid != cid
    {
      var i := Find(cid);
      RemovedLaws(list, cid);
      RemovedAt(list, cid, i);
      if i < |list| {
        list := list[..i] + list[i + 1..];
      }
    }

    /** link_shell_pdn_info_is_in_list */
    method IsInList(cid: nat) returns (found: bool)
      ensures found <==> Listed(list, cid)
    {
      var i := Find(cid);
      found := i < |list|;
    }

    /** link_shell_pdn_connect */
    method Connect(e: ConnectEnv, withAuth: bool) returns (ret: int)
      requires Valid()
      modifies this
      ensures Valid()
      ensures ret == 0 <==> e.createOk && e.familyOk && e.configureOk && (withAuth ==> e.authOk) && e.activateOk
      ensures list == if ret == 0 then Added(old(list), PdnInfo(e.pdnId, e.cid)) else old(list)
      ensures calls == old(calls) + [Connected(e, withAuth)]
      ensures forall q :: q in old(list) ==> q in list
      ensures forall q :: q in list && q !in old(list) ==> ret == 0 && q == PdnInfo(e.pdnId, e.cid)
    {
      AddedEntries(list, PdnInfo(e.pdnId, e.cid));
      ret := TryConnect(e, withAuth);
      Record(Connected(e, withAuth));
    }

    method TryConnect(e: ConnectEnv, withAuth: bool) returns (ret: int)
      requires Ascending(list)
      modifies this`list
      ensures ret == 0 <==> ConnectOk(e, withAuth)
      ensures list == if ret == 0 then Added(old(list), PdnInfo(e.pdnId, e.cid)) else old(list)
    {
      if !e.createOk {
        return -1;
      }
      if !e.familyOk {
        return -1;
      }
      if !e.configureOk {
        return -1;
      }
      if withAuth {
        if !e.authOk {
          return -1;
        }
      }
      if !e.activateOk {
        return -1;
      }
      var _ := Add(e.pdnId, e.cid);
      ret := 0;
    }

    /** link_shell_pdn_disconnect: a failing deactivation is only reported, and the list is asked for
        the low eight bits of the CID. */
    method Disconnect(pdnCid: int, deactivateOk: bool, destroyOk: bool) returns (ret: int)
      requires Valid()
      modifies this
      ensures Valid()
      ensures ret == 0 <==> destroyOk
      ensures list == if destroyOk then Removed(old(list), pdnCid % 256) else old(list)
      ensures calls == old(calls) + [Disconnected(pdnCid, destroyOk)]
      ensures forall q :: q in list <==> q in old(list) && (destroyOk ==> q.cid != pdnCid % 256)
    {
      if !destroyOk {
        Record(Disconnected(pdnCid, destroyOk));
        return -1;
      }
      RemoveCid(pdnCid % 256);
      Record(Disconnected(pdnCid, destroyOk));
      ret := 0;
    }

    /** link_api_activate_mosh_contexts; activateOk(i) is the result of the call for entry i. */
    method ActivateMoshContexts(status: array<ActivationInfo>, activateOk: nat -> bool)
      requires Ascending(list)
      modifies this`list
      ensures Ascending(list)
      ensures forall q :: q in list <==> q in old(list) && Survives(status[..], activateOk, q.cid)
    {
      assert status[..0] == [];
      for i := 0 to status.Length
        invariant Ascending(list)
        invariant forall q :: q in list <==> q in old(list) && Survives(status[..i], activateOk, q.cid)
      {
        assert status[..i + 1][..i] == status[..i];
        var s := status[i];
        ListedIff(list, s.cid);
        SurvivesStep(status[..i], activateOk, s);
        if !s.activated {
          var mine := IsInList(s.cid);
          if mine {
            if !activateOk(i) {
              RemovedLaws(list, s.cid);
              RemoveCid(s.cid);
            }
          }
        }
        assert status[..i + 1] == status[..i] + [s];
      }
      assert status[..status.Length] == status[..];
    }

    /** link_registered_work: clear the array, query, reactivate. */
    method RegisteredWork(answer: Option<string>, activateOk: nat -> bool)
      requires Valid()
      modifies this
      ensures Valid() && list == Kept(old(list), answer, activateOk)
      ensures calls == old(calls) + [Registered(answer, activateOk)]
      ensures answer.Some? ==> forall q :: q in list <==>
                q in old(list) && (q.cid < PDN_CONTEXTS_MAX && !Occurs(answer.value, Pattern(q.cid)) ==> activateOk(q.cid))
      ensures forall lines :: answer == Some(Answer(lines)) ==> forall q :: q in list <==>
                q in old(list) && (q.cid < PDN_CONTEXTS_MAX ==> Status(q.cid, true) in lines || activateOk(q.cid))
      ensures answer.None? ==> forall q :: q in list <==>
                q in old(list) && (q.cid == 0 ==> forall i :: 0 <= i < PDN_CONTEXTS_MAX ==> activateOk(i))
    {
      hide Occurs, Pattern, Survives, Keeps, Ascending;
      var status := new ActivationInfo[PDN_CONTEXTS_MAX](_ => ActivationInfo(false, 0));
      GetPdnActivationStatus(status, answer);
      ActivateMoshContexts(status, activateOk);
      forall cid: nat ensures Survives(status[..], activateOk, cid) <==> Keeps(answer, activateOk, cid) {
        SurvivesIffKeeps(status[..], answer, activateOk, cid);
      }
      forall cid: nat {
        KeepsMeans(answer, activateOk, cid);
      }
      KeptLaws(old(list), answer, activateOk);
      SameEntries(list, Kept(old(list), answer, activateOk));
      Record(Registered(answer, activateOk));
    }
  }

  /** The entry of a context outlives the reactivation of the given contexts. */
  predicate Survives(status: seq<ActivationInfo>, activateOk: nat -> bool, cid: nat) {
    forall i :: 0 <= i < |status| && status[i] == ActivationInfo(false, cid) ==> activateOk(i)
  }

  lemma SurvivesIffKeeps(status: seq<ActivationInfo>, answer: Option<string>, activateOk: nat -> bool, cid: nat)
    requires |status| == PDN_CONTEXTS_MAX
    requires forall i :: 0 <= i < PDN_CONTEXTS_MAX ==>
      status[i] == if answer.Some? then ActivationInfo(Occurs(answer.value, Pattern(i)), i) else ActivationInfo(false, 0)
    ensures Survives(status, activateOk, cid) <==> Keeps(answer, activateOk, cid)
  {
    hide Occurs, Pattern;
    if answer.Some? && cid < PDN_CONTEXTS_MAX {
      assert status[cid].cid == cid;
    }
    if answer.None? && Survives(status, activateOk, 0) {
      forall i | 0 <= i < PDN_CONTEXTS_MAX ensures activateOk(i) {
        assert status[i] == ActivationInfo(false, 0);
      }
    }
  }

  lemma KeepsMeans(answer: Option<string>, activateOk: nat -> bool, cid: nat)
    ensures answer.Some? ==>
              (Keeps(answer, activateOk, cid) <==>
               (cid < PDN_CONTEXTS_MAX && !Occurs(answer.value, Pattern(cid)) ==> activateOk(cid)))
    ensures forall lines :: answer == Some(Answer(lines)) ==>
              (Keeps(answer, activateOk, cid) <==> (cid < PDN_CONTEXTS_MAX ==> Status(cid, true) in lines || activateOk(cid)))
    ensures answer.None? ==>
              (Keeps(answer, activateOk, cid) <==> (cid == 0 ==> forall i :: 0 <= i < PDN_CONTEXTS_MAX ==> activateOk(i)))
  {
    hide Occurs, Pattern;
    forall lines | answer == Some(Answer(lines))
      ensures Occurs(answer.value, Pattern(cid)) <==> Status(cid, true) in lines {
      SearchIffReported(lines, cid);
    }
  }

  lemma SurvivesStep(status: seq<ActivationInfo>, activateOk: nat -> bool, s: ActivationInfo)
    ensures forall cid :: Survives(status + [s], activateOk, cid) <==>
              Survives(status, activateOk, cid) && (s == ActivationInfo(false, cid) ==> activateOk(|status|))
  {
    forall cid ensures Survives(status + [s], activateOk, cid) <==>
              Survives(status, activateOk, cid) && (s == ActivationInfo(false, cid) ==> activateOk(|status|)) {
      var t := status + [s];
      assert t[|status|] == s && forall i :: 0 <= i < |status| ==> t[i] == status[i];
    }
  }

  lemma {:induction false} InsertedAt(list: seq<PdnInfo>, p: PdnInfo, i: nat)
    requires i <= |list| && (i < |list| ==> p.cid < list[i].cid)
    requires forall j :: 0 <= j < i ==> list[j].cid <= p.cid
    ensures Inserted(list, p) == list[..i] + [p] + list[i..]
  {
    if i > 0 {
      InsertedAt(list[1..], p, i - 1);
      assert list[..i] == [list[0]] + list[1..][..i - 1] && list[i..] == list[1..][i - 1..];
    } else {
      assert list[..0] + [p] + list[0..] == [p] + list;
    }
  }

  lemma {:induction false} RemovedAt(list: seq<PdnInfo>, cid: nat, i: nat)
    requires i <= |list| && (i < |list| ==> list[i].cid == cid)
    requires forall j :: 0 <= j < i ==> list[j].cid != cid
    ensures Removed(list, cid) == if i < |list| then list[..i] + list[i + 1..] else list
  {
    if i > 0 {
      RemovedAt(list[1..], cid, i - 1);
      assert list == [list[0]] + list[1..];
      if i < |list| {
        assert list[..i] + list[i + 1..] == [list[0]] + (list[1..][..i - 1] + list[1..][i..]);
      }
    }
  }
}
