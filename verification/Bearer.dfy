/** BEARER CONTEXT SETUP and RELEASE (e1ap_bearer_setup.c, e1ap_bearer_release.c). Each method changes both tables and
    the reply in place, and is proved to leave them as the functions here say. */
module Bearer {
  import opened Options
  import T = TunnelStore
  import opened Drb
  import opened Outcomes
  import opened Pdus
  import U = UeStore
  import UeTable

  /** e1ap_bearer_ctx_setup_rsp_t */
  class Reply {
    var cucpId: nat
    var cuupId: nat
    var cause: Cause
    var succCount: nat
    var failCount: nat
    const succ: array<PdusReply>
    const fail: array<PdusFail>

    ghost predicate Shaped()
      reads this, succ
    {
      succ.Length == fail.Length == U.MAX_PDUS_PER_UE &&
      forall i :: 0 <= i < succ.Length ==> succ[i].Shaped()
    }

    /** The counted slots are the accepted and the rejected requests, in order. */
    ghost predicate Reports(outs: seq<Outcome<PdusSucc, PdusFail>>)
      reads this, succ, fail
    {
      Shaped() && succCount == |Accepts(outs)| <= succ.Length && failCount == |Rejects(outs)| <= fail.Length &&
      fail[..failCount] == Rejects(outs) &&
      forall i :: 0 <= i < succCount ==>
        succ[i].succCount <= MAX_DRB_PER_PDUS && succ[i].failCount <= MAX_DRB_PER_PDUS &&
        succ[i].Reported() == Accepts(outs)[i]
    }
  }

  /** The request loop on a new context. */
  ghost function SetupAll(net: T.Net, t: T.Store, c: U.UeCtx, reqs: seq<PdusReq>):
    (r: (T.Store, U.UeCtx, seq<Outcome<PdusSucc, PdusFail>>))
    requires Sound(t, c)
    ensures |r.2| == |reqs| && Sound(r.0, r.1) && |r.0.rows| == |t.rows|
    ensures r.1 == c.(drbs := r.1.drbs, drbCount := r.1.drbCount, pdus := r.1.pdus, pdusCount := r.1.pdusCount)
  {
    if reqs == [] then (t, c, [])
    else
      var (t1, c1, outs) := SetupAll(net, t, c, reqs[..|reqs| - 1]);
      var (t2, c2, o) := SetupPdus(net, t1, c1, reqs[|reqs| - 1]);
      (t2, c2, outs + [o])
  }

  /** The context row as e1ap_bearer_ctx_setup fills it in before the first request. */
  function Blank(c: U.UeCtx, cucpId: nat): U.UeCtx {
    c.(cucpId := cucpId, pdusCount := 0, drbCount := 0)
  }

  /** The state in which the request loop starts, with the UE row taken; None if no id or no row is free. */
  function OpenUe(u: U.UeStore, cucpId: nat): (r: (U.UeStore, Option<nat>))
    requires U.ValidUes(u)
    ensures U.ValidUes(r.0) && |r.0.rows| == |u.rows|
    ensures r.1.Some? ==> r.1.value < |u.rows| && r.0.rows[r.1.value].cuupId !in r.0.index
    ensures r.1.Some? ==> r.0.rows[r.1.value] == Blank(r.0.rows[r.1.value], cucpId)
  {
    var (u1, id) := U.IdAlloc(u);
    if id.None? then (u1, None)
    else
      var (u2, r) := U.Add(u1, id.value);
      if r.None? then (u2, None) else (u2.(rows := u2.rows[r.value := Blank(u2.rows[r.value], cucpId)]), r)
  }

  /** The state when the request loop is done and the context not yet committed. */
  ghost function AfterRequests(net: T.Net, sys: U.System, cucpId: nat, reqs: seq<PdusReq>):
    (r: (U.System, Option<nat>, seq<Outcome<PdusSucc, PdusFail>>))
    requires U.Valid(sys)
    ensures U.Valid(r.0) && (r.1.Some? ==> r.1.value < |r.0.u.rows| && Sound(r.0.t, r.0.u.rows[r.1.value]))
    ensures r.1.Some? ==> r.0.u.rows[r.1.value].cuupId !in r.0.u.index
  {
    var (u1, r) := OpenUe(sys.u, cucpId);
    if r.None? then (U.System(sys.t, u1), None, [])
    else
      var (t', c', outs) := SetupAll(net, sys.t, u1.rows[r.value], reqs);
      (U.System(t', u1.(rows := u1.rows[r.value := c'])), r, outs)
  }

  /** The end of e1ap_bearer_ctx_setup. When every request failed the context's id is removed, which misses
      since it is not committed yet, and the context is committed all the same (e1ap_bearer_setup.c:100-105). */
  ghost function Concluded(sys: U.System, r: nat, outs: seq<Outcome<PdusSucc, PdusFail>>): (s: U.System)
    requires U.Valid(sys) && r < |sys.u.rows| && Sound(sys.t, sys.u.rows[r])
    requires sys.u.rows[r].cuupId !in sys.u.index
    ensures U.Valid(s)
  {
    if Accepts(outs) == [] then U.Commit(U.Remove(sys, sys.u.rows[r].cuupId).0, r) else U.Commit(sys, r)
  }

  /** e1ap_bearer_ctx_setup */
  ghost function SetupBearer(net: T.Net, sys: U.System, cucpId: nat, reqs: seq<PdusReq>): (s: U.System)
    requires U.Valid(sys)
    ensures U.Valid(s)
  {
    var (s1, r, outs) := AfterRequests(net, sys, cucpId, reqs);
    if r.None? then s1 else Concluded(s1, r.value, outs)
  }

  /** The tail taken when every request failed. */
  method CommitRemoved(ues: UeTable.UeTable, r: nat)
    requires ues.Valid() && r < ues.rows.Length && Sound(ues.tunnels.Abs(), ues.rows[r])
    requires ues.rows[r].cuupId !in ues.index
    modifies ues`index, ues.rows, ues.tunnels`index, ues.tunnels.rows
    ensures ues.Abs() == U.Commit(U.Remove(old(ues.Abs()), old(ues.rows[r].cuupId)).0, r)
    ensures ues.Valid()
  {
    var _ := ues.Remove(ues.rows[r].cuupId);
    var position: nat := *;
    var _ := ues.Commit(Some(r), position);
  }

  /** The commit, or the failure tail. */
  method Conclude(ues: UeTable.UeTable, r: nat, rsp: Reply, ghost outs: seq<Outcome<PdusSucc, PdusFail>>)
    returns (status: T.Status)
    requires ues.Valid() && r < ues.rows.Length && Sound(ues.tunnels.Abs(), ues.rows[r])
    requires ues.rows[r].cuupId !in ues.index && rsp.Reports(outs)
    modifies ues`index, ues.rows, ues.tunnels`index, ues.tunnels.rows, rsp`cuupId, rsp`cause
    ensures ues.Valid() && ues.Abs() == Concluded(old(ues.Abs()), r, outs)
    ensures rsp.Reports(outs)
    ensures if Accepts(outs) == [] then status == T.Failed && rsp.cuupId == old(ues.rows[r].cucpId) && rsp.cause == Unspecified
            else status == T.Success && rsp.cuupId == old(rsp.cuupId) && rsp.cause == old(rsp.cause)
  {
    hide U.Commit, U.Remove, U.ValidUes, Accepts, Rejects;
    if rsp.succCount == 0 {
      rsp.cuupId, rsp.cause := ues.rows[r].cucpId, Unspecified;
      CommitRemoved(ues, r);
      return T.Failed;
    }
    var position: nat := *;
    status := ues.Commit(Some(r), position);
  }

  /** The first part of e1ap_bearer_ctx_setup: takes an id and a row and fills in the basics. */
  method StartUe(ues: UeTable.UeTable, cucpId: nat) returns (r: Option<nat>)
    requires ues.Valid()
    modifies ues`lastId, ues`slot, ues.rows
    ensures (ues.Ues(), r) == OpenUe(old(ues.Ues()), cucpId)
    ensures ues.Valid()
  {
    var id := ues.IdAlloc();
    if id.None? {
      return None;
    }
    r := ues.Add(id.value);
    if r.Some? {
      ghost var was := ues.rows[..];
      ues.rows[r.value] := Blank(ues.rows[r.value], cucpId);
      assert ues.rows[..] == was[r.value := ues.rows[r.value]];
    }
  }

  /** Both slots handed to pdus_setup may have been written; only the one that applies is counted. */
  method Record(rsp: Reply, ghost outs: seq<Outcome<PdusSucc, PdusFail>>, ghost o: Outcome<PdusSucc, PdusFail>,
                status: T.Status, s: PdusReply, f: PdusFail)
    requires rsp.Reports(outs) && |outs| < U.MAX_PDUS_PER_UE && s.Shaped()
    requires match o
             case Accepted(succ) =>
               status == T.Success && s.succCount <= MAX_DRB_PER_PDUS && s.failCount <= MAX_DRB_PER_PDUS && s.Reported() == succ
             case Rejected(fail) => status == T.Failed && f == fail
    modifies rsp`succCount, rsp`failCount, rsp.succ, rsp.fail
    ensures rsp.Reports(outs + [o])
  {
    PartitionCount(outs);
    AcceptsStep(outs, o);
    rsp.succ[rsp.succCount] := s;
    rsp.fail[rsp.failCount] := f;
    if status == T.Failed {
      rsp.failCount := rsp.failCount + 1;
    } else {
      rsp.succCount := rsp.succCount + 1;
    }
  }

  /** One turn of the request loop, on the next free slot of either list. */
  method ServeOne(ues: UeTable.UeTable, u: nat, net: T.Net, req: PdusReq, rsp: Reply, ghost outs: seq<Outcome<PdusSucc, PdusFail>>)
    returns (ghost o: Outcome<PdusSucc, PdusFail>)
    requires ues.Valid() && u < ues.rows.Length && Sound(ues.tunnels.Abs(), ues.rows[u])
    requires rsp.Reports(outs) && |outs| < U.MAX_PDUS_PER_UE && |req.drbs| <= MAX_DRB_PER_PDUS
    modifies ues.rows, ues.tunnels`lastId, ues.tunnels`slot, ues.tunnels`index, ues.tunnels.rows
    modifies rsp`succCount, rsp`failCount, rsp.succ, rsp.fail
    ensures (ues.tunnels.Abs(), ues.rows[u], o) == SetupPdus(net, old(ues.tunnels.Abs()), old(ues.rows[u]), req)
    ensures ues.rows[..] == old(ues.rows[..])[u := ues.rows[u]]
    ensures rsp.Reports(outs + [o]) && ues.Valid()
  {
    o := SetupPdus(net, ues.tunnels.Abs(), ues.rows[u], req).2;
    PartitionCount(outs);
    var status, s, f := PdusSetup(ues, u, net, req, rsp.succ[rsp.succCount], rsp.fail[rsp.failCount]);
    Record(rsp, outs, o, status, s, f);
  }

  lemma SetupAllStep(net: T.Net, t: T.Store, c: U.UeCtx, reqs: seq<PdusReq>, i: nat)
    requires Sound(t, c) && i < |reqs|
    ensures var (t1, c1, outs) := SetupAll(net, t, c, reqs[..i]);
            var (t2, c2, o) := SetupPdus(net, t1, c1, reqs[i]);
            SetupAll(net, t, c, reqs[..i + 1]) == (t2, c2, outs + [o])
  {
    assert reqs[..i + 1][..i] == reqs[..i];
  }

  method ServeRequests(ues: UeTable.UeTable, u: nat, net: T.Net, reqs: seq<PdusReq>, rsp: Reply)
    requires ues.Valid() && u < ues.rows.Length && Sound(ues.tunnels.Abs(), ues.rows[u])
    requires rsp.Shaped() && rsp.succCount == rsp.failCount == 0 && |reqs| <= U.MAX_PDUS_PER_UE
    requires forall i :: 0 <= i < |reqs| ==> |reqs[i].drbs| <= MAX_DRB_PER_PDUS
    modifies ues.rows, ues.tunnels`lastId, ues.tunnels`slot, ues.tunnels`index, ues.tunnels.rows
    modifies rsp`succCount, rsp`failCount, rsp.succ, rsp.fail
    ensures var (t', c', outs) := SetupAll(net, old(ues.tunnels.Abs()), old(ues.rows[u]), reqs);
            ues.tunnels.Abs() == t' && ues.rows[..] == old(ues.rows[..])[u := c'] && rsp.Reports(outs)
    ensures ues.Valid()
  {
    hide SetupPdus, U.ValidUes, U.Pointed;
    ghost var t0, c0 := ues.tunnels.Abs(), ues.rows[u];
    ghost var outs: seq<Outcome<PdusSucc, PdusFail>> := [];
    for i := 0 to |reqs|
      invariant ues.Valid()
      invariant (ues.tunnels.Abs(), ues.rows[u], outs) == SetupAll(net, t0, c0, reqs[..i])
      invariant ues.rows[..] == old(ues.rows[..])[u := ues.rows[u]]
      invariant |outs| == i && rsp.Reports(outs)
    {
      SetupAllStep(net, t0, c0, reqs, i);
      ghost var o := ServeOne(ues, u, net, reqs[i], rsp, outs);
      outs := outs + [o];
    }
    assert reqs[..|reqs|] == reqs;
  }

  /** Everything up to the commit. */
  method RunRequests(ues: UeTable.UeTable, net: T.Net, cucpId: nat, reqs: seq<PdusReq>, rsp: Reply) returns (r: Option<nat>)
    requires ues.Valid() && rsp.Shaped() && |reqs| <= U.MAX_PDUS_PER_UE
    requires forall i :: 0 <= i < |reqs| ==> |reqs[i].drbs| <= MAX_DRB_PER_PDUS
    modifies ues`lastId, ues`slot, ues.rows, ues.tunnels`lastId, ues.tunnels`slot, ues.tunnels`index, ues.tunnels.rows
    modifies rsp, rsp.succ, rsp.fail
    ensures ues.Valid()
    ensures var (s1, r1, outs) := AfterRequests(net, old(ues.Abs()), cucpId, reqs);
            (ues.Abs(), r) == (s1, r1) && rsp.cucpId == cucpId &&
            (r.None? ==> rsp.cuupId == ues.rows.Length && rsp.cause == ResourceUnavail && rsp.succCount == 0) &&
            (r.Some? ==> rsp.cuupId == ues.rows[r.value].cuupId && ues.rows[r.value].cucpId == cucpId &&
                         rsp.cause == NoCause && rsp.Reports(outs))
  {
    hide SetupAll, OpenUe;
    rsp.cucpId := cucpId;
    r := StartUe(ues, cucpId);
    if r.None? {
      rsp.cuupId, rsp.cause, rsp.succCount := ues.rows.Length, ResourceUnavail, 0;
      return None;
    }
    rsp.cuupId, rsp.cause, rsp.succCount, rsp.failCount := ues.rows[r.value].cuupId, NoCause, 0, 0;
    ServeRequests(ues, r.value, net, reqs, rsp);
  }

  method BearerSetup(ues: UeTable.UeTable, net: T.Net, cucpId: nat, reqs: seq<PdusReq>, rsp: Reply) returns (status: T.Status)
    requires ues.Valid() && rsp.Shaped() && |reqs| <= U.MAX_PDUS_PER_UE
    requires forall i :: 0 <= i < |reqs| ==> |reqs[i].drbs| <= MAX_DRB_PER_PDUS
    modifies ues, ues.rows, ues.tunnels`lastId, ues.tunnels`slot, ues.tunnels`index, ues.tunnels.rows
    modifies rsp, rsp.succ, rsp.fail
    ensures ues.Valid() && ues.Abs() == SetupBearer(net, old(ues.Abs()), cucpId, reqs)
    ensures var (s1, r, outs) := AfterRequests(net, old(ues.Abs()), cucpId, reqs);
            rsp.cucpId == cucpId &&
            if r.None? then
              status == T.Failed && rsp.cuupId == ues.rows.Length && rsp.cause == ResourceUnavail && rsp.succCount == 0
            else if Accepts(outs) == [] then
              status == T.Failed && rsp.cuupId == cucpId && rsp.cause == Unspecified && rsp.Reports(outs)
            else
              status == T.Success && rsp.cuupId == s1.u.rows[r.value].cuupId && rsp.cause == NoCause && rsp.Reports(outs)
  {
    hide AfterRequests, Concluded, U.ValidUes, Accepts, Rejects;
    ghost var (s1, r1, outs) := AfterRequests(net, ues.Abs(), cucpId, reqs);
    var r := RunRequests(ues, net, cucpId, reqs, rsp);
    if r.None? {
      return T.Failed;
    }
    status := Conclude(ues, r.value, rsp, outs);
  }

  ghost function ReleaseUe(sys: U.System, id: nat): U.System
    requires U.Valid(sys) && id in sys.u.index && U.Pointed(sys.u.rows[sys.u.index[id]], |sys.t.rows|)
  {
    U.Commit(U.Remove(sys, id).0, sys.u.index[id])
  }

  /** e1ap_bearer_ctx_release. `position` is that of the id in the hash. */
  method BearerRelease(ues: UeTable.UeTable, id: nat, position: nat) returns (status: T.Status)
    requires ues.Valid() && (id in ues.index ==> U.Pointed(ues.rows[ues.index[id]], ues.tunnels.rows.Length))
    modifies ues`index, ues.rows, ues.tunnels`index, ues.tunnels.rows
    ensures id !in old(ues.index) ==> status == T.Failed && ues.Abs() == old(ues.Abs())
    ensures id in old(ues.index) ==> ues.Abs() == ReleaseUe(old(ues.Abs()), id)
    ensures id in old(ues.index) && U.UesAgree(old(ues.Ues())) ==> (status == T.Success <==> position == 0)
    ensures ues.Valid()
  {
    var removed := ues.Remove(id);
    if removed != T.Success {
      return T.Failed;
    }
    var entry := ues.Get(id);
    status := ues.Commit(entry, position);
  }
}
