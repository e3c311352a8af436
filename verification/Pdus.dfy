/** PDU session setup (pdus.c): one tunnel row for the session and one for each of its DRBs. The methods change table,
    context and reply in place, as the function SetupPdus says. */
module Pdus {
  import opened Options
  import opened T = TunnelStore
  import opened Drb
  import opened Outcomes
  import U = UeStore
  import UeTable

  const MAX_DRB_PER_PDUS: nat := U.MAX_DRB_PER_UE

  /** pdus_setup_req_info_t; drb_count is the length of the list. */
  datatype PdusReq = PdusReq(pdusId: Byte, ulIp: Ip, ulTeid: nat, drbs: seq<DrbReq>)

  /** What a pdus_setup_succ_rsp_info_t reports, and pdus_setup_fail_rsp_info_t. */
  datatype PdusSucc = PdusSucc(pdusId: nat, dlIp: Ip, dlTeid: nat, succ: seq<DrbSucc>, fail: seq<DrbFail>)

  datatype PdusFail = PdusFail(pdusId: nat, cause: Cause)

  /** pdus_setup_succ_rsp_info_t itself: fixed arrays of DRB responses and the counts of those in use. */
  datatype PdusReply = PdusReply(pdusId: nat, succCount: nat, failCount: nat, dlIp: Ip, dlTeid: nat,
                                 succ: seq<DrbSucc>, fail: seq<DrbFail>)
  {
    ghost predicate Shaped() {
      |succ| == |fail| == MAX_DRB_PER_PDUS
    }

    ghost function Reported(): PdusSucc
      requires Shaped() && succCount <= MAX_DRB_PER_PDUS && failCount <= MAX_DRB_PER_PDUS
    {
      PdusSucc(pdusId, dlIp, dlTeid, succ[..succCount], fail[..failCount])
    }
  }

  ghost predicate PdusListed(t: Store, c: U.UeCtx, id: nat)
    requires Sound(t, c)
  {
    exists i :: 0 <= i < c.pdusCount && t.rows[c.pdus[i].value].id == id
  }

  /** The DRB loop of pdus_setup: what becomes of each request, in order. */
  ghost function SetupDrbs(net: Net, t: Store, c: U.UeCtx, reqs: seq<DrbReq>):
    (r: (Store, U.UeCtx, seq<Outcome<DrbSucc, DrbFail>>))
    requires Sound(t, c)
    ensures |r.2| == |reqs| && Sound(r.0, r.1) && |r.0.rows| == |t.rows|
    ensures r.1 == c.(drbs := r.1.drbs, drbCount := r.1.drbCount)
  {
    if reqs == [] then (t, c, [])
    else
      var (t1, c1, outs) := SetupDrbs(net, t, c, reqs[..|reqs| - 1]);
      var (t2, c2, o) := SetupDrb(net, t1, c1, reqs[|reqs| - 1]);
      (t2, c2, outs + [o])
  }

  function AppendPdus(c: U.UeCtx, r: nat): U.UeCtx
    requires U.Shaped(c) && c.pdusCount < U.MAX_PDUS_PER_UE
  {
    c.(pdus := c.pdus[c.pdusCount := Some(r)], pdusCount := c.pdusCount + 1)
  }

  /** The row taken for a PDU session, filled in; None when a check or the allocation fails first. */
  ghost function OpenPdus(net: Net, t: Store, c: U.UeCtx, req: PdusReq): (r: (Store, Option<nat>))
    requires Sound(t, c)
    ensures Sound(r.0, c) && |r.0.rows| == |t.rows|
    ensures r.1.Some? ==> r.1.value < |t.rows| && c.pdusCount < U.MAX_PDUS_PER_UE
  {
    if c.pdusCount == U.MAX_PDUS_PER_UE || PdusListed(t, c, req.pdusId) then (t, None)
    else
      var (t1, r) := Open(t, net, req.ulIp, PdusTunnel);
      if r.None? then (t1, None) else (Fill(t1, r.value, req.ulIp, req.ulTeid, PdusTunnel, req.pdusId), r)
  }

  ghost function RefusalCause(t: Store, c: U.UeCtx, req: PdusReq): Cause
    requires Sound(t, c)
  {
    if c.pdusCount < U.MAX_PDUS_PER_UE && PdusListed(t, c, req.pdusId) then MultiplePdusId else ResourceUnavail
  }

  /** The request got its row but none of its DRBs: pdus_setup's failure tail is taken (pdus.c:117-127). */
  ghost predicate AllDrbsFail(net: Net, t: Store, c: U.UeCtx, req: PdusReq)
    requires Sound(t, c)
  {
    var (t1, r) := OpenPdus(net, t, c, req);
    r.Some? && |Rejects(SetupDrbs(net, t1, c, req.drbs).2)| == |req.drbs|
  }

  /** The failure tail of pdus_setup removes by key and then commits the row (pdus.c:122-123). */
  function FailureTail(t: Store, key: Key, r: nat): (t': Store)
    requires T.Valid(t) && r < |t.rows|
    ensures T.Valid(t') && |t'.rows| == |t.rows|
  {
    Commit(Remove(t, key).0, r)
  }

  /** pdus_setup */
  ghost function SetupPdus(net: Net, t: Store, c: U.UeCtx, req: PdusReq):
    (r: (Store, U.UeCtx, Outcome<PdusSucc, PdusFail>))
    requires Sound(t, c)
    ensures Sound(r.0, r.1) && |r.0.rows| == |t.rows|
    ensures r.1 == c.(drbs := r.1.drbs, drbCount := r.1.drbCount, pdus := r.1.pdus, pdusCount := r.1.pdusCount)
  {
    var (t1, r) := OpenPdus(net, t, c, req);
    if r.None? then
      (t1, c, Rejected(PdusFail(req.pdusId, RefusalCause(t, c, req))))
    else
      var key := t1.rows[r.value].key;
      var (t2, c2, outs) := SetupDrbs(net, t1, c, req.drbs);
      if |Rejects(outs)| == |req.drbs| then
        (FailureTail(t2, key, r.value), c2, Rejected(PdusFail(req.pdusId, ResourceUnavail)))
      else
        (t2, AppendPdus(c2, r.value), Accepted(PdusSucc(req.pdusId, key.ip, key.teid, Accepts(outs), Rejects(outs))))
  }

  /** The first part of pdus_setup: the checks, the allocation and the session's details. */
  method OpenRow(ues: UeTable.UeTable, u: nat, net: Net, req: PdusReq) returns (r: Option<nat>, cause: Cause)
    requires ues.Valid() && u < ues.rows.Length && Sound(ues.tunnels.Abs(), ues.rows[u])
    modifies ues.tunnels`lastId, ues.tunnels`slot, ues.tunnels.rows
    ensures (ues.tunnels.Abs(), r) == OpenPdus(net, old(ues.tunnels.Abs()), ues.rows[u], req)
    ensures r.None? ==> cause == RefusalCause(old(ues.tunnels.Abs()), ues.rows[u], req)
    ensures ues.tunnels.Valid()
  {
    hide KeyAlloc, Add, U.ValidUes;
    var c := ues.rows[u];
    if c.pdusCount == U.MAX_PDUS_PER_UE {
      return None, ResourceUnavail;
    }
    for i := 0 to c.pdusCount
      invariant forall k :: 0 <= k < i ==> ues.tunnels.rows[c.pdus[k].value].id != req.pdusId
    {
      if ues.tunnels.rows[c.pdus[i].value].id == req.pdusId {
        return None, MultiplePdusId;
      }
    }
    cause := ResourceUnavail;
    var key := ues.tunnels.KeyAlloc(net, req.ulIp, PdusTunnel);
    if key.None? {
      return None, ResourceUnavail;
    }
    r := ues.tunnels.Add(key.value);
    if r.Some? {
      ues.tunnels.Fill(r.value, req.ulIp, req.ulTeid, PdusTunnel, req.pdusId);
    }
  }

  lemma SetupDrbsStep(net: Net, t: Store, c: U.UeCtx, reqs: seq<DrbReq>, i: nat)
    requires Sound(t, c) && i < |reqs|
    ensures var (t1, c1, outs) := SetupDrbs(net, t, c, reqs[..i]);
            var (t2, c2, o) := SetupDrb(net, t1, c1, reqs[i]);
            SetupDrbs(net, t, c, reqs[..i + 1]) == (t2, c2, outs + [o])
  {
    assert reqs[..i + 1][..i] == reqs[..i];
  }

  /** The reply's lists in use are the accepted and the rejected requests so far; its header is unchanged. */
  ghost predicate Filled(was: PdusReply, now: PdusReply, outs: seq<Outcome<DrbSucc, DrbFail>>) {
    now.Shaped() && |outs| <= MAX_DRB_PER_PDUS &&
    now.pdusId == was.pdusId && now.dlIp == was.dlIp && now.dlTeid == was.dlTeid &&
    now.succCount == |Accepts(outs)| && now.failCount == |Rejects(outs)| && now.succCount + now.failCount == |outs| &&
    now.succ[..now.succCount] == Accepts(outs) && now.fail[..now.failCount] == Rejects(outs)
  }

  lemma FilledStep(was: PdusReply, now: PdusReply, outs: seq<Outcome<DrbSucc, DrbFail>>, o: Outcome<DrbSucc, DrbFail>)
    requires Filled(was, now, outs) && |outs| < MAX_DRB_PER_PDUS
    ensures Filled(was,
              match o
              case Accepted(s) => now.(succ := now.succ[now.succCount := s], succCount := now.succCount + 1)
              case Rejected(f) => now.(fail := now.fail[now.failCount := f], failCount := now.failCount + 1), outs + [o])
  {
    AcceptsStep(outs, o);
  }

  /** The DRB loop. Each request is handed the next free slot of either list, and only the slot that gets
      filled is counted, so the other one is handed out again. */
  method ServeDrbs(ues: UeTable.UeTable, u: nat, net: Net, reqs: seq<DrbReq>, reply: PdusReply) returns (reply': PdusReply)
    requires ues.Valid() && u < ues.rows.Length && Sound(ues.tunnels.Abs(), ues.rows[u])
    requires reply.Shaped() && reply.succCount == reply.failCount == 0 && |reqs| <= MAX_DRB_PER_PDUS
    modifies ues.rows, ues.tunnels`lastId, ues.tunnels`slot, ues.tunnels.rows
    ensures var (t', c', outs) := SetupDrbs(net, old(ues.tunnels.Abs()), old(ues.rows[u]), reqs);
            ues.tunnels.Abs() == t' && ues.rows[..] == old(ues.rows[..])[u := c'] &&
            Filled(reply, reply', outs)
    ensures ues.Valid()
  {
    hide SetupDrb, U.ValidUes, U.Pointed;
    reply' := reply;
    ghost var t0, c0 := ues.tunnels.Abs(), ues.rows[u];
    ghost var outs: seq<Outcome<DrbSucc, DrbFail>> := [];
    for i := 0 to |reqs|
      invariant ues.Valid()
      invariant (ues.tunnels.Abs(), ues.rows[u], outs) == SetupDrbs(net, t0, c0, reqs[..i])
      invariant ues.rows[..] == old(ues.rows[..])[u := ues.rows[u]]
      invariant Filled(reply, reply', outs)
    {
      var s, f := reply'.succ[reply'.succCount], reply'.fail[reply'.failCount];
      ghost var o := SetupDrb(net, ues.tunnels.Abs(), ues.rows[u], reqs[i]).2;
      SetupDrbsStep(net, t0, c0, reqs, i);
      FilledStep(reply, reply', outs, o);
      var status, s', f' := DrbSetup(ues, u, net, reqs[i], s, f);
      outs := outs + [o];
      reply' := reply'.(succ := reply'.succ[reply'.succCount := s'], fail := reply'.fail[reply'.failCount := f']);
      if status == Failed {
        reply' := reply'.(failCount := reply'.failCount + 1);
      } else {
        reply' := reply'.(succCount := reply'.succCount + 1);
      }
    }
    assert reqs[..|reqs|] == reqs;
  }

  method PdusSetup(ues: UeTable.UeTable, u: nat, net: Net, req: PdusReq, succ: PdusReply, fail: PdusFail)
    returns (status: Status, succ': PdusReply, fail': PdusFail)
    requires ues.Valid() && u < ues.rows.Length && Sound(ues.tunnels.Abs(), ues.rows[u])
    requires succ.Shaped() && |req.drbs| <= MAX_DRB_PER_PDUS
    modifies ues.rows, ues.tunnels`lastId, ues.tunnels`slot, ues.tunnels`index, ues.tunnels.rows
    ensures var (t', c', o) := SetupPdus(net, old(ues.tunnels.Abs()), old(ues.rows[u]), req);
            ues.tunnels.Abs() == t' && ues.rows[..] == old(ues.rows[..])[u := c'] && succ'.Shaped() &&
            match o
            case Accepted(s) =>
              status == Success && fail' == fail &&
              succ'.succCount + succ'.failCount == |req.drbs| && succ'.Reported() == s
            case Rejected(f) => status == Failed && fail' == f
    ensures ues.Valid()
  {
    hide SetupDrbs, OpenPdus, T.Commit, T.Remove;
    succ', fail' := succ, fail;
    var r, cause := OpenRow(ues, u, net, req);
    if r.None? {
      fail' := PdusFail(req.pdusId, cause);
      return Failed, succ', fail';
    }
    var key := ues.tunnels.rows[r.value].key;
    succ' := succ'.(pdusId := req.pdusId, succCount := 0, failCount := 0, dlIp := key.ip, dlTeid := key.teid);
    succ' := ServeDrbs(ues, u, net, req.drbs, succ');
    if succ'.failCount == |req.drbs| {
      var _ := ues.tunnels.Remove(key);
      var position: nat := *;
      var _ := ues.tunnels.Commit(r, position);
      fail' := PdusFail(req.pdusId, ResourceUnavail);
      return Failed, succ', fail';
    }
    ues.rows[u] := AppendPdus(ues.rows[u], r.value);
    return Success, succ', fail';
  }
}
