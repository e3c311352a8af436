/** DRB setup and modification (drb.c): one tunnel row per DRB, listed in the UE context. The methods change table and
    context in place, as the functions SetupDrb and ModifyDrb say. */
module Drb {
  import opened Options
  import opened T = TunnelStore
  import U = UeStore
  import UeTable

  type Byte = n: nat | n < 256

  /** The causes that the modelled requests report (e1ap_fail_cause_t). */
  datatype Cause = NoCause | Unspecified | MultiplePdusId | MultipleDrbId | UnknownDrbId | ResourceUnavail

  /** drb_setup_req_info_t */
  datatype DrbReq = DrbReq(drbId: Byte, dlIp: Ip, dlTeid: nat)

  /** drb_setup_succ_rsp_info_t and drb_setup_fail_rsp_info_t */
  datatype DrbSucc = DrbSucc(drbId: nat, ulIp: Ip, ulTeid: nat)

  datatype DrbFail = DrbFail(drbId: nat, cause: Cause)

  /** What becomes of one request: exactly one of its two response slots is filled. */
  datatype Outcome<S, F> = Accepted(succ: S) | Rejected(fail: F)

  /** The drb_id field of a row is five bits wide. */
  const DRB_ID_RANGE: nat := 32

  /** A context with the tunnel table it points into. */
  ghost predicate Sound(t: Store, c: U.UeCtx) {
    T.Valid(t) && U.Pointed(c, |t.rows|)
  }

  ghost predicate DrbListed(t: Store, c: U.UeCtx, id: nat)
    requires Sound(t, c)
  {
    exists i :: 0 <= i < c.drbCount && t.rows[c.drbs[i].value].id == id
  }

  function AppendDrb(c: U.UeCtx, r: nat): U.UeCtx
    requires U.Shaped(c) && c.drbCount < U.MAX_DRB_PER_UE
  {
    c.(drbs := c.drbs[c.drbCount := Some(r)], drbCount := c.drbCount + 1)
  }

  /** drb_setup: the new table, the new context and the response. */
  ghost function SetupDrb(net: Net, t: Store, c: U.UeCtx, req: DrbReq):
    (r: (Store, U.UeCtx, Outcome<DrbSucc, DrbFail>))
    requires Sound(t, c)
    ensures Sound(r.0, r.1) && |r.0.rows| == |t.rows|
    ensures r.1 == c.(drbs := r.1.drbs, drbCount := r.1.drbCount)
  {
    if c.drbCount == U.MAX_DRB_PER_UE then (t, c, Rejected(DrbFail(req.drbId, ResourceUnavail)))
    else if DrbListed(t, c, req.drbId) then (t, c, Rejected(DrbFail(req.drbId, MultipleDrbId)))
    else
      var (t1, r) := Open(t, net, req.dlIp, DrbTunnel);
      if r.None? then (t1, c, Rejected(DrbFail(req.drbId, ResourceUnavail)))
      else
        var key := t1.rows[r.value].key;
        var id := req.drbId % DRB_ID_RANGE;
        (Fill(t1, r.value, req.dlIp, req.dlTeid, DrbTunnel, id), AppendDrb(c, r.value),
         Accepted(DrbSucc(id, key.ip, key.teid)))
  }

  /** The two response slots are passed in and out; only the one that applies is written. */
  method DrbSetup(ues: UeTable.UeTable, u: nat, net: Net, req: DrbReq, succ: DrbSucc, fail: DrbFail)
    returns (status: Status, succ': DrbSucc, fail': DrbFail)
    requires ues.Valid() && u < ues.rows.Length && Sound(ues.tunnels.Abs(), ues.rows[u])
    modifies ues.rows, ues.tunnels`lastId, ues.tunnels`slot, ues.tunnels.rows
    ensures var (t', c', o) := SetupDrb(net, old(ues.tunnels.Abs()), old(ues.rows[u]), req);
            ues.tunnels.Abs() == t' && ues.rows[..] == old(ues.rows[..])[u := c'] &&
            match o
            case Accepted(s) => status == Success && succ' == s && fail' == fail
            case Rejected(f) => status == Failed && fail' == f && succ' == succ
    ensures ues.Valid()
  {
    hide KeyAlloc, Add;
    succ', fail' := succ, fail;
    var c := ues.rows[u];
    if c.drbCount == U.MAX_DRB_PER_UE {
      fail' := DrbFail(req.drbId, ResourceUnavail);
      return Failed, succ', fail';
    }
    for i := 0 to c.drbCount
      invariant forall k :: 0 <= k < i ==> ues.tunnels.rows[c.drbs[k].value].id != req.drbId
    {
      if ues.tunnels.rows[c.drbs[i].value].id == req.drbId {
        fail' := DrbFail(req.drbId, MultipleDrbId);
        return Failed, succ', fail';
      }
    }
    var key := ues.tunnels.KeyAlloc(net, req.dlIp, DrbTunnel);
    if key.None? {
      fail' := DrbFail(req.drbId, ResourceUnavail);
      return Failed, succ', fail';
    }
    var r := ues.tunnels.Add(key.value);
    if r.None? {
      fail' := DrbFail(req.drbId, ResourceUnavail);
      return Failed, succ', fail';
    }
    ues.tunnels.Fill(r.value, req.dlIp, req.dlTeid, DrbTunnel, req.drbId % DRB_ID_RANGE);
    var entry := ues.tunnels.rows[r.value];
    succ' := DrbSucc(entry.id, entry.key.ip, entry.key.teid);
    ues.rows[u] := AppendDrb(c, r.value);
    return Success, succ', fail';
  }

  /** drb_modify: a copy of the listed row takes its place in the list; the old row stays for a rollback. */
  function ModifyDrb(t: Store, c: U.UeCtx, idx: nat): (a: (Store, U.UeCtx, bool))
    requires T.Valid(t) && U.Pointed(c, |t.rows|) && idx < c.drbCount
    ensures T.Valid(a.0) && |a.0.rows| == |t.rows| && U.Pointed(a.1, |t.rows|)
    ensures a.1 == c.(drbs := a.1.drbs)
  {
    var entry := c.drbs[idx].value;
    var (t1, r) := Modify(t, t.rows[entry].key);
    if r.None? then (t1, c, false)
    else (t1.(rows := t1.rows[r.value := t1.rows[entry]]), c.(drbs := c.drbs[idx := r]), true)
  }

  method DrbModify(ues: UeTable.UeTable, u: nat, drbId: Byte, idx: nat, succ: DrbSucc, fail: DrbFail)
    returns (status: Status, succ': DrbSucc, fail': DrbFail)
    requires ues.Valid() && u < ues.rows.Length && Sound(ues.tunnels.Abs(), ues.rows[u]) && idx < ues.rows[u].drbCount
    modifies ues.rows, ues.tunnels`slot, ues.tunnels.rows
    ensures var (t', c', ok) := ModifyDrb(old(ues.tunnels.Abs()), old(ues.rows[u]), idx);
            ues.tunnels.Abs() == t' && ues.rows[..] == old(ues.rows[..])[u := c'] &&
            (status == if ok then Success else Failed) &&
            (ok ==> var row := ues.tunnels.rows[c'.drbs[idx].value];
                    succ' == DrbSucc(row.id, row.key.ip, row.key.teid) && fail' == fail) &&
            (!ok ==> fail' == DrbFail(drbId, UnknownDrbId) && succ' == succ)
    ensures ues.Valid()
  {
    succ', fail' := succ, fail;
    var entry := ues.rows[u].drbs[idx].value;
    var r := ues.tunnels.Modify(ues.tunnels.rows[entry].key);
    if r.None? {
      fail' := DrbFail(drbId, UnknownDrbId);
      return Failed, succ', fail';
    }
    ues.tunnels.rows[r.value] := ues.tunnels.rows[entry];
    var row := ues.tunnels.rows[r.value];
    succ' := DrbSucc(row.id, row.key.ip, row.key.teid);
    ues.rows[u] := ues.rows[u].(drbs := ues.rows[u].drbs[idx := r]);
    return Success, succ', fail';
  }
}
