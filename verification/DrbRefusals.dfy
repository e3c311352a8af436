/** When a PDU session loses all its DRBs: what the table and the context must be like before the requests are
    served. */
module DrbRefusals {
  import opened Options
  import opened T = TunnelStore
  import opened Openings
  import U = UeStore
  import opened Drb
  import opened Outcomes
  import opened Pdus
  import Bearer
  import UeUndo

  /** How a refusal leaves the table: nothing moves but the id cursor, and that only if no row is left. */
  ghost predicate CursorMoved(t: Store, t': Store) {
    t' == t || (NoRowLeft(t) && t' == t.(lastId := t'.lastId))
  }

  /** The DRB limit is reached, a listed DRB has the id, no id is left under the DRB address, or no row. */
  ghost predicate DrbRefused(t: Store, c: U.UeCtx, req: DrbReq)
    requires Sound(t, c)
  {
    c.drbCount == U.MAX_DRB_PER_UE || (exists i :: 0 <= i < c.drbCount && t.rows[c.drbs[i].value].id == req.drbId) ||
    NoIdLeft(t, F1U_LOCAL_IP) || NoRowLeft(t)
  }

  /** The answer to a DRB request, on the state before it. A rejected one is told the cause; an accepted one is given
      the next id under the DRB address and the next row, which holds what was asked for and is listed last. */
  ghost predicate DrbAnswered(t: Store, c: U.UeCtx, req: DrbReq, t': Store, c': U.UeCtx, o: Outcome<DrbSucc, DrbFail>)
    requires Sound(t, c)
  {
    match o
    case Rejected(f) =>
      DrbRefused(t, c, req) && c' == c && CursorMoved(t, t') && f.drbId == req.drbId &&
      f.cause == (if c.drbCount < U.MAX_DRB_PER_UE &&
                    exists i :: 0 <= i < c.drbCount && t.rows[c.drbs[i].value].id == req.drbId
                  then MultipleDrbId else ResourceUnavail)
    case Accepted(s) =>
      !DrbRefused(t, c, req) && s.drbId == req.drbId % 32 && s.ulIp == F1U_LOCAL_IP && IsNextId(t, s.ulIp, s.ulTeid) &&
      exists r: nat :: IsNextRow(t, r) &&
        t' == Store(t.rows[r := Tunnel(Key(s.ulIp, s.ulTeid), req.dlIp, req.dlTeid, DrbTunnel, s.drbId, true)],
                    t.index, r, s.ulTeid) &&
        c' == c.(drbs := c.drbs[c.drbCount := Some(r)], drbCount := c.drbCount + 1)
  }

  lemma SetupDrbAnswer(net: Net, t: Store, c: U.UeCtx, req: DrbReq)
    requires Sound(t, c)
    ensures var (t', c', o) := SetupDrb(net, t, c, req);
            DrbAnswered(t, c, req, t', c', o)
  {
    hide Open, NoIdLeft, NoRowLeft, IsNextId, IsNextRow;
    OpenTakesNext(t, net, req.dlIp, DrbTunnel, F1U_LOCAL_IP);
    var (t1, r) := Open(t, net, req.dlIp, DrbTunnel);
    var (t', c', o) := SetupDrb(net, t, c, req);
    if o.Accepted? {
      var s := o.succ;
      assert IsNextRow(t, r.value);
      assert t'.rows[r.value] == Tunnel(Key(s.ulIp, s.ulTeid), req.dlIp, req.dlTeid, DrbTunnel, s.drbId, true);
      assert t'.rows == t.rows[r.value := t'.rows[r.value]];
    }
  }

  lemma RefusalsStay(t: Store, t': Store, c: U.UeCtx, req: DrbReq)
    requires Sound(t, c) && Sound(t', c) && CursorMoved(t, t')
    ensures DrbRefused(t', c, req) <==> DrbRefused(t, c, req)
  {}

  /** The DRB loop refuses every request if and only if each would be refused on the table and context in which the
      loop starts. */
  lemma {:induction false} AllRefusedIff(net: Net, t: Store, c: U.UeCtx, reqs: seq<DrbReq>)
    requires Sound(t, c)
    ensures var (t', c', outs) := SetupDrbs(net, t, c, reqs);
            (|Rejects(outs)| == |reqs| <==> forall i :: 0 <= i < |reqs| ==> DrbRefused(t, c, reqs[i])) &&
            (|Rejects(outs)| == |reqs| ==> c' == c && CursorMoved(t, t'))
  {
    hide DrbRefused, SetupDrb, NoRowLeft, Sound;
    if reqs != [] {
      var init, req := reqs[..|reqs| - 1], reqs[|reqs| - 1];
      var (t1, c1, outs) := SetupDrbs(net, t, c, init);
      AllRefusedIff(net, t, c, init);
      AcceptsStep(outs, SetupDrb(net, t1, c1, req).2);
      if |Rejects(outs)| == |init| {
        SetupDrbAnswer(net, t1, c, req);
        RefusalsStay(t, t1, c, req);
      }
    }
  }

  /** So each request of the loop is answered, on the state that the ones before it have left. */
  lemma {:induction false} SetupDrbsAnswer(net: Net, t: Store, c: U.UeCtx, reqs: seq<DrbReq>, i: nat)
    requires Sound(t, c) && i < |reqs|
    ensures var (t1, c1, _) := SetupDrbs(net, t, c, reqs[..i]);
            var (t2, c2, _) := SetupDrbs(net, t, c, reqs[..i + 1]);
            DrbAnswered(t1, c1, reqs[i], t2, c2, SetupDrbs(net, t, c, reqs).2[i])
  {
    hide DrbAnswered, SetupDrb, Sound;
    var init := reqs[..|reqs| - 1];
    if i < |init| {
      SetupDrbsAnswer(net, t, c, init, i);
      assert init[..i] == reqs[..i] && init[..i + 1] == reqs[..i + 1];
    } else {
      var (t1, c1, _) := SetupDrbs(net, t, c, init);
      SetupDrbAnswer(net, t1, c1, reqs[i]);
      assert reqs[..i + 1] == reqs;
    }
  }

  /** The session gets its row, and in that state each of its DRBs finds the limit reached, its id listed, or no
      tunnel to open. */
  ghost predicate LosesAllDrbs(net: Net, t: Store, c: U.UeCtx, req: PdusReq)
    requires Sound(t, c)
  {
    var (t1, r) := OpenPdus(net, t, c, req);
    r.Some? && forall i :: 0 <= i < |req.drbs| ==> DrbRefused(t1, c, req.drbs[i])
  }

  lemma AllDrbsFailIff(net: Net, t: Store, c: U.UeCtx, req: PdusReq)
    requires Sound(t, c)
    ensures AllDrbsFail(net, t, c, req) <==> LosesAllDrbs(net, t, c, req)
  {
    hide DrbRefused, OpenPdus;
    var (t1, r) := OpenPdus(net, t, c, req);
    AllRefusedIff(net, t1, c, req.drbs);
  }

  /** The i-th request, when it is served. */
  ghost predicate LosesAllDrbsAt(net: Net, t: Store, c: U.UeCtx, reqs: seq<PdusReq>, i: nat)
    requires Sound(t, c) && i < |reqs|
  {
    var (t1, c1, _) := Bearer.SetupAll(net, t, c, reqs[..i]);
    LosesAllDrbs(net, t1, c1, reqs[i])
  }

  lemma EarlierRequest(net: Net, t: Store, c: U.UeCtx, reqs: seq<PdusReq>, i: nat)
    requires Sound(t, c) && i + 1 < |reqs|
    ensures LosesAllDrbsAt(net, t, c, reqs[..|reqs| - 1], i) == LosesAllDrbsAt(net, t, c, reqs, i)
  {
    assert reqs[..|reqs| - 1][..i] == reqs[..i];
  }

  lemma LastRequest(net: Net, t: Store, c: U.UeCtx, reqs: seq<PdusReq>)
    requires Sound(t, c) && reqs != []
    ensures var init := reqs[..|reqs| - 1];
            UeUndo.SomeAllDrbsFail(net, t, c, reqs) <==>
            UeUndo.SomeAllDrbsFail(net, t, c, init) || LosesAllDrbsAt(net, t, c, reqs, |init|)
  {
    hide LosesAllDrbs, AllDrbsFail, Bearer.SetupAll;
    var init := reqs[..|reqs| - 1];
    var (t1, c1, _) := Bearer.SetupAll(net, t, c, init);
    AllDrbsFailIff(net, t1, c1, reqs[|init|]);
  }

  /** The condition that UeUndo.UndoGivesBackAllIff needs to fail: some request loses all its DRBs when served. */
  lemma {:induction false} SomeAllDrbsFailIff(net: Net, t: Store, c: U.UeCtx, reqs: seq<PdusReq>)
    requires Sound(t, c)
    ensures UeUndo.SomeAllDrbsFail(net, t, c, reqs) <==>
            exists i: nat :: i < |reqs| && LosesAllDrbsAt(net, t, c, reqs, i)
  {
    hide LosesAllDrbs, AllDrbsFail, LosesAllDrbsAt, Bearer.SetupAll, Sound;
    if reqs != [] {
      var init := reqs[..|reqs| - 1];
      SomeAllDrbsFailIff(net, t, c, init);
      LastRequest(net, t, c, reqs);
      forall i: nat | i < |init|
        ensures LosesAllDrbsAt(net, t, c, init, i) == LosesAllDrbsAt(net, t, c, reqs, i)
      {
        EarlierRequest(net, t, c, reqs, i);
      }
    }
  }
}
