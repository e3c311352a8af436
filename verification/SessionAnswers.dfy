/** How a PDU session request is answered, on the state before it. */
module SessionAnswers {
  import opened Options
  import opened T = TunnelStore
  import opened Openings
  import U = UeStore
  import opened Drb
  import opened Outcomes
  import opened Pdus
  import Bearer
  import opened SetupRuns
  import opened DrbRefusals

  ghost predicate SessionListed(t: Store, c: U.UeCtx, id: nat)
    requires Sound(t, c)
  {
    exists i :: 0 <= i < c.pdusCount && t.rows[c.pdus[i].value].id == id
  }

  /** The session limit is reached, a listed session has the id, the peer is not reachable, or no id is left under the
      address where the tunnel would start, or no row. */
  ghost predicate SessionRefused(net: Net, t: Store, c: U.UeCtx, req: PdusReq)
    requires Sound(t, c)
  {
    c.pdusCount == U.MAX_PDUS_PER_UE || SessionListed(t, c, req.pdusId) || Unreachable(net, req.ulIp) ||
    (exists ip :: SourceFor(net, req.ulIp, ip) && NoIdLeft(t, ip)) || NoRowLeft(t)
  }

  /** The session's row: the next one, in use under the next id of the address where the tunnel starts. */
  ghost predicate SessionRow(net: Net, t: Store, req: PdusReq, t1: Store, p: nat)
    requires T.Valid(t)
  {
    p < |t1.rows| && IsNextRow(t, p) &&
    var key := t1.rows[p].key;
    SourceFor(net, req.ulIp, key.ip) && IsNextId(t, key.ip, key.teid) &&
    t1 == Store(t.rows[p := Tunnel(key, req.ulIp, req.ulTeid, PdusTunnel, req.pdusId, true)], t.index, p, key.teid)
  }

  lemma OneSource(net: Net, peer: Ip, ip: Ip)
    requires SourceFor(net, peer, ip)
    ensures !Unreachable(net, peer) && forall other :: SourceFor(net, peer, other) <==> other == ip
  {}

  /** A session gets its row if and only if it is not refused. */
  lemma OpenPdusIff(net: Net, t: Store, c: U.UeCtx, req: PdusReq)
    requires Sound(t, c)
    ensures var (t1, r) := OpenPdus(net, t, c, req);
            match r
            case None => SessionRefused(net, t, c, req) && CursorMoved(t, t1) && (Unreachable(net, req.ulIp) ==> t1 == t)
            case Some(p) => !SessionRefused(net, t, c, req) && SessionRow(net, t, req, t1, p)
  {
    hide Open, NoIdLeft, NoRowLeft, IsNextId, IsNextRow, SourceFor, Unreachable;
    if Unreachable(net, req.ulIp) {
      UnreachableRefused(t, net, req.ulIp);
    } else {
      ReachableHasSource(net, req.ulIp);
      var ip :| SourceFor(net, req.ulIp, ip);
      OneSource(net, req.ulIp, ip);
      OpenTakesNext(t, net, req.ulIp, PdusTunnel, ip);
      var (t1, r) := Open(t, net, req.ulIp, PdusTunnel);
      if r.Some? {
        var t2 := OpenPdus(net, t, c, req).0;
        assert t2.rows == t.rows[r.value := t2.rows[r.value]] || t2 == t;
      }
    }
  }

  /** The DRB loop leaves rows in use, and the index, alone. */
  lemma {:induction false} SetupDrbsKeep(net: Net, t: Store, c: U.UeCtx, reqs: seq<DrbReq>)
    requires Sound(t, c)
    ensures var t' := SetupDrbs(net, t, c, reqs).0;
            Keeps(t, t') && t'.index == t.index
  {
    hide SetupDrb, DrbRefused, NoRowLeft, IsNextId;
    if reqs != [] {
      var init, req := reqs[..|reqs| - 1], reqs[|reqs| - 1];
      SetupDrbsKeep(net, t, c, init);
      var (t1, c1, _) := SetupDrbs(net, t, c, init);
      SetupDrbAnswer(net, t1, c1, req);
    }
  }

  /** Some DRB finds its limit not reached, its id not listed, and a tunnel to open. */
  ghost predicate SomeDrbServed(t: Store, c: U.UeCtx, reqs: seq<DrbReq>)
    requires Sound(t, c)
  {
    exists i :: 0 <= i < |reqs| && !DrbRefused(t, c, reqs[i])
  }

  /** A rejected session is told the cause. Without a row nothing moves but the id cursor, and nothing at all if the peer
      is unreachable; with one, the row is left in use and indexed (pdus.c:122-123). */
  ghost predicate RejectsSession(net: Net, t: Store, c: U.UeCtx, req: PdusReq, t1: Store, r: Option<nat>, t': Store, f: PdusFail)
    requires Sound(t, c) && (r.Some? ==> r.value < |t1.rows|)
  {
    f.pdusId == req.pdusId &&
    f.cause == (if c.pdusCount < U.MAX_PDUS_PER_UE && SessionListed(t, c, req.pdusId) then MultiplePdusId else ResourceUnavail) &&
    match r
    case None => CursorMoved(t, t') && (Unreachable(net, req.ulIp) ==> t' == t)
    case Some(p) =>
      SessionRow(net, t, req, t1, p) && CursorMoved(t1.(index := t.index[t1.rows[p].key := p]), t')
  }

  /** The session's row is listed last and reported, with the DRB responses of the loop. */
  ghost predicate AcceptsSession(net: Net, t: Store, c: U.UeCtx, req: PdusReq, t1: Store, p: nat, t': Store, c': U.UeCtx,
                                 s: PdusSucc)
    requires Sound(t, c) && Sound(t1, c)
  {
    var (t2, c2, outs) := SetupDrbs(net, t1, c, req.drbs);
    SessionRow(net, t, req, t1, p) && t' == t2 && t'.rows[p] == t1.rows[p] &&
    c.pdusCount < U.MAX_PDUS_PER_UE && c' == c2.(pdus := c.pdus[c.pdusCount := Some(p)], pdusCount := c.pdusCount + 1) &&
    s == PdusSucc(req.pdusId, t1.rows[p].key.ip, t1.rows[p].key.teid, Accepts(outs), Rejects(outs))
  }

  lemma SessionRowUsed(net: Net, t: Store, req: PdusReq, t1: Store, p: nat)
    requires T.Valid(t) && SessionRow(net, t, req, t1, p)
    ensures p < |t1.rows| && t1.rows[p].used && t1.rows[p].key !in t.index && t1.index == t.index
  {}

  lemma NotListedIfOpen(net: Net, t: Store, c: U.UeCtx, req: PdusReq)
    requires Sound(t, c) && !SessionRefused(net, t, c, req)
    ensures !SessionListed(t, c, req.pdusId) && c.pdusCount < U.MAX_PDUS_PER_UE
  {}

  lemma TailIndexes(t1: Store, t2: Store, p: nat)
    requires T.Valid(t2) && p < |t1.rows| && t1.rows[p].key !in t1.index && CursorMoved(t1, t2)
    ensures CursorMoved(t1.(index := t1.index[t1.rows[p].key := p]), FailureTail(t2, t1.rows[p].key, p))
  {}

  /** The answer to a session request: it is accepted if and only if it gets its row and in that state one of its DRBs
      is served. */
  ghost predicate SessionAnswered(net: Net, t: Store, c: U.UeCtx, req: PdusReq, t': Store, c': U.UeCtx,
                                  o: Outcome<PdusSucc, PdusFail>)
    requires Sound(t, c)
  {
    var (t1, r) := OpenPdus(net, t, c, req);
    (r.Some? <==> !SessionRefused(net, t, c, req)) &&
    match o
    case Rejected(f) =>
      (r.None? || !SomeDrbServed(t1, c, req.drbs)) && c' == c && RejectsSession(net, t, c, req, t1, r, t', f)
    case Accepted(s) =>
      r.Some? && SomeDrbServed(t1, c, req.drbs) && AcceptsSession(net, t, c, req, t1, r.value, t', c', s)
  }

  lemma SetupPdusAnswer(net: Net, t: Store, c: U.UeCtx, req: PdusReq)
    requires Sound(t, c)
    ensures var (t', c', o) := SetupPdus(net, t, c, req);
            SessionAnswered(net, t, c, req, t', c', o)
  {
    hide OpenPdus, SetupDrbs, DrbRefused, Unreachable, NoRowLeft, SessionRow, FailureTail;
    OpenPdusIff(net, t, c, req);
    var (t1, r) := OpenPdus(net, t, c, req);
    if r.Some? {
      AllRefusedIff(net, t1, c, req.drbs);
      SetupDrbsKeep(net, t1, c, req.drbs);
      SessionRowUsed(net, t, req, t1, r.value);
      NotListedIfOpen(net, t, c, req);
      var (t2, c2, outs) := SetupDrbs(net, t1, c, req.drbs);
      if |Rejects(outs)| == |req.drbs| {
        TailIndexes(t1, t2, r.value);
      }
    }
  }

  /** So each request of a bearer setup is answered, on the state that the ones before it have left. */
  lemma {:induction false} SetupAllAnswer(net: Net, t: Store, c: U.UeCtx, reqs: seq<PdusReq>, i: nat)
    requires Sound(t, c) && i < |reqs|
    ensures var (t1, c1, _) := Bearer.SetupAll(net, t, c, reqs[..i]);
            var (t2, c2, _) := Bearer.SetupAll(net, t, c, reqs[..i + 1]);
            SessionAnswered(net, t1, c1, reqs[i], t2, c2, Bearer.SetupAll(net, t, c, reqs).2[i])
  {
    hide SessionAnswered, SetupPdus, Sound;
    var init := reqs[..|reqs| - 1];
    if i < |init| {
      SetupAllAnswer(net, t, c, init, i);
      assert init[..i] == reqs[..i] && init[..i + 1] == reqs[..i + 1];
    } else {
      var (t1, c1, _) := Bearer.SetupAll(net, t, c, init);
      SetupPdusAnswer(net, t1, c1, reqs[i]);
      assert reqs[..i + 1] == reqs;
    }
  }
}
