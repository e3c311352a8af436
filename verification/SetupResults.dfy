/** What a bearer setup leaves in its context and says in its response. */
module SetupResults {
  import opened Options
  import opened T = TunnelStore
  import LK = LiveKeys
  import U = UeStore
  import opened Drb
  import opened Outcomes
  import opened Pdus
  import Bearer
  import opened UePacking
  import opened UeRelease
  import opened SetupRuns
  import opened UeUndo
  import M = UeModify

  ghost predicate IdsDistinct(t: Store, rs: seq<nat>)
    requires U.Within(rs, |t.rows|)
  {
    forall i, j :: 0 <= i < j < |rs| ==> t.rows[rs[i]].id != t.rows[rs[j]].id
  }

  /** DRB ids and PDU session ids are pairwise distinct. */
  ghost predicate DistinctIds(t: Store, c: U.UeCtx)
    requires Sound(t, c)
  {
    IdsDistinct(t, U.DrbRows(c, |t.rows|)) && IdsDistinct(t, U.PdusRows(c, |t.rows|))
  }

  lemma IdsDistinctKept(t: Store, t': Store, rs: seq<nat>)
    requires AllUsed(t, rs) && Keeps(t, t') && U.Within(rs, |t.rows|) && IdsDistinct(t, rs)
    ensures U.Within(rs, |t'.rows|) && IdsDistinct(t', rs) && AllUsed(t', rs)
  {}

  lemma IdsDistinctSnoc(t: Store, rs: seq<nat>, r: nat)
    requires U.Within(rs, |t.rows|) && r < |t.rows| && IdsDistinct(t, rs)
    ensures U.Within(rs + [r], |t.rows|)
    ensures IdsDistinct(t, rs + [r]) <==> forall i :: 0 <= i < |rs| ==> t.rows[rs[i]].id != t.rows[r].id
  {
    if forall i :: 0 <= i < |rs| ==> t.rows[rs[i]].id != t.rows[r].id {
    } else {
      var i :| 0 <= i < |rs| && t.rows[rs[i]].id == t.rows[r].id;
      assert (rs + [r])[i] == rs[i] && (rs + [r])[|rs|] == r;
    }
  }

  lemma DrbListedRows(t: Store, c: U.UeCtx, id: nat)
    requires Sound(t, c)
    ensures DrbListed(t, c, id) <==> exists i :: 0 <= i < c.drbCount && t.rows[U.DrbRows(c, |t.rows|)[i]].id == id
  {
    assert forall i :: 0 <= i < c.drbCount ==> Some(U.DrbRows(c, |t.rows|)[i]) == c.drbs[i];
  }

  lemma TakenIdsDistinctIff(t: Store, c: U.UeCtx, req: DrbReq, s: DrbSucc, t': Store, c': U.UeCtx, r: nat)
    requires Sound(t, c) && Sound(t', c') && DrbTaken(t, c, req, s, t', c', r)
    requires U.DrbRows(c', |t.rows|) == U.DrbRows(c, |t.rows|) + [r]
    requires AllUsed(t, U.DrbRows(c, |t.rows|)) && IdsDistinct(t, U.DrbRows(c, |t.rows|))
    ensures IdsDistinct(t', U.DrbRows(c', |t.rows|)) <==> !DrbListed(t, c, req.drbId % DRB_ID_RANGE)
  {
    var rs := U.DrbRows(c, |t.rows|);
    DrbListedRows(t, c, req.drbId % DRB_ID_RANGE);
    IdsDistinctKept(t, t', rs);
    IdsDistinctSnoc(t', rs, r);
    assert forall i :: 0 <= i < |rs| ==> t'.rows[rs[i]] == t.rows[rs[i]];
  }

  /** The duplicate check compares the requested id, the row stores its low five bits: an accepted DRB keeps the
      ids distinct if and only if no listed DRB has these bits, as is always so for ids below 32. */
  lemma DrbIdsStayDistinctIff(net: Net, t0: Store, t: Store, c: U.UeCtx, req: DrbReq, held: set<nat>, unlisted: set<nat>)
    requires Sound(t, c) && Held(t0, t, held) && ListsHeld(c, |t.rows|, held, unlisted)
    requires AllUsed(t, U.DrbRows(c, |t.rows|)) && IdsDistinct(t, U.DrbRows(c, |t.rows|))
    requires SetupDrb(net, t, c, req).2.Accepted?
    ensures var (t', c', o) := SetupDrb(net, t, c, req);
            (IdsDistinct(t', U.DrbRows(c', |t.rows|)) <==> !DrbListed(t, c, req.drbId % DRB_ID_RANGE)) &&
            (req.drbId < DRB_ID_RANGE ==> !DrbListed(t, c, req.drbId % DRB_ID_RANGE))
  {
    hide Held, ListsHeld, SetupDrb, IdsDistinct, DrbListed;
    SetupDrbEffect(net, t0, t, c, req, held, unlisted);
    var (t', c', o) := SetupDrb(net, t, c, req);
    TakenIdsDistinctIff(t, c, req, o.succ, t', c', LastDrb(c'));
  }

  lemma PdusListedRows(t: Store, c: U.UeCtx, id: nat)
    requires Sound(t, c)
    ensures PdusListed(t, c, id) <==> exists i :: 0 <= i < c.pdusCount && t.rows[U.PdusRows(c, |t.rows|)[i]].id == id
  {
    assert forall i :: 0 <= i < c.pdusCount ==> Some(U.PdusRows(c, |t.rows|)[i]) == c.pdus[i];
  }

  lemma SetupDrbAcceptedIff(net: Net, t: Store, c: U.UeCtx, req: DrbReq)
    requires Sound(t, c)
    ensures SetupDrb(net, t, c, req).2.Accepted? <==>
            c.drbCount < U.MAX_DRB_PER_UE && !DrbListed(t, c, req.drbId) && Open(t, net, req.dlIp, DrbTunnel).1.Some?
  {
    hide Open;
  }

  /** An id of 32 or more is never found listed, so a DRB with such an id is accepted although one with the same five
      low bits is listed, and two listed rows then have one id. */
  lemma DrbIdTruncationEscapesCheck(net: Net, t0: Store, t: Store, c: U.UeCtx, req: DrbReq, held: set<nat>, unlisted: set<nat>)
    requires Sound(t, c) && Held(t0, t, held) && ListsHeld(c, |t.rows|, held, unlisted)
    requires AllUsed(t, U.DrbRows(c, |t.rows|)) && IdsDistinct(t, U.DrbRows(c, |t.rows|))
    requires forall i :: 0 <= i < c.drbCount ==> t.rows[c.drbs[i].value].id < DRB_ID_RANGE
    requires DRB_ID_RANGE <= req.drbId && DrbListed(t, c, req.drbId % DRB_ID_RANGE)
    requires c.drbCount < U.MAX_DRB_PER_UE && Open(t, net, req.dlIp, DrbTunnel).1.Some?
    ensures var (t', c', o) := SetupDrb(net, t, c, req);
            o.Accepted? && !IdsDistinct(t', U.DrbRows(c', |t.rows|))
  {
    hide Held, ListsHeld, SetupDrb, IdsDistinct, Open;
    SetupDrbAcceptedIff(net, t, c, req);
    DrbIdsStayDistinctIff(net, t0, t, c, req, held, unlisted);
  }

  ghost predicate SmallDrbIds(reqs: seq<DrbReq>) {
    forall i :: 0 <= i < |reqs| ==> reqs[i].drbId < DRB_ID_RANGE
  }

  lemma ListedUsed(t0: Store, t: Store, c: U.UeCtx, held: set<nat>, unlisted: set<nat>)
    requires Held(t0, t, held) && ListsHeld(c, |t.rows|, held, unlisted)
    ensures AllUsed(t, Listed(c, |t.rows|)) && AllUsed(t, U.DrbRows(c, |t.rows|)) && AllUsed(t, U.PdusRows(c, |t.rows|))
  {
    hide LK.Live, M.Distinct, U.Targets;
    var drbs, pdus, rs := U.DrbRows(c, |t.rows|), U.PdusRows(c, |t.rows|), Listed(c, |t.rows|);
    forall i | 0 <= i < |rs|
      ensures rs[i] < |t.rows| && t.rows[rs[i]].used
    {
      assert rs[i] in M.Members(rs);
    }
    assert forall i :: 0 <= i < |drbs| ==> drbs[i] == rs[i];
    assert forall i :: 0 <= i < |pdus| ==> pdus[i] == rs[|drbs| + i];
  }

  lemma SetupDrbIds(net: Net, t0: Store, t: Store, c: U.UeCtx, req: DrbReq, held: set<nat>, unlisted: set<nat>)
    requires Sound(t, c) && Held(t0, t, held) && ListsHeld(c, |t.rows|, held, unlisted)
    requires req.drbId < DRB_ID_RANGE && IdsDistinct(t, U.DrbRows(c, |t.rows|))
    ensures var (t', c', o) := SetupDrb(net, t, c, req);
            IdsDistinct(t', U.DrbRows(c', |t.rows|))
  {
    ListedUsed(t0, t, c, held, unlisted);
    SetupDrbEffect(net, t0, t, c, req, held, unlisted);
    if SetupDrb(net, t, c, req).2.Accepted? {
      DrbIdsStayDistinctIff(net, t0, t, c, req, held, unlisted);
    }
  }

  lemma {:induction false} SetupDrbsIds(net: Net, t0: Store, t: Store, c: U.UeCtx, reqs: seq<DrbReq>,
                                        held: set<nat>, unlisted: set<nat>)
    requires Sound(t, c) && Held(t0, t, held) && ListsHeld(c, |t.rows|, held, unlisted)
    requires SmallDrbIds(reqs) && IdsDistinct(t, U.DrbRows(c, |t.rows|))
    ensures var (t', c', outs) := SetupDrbs(net, t, c, reqs);
            IdsDistinct(t', U.DrbRows(c', |t.rows|))
  {
    hide Held, ListsHeld, IdsDistinct, SetupDrb;
    if reqs != [] {
      var init := reqs[..|reqs| - 1];
      SetupDrbsIds(net, t0, t, c, init, held, unlisted);
      var added := SetupDrbsEffect(net, t0, t, c, init, held, unlisted);
      var (t1, c1, outs) := SetupDrbs(net, t, c, init);
      SetupDrbIds(net, t0, t1, c1, reqs[|reqs| - 1], held + M.Members(added), unlisted);
    }
  }

  lemma AcceptedDrbIds(net: Net, t0: Store, t: Store, c: U.UeCtx, req: PdusReq, held: set<nat>)
    requires Sound(t, c) && Held(t0, t, held) && ListsHeld(c, |t.rows|, held, {})
    requires SmallDrbIds(req.drbs) && AllUsed(t, U.DrbRows(c, |t.rows|)) && IdsDistinct(t, U.DrbRows(c, |t.rows|))
    requires SetupPdus(net, t, c, req).2.Accepted?
    ensures var (t', c', o) := SetupPdus(net, t, c, req);
            IdsDistinct(t', U.DrbRows(c', |t.rows|))
  {
    hide Held, ListsHeld, IdsDistinct, OpenPdus, SetupDrbs;
    OpenPdusEffect(net, t0, t, c, req, held);
    var (t1, a) := OpenPdus(net, t, c, req);
    var p := a.value;
    IdsDistinctKept(t, t1, U.DrbRows(c, |t.rows|));
    SetupDrbsIds(net, t0, t1, c, req.drbs, held + {p}, {p});
    var added := SetupDrbsEffect(net, t0, t1, c, req.drbs, held + {p}, {p});
    AppendPdusLists(SetupDrbs(net, t1, c, req.drbs).1, |t.rows|, held + {p} + M.Members(added), {p}, p);
  }

  lemma AcceptedPdusIds(t: Store, c: U.UeCtx, req: PdusReq, s: PdusSucc, t': Store, c': U.UeCtx, added: seq<nat>, p: nat)
    requires Sound(t, c) && PdusTaken(t, c, req, s, t', c', added, p) && Keeps(t, t') && !PdusListed(t, c, req.pdusId)
    requires AllUsed(t, U.PdusRows(c, |t.rows|)) && IdsDistinct(t, U.PdusRows(c, |t.rows|))
    ensures IdsDistinct(t', U.PdusRows(c', |t.rows|))
  {
    var rs := U.PdusRows(c, |t.rows|);
    PdusListedRows(t, c, req.pdusId);
    IdsDistinctKept(t, t', rs);
    IdsDistinctSnoc(t', rs, p);
  }

  lemma SetupPdusIds(net: Net, t0: Store, t: Store, c: U.UeCtx, req: PdusReq, held: set<nat>)
    requires Sound(t, c) && Held(t0, t, held) && ListsHeld(c, |t.rows|, held, {})
    requires SmallDrbIds(req.drbs) && DistinctIds(t, c)
    ensures var (t', c', o) := SetupPdus(net, t, c, req);
            DistinctIds(t', c')
  {
    var added, p := SetupPdusEffect(net, t0, t, c, req, held);
    ListedUsed(t0, t, c, held, {});
    var (t', c', o) := SetupPdus(net, t, c, req);
    if o.Rejected? {
      IdsDistinctKept(t, t', U.DrbRows(c, |t.rows|));
      IdsDistinctKept(t, t', U.PdusRows(c, |t.rows|));
    } else {
      AcceptedDrbIds(net, t0, t, c, req, held);
      AcceptedPdusIds(t, c, req, o.succ, t', c', added, p);
    }
  }

  ghost predicate AllSmallDrbIds(reqs: seq<PdusReq>) {
    forall i :: 0 <= i < |reqs| ==> SmallDrbIds(reqs[i].drbs)
  }

  lemma {:induction false} SetupAllIds(net: Net, t: Store, c: U.UeCtx, reqs: seq<PdusReq>)
    requires Sound(t, c) && Held(t, t, {}) && ListsHeld(c, |t.rows|, {}, {}) && AllSmallDrbIds(reqs) && DistinctIds(t, c)
    ensures var (t', c', outs) := Bearer.SetupAll(net, t, c, reqs);
            DistinctIds(t', c')
  {
    hide Held, ListsHeld, DistinctIds, SetupPdus;
    if reqs != [] {
      var init := reqs[..|reqs| - 1];
      SetupAllIds(net, t, c, init);
      var drbs, pdus := SetupAllEffect(net, t, t, c, init, {});
      var (t1, c1, outs) := Bearer.SetupAll(net, t, c, init);
      SetupPdusIds(net, t, t1, c1, reqs[|reqs| - 1], {} + M.Members(drbs) + M.Members(pdus));
    }
  }

  /** From an empty context, any sequence of PDU session setups with DRB ids below 32 leaves a context whose
      listed rows are pairwise distinct and in use, whose DRB ids and PDU session ids are pairwise distinct, and
      whose lists are within their limits. */
  lemma ContextWellFormed(net: Net, t: Store, c: U.UeCtx, reqs: seq<PdusReq>)
    requires LK.Live(t) && U.Shaped(c) && c.pdusCount == c.drbCount == 0 && AllSmallDrbIds(reqs)
    ensures var (t', c', outs) := Bearer.SetupAll(net, t, c, reqs);
            var rs := Listed(c', |t'.rows|);
            LK.Live(t') && M.Distinct(rs) && AllUsed(t', rs) && DistinctIds(t', c') &&
            c'.pdusCount <= U.MAX_PDUS_PER_UE && c'.drbCount <= U.MAX_DRB_PER_UE && c'.pdusCount <= c'.drbCount
  {
    HeldStart(t);
    ListsNothing(c, |t.rows|);
    SetupAllIds(net, t, c, reqs);
    var drbs, pdus := SetupAllEffect(net, t, t, c, reqs, {});
    var (t', c', outs) := Bearer.SetupAll(net, t, c, reqs);
    ListedUsed(t, t', c', {} + M.Members(drbs) + M.Members(pdus), {});
    RowCounts(c', |t.rows|);
    RowCounts(c, |t.rows|);
  }

  /** The outcome of a DRB request names the request's id: as stored if accepted, as sent if rejected. */
  ghost predicate AnswersDrb(req: DrbReq, o: Outcome<DrbSucc, DrbFail>) {
    match o
    case Accepted(s) => s.drbId == req.drbId % DRB_ID_RANGE
    case Rejected(f) => f.drbId == req.drbId && f.cause in {ResourceUnavail, MultipleDrbId}
  }

  lemma {:induction false} DrbResponsesAnswer(net: Net, t: Store, c: U.UeCtx, reqs: seq<DrbReq>, i: nat)
    requires Sound(t, c) && i < |reqs|
    ensures AnswersDrb(reqs[i], SetupDrbs(net, t, c, reqs).2[i])
  {
    hide Sound;
    if i < |reqs| - 1 {
      DrbResponsesAnswer(net, t, c, reqs[..|reqs| - 1], i);
    }
  }

  /** An accepted session's response accounts for each of its DRB requests. */
  ghost predicate AnswersPdus(req: PdusReq, o: Outcome<PdusSucc, PdusFail>) {
    match o
    case Accepted(s) => s.pdusId == req.pdusId && |s.succ| + |s.fail| == |req.drbs| && s.succ != []
    case Rejected(f) => f.pdusId == req.pdusId && f.cause in {ResourceUnavail, MultiplePdusId}
  }

  lemma SetupPdusAnswers(net: Net, t: Store, c: U.UeCtx, req: PdusReq)
    requires Sound(t, c)
    ensures AnswersPdus(req, SetupPdus(net, t, c, req).2)
  {
    hide OpenPdus, SetupDrbs, FailureTail;
    var (t1, r) := OpenPdus(net, t, c, req);
    if r.Some? {
      PartitionCount(SetupDrbs(net, t1, c, req.drbs).2);
    }
  }

  lemma {:induction false} PdusResponsesAnswer(net: Net, t: Store, c: U.UeCtx, reqs: seq<PdusReq>, i: nat)
    requires Sound(t, c) && i < |reqs|
    ensures AnswersPdus(reqs[i], Bearer.SetupAll(net, t, c, reqs).2[i])
  {
    hide Sound, SetupPdus, AnswersPdus;
    var init := reqs[..|reqs| - 1];
    if i < |init| {
      PdusResponsesAnswer(net, t, c, init, i);
    } else {
      var (t1, c1, outs) := Bearer.SetupAll(net, t, c, init);
      SetupPdusAnswers(net, t1, c1, reqs[i]);
    }
  }

  /** The response of a bearer setup on an empty context: the accepted and the rejected sessions partition the
      requests, each list in request order, and the accepted ones carry, in order, the ids and keys of the listed
      session rows and - all their DRB lists joined - of the listed DRB rows. */
  lemma ResponseMatchesContext(net: Net, t: Store, c: U.UeCtx, reqs: seq<PdusReq>)
    requires LK.Live(t) && U.Shaped(c) && c.pdusCount == c.drbCount == 0
    ensures var (t', c', outs) := Bearer.SetupAll(net, t, c, reqs);
            |Accepts(outs)| + |Rejects(outs)| == |reqs| &&
            (forall i: nat :: i < |reqs| ==> AnswersPdus(reqs[i], outs[i]) && Placed(outs, i)) &&
            ReportedPdus(t', U.PdusRows(c', |t'.rows|), Accepts(outs)) &&
            Reported(t', U.DrbRows(c', |t'.rows|), AllDrbs(Accepts(outs)))
  {
    HeldStart(t);
    ListsNothing(c, |t.rows|);
    var drbs, pdus := SetupAllEffect(net, t, t, c, reqs, {});
    var (t', c', outs) := Bearer.SetupAll(net, t, c, reqs);
    assert U.DrbRows(c', |t'.rows|) == drbs && U.PdusRows(c', |t'.rows|) == pdus;
    StablePartition(outs);
    forall i: nat | i < |reqs|
      ensures AnswersPdus(reqs[i], outs[i])
    {
      PdusResponsesAnswer(net, t, c, reqs, i);
    }
  }
}
