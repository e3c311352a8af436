/** Rollback of a UE context: of one that was added and set up with any number of PDU sessions, and of one that
    was removed. (For one that was modified see UeModify.) */
module UeUndo {
  import opened Options
  import opened Circular
  import opened T = TunnelStore
  import LK = LiveKeys
  import U = UeStore
  import opened Drb
  import opened Outcomes
  import opened Pdus
  import Bearer
  import opened UeRelease
  import opened SetupRuns
  import M = UeModify

  /** Some request of the sequence got its row but none of its DRBs. */
  ghost predicate SomeAllDrbsFail(net: Net, t: Store, c: U.UeCtx, reqs: seq<PdusReq>)
    requires Sound(t, c)
  {
    reqs != [] &&
    var init := reqs[..|reqs| - 1];
    var (t1, c1, outs) := Bearer.SetupAll(net, t, c, init);
    SomeAllDrbsFail(net, t, c, init) || AllDrbsFail(net, t1, c1, reqs[|reqs| - 1])
  }

  ghost predicate IndexKept(t: Store, t': Store) {
    forall k :: k in t.index ==> k in t'.index && t'.index[k] == t.index[k]
  }

  /** The DRB responses of several accepted sessions, in order. */
  function AllDrbs(ss: seq<PdusSucc>): seq<DrbSucc> {
    if ss == [] then [] else AllDrbs(ss[..|ss| - 1]) + ss[|ss| - 1].succ
  }

  ghost predicate DescribesPdus(t: Store, p: nat, s: PdusSucc) {
    p < |t.rows| && t.rows[p].used && t.rows[p].key == Key(s.dlIp, s.dlTeid) && t.rows[p].id == s.pdusId
  }

  ghost predicate ReportedPdus(t: Store, ps: seq<nat>, ss: seq<PdusSucc>) {
    |ps| == |ss| && forall i :: 0 <= i < |ps| ==> DescribesPdus(t, ps[i], ss[i])
  }

  lemma ReportedPdusNone(t: Store)
    ensures ReportedPdus(t, [], [])
  {}

  lemma ReportedPdusKept(t: Store, t': Store, ps: seq<nat>, ss: seq<PdusSucc>)
    requires ReportedPdus(t, ps, ss) && Keeps(t, t')
    ensures ReportedPdus(t', ps, ss)
  {}

  lemma ReportedPdusSnoc(t: Store, t': Store, ps: seq<nat>, ss: seq<PdusSucc>, p: nat, s: PdusSucc)
    requires ReportedPdus(t, ps, ss) && Keeps(t, t') && DescribesPdus(t', p, s)
    ensures ReportedPdus(t', ps + [p], ss + [s])
  {}

  lemma ReportedConcat(t: Store, rs: seq<nat>, ss: seq<DrbSucc>, rs': seq<nat>, ss': seq<DrbSucc>)
    requires Reported(t, rs, ss) && Reported(t, rs', ss')
    ensures Reported(t, rs + rs', ss + ss')
  {}

  lemma KeepsTrans(t: Store, t1: Store, t2: Store)
    requires Keeps(t, t1) && Keeps(t1, t2)
    ensures Keeps(t, t2)
  {}

  lemma AllDrbsSnoc(ss: seq<PdusSucc>, s: PdusSucc)
    ensures AllDrbs(ss + [s]) == AllDrbs(ss) + s.succ
  {
    assert (ss + [s])[..|ss|] == ss;
  }

  /** A run of setups from (t, c) to (t', c'), started with the rows `held`: the rows it has listed, DRB rows
      and session rows, are described in order by the accepted responses; whether it has leaked a row shows in
      the index. */
  ghost predicate Ran(t0: Store, t: Store, c: U.UeCtx, t': Store, c': U.UeCtx, outs: seq<Outcome<PdusSucc, PdusFail>>,
                      leaked: bool, held: set<nat>, drbs: seq<nat>, pdus: seq<nat>) {
    Sound(t, c) && Sound(t', c') && Keeps(t, t') && IndexKept(t, t') && (leaked <==> t'.index != t.index) &&
    Held(t0, t', held + M.Members(drbs) + M.Members(pdus)) &&
    ListsHeld(c', |t.rows|, held + M.Members(drbs) + M.Members(pdus), {}) &&
    U.DrbRows(c', |t.rows|) == U.DrbRows(c, |t.rows|) + drbs &&
    U.PdusRows(c', |t.rows|) == U.PdusRows(c, |t.rows|) + pdus && |pdus| <= |drbs| &&
    ReportedPdus(t', pdus, Accepts(outs)) && Reported(t', drbs, AllDrbs(Accepts(outs)))
  }

  lemma RanNowhere(t0: Store, t: Store, c: U.UeCtx, held: set<nat>)
    requires Sound(t, c) && Held(t0, t, held) && ListsHeld(c, |t.rows|, held, {})
    ensures Ran(t0, t, c, t, c, [], false, held, [], [])
  {
    hide Held, ListsHeld;
    var none: seq<nat> := [];
    assert held + M.Members(none) + M.Members(none) == held;
    ReportedPdusNone(t);
    ReportedNone(t);
  }

  lemma RanRejected(t0: Store, t: Store, c: U.UeCtx, t1: Store, c1: U.UeCtx, outs: seq<Outcome<PdusSucc, PdusFail>>,
                    leaked: bool, held: set<nat>, drbs: seq<nat>, pdus: seq<nat>, t2: Store, fails: bool, f: PdusFail)
    requires Ran(t0, t, c, t1, c1, outs, leaked, held, drbs, pdus) && Sound(t2, c1) && Keeps(t1, t2) && IndexKept(t1, t2)
    requires Held(t0, t2, held + M.Members(drbs) + M.Members(pdus)) && (fails <==> t2.index != t1.index)
    ensures Ran(t0, t, c, t2, c1, outs + [Rejected(f)], leaked || fails, held, drbs, pdus)
  {
    hide Held, ListsHeld, Reported, ReportedPdus;
    KeepsTrans(t, t1, t2);
    AcceptsStep(outs, Rejected(f));
    assert Accepts(outs) + [] == Accepts(outs);
    ReportedKept(t1, t2, drbs, AllDrbs(Accepts(outs)));
    ReportedPdusKept(t1, t2, pdus, Accepts(outs));
  }

  lemma RanAccepted(t0: Store, t: Store, c: U.UeCtx, t1: Store, c1: U.UeCtx, outs: seq<Outcome<PdusSucc, PdusFail>>,
                    leaked: bool, held: set<nat>, drbs: seq<nat>, pdus: seq<nat>, t2: Store, c2: U.UeCtx,
                    req: PdusReq, s: PdusSucc, added: seq<nat>, p: nat)
    requires Ran(t0, t, c, t1, c1, outs, leaked, held, drbs, pdus) && Sound(t2, c2) && Keeps(t1, t2)
    requires PdusTaken(t1, c1, req, s, t2, c2, added, p)
    requires var now := held + M.Members(drbs) + M.Members(pdus) + M.Members(added) + {p};
             Held(t0, t2, now) && ListsHeld(c2, |t.rows|, now, {})
    ensures Ran(t0, t, c, t2, c2, outs + [Accepted(s)], leaked, held, drbs + added, pdus + [p])
  {
    hide Held, ListsHeld, Reported, ReportedPdus, M.Members, U.DrbRows, U.PdusRows, U.Pointed;
    KeepsTrans(t, t1, t2);
    AcceptsStep(outs, Accepted(s));
    ReportedKept(t1, t2, drbs, AllDrbs(Accepts(outs)));
    ReportedPdusSnoc(t1, t2, pdus, Accepts(outs), p, s);
    ReportedConcat(t2, drbs, AllDrbs(Accepts(outs)), added, s.succ);
    AllDrbsSnoc(Accepts(outs), s);
    MembersConcat(drbs, added);
    MembersSnoc(pdus, p);
    assert held + M.Members(drbs + added) + M.Members(pdus + [p]) ==
           held + M.Members(drbs) + M.Members(pdus) + M.Members(added) + {p};
    ConcatAssoc(U.DrbRows(c, |t.rows|), drbs, added);
    ConcatAssoc(U.PdusRows(c, |t.rows|), pdus, [p]);
  }

  lemma SetupAllSnoc(net: Net, t: Store, c: U.UeCtx, reqs: seq<PdusReq>, req: PdusReq)
    requires Sound(t, c)
    ensures var (t1, c1, outs) := Bearer.SetupAll(net, t, c, reqs);
            var (t2, c2, o) := SetupPdus(net, t1, c1, req);
            Bearer.SetupAll(net, t, c, reqs + [req]) == (t2, c2, outs + [o]) &&
            (SomeAllDrbsFail(net, t, c, reqs + [req]) <==>
              SomeAllDrbsFail(net, t, c, reqs) || AllDrbsFail(net, t1, c1, req))
  {
    hide SetupPdus, AllDrbsFail, Sound;
    assert (reqs + [req])[..|reqs|] == reqs;
  }

  ghost predicate RanTo(net: Net, t0: Store, t: Store, c: U.UeCtx, reqs: seq<PdusReq>, held: set<nat>,
                        drbs: seq<nat>, pdus: seq<nat>)
    requires Sound(t, c)
  {
    var (t', c', outs) := Bearer.SetupAll(net, t, c, reqs);
    Ran(t0, t, c, t', c', outs, SomeAllDrbsFail(net, t, c, reqs), held, drbs, pdus)
  }

  lemma RanStep(net: Net, t0: Store, t: Store, c: U.UeCtx, t1: Store, c1: U.UeCtx, outs: seq<Outcome<PdusSucc, PdusFail>>,
                leaked: bool, held: set<nat>, drbs: seq<nat>, pdus: seq<nat>, req: PdusReq)
    returns (added: seq<nat>, p: nat)
    requires Sound(t1, c1) && Ran(t0, t, c, t1, c1, outs, leaked, held, drbs, pdus)
    ensures var (t2, c2, o) := SetupPdus(net, t1, c1, req);
            Ran(t0, t, c, t2, c2, outs + [o], leaked || AllDrbsFail(net, t1, c1, req), held,
                if o.Accepted? then drbs + added else drbs, if o.Accepted? then pdus + [p] else pdus)
  {
    hide Held, ListsHeld, SetupPdus, AllDrbsFail, Reported, ReportedPdus;
    var (t2, c2, o) := SetupPdus(net, t1, c1, req);
    var now := held + M.Members(drbs) + M.Members(pdus);
    added, p := SetupPdusEffect(net, t0, t1, c1, req, now);
    match o {
      case Rejected(f) =>
        RanRejected(t0, t, c, t1, c1, outs, leaked, held, drbs, pdus, t2, AllDrbsFail(net, t1, c1, req), f);
      case Accepted(s) =>
        RanAccepted(t0, t, c, t1, c1, outs, leaked, held, drbs, pdus, t2, c2, req, s, added, p);
    }
  }

  lemma RanOneMore(net: Net, t0: Store, t: Store, c: U.UeCtx, reqs: seq<PdusReq>, req: PdusReq, held: set<nat>,
                   drbs: seq<nat>, pdus: seq<nat>)
    returns (drbs': seq<nat>, pdus': seq<nat>)
    requires Sound(t, c) && RanTo(net, t0, t, c, reqs, held, drbs, pdus)
    ensures RanTo(net, t0, t, c, reqs + [req], held, drbs', pdus')
  {
    hide Ran, SetupPdus, AllDrbsFail, Bearer.SetupAll, SomeAllDrbsFail;
    SetupAllSnoc(net, t, c, reqs, req);
    var (t1, c1, outs) := Bearer.SetupAll(net, t, c, reqs);
    var (t2, c2, o) := SetupPdus(net, t1, c1, req);
    var leaked := SomeAllDrbsFail(net, t, c, reqs);
    var added, p := RanStep(net, t0, t, c, t1, c1, outs, leaked, held, drbs, pdus, req);
    drbs', pdus' := if o.Accepted? then drbs + added else drbs, if o.Accepted? then pdus + [p] else pdus;
  }

  lemma {:induction false} SetupAllEffect(net: Net, t0: Store, t: Store, c: U.UeCtx, reqs: seq<PdusReq>, held: set<nat>)
    returns (drbs: seq<nat>, pdus: seq<nat>)
    requires Sound(t, c) && Held(t0, t, held) && ListsHeld(c, |t.rows|, held, {})
    ensures RanTo(net, t0, t, c, reqs, held, drbs, pdus)
  {
    hide Ran, Held, ListsHeld;
    if reqs == [] {
      RanNowhere(t0, t, c, held);
      drbs, pdus := [], [];
    } else {
      drbs, pdus := SetupAllEffect(net, t0, t, c, reqs[..|reqs| - 1], held);
      drbs, pdus := RanOneMore(net, t0, t, c, reqs[..|reqs| - 1], reqs[|reqs| - 1], held, drbs, pdus);
      assert reqs[..|reqs| - 1] + [reqs[|reqs| - 1]] == reqs;
    }
  }

  lemma RollbackOneFrees(t: Store, rs: seq<nat>, r: nat)
    requires T.Valid(t) && r < |t.rows| && r !in rs && t.rows[r].used && t.rows[r].key !in t.index
    ensures T.Valid(Unused(t, rs)) && T.Rollback(Unused(t, rs), r).0 == Unused(t, rs + [r])
  {
    assert T.Rollback(Unused(t, rs), r).0.rows == Unused(t, rs + [r]).rows;
  }

  /** Rolling back rows that are in use and not indexed frees exactly these. */
  lemma {:induction false} RollbackFrees(t: Store, rs: seq<nat>)
    requires T.Valid(t) && U.Within(rs, |t.rows|) && M.Distinct(rs)
    requires forall i :: 0 <= i < |rs| ==> t.rows[rs[i]].used && t.rows[rs[i]].key !in t.index
    ensures U.RollbackRows(t, rs) == Unused(t, rs)
  {
    hide T.Rollback;
    if rs == [] {
      assert Unused(t, rs).rows == t.rows;
    } else {
      var init, last := rs[..|rs| - 1], rs[|rs| - 1];
      RollbackFrees(t, init);
      assert rs == init + [last];
      RollbackOneFrees(t, init, last);
    }
  }

  lemma UnusedUnion(t: Store, rs: seq<nat>, qs: seq<nat>)
    ensures Unused(Unused(t, rs), qs) == Unused(t, qs + rs)
  {
    assert Unused(Unused(t, rs), qs).rows == Unused(t, qs + rs).rows;
  }

  lemma SublistsDistinct(drbs: seq<nat>, pdus: seq<nat>)
    requires M.Distinct(drbs + pdus)
    ensures M.Distinct(drbs) && M.Distinct(pdus) && forall i :: 0 <= i < |drbs| ==> drbs[i] !in pdus
    ensures forall i :: 0 <= i < |pdus| ==> pdus[i] in drbs + pdus
    ensures forall i :: 0 <= i < |drbs| ==> drbs[i] in drbs + pdus
  {
    assert forall i :: 0 <= i < |pdus| ==> pdus[i] == (drbs + pdus)[|drbs| + i];
    assert forall i :: 0 <= i < |drbs| ==> drbs[i] == (drbs + pdus)[i];
  }

  lemma RollbackListedFrees(t: Store, drbs: seq<nat>, pdus: seq<nat>)
    requires T.Valid(t) && U.Within(drbs + pdus, |t.rows|) && M.Distinct(drbs + pdus)
    requires forall r :: r in drbs + pdus ==> t.rows[r].used && t.rows[r].key !in t.index
    ensures U.Within(drbs, |t.rows|) && U.Within(pdus, |t.rows|)
    ensures U.RollbackRows(U.RollbackRows(t, pdus), drbs) == Unused(t, drbs + pdus)
  {
    hide T.Rollback, U.RollbackRows;
    SublistsDistinct(drbs, pdus);
    RollbackFrees(t, pdus);
    RollbackFrees(Unused(t, pdus), drbs);
    UnusedUnion(t, pdus, drbs);
  }

  /** The rows indexed in t but not in t0. */
  ghost function LeakedRows(t0: Store, t: Store): set<nat> {
    set k | k in t.index && k !in t0.index :: t.index[k]
  }

  lemma FreeHeld(t0: Store, t: Store, held: set<nat>, rs: seq<nat>)
    requires Held(t0, t, held) && M.Members(rs) == held
    ensures T.Used(Unused(t, rs)) == T.Used(t0) + LeakedRows(t0, t)
    ensures LeakedRows(t0, t) !! T.Used(t0)
  {
    var t' := Unused(t, rs);
    assert forall r :: r in rs <==> r in held;
    forall q: nat | q < |t.rows|
      ensures t'.rows[q].used <==> q in T.Used(t0) || q in LeakedRows(t0, t)
    {
      if t'.rows[q].used && !t0.rows[q].used {
        assert q !in held;
        var k := t.rows[q].key;
        assert k in t.index && t.index[k] == q;
      }
    }
  }

  lemma OpenUeTakesRow(u: U.UeStore, cucpId: nat)
    requires U.ValidUes(u) && Bearer.OpenUe(u, cucpId).1.Some?
    ensures var (u1, r) := Bearer.OpenUe(u, cucpId);
            !u.rows[r.value].used && u1.index == u.index && |u1.rows| == |u.rows| && u1.rows[r.value].used &&
            forall i :: 0 <= i < |u.rows| && i != r.value ==> u1.rows[i] == u.rows[i]
  {
    var u0 := U.IdAlloc(u).0;
    SearchIsFirstFit(u0.slot, |u0.rows|, U.UsedUes(u0));
    assert U.UsedUes(u0) == U.UsedUes(u);
    var r := Bearer.OpenUe(u, cucpId).1.value;
    assert r !in U.UsedUes(u);
  }

  lemma ListsNothing(c: U.UeCtx, n: nat)
    requires U.Shaped(c) && c.pdusCount == c.drbCount == 0
    ensures ListsHeld(c, n, {}, {})
  {}

  lemma RollbackHeld(t: Store, t1: Store, c1: U.UeCtx, held: set<nat>)
    requires Held(t, t1, held) && ListsHeld(c1, |t1.rows|, held, {})
    ensures var n := |t1.rows|;
            U.RollbackRows(U.RollbackRows(t1, U.PdusRows(c1, n)), U.DrbRows(c1, n)) == Unused(t1, Listed(c1, n))
  {
    var rs := Listed(c1, |t1.rows|);
    forall r | r in rs
      ensures r < |t1.rows| && t1.rows[r].used && t1.rows[r].key !in t1.index
    {
      assert r in M.Members(rs);
    }
    RollbackListedFrees(t1, U.DrbRows(c1, |t1.rows|), U.PdusRows(c1, |t1.rows|));
  }

  lemma KeptByFree(t: Store, t1: Store, held: set<nat>, rs: seq<nat>)
    requires Held(t, t1, held) && M.Members(rs) == held
    ensures Keeps(t, Unused(t1, rs)) && (t1.index != t.index ==> LeakedRows(t, t1) != {})
  {
    assert forall r :: r in rs <==> r in held;
    if t1.index != t.index {
      var k :| k in t1.index && k !in t.index;
      assert t1.index[k] in LeakedRows(t, t1);
    }
  }

  lemma UndoTunnels(net: Net, t: Store, c: U.UeCtx, reqs: seq<PdusReq>, drbs: seq<nat>, pdus: seq<nat>)
    requires Sound(t, c) && RanTo(net, t, t, c, reqs, {}, drbs, pdus)
    ensures var (t1, c1, outs) := Bearer.SetupAll(net, t, c, reqs);
            var n := |t1.rows|;
            var t2 := U.RollbackRows(U.RollbackRows(t1, U.PdusRows(c1, n)), U.DrbRows(c1, n));
            Keeps(t, t2) && IndexKept(t, t2) && T.Used(t2) == T.Used(t) + LeakedRows(t, t2) &&
            (t2.index == t.index && T.Used(t2) == T.Used(t) <==> !SomeAllDrbsFail(net, t, c, reqs))
  {
    hide U.RollbackRows, Held, Reported, ReportedPdus, SomeAllDrbsFail, Bearer.SetupAll;
    var (t1, c1, outs) := Bearer.SetupAll(net, t, c, reqs);
    var rs := Listed(c1, |t1.rows|);
    var held := {} + M.Members(drbs) + M.Members(pdus);
    assert held - {} == held;
    RollbackHeld(t, t1, c1, held);
    FreeHeld(t, t1, held, rs);
    KeptByFree(t, t1, held, rs);
  }

  lemma UndoUes(u: U.UeStore, u1: U.UeStore, r: nat)
    requires |u1.rows| == |u.rows| && r < |u.rows| && !u.rows[r].used
    requires forall i :: 0 <= i < |u.rows| && i != r ==> u1.rows[i] == u.rows[i]
    ensures U.UsedUes(U.SetUsed(u1, r, false)) == U.UsedUes(u)
  {}

  /** A UE is added, any number of PDU sessions are set up on it, and the whole is rolled back: the UE index and
      the used UE rows are as before, every row in use before is untouched, and the tunnel index and used rows
      are as before but for the sessions that took a row and lost all their DRBs. So everything is given back
      if and only if no request ran into that. */
  lemma UndoGivesBackAllIff(net: Net, sys: U.System, cucpId: nat, reqs: seq<PdusReq>)
    requires U.Valid(sys) && LK.Live(sys.t) && Bearer.AfterRequests(net, sys, cucpId, reqs).1.Some?
    ensures var (s1, r, outs) := Bearer.AfterRequests(net, sys, cucpId, reqs);
            var (s2, status) := U.Rollback(s1, r.value);
            var c := Bearer.OpenUe(sys.u, cucpId).0.rows[r.value];
            status == Success && s2.u.index == sys.u.index && U.UsedUes(s2.u) == U.UsedUes(sys.u) &&
            Keeps(sys.t, s2.t) && IndexKept(sys.t, s2.t) && T.Used(s2.t) == T.Used(sys.t) + LeakedRows(sys.t, s2.t) &&
            (s2.t.index == sys.t.index && T.Used(s2.t) == T.Used(sys.t) <==> !SomeAllDrbsFail(net, sys.t, c, reqs))
  {
    var (s1, r, outs) := Bearer.AfterRequests(net, sys, cucpId, reqs);
    var (u1, a) := Bearer.OpenUe(sys.u, cucpId);
    OpenUeTakesRow(sys.u, cucpId);
    var c := u1.rows[r.value];
    HeldStart(sys.t);
    ListsNothing(c, |sys.t.rows|);
    var drbs, pdus := SetupAllEffect(net, sys.t, sys.t, c, reqs, {});
    UndoTunnels(net, sys.t, c, reqs, drbs, pdus);
    UndoUes(sys.u, s1.u, r.value);
  }

  lemma RollbackOneRemoved(t: Store, pending: set<nat>, r: nat)
    requires T.Valid(t) && r < |t.rows| && LK.Indexed(t, r) && t.rows[r].used
    ensures T.Valid(Freed(t, pending)) && T.Rollback(Freed(t, pending), r).0 == Freed(t, pending - {r})
  {
    assert T.Rollback(Freed(t, pending), r).0.rows == Freed(t, pending - {r}).rows;
  }

  /** Rolling back rows that were in use and indexed undoes their removal. */
  lemma {:induction false} RollbackRemoved(t: Store, pending: set<nat>, rs: seq<nat>)
    requires ListedRows(t, rs) && forall i :: 0 <= i < |rs| ==> t.rows[rs[i]].used
    ensures T.Valid(Freed(t, pending)) && U.Within(rs, |Freed(t, pending).rows|)
    ensures U.RollbackRows(Freed(t, pending), rs) == Freed(t, pending - M.Members(rs))
  {
    hide T.Rollback;
    if rs == [] {
      assert pending - M.Members(rs) == pending;
    } else {
      var init, last := rs[..|rs| - 1], rs[|rs| - 1];
      RollbackRemoved(t, pending, init);
      assert rs == init + [last];
      MembersSnoc(init, last);
      assert pending - M.Members(rs) == pending - M.Members(init) - {last};
      RollbackOneRemoved(t, pending - M.Members(init), last);
    }
  }

  lemma RemovedTunnelsReturn(t: Store, drbs: seq<nat>, pdus: seq<nat>)
    requires T.Valid(t) && ListedRows(t, drbs + pdus) && forall i :: 0 <= i < |drbs + pdus| ==> t.rows[(drbs + pdus)[i]].used
    ensures U.Within(drbs, |t.rows|) && U.Within(pdus, |t.rows|) && |Unused(t, drbs + pdus).rows| == |t.rows|
    ensures U.RollbackRows(U.RollbackRows(Unused(t, drbs + pdus), pdus), drbs) == t
  {
    assert forall i :: 0 <= i < |pdus| ==> pdus[i] == (drbs + pdus)[|drbs| + i];
    assert forall i :: 0 <= i < |drbs| ==> drbs[i] == (drbs + pdus)[i];
    var all := M.Members(drbs + pdus);
    assert Freed(t, all).rows == Unused(t, drbs + pdus).rows;
    RollbackRemoved(t, all, pdus);
    RollbackRemoved(t, all - M.Members(pdus), drbs);
    MembersConcat(drbs, pdus);
    assert all - M.Members(pdus) - M.Members(drbs) == {};
    assert Freed(t, {}).rows == t.rows;
  }

  /** Remove, then rollback, of a committed context restores both tables, even when its lists have duplicates. */
  lemma RemoveUndone(sys: U.System, id: nat)
    requires CommittedCtx(sys, id)
    ensures var r := sys.u.index[id];
            var s1 := U.Remove(sys, id).0;
            U.Valid(s1) && U.RolledBackCtx(s1, r) == sys.u.rows[r].(used := false) &&
            U.Pointed(U.RolledBackCtx(s1, r), |s1.t.rows|) && U.Rollback(s1, r) == (sys, Success)
  {
    hide U.RollbackRows, U.RemoveRows, Unused;
    var r := sys.u.index[id];
    var c, n := sys.u.rows[r], |sys.t.rows|;
    var drbs, pdus := U.DrbRows(c, n), U.PdusRows(c, n);
    RemoveListedRows(sys.t, drbs, pdus);
    RemovedTunnelsReturn(sys.t, drbs, pdus);
    var s1 := U.Remove(sys, id).0;
    assert s1.u.rows[r] == c.(used := false);
    assert U.PdusRows(s1.u.rows[r], n) == pdus && U.DrbRows(s1.u.rows[r], n) == drbs;
    assert s1.u.rows[r := c] == sys.u.rows;
  }
}
