/** Whole runs of bearer setups, context modifications and releases, in any order. */
module UeRuns {
  import opened Options
  import opened T = TunnelStore
  import TX = TunnelTransactions
  import U = UeStore
  import opened Drb
  import opened Outcomes
  import opened Pdus
  import Bearer
  import opened UePacking
  import M = UeModify
  import opened SetupRuns
  import opened UeUndo
  import opened SetupRelease
  import opened UeGaps

  /** UE table and index agree, and every slot of every row holds null or a tunnel row. */
  ghost predicate Ordered(sys: U.System) {
    U.Valid(sys) && U.UesAgree(sys.u) && forall i :: 0 <= i < |sys.u.rows| ==> InRange(sys.u.rows[i], |sys.t.rows|)
  }

  /** What a release or a modification asks of its caller holds of the context. */
  ghost predicate CanFollow(sys: U.System, id: nat)
    requires U.Valid(sys)
  {
    id in sys.u.index ==> U.Pointed(sys.u.rows[sys.u.index[id]], |sys.t.rows|)
  }

  ghost predicate Releasable(sys: U.System) {
    U.Valid(sys) && forall id :: id in sys.u.index ==> CanFollow(sys, id)
  }

  /** The rows of a list are distinct and in use, and committing one frees none of the others: a key that is indexed
      already looks up some used row outside the list. */
  ghost predicate Untangled(t: Store, rs: seq<nat>) {
    T.Valid(t) && M.Distinct(rs) && AllUsed(t, rs) &&
    forall i :: 0 <= i < |rs| && t.rows[rs[i]].key in t.index ==>
      t.index[t.rows[rs[i]].key] !in rs && t.rows[t.index[t.rows[rs[i]].key]].used
  }

  /** One opening takes a row outside the list, unused so far, under a key that is not indexed. */
  lemma OpenTakes(t: Store, net: Net, remote: Ip, kind: Kind)
    requires T.Valid(t)
    ensures var (t', r) := Open(t, net, remote, kind);
            t'.index == t.index && (r.None? ==> t'.rows == t.rows) &&
            (r.Some? ==> !t.rows[r.value].used && t'.rows[r.value].used && t'.rows[r.value].key !in t.index &&
                         t'.rows == t.rows[r.value := t'.rows[r.value]])
  {
    hide Alloc, UsedIn;
    var (t1, key) := KeyAlloc(t, net, remote, kind);
    if key.Some? && key.value !in t.index {
      TX.AllocTakesFreeRow(t1, key.value);
      var r := Alloc(t1, key.value).1;
      if r.Some? {
        TX.IsUsed(t, r.value);
      }
    }
  }

  /** A table in which only rows unused before have been written, none of them in the list, is as good. */
  lemma UntangledKept(t: Store, rs: seq<nat>, t': Store)
    requires Untangled(t, rs) && T.Valid(t') && Keeps(t, t') && t'.index == t.index
    ensures Untangled(t', rs)
  {}

  lemma UntangledSnoc(t: Store, rs: seq<nat>, t': Store, r: nat)
    requires Untangled(t, rs) && T.Valid(t') && Keeps(t, t') && t'.index == t.index
    requires r < |t.rows| && !t.rows[r].used && t'.rows[r].used && t'.rows[r].key !in t.index
    ensures Untangled(t', rs + [r])
  {
    assert forall i :: 0 <= i < |rs| ==> rs[i] != r;
  }

  /** What a setup keeps of its context: the DRB list untangled, as many DRBs as sessions at least, slots in range. */
  ghost predicate Sorted(t: Store, c: U.UeCtx)
    requires Sound(t, c)
  {
    Untangled(t, U.DrbRows(c, |t.rows|)) && c.pdusCount <= c.drbCount && InRange(c, |t.rows|)
  }

  /** The rows listed by now are those listed before and others that were unused. */
  ghost predicate Grown(t: Store, rs: seq<nat>, rs': seq<nat>) {
    forall r :: r in rs' ==> r in rs || (r < |t.rows| && !t.rows[r].used)
  }

  lemma SetupDrbUntangled(net: Net, t: Store, c: U.UeCtx, req: DrbReq)
    requires Sound(t, c) && Untangled(t, U.DrbRows(c, |t.rows|))
    ensures var (t', c', o) := SetupDrb(net, t, c, req);
            Untangled(t', U.DrbRows(c', |t.rows|)) && Keeps(t, t') && t'.index == t.index &&
            c'.drbCount == c.drbCount + (if o.Accepted? then 1 else 0) && (InRange(c, |t.rows|) ==> InRange(c', |t.rows|)) &&
            Grown(t, U.DrbRows(c, |t.rows|), U.DrbRows(c', |t.rows|))
  {
    hide Open, Untangled;
    var (t', c', o) := SetupDrb(net, t, c, req);
    OpenTakes(t, net, req.dlIp, DrbTunnel);
    var rs := U.DrbRows(c, |t.rows|);
    if o.Accepted? {
      var r := Open(t, net, req.dlIp, DrbTunnel).1.value;
      UntangledSnoc(t, rs, t', r);
      assert c'.drbs[..c'.drbCount] == c.drbs[..c.drbCount] + [Some(r)];
      assert U.DrbRows(c', |t.rows|) == rs + [r];
    } else {
      UntangledKept(t, rs, t');
    }
  }

  lemma GrownFurther(t: Store, t1: Store, rs: seq<nat>, rs1: seq<nat>, rs2: seq<nat>)
    requires Grown(t, rs, rs1) && Grown(t1, rs1, rs2) && Keeps(t, t1)
    ensures Grown(t, rs, rs2)
  {}

  lemma GrownFrom(t: Store, rs: seq<nat>)
    ensures Grown(t, rs, rs)
  {}

  lemma {:induction false} SetupDrbsUntangled(net: Net, t: Store, c: U.UeCtx, reqs: seq<DrbReq>)
    requires Sound(t, c) && Untangled(t, U.DrbRows(c, |t.rows|))
    ensures var (t', c', outs) := SetupDrbs(net, t, c, reqs);
            Untangled(t', U.DrbRows(c', |t.rows|)) && Keeps(t, t') && t'.index == t.index &&
            c'.drbCount == c.drbCount + |Accepts(outs)| && (InRange(c, |t.rows|) ==> InRange(c', |t.rows|)) &&
            Grown(t, U.DrbRows(c, |t.rows|), U.DrbRows(c', |t.rows|))
  {
    hide SetupDrb, Untangled, Grown, InRange, U.DrbRows;
    if reqs == [] {
      GrownFrom(t, U.DrbRows(c, |t.rows|));
    } else {
      var init, req := reqs[..|reqs| - 1], reqs[|reqs| - 1];
      SetupDrbsUntangled(net, t, c, init);
      var (t1, c1, outs) := SetupDrbs(net, t, c, init);
      SetupDrbUntangled(net, t1, c1, req);
      var (t2, c2, o) := SetupDrb(net, t1, c1, req);
      AcceptsStep(outs, o);
      KeepsTrans(t, t1, t2);
      GrownFurther(t, t1, U.DrbRows(c, |t.rows|), U.DrbRows(c1, |t.rows|), U.DrbRows(c2, |t.rows|));
    }
  }

  /** The all-DRBs-fail tail indexes the session's row, which stays in use and outside the list. */
  lemma TailUntangled(t: Store, rs: seq<nat>, p: nat)
    requires Untangled(t, rs) && p < |t.rows| && t.rows[p].used && t.rows[p].key !in t.index && p !in rs
    ensures Untangled(FailureTail(t, t.rows[p].key, p), rs) && FailureTail(t, t.rows[p].key, p).rows == t.rows
  {}

  lemma UntangledValid(t: Store, rs: seq<nat>)
    requires Untangled(t, rs)
    ensures T.Valid(t) && AllUsed(t, rs)
  {}

  lemma NotListed(t: Store, rs: seq<nat>, p: nat)
    requires Untangled(t, rs) && p < |t.rows| && !t.rows[p].used
    ensures p !in rs
  {}

  lemma SetupPdusSorted(net: Net, t: Store, c: U.UeCtx, req: PdusReq)
    requires Sound(t, c) && Sorted(t, c)
    ensures var (t', c', o) := SetupPdus(net, t, c, req);
            Sorted(t', c')
  {
    hide SetupDrbs, Open, Untangled, FailureTail;
    var rs := U.DrbRows(c, |t.rows|);
    OpenTakes(t, net, req.ulIp, PdusTunnel);
    var (t1, a) := OpenPdus(net, t, c, req);
    UntangledValid(t, rs);
    UntangledKept(t, rs, t1);
    if a.Some? {
      var p := a.value;
      SetupDrbsUntangled(net, t1, c, req.drbs);
      var (t2, c2, outs) := SetupDrbs(net, t1, c, req.drbs);
      PartitionCount(outs);
      if |Rejects(outs)| == |req.drbs| {
        NotListed(t, rs, p);
        TailUntangled(t2, U.DrbRows(c2, |t.rows|), p);
      } else {
        assert U.DrbRows(AppendPdus(c2, p), |t.rows|) == U.DrbRows(c2, |t.rows|);
      }
    }
  }

  lemma {:induction false} SetupAllSorted(net: Net, t: Store, c: U.UeCtx, reqs: seq<PdusReq>)
    requires Sound(t, c) && Sorted(t, c)
    ensures var (t', c', outs) := Bearer.SetupAll(net, t, c, reqs);
            Sorted(t', c')
  {
    hide Sorted, SetupPdus;
    if reqs != [] {
      var init := reqs[..|reqs| - 1];
      SetupAllSorted(net, t, c, init);
      var (t1, c1, outs) := Bearer.SetupAll(net, t, c, init);
      SetupPdusSorted(net, t1, c1, reqs[|reqs| - 1]);
    }
  }

  /** The commits of a list neither free nor newly index a used row outside it, if no key of the list looks it up. */
  lemma {:induction false} CommitsSpare(t: Store, rs: seq<nat>, x: nat)
    requires T.Valid(t) && U.Within(rs, |t.rows|) && x < |t.rows| && x !in rs && t.rows[x].used
    requires forall i :: 0 <= i < |rs| && t.rows[rs[i]].key in t.index ==> t.index[t.rows[rs[i]].key] != x
    ensures var t' := U.CommitRows(t, rs);
            t'.rows[x] == t.rows[x] &&
            (forall i :: 0 <= i < |t.rows| ==> t'.rows[i].key == t.rows[i].key) &&
            forall k :: k in t'.index && t'.index[k] == x ==> k in t.index && t.index[k] == x
  {
    if rs != [] {
      CommitsSpare(t, rs[..|rs| - 1], x);
    }
  }

  lemma CommitKeepsOwn(t: Store, r: nat)
    requires T.Valid(t) && r < |t.rows| && t.rows[r].used
    ensures T.Commit(t, r).rows[r].used
  {}

  lemma CommitRowsSnoc(t: Store, rs: seq<nat>)
    requires T.Valid(t) && U.Within(rs, |t.rows|) && rs != []
    ensures U.CommitRows(t, rs) == T.Commit(U.CommitRows(t, rs[..|rs| - 1]), rs[|rs| - 1])
  {}

  /** So the commit loop clears no slot of an untangled list. */
  lemma {:induction false} CommitUntangled(t: Store, rs: seq<nat>)
    requires Untangled(t, rs)
    ensures U.Within(rs, |t.rows|) && Lists(U.CommittedSlots(t, rs), rs)
  {
    hide T.Commit, U.CommitRows;
    if rs != [] {
      var init, last := rs[..|rs| - 1], rs[|rs| - 1];
      assert rs == init + [last];
      CommitUntangled(t, init);
      CommitsSpare(t, init, last);
      CommitKeepsOwn(U.CommitRows(t, init), last);
      CommitRowsSnoc(t, rs);
    }
  }

  lemma SortedLeavesNone(t: Store, c: U.UeCtx)
    requires Sound(t, c) && Sorted(t, c)
    ensures InRange(c, |t.rows|) && !LeavesGap(t, c)
  {
    hide Untangled, LeavesGap, U.ListsCommitted, U.CommittedSlots;
    CommitUntangled(t, U.DrbRows(c, |t.rows|));
    M.DrbListKept(t, c);
    EnoughDrbsLeaveNone(t, c);
  }

  lemma SameSlots(c: U.UeCtx, c': U.UeCtx, n: nat)
    requires InRange(c, n) && c'.pdus == c.pdus && c'.drbs == c.drbs
    ensures InRange(c', n)
  {}

  /** A row is committed that is new, or takes over from the row its id looks up, or is marked unused. */
  ghost predicate Committable(u: U.UeStore, u1: U.UeStore, r: nat) {
    U.ValidUes(u1) && |u1.rows| == |u.rows| && r < |u.rows| && u1.index == u.index &&
    (forall i :: 0 <= i < |u.rows| && i != r ==> u1.rows[i] == u.rows[i]) &&
    var id := u1.rows[r].cuupId;
    if u1.rows[r].used then !u.rows[r].used else id in u.index && u.index[id] == r
  }

  lemma IndexCommitted(u: U.UeStore, u1: U.UeStore, r: nat)
    requires U.UesAgree(u) && Committable(u, u1, r)
    ensures var id, u' := u1.rows[r].cuupId, U.CommitIndex(u1, r);
            U.UesAgree(u') && (id in u'.index <==> u1.rows[r].used) &&
            (u1.rows[r].used ==> u'.index[id] == r && u'.rows[r] == u1.rows[r]) &&
            (forall i :: i != id ==> (i in u'.index <==> i in u.index)) &&
            (forall i :: i in u.index && i != id ==> u'.index[i] == u.index[i] && u'.rows[u.index[i]] == u.rows[u.index[i]]) &&
            forall i :: 0 <= i < |u.rows| ==> u'.rows[i] == u1.rows[i].(used := u'.rows[i].used)
  {}

  /** After its commit the contexts of other ids can be followed if they could before, and its own exactly if no gap is
      left or its id is gone. */
  lemma CommitKeepsOrder(sys: U.System, s1: U.System, r: nat)
    requires Ordered(sys) && U.Valid(s1) && |s1.t.rows| == |sys.t.rows| && Committable(sys.u, s1.u, r)
    requires U.Pointed(s1.u.rows[r], |s1.t.rows|) && InRange(s1.u.rows[r], |s1.t.rows|)
    ensures var id, s' := s1.u.rows[r].cuupId, U.Commit(s1, r);
            Ordered(s') && |s'.t.rows| == |sys.t.rows| &&
            (forall i :: i != id && CanFollow(sys, i) ==> CanFollow(s', i)) &&
            (CanFollow(s', id) <==> s1.u.rows[r].used ==> !LeavesGap(s1.t, s1.u.rows[r]))
  {
    hide U.ListsCommitted, U.TunnelsCommitted, U.CommitIndex, U.UesAgree, U.Pointed, LeavesGap, InRange;
    var c' := U.ListsCommitted(s1.t, s1.u.rows[r]);
    CommittedPointedIff(s1.t, s1.u.rows[r]);
    var u2 := s1.u.(rows := s1.u.rows[r := c']);
    IndexCommitted(sys.u, u2, r);
    var u' := U.CommitIndex(u2, r);
    forall i | 0 <= i < |u'.rows|
      ensures InRange(u'.rows[i], |sys.t.rows|)
    {
      SameSlots(u2.rows[i], u'.rows[i], |sys.t.rows|);
    }
    assert forall i :: i in u'.index ==> u'.index[i] < |u'.rows|;
  }

  lemma BlankSorted(t: Store, c: U.UeCtx)
    requires T.Valid(t) && U.Shaped(c) && c.pdusCount == c.drbCount == 0 && InRange(c, |t.rows|)
    ensures Sound(t, c) && Sorted(t, c)
  {}

  lemma RefusedKeepsUes(u: U.UeStore, cucpId: nat)
    requires U.UesAgree(u) && Bearer.OpenUe(u, cucpId).1.None?
    ensures var u' := Bearer.OpenUe(u, cucpId).0;
            U.UesAgree(u') && u'.rows == u.rows && u'.index == u.index
  {}

  lemma OpenUeKeepsSlots(u: U.UeStore, cucpId: nat)
    requires U.ValidUes(u) && Bearer.OpenUe(u, cucpId).1.Some?
    ensures var (u1, r) := Bearer.OpenUe(u, cucpId);
            u1.rows[r.value].pdus == u.rows[r.value].pdus && u1.rows[r.value].drbs == u.rows[r.value].drbs
  {}

  /** What a command without a gap keeps. */
  ghost predicate Survives(sys: U.System, s': U.System) {
    Ordered(s') && (Releasable(sys) ==> Releasable(s'))
  }

  lemma SetupSurvives(sys: U.System, req: BearerReq)
    requires Ordered(sys)
    ensures Survives(sys, Bearer.SetupBearer(req.net, sys, req.cucpId, req.pdus))
  {
    hide U.Commit, Sorted, U.UesAgree, InRange, Bearer.SetupAll, Bearer.OpenUe, LeavesGap;
    var (s1, r, outs) := Bearer.AfterRequests(req.net, sys, req.cucpId, req.pdus);
    var (u1, a) := Bearer.OpenUe(sys.u, req.cucpId);
    if r.None? {
      RefusedKeepsUes(sys.u, req.cucpId);
    } else {
      OpenUeTakesRow(sys.u, req.cucpId);
      OpenUeKeepsSlots(sys.u, req.cucpId);
      SameSlots(sys.u.rows[r.value], u1.rows[r.value], |sys.t.rows|);
      BlankSorted(sys.t, u1.rows[r.value]);
      SetupAllSorted(req.net, sys.t, u1.rows[r.value], req.pdus);
      SortedLeavesNone(s1.t, s1.u.rows[r.value]);
      CommitKeepsOrder(sys, s1, r.value);
    }
  }

  lemma PointedSlots(c: U.UeCtx, c': U.UeCtx, n: nat)
    requires U.Pointed(c, n) && c' == c.(used := c'.used)
    ensures U.Pointed(c', n)
  {}

  lemma ReleaseSurvives(sys: U.System, id: nat)
    requires Ordered(sys) && id in sys.u.index && CanFollow(sys, id)
    ensures Survives(sys, Bearer.ReleaseUe(sys, id))
  {
    hide U.Commit, U.RemoveRows, U.Pointed, InRange, LeavesGap;
    var r := sys.u.index[id];
    var s1 := U.Remove(sys, id).0;
    SameSlots(sys.u.rows[r], s1.u.rows[r], |sys.t.rows|);
    PointedSlots(sys.u.rows[r], s1.u.rows[r], |sys.t.rows|);
    CommitKeepsOrder(sys, s1, r);
  }

  lemma {:induction false} ModifyAllInRange(t: Store, c: U.UeCtx, idxs: seq<nat>)
    requires T.Valid(t) && U.Pointed(c, |t.rows|) && U.Within(idxs, c.drbCount) && InRange(c, |t.rows|)
    ensures InRange(M.ModifyAll(t, c, idxs).1, |t.rows|)
  {
    hide T.Modify;
    if idxs != [] {
      ModifyAllInRange(t, c, idxs[..|idxs| - 1]);
    }
  }

  /** A modification that is not yet committed. */
  lemma ModifiedRow(sys: U.System, id: nat, idxs: seq<nat>)
    requires Ordered(sys) && M.Modifiable(sys, id, idxs)
    ensures var (s, w, _) := M.Modified(sys, id, idxs);
            |s.u.rows| == |sys.u.rows| && |s.t.rows| == |sys.t.rows| && s.u.index == sys.u.index && !sys.u.rows[w].used &&
            s.u.rows[w].used && s.u.rows[w].cuupId == id && InRange(s.u.rows[w], |s.t.rows|) &&
            forall i :: 0 <= i < |sys.u.rows| && i != w ==> s.u.rows[i] == sys.u.rows[i]
  {
    hide M.ModifyAll, U.Pointed;
    var r := sys.u.index[id];
    M.ModifyTakesRow(sys.u, id);
    var (u1, w) := U.Modify(sys.u, id);
    M.PointedByPrefixes(sys.u.rows[r], u1.rows[w.value], |sys.t.rows|);
    ModifyAllInRange(sys.t, u1.rows[w.value], idxs);
  }

  /** After the modification's commit its own context can be followed if and only if no gap is left. */
  lemma ModifyCommitSurvivesIff(sys: U.System, id: nat, idxs: seq<nat>)
    requires Ordered(sys) && M.Modifiable(sys, id, idxs)
    ensures var (s, w, _) := M.Modified(sys, id, idxs);
            Ordered(U.Commit(s, w)) && (CanFollow(U.Commit(s, w), id) <==> !LeavesGap(s.t, s.u.rows[w])) &&
            (Releasable(sys) ==> (Releasable(U.Commit(s, w)) <==> !LeavesGap(s.t, s.u.rows[w])))
  {
    hide U.Commit, M.Modified, U.Pointed, InRange, LeavesGap;
    var (s, w, _) := M.Modified(sys, id, idxs);
    ModifiedRow(sys, id, idxs);
    CommitKeepsOrder(sys, s, w);
  }

  /** Rolling it back leaves every context as it was. */
  lemma ModifyRollbackSurvives(sys: U.System, id: nat, idxs: seq<nat>)
    requires Ordered(sys) && M.Modifiable(sys, id, idxs)
    ensures var (s, w, _) := M.Modified(sys, id, idxs);
            U.Pointed(U.RolledBackCtx(s, w), |s.t.rows|) && Survives(sys, U.Rollback(s, w).0)
  {
    hide U.RollbackRows, M.Modified, U.Pointed;
    var (s, w, _) := M.Modified(sys, id, idxs);
    ModifiedRow(sys, id, idxs);
  }

  /** Modify stands for ue_ctx_modify, drb_modify at the listed positions, and ue_ctx_commit or ue_ctx_rollback. */
  datatype Command = Setup(req: BearerReq) | Release(id: nat) | Modify(id: nat, positions: seq<nat>, commits: bool)

  /** The command follows only slots that point at rows. */
  ghost predicate Follows(sys: U.System, cmd: Command)
    requires U.Valid(sys)
  {
    match cmd
    case Setup(_) => true
    case Release(id) => CanFollow(sys, id)
    case Modify(id, positions, _) =>
      CanFollow(sys, id) && (id in sys.u.index ==> U.Within(positions, sys.u.rows[sys.u.index[id]].drbCount))
  }

  /** The modification gets as far as its commit or rollback. */
  ghost predicate Goes(sys: U.System, id: nat)
    requires U.Valid(sys)
  {
    id in sys.u.index && U.Modify(sys.u, id).1.Some?
  }

  lemma GoesModifiable(sys: U.System, id: nat, positions: seq<nat>, commits: bool)
    requires Ordered(sys) && Goes(sys, id) && Follows(sys, Modify(id, positions, commits))
    ensures M.Modifiable(sys, id, positions)
  {}

  /** A release or modification of an unknown id is refused, as is a modification without a free UE row. */
  ghost function Serve(sys: U.System, cmd: Command): (s': U.System)
    requires Ordered(sys) && Follows(sys, cmd)
    ensures Ordered(s')
  {
    match cmd
    case Setup(req) =>
      SetupSurvives(sys, req);
      Bearer.SetupBearer(req.net, sys, req.cucpId, req.pdus)
    case Release(id) =>
      if id !in sys.u.index then sys
      else
        ReleaseSurvives(sys, id);
        Bearer.ReleaseUe(sys, id)
    case Modify(id, positions, commits) =>
      if !Goes(sys, id) then sys
      else
        GoesModifiable(sys, id, positions, commits);
        ModifyCommitSurvivesIff(sys, id, positions);
        ModifyRollbackSurvives(sys, id, positions);
        var (s, w, _) := M.Modified(sys, id, positions);
        if commits then U.Commit(s, w) else U.Rollback(s, w).0
  }

  /** The command is the commit of a modification that leaves a gap. */
  ghost predicate CommitsGap(sys: U.System, cmd: Command)
    requires Ordered(sys) && Follows(sys, cmd)
  {
    cmd.Modify? && cmd.commits && Goes(sys, cmd.id) &&
    (GoesModifiable(sys, cmd.id, cmd.positions, true);
     var (s, w, _) := M.Modified(sys, cmd.id, cmd.positions);
     LeavesGap(s.t, s.u.rows[w]))
  }

  /** From a state where every context can be followed a command leads to another one if and only if it does not. */
  lemma ServeStaysReleasableIff(sys: U.System, cmd: Command)
    requires Ordered(sys) && Releasable(sys) && Follows(sys, cmd)
    ensures Releasable(Serve(sys, cmd)) <==> !CommitsGap(sys, cmd)
  {
    hide Releasable, LeavesGap, U.Commit, U.Rollback, M.Modified, M.Modifiable, Bearer.SetupBearer, Bearer.ReleaseUe;
    match cmd
    case Setup(req) => SetupSurvives(sys, req);
    case Release(id) =>
      if id in sys.u.index {
        ReleaseSurvives(sys, id);
      }
    case Modify(id, positions, commits) =>
      if Goes(sys, id) {
        GoesModifiable(sys, id, positions, commits);
        ModifyCommitSurvivesIff(sys, id, positions);
        ModifyRollbackSurvives(sys, id, positions);
      }
  }

  ghost predicate FollowsAll(sys: U.System, cmds: seq<Command>)
    requires Ordered(sys)
    decreases |cmds|
  {
    cmds == [] || (Follows(sys, cmds[0]) && FollowsAll(Serve(sys, cmds[0]), cmds[1..]))
  }

  ghost function ServeAll(sys: U.System, cmds: seq<Command>): (s': U.System)
    requires Ordered(sys) && FollowsAll(sys, cmds)
    ensures Ordered(s')
    decreases |cmds|
  {
    if cmds == [] then sys else ServeAll(Serve(sys, cmds[0]), cmds[1..])
  }

  ghost predicate ReleasableAllAlong(sys: U.System, cmds: seq<Command>)
    requires Ordered(sys) && FollowsAll(sys, cmds)
    decreases |cmds|
  {
    Releasable(sys) && (cmds == [] || ReleasableAllAlong(Serve(sys, cmds[0]), cmds[1..]))
  }

  ghost predicate NoneCommitsGap(sys: U.System, cmds: seq<Command>)
    requires Ordered(sys) && FollowsAll(sys, cmds)
    decreases |cmds|
  {
    cmds == [] || (!CommitsGap(sys, cmds[0]) && NoneCommitsGap(Serve(sys, cmds[0]), cmds[1..]))
  }

  lemma {:induction false} ReleasableAllAlongIff(sys: U.System, cmds: seq<Command>)
    requires Ordered(sys) && Releasable(sys) && FollowsAll(sys, cmds)
    ensures ReleasableAllAlong(sys, cmds) <==> NoneCommitsGap(sys, cmds)
    ensures NoneCommitsGap(sys, cmds) ==> Releasable(ServeAll(sys, cmds))
    decreases |cmds|
  {
    hide Ordered, Releasable, Serve, CommitsGap, Follows;
    if cmds != [] {
      ServeStaysReleasableIff(sys, cmds[0]);
      if !CommitsGap(sys, cmds[0]) {
        ReleasableAllAlongIff(Serve(sys, cmds[0]), cmds[1..]);
      }
    }
  }

  lemma {:induction false} IdsCount(u: U.UeStore, ids: set<nat>)
    requires U.UesAgree(u) && ids <= u.index.Keys
    ensures |set id | id in ids :: u.index[id]| == |ids|
  {
    if ids != {} {
      var id :| id in ids;
      var rest := ids - {id};
      IdsCount(u, rest);
      assert (set j | j in ids :: u.index[j]) == (set j | j in rest :: u.index[j]) + {u.index[id]};
      assert u.index[id] !in (set j | j in rest :: u.index[j]);
    }
  }

  lemma UsedUesAreIndexed(u: U.UeStore)
    requires U.UesAgree(u)
    ensures |U.UsedUes(u)| == |u.index|
  {
    IdsCount(u, u.index.Keys);
    assert U.UsedUes(u) == set id | id in u.index.Keys :: u.index[id];
  }

  lemma InitialisedReleasable(sys: U.System)
    requires U.Initialised(sys) && forall i :: 0 <= i < |sys.u.rows| ==> InRange(sys.u.rows[i], |sys.t.rows|)
    ensures Ordered(sys) && Releasable(sys)
  {
    forall i: nat | i < |sys.u.rows|
      ensures !sys.u.rows[i].used
    {
      assert i !in U.UsedUes(sys.u);
    }
  }

  /** After any run of setups, modifications and releases from an initialised system: each UE id looks up a used row
      that carries it, no two ids share a row, and as many rows are used as ids are indexed. Every context that can be
      looked up lists rows that a release can follow, all along the run, if and only if no modification in it
      leaves a gap. */
  lemma UeTableAgreesOverRuns(sys: U.System, cmds: seq<Command>)
    requires U.Initialised(sys) && forall i :: 0 <= i < |sys.u.rows| ==> InRange(sys.u.rows[i], |sys.t.rows|)
    ensures Ordered(sys)
    ensures FollowsAll(sys, cmds) ==>
            var s' := ServeAll(sys, cmds);
            U.UesAgree(s'.u) && |U.UsedUes(s'.u)| == |s'.u.index| &&
            (forall id, other :: id in s'.u.index && other in s'.u.index && id != other ==> s'.u.index[id] != s'.u.index[other]) &&
            (ReleasableAllAlong(sys, cmds) <==> NoneCommitsGap(sys, cmds))
  {
    InitialisedReleasable(sys);
    if FollowsAll(sys, cmds) {
      ReleasableAllAlongIff(sys, cmds);
      UsedUesAreIndexed(ServeAll(sys, cmds).u);
    }
  }
}
