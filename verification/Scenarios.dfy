/** Requests that a freshly initialised system serves, whatever its size from a few rows on: each shows at an input
    what the exact conditions elsewhere say in general. */
module Scenarios {
  import opened Options
  import opened Circular
  import opened T = TunnelStore
  import TX = TunnelTransactions
  import LK = LiveKeys
  import U = UeStore
  import opened Drb
  import opened Outcomes
  import opened Pdus
  import Bearer
  import opened UePacking
  import opened UeRelease
  import M = UeModify
  import opened SetupRuns
  import opened UeUndo
  import opened SetupResults
  import opened SetupRelease
  import opened UeGaps
  import opened UeRuns

  /** Two rows more than are in use: wherever the cursor stands, the next allocation finds one. */
  ghost predicate Roomy(t: Store) {
    T.Valid(t) && t.index == map[] && |Used(t)| + 2 <= |t.rows|
  }

  lemma Subset(a: set<nat>, b: set<nat>)
    requires a <= b
    ensures |a| <= |b|
  {
    assert |b - a| == |b| - |a|;
  }

  lemma UsedBound(n: nat, used: set<nat>, slot: nat)
    requires slot < n && AllButCursor(slot, n, used)
    ensures n <= |used| + 1
  {
    var others := LK.Below(n) - {slot};
    assert others <= used;
    Subset(others, used);
  }

  lemma NothingTaken(index: map<Key, nat>, ip: Ip, n: nat, lastId: nat)
    requires index == map[] && lastId < n && 1 < n
    ensures !AllButCursor(lastId, n, IdsTaken(index, ip, n))
  {
    assert Next(lastId, n) !in IdsTaken(index, ip, n);
  }

  /** Openings succeed in a roomy table. */
  lemma OpenSucceeds(t: Store, net: Net, remote: Ip, kind: Kind)
    requires Roomy(t) && LocalIp(net, remote, kind).Some?
    ensures var (t', r) := Open(t, net, remote, kind);
            r.Some? && r.value !in Used(t) && t'.index == map[] && |t'.rows| == |t.rows| && t'.rows[r.value].used &&
            t'.rows == t.rows[r.value := t'.rows[r.value]] && |Used(t')| == |Used(t)| + 1
  {
    hide Alloc, AllButCursor, IsFirstFree, UsedIn, LocalIp;
    NothingTaken(t.index, LocalIp(net, remote, kind).value, |t.rows|, t.lastId);
    SearchIsFirstFit(t.lastId, |t.rows|, IdsTaken(t.index, LocalIp(net, remote, kind).value, |t.rows|));
    var (t1, key) := KeyAlloc(t, net, remote, kind);
    TX.AllocTakesFreeRow(t1, key.value);
    if AllButCursor(t.slot, |t.rows|, Used(t)) {
      UsedBound(|t.rows|, Used(t), t.slot);
    }
  }

  lemma FillIsInvisible(t: Store, r: nat, ip: Ip, teid: nat, kind: Kind, id: nat)
    requires r < |t.rows|
    ensures var t' := Fill(t, r, ip, teid, kind, id);
            Used(t') == Used(t) && t'.index == t.index && |t'.rows| == |t.rows| && t'.rows[r].id == id &&
            forall q: nat :: q < |t.rows| && q != r ==> t'.rows[q] == t.rows[q]
  {}

  /** A DRB request is accepted if there is room and its id is not listed; rows in use are not touched. */
  lemma DrbAccepted(net: Net, t: Store, c: U.UeCtx, req: DrbReq)
    requires Sound(t, c) && Roomy(t) && c.drbCount < U.MAX_DRB_PER_UE && !DrbListed(t, c, req.drbId)
    ensures var (t', c', o) := SetupDrb(net, t, c, req);
            o.Accepted? && t'.index == map[] && |Used(t')| == |Used(t)| + 1 && |t'.rows| == |t.rows| && Keeps(t, t') &&
            c'.drbCount == c.drbCount + 1 && c'.drbs[..c.drbCount] == c.drbs[..c.drbCount] &&
            var r := U.DrbAt(c', |t'.rows|, c.drbCount);
            t'.rows[r].used && t'.rows[r].id == req.drbId % DRB_ID_RANGE
  {
    hide Open, UsedIn;
    OpenSucceeds(t, net, req.dlIp, DrbTunnel);
    var (t1, r) := Open(t, net, req.dlIp, DrbTunnel);
    FillIsInvisible(t1, r.value, req.dlIp, req.dlTeid, DrbTunnel, req.drbId % DRB_ID_RANGE);
    TX.IsUsed(t, r.value);
    assert AppendDrb(c, r.value).drbs[..c.drbCount] == c.drbs[..c.drbCount];
  }

  /** A session request with a reachable peer gets its row if there is room. */
  lemma PdusRowTaken(net: Net, t: Store, c: U.UeCtx, req: PdusReq)
    requires Sound(t, c) && Roomy(t) && c.pdusCount == 0 && LocalIp(net, req.ulIp, PdusTunnel).Some?
    ensures var (t', r) := OpenPdus(net, t, c, req);
            r.Some? && t'.index == map[] && |Used(t')| == |Used(t)| + 1 && |t'.rows| == |t.rows|
  {
    hide Open, UsedIn, LocalIp;
    OpenSucceeds(t, net, req.ulIp, PdusTunnel);
    var (t1, r) := Open(t, net, req.ulIp, PdusTunnel);
    FillIsInvisible(t1, r.value, req.ulIp, req.ulTeid, PdusTunnel, req.pdusId);
  }

  /** An initialised system of at least two UE rows takes a new UE. */
  lemma UeTaken(sys: U.System, cucpId: nat)
    requires U.Initialised(sys) && 2 <= |sys.u.rows|
    ensures var (u1, r) := Bearer.OpenUe(sys.u, cucpId);
            r.Some? && u1.index == map[] && |u1.rows| == |sys.u.rows| &&
            u1.rows[r.value].pdusCount == u1.rows[r.value].drbCount == 0
  {
    var u, n := sys.u, |sys.u.rows|;
    assert Next(u.lastId, n) !in U.IdsTaken(u.index, n);
    SearchIsFirstFit(u.lastId, n, U.IdsTaken(u.index, n));
    var u1 := U.IdAlloc(u).0;
    assert U.UsedUes(u1) == {} && Next(u.slot, n) !in U.UsedUes(u1);
    SearchIsFirstFit(u.slot, n, U.UsedUes(u1));
  }

  lemma OneRequest(net: Net, t: Store, c: U.UeCtx, req: PdusReq)
    requires Sound(t, c)
    ensures var (t', c', o) := SetupPdus(net, t, c, req);
            Bearer.SetupAll(net, t, c, [req]) == (t', c', [o]) && (SomeAllDrbsFail(net, t, c, [req]) <==> AllDrbsFail(net, t, c, req))
  {
    hide SetupPdus, AllDrbsFail;
    var o := SetupPdus(net, t, c, req).2;
    assert [req][..0] == [] && [] + [o] == [o];
  }

  lemma InitialisedSettled(sys: U.System)
    requires U.Initialised(sys)
    ensures LK.Settled(sys.t) && LK.Live(sys.t) && (2 <= |sys.t.rows| ==> Roomy(sys.t))
  {
    forall r: nat | r < |sys.t.rows|
      ensures !sys.t.rows[r].used
    {
      TX.IsUsed(sys.t, r);
    }
    LK.SettledIsLive(sys.t);
  }

  lemma OneDrb(net: Net, t: Store, c: U.UeCtx, req: DrbReq)
    requires Sound(t, c)
    ensures var (t', c', o) := SetupDrb(net, t, c, req);
            SetupDrbs(net, t, c, [req]) == (t', c', [o])
  {
    hide SetupDrb;
    var o := SetupDrb(net, t, c, req).2;
    assert [req][..0] == [] && [] + [o] == [o];
  }

  lemma AcceptedAlone<S, F>(o: Outcome<S, F>)
    ensures Accepts([o]) == (if o.Accepted? then [o.succ] else []) && Rejects([o]) == (if o.Rejected? then [o.fail] else [])
  {
    AcceptsStep([], o);
    assert [] + [o] == [o];
  }

  /** One session with one DRB is accepted. */
  lemma OneDrbSession(net: Net, t: Store, c: U.UeCtx, req: PdusReq)
    requires Sound(t, c) && Roomy(t) && |Used(t)| + 3 <= |t.rows| && c.pdusCount == c.drbCount == 0
    requires LocalIp(net, req.ulIp, PdusTunnel).Some? && |req.drbs| == 1
    ensures var (t', c', o) := SetupPdus(net, t, c, req);
            o.Accepted? && |Used(t')| == |Used(t)| + 2 && |t'.rows| == |t.rows| && c'.drbCount == 1
  {
    hide Open, UsedIn, LocalIp, SetupDrb, OpenPdus;
    PdusRowTaken(net, t, c, req);
    var t1 := OpenPdus(net, t, c, req).0;
    DrbAccepted(net, t1, c, req.drbs[0]);
    OneDrb(net, t1, c, req.drbs[0]);
    assert req.drbs == [req.drbs[0]];
    AcceptedAlone(SetupDrb(net, t1, c, req.drbs[0]).2);
  }

  /** Setups do succeed: in an initialised system of at least three tunnel rows and two UE rows, every request for one
      session with one DRB to a reachable peer. */
  lemma SetupSucceeds(net: Net, sys: U.System, cucpId: nat, req: PdusReq)
    requires U.Initialised(sys) && 2 <= |sys.u.rows| && 3 <= |sys.t.rows|
    requires LocalIp(net, req.ulIp, PdusTunnel).Some? && |req.drbs| == 1
    ensures Ready(net, sys, cucpId, [req])
    ensures var (s1, r, _) := Bearer.AfterRequests(net, sys, cucpId, [req]);
            |Used(s1.t)| == 2 && |s1.t.rows| == |sys.t.rows| && s1.u.rows[r.value].drbCount == 1
  {
    hide LocalIp, SetupPdus, Bearer.SetupAll, Bearer.OpenUe, UsedIn, LK.Settled, LK.Live;
    InitialisedSettled(sys);
    UeTaken(sys, cucpId);
    var (u1, r) := Bearer.OpenUe(sys.u, cucpId);
    OneDrbSession(net, sys.t, u1.rows[r.value], req);
    OneRequest(net, sys.t, u1.rows[r.value], req);
    AcceptedAlone(SetupPdus(net, sys.t, u1.rows[r.value], req).2);
  }

  lemma ModifyUeSucceeds(u: U.UeStore, id: nat)
    requires U.ValidUes(u) && id in u.index && |U.UsedUes(u)| + 2 <= |u.rows|
    ensures U.Modify(u, id).1.Some?
  {
    SearchIsFirstFit(u.slot, |u.rows|, U.UsedUes(u));
    if AllButCursor(u.slot, |u.rows|, U.UsedUes(u)) {
      UsedBound(|u.rows|, U.UsedUes(u), u.slot);
    }
  }

  /** With a free row, modifying the first DRB makes a copy of it. */
  lemma CopyMade(t: Store, c: U.UeCtx)
    requires T.Valid(t) && U.Pointed(c, |t.rows|) && 0 < c.drbCount && |Used(t)| + 2 <= |t.rows|
    requires t.rows[U.DrbAt(c, |t.rows|, 0)].key in t.index
    ensures U.Within([0], c.drbCount) && U.DrbAt(c, |t.rows|, 0) in M.ModifyAll(t, c, [0]).2
  {
    hide Alloc, AllButCursor, IsFirstFree, UsedIn, U.Pointed;
    var idxs: seq<nat> := [0];
    assert idxs[..0] == [] && M.ModifyAll(t, c, idxs[..0]) == (t, c, map[]);
    TX.AllocTakesFreeRow(t, t.rows[U.DrbAt(c, |t.rows|, 0)].key);
    if AllButCursor(t.slot, |t.rows|, Used(t)) {
      UsedBound(|t.rows|, Used(t), t.slot);
    }
  }

  lemma ModifiedCopies(sys: U.System, id: nat)
    requires CommittedCtx(sys, id) && U.Modify(sys.u, id).1.Some? && |Used(sys.t)| + 2 <= |sys.t.rows|
    requires 0 < sys.u.rows[sys.u.index[id]].drbCount
    ensures var c := sys.u.rows[sys.u.index[id]];
            U.Within([0], c.drbCount) && U.DrbAt(c, |sys.t.rows|, 0) in M.Modified(sys, id, [0]).2
  {
    hide UsedIn, M.ModifyAll;
    var c := sys.u.rows[sys.u.index[id]];
    M.ModifyTakesRow(sys.u, id);
    var (u1, r) := U.Modify(sys.u, id);
    M.PointedByPrefixes(c, u1.rows[r.value], |sys.t.rows|);
    var d := u1.rows[r.value];
    assert c.drbs[..c.drbCount][0] == c.drbs[0] && d.drbs[..d.drbCount][0] == d.drbs[0];
    M.ListedIndexed(sys.t, U.DrbRows(c, |sys.t.rows|), U.PdusRows(c, |sys.t.rows|));
    assert LK.Indexed(sys.t, U.DrbRows(c, |sys.t.rows|)[0]);
    CopyMade(sys.t, d);
  }

  lemma OneIsDistinct()
    ensures M.Distinct([0])
  {}

  lemma OneUeUsed(u: U.UeStore, u': U.UeStore, r: nat)
    requires U.UsedUes(u) == {} && |u'.rows| == |u.rows| && forall i :: 0 <= i < |u.rows| && i != r ==> u'.rows[i] == u.rows[i]
    ensures |U.UsedUes(u')| <= 1
  {
    assert forall i: nat :: i < |u.rows| ==> i !in U.UsedUes(u);
    assert U.UsedUes(u') <= {r};
    Subset(U.UsedUes(u'), {r});
  }

  lemma AfterOneSetup(net: Net, sys: U.System, cucpId: nat, req: PdusReq)
    requires U.Initialised(sys) && 3 <= |sys.u.rows| && 4 <= |sys.t.rows|
    requires LocalIp(net, req.ulIp, PdusTunnel).Some? && |req.drbs| == 1
    ensures Ready(net, sys, cucpId, [req])
    ensures var s0, id := Bearer.SetupBearer(net, sys, cucpId, [req]), NewId(net, sys, cucpId, [req]);
            |Used(s0.t)| + 2 <= |s0.t.rows| && |U.UsedUes(s0.u)| + 2 <= |s0.u.rows| &&
            id in s0.u.index && s0.u.index[id] < |s0.u.rows| && s0.u.rows[s0.u.index[id]].drbCount == 1
  {
    hide Bearer.SetupBearer, Indexing, LK.Settled, LK.Live, CommittedCtx, Fresh, ListedRows, UsedIn, Bearer.AfterRequests;
    SetupSucceeds(net, sys, cucpId, req);
    SetupCommits(net, sys, cucpId, [req]);
    var s0 := Bearer.SetupBearer(net, sys, cucpId, [req]);
    var r := Bearer.AfterRequests(net, sys, cucpId, [req]).1.value;
    assert Used(s0.t) == Used(Bearer.AfterRequests(net, sys, cucpId, [req]).0.t);
    assert |U.DrbRows(s0.u.rows[r], |s0.t.rows|)| == 1;
    OneUeUsed(sys.u, s0.u, r);
  }

  /** In the system of SetupSucceeds, with one row more of each kind, modifying that one DRB: its commit does not
      conserve the tunnel table, and its rollback does not give the copy back. */
  lemma ModifyAfterSetupLoses(net: Net, sys: U.System, cucpId: nat, req: PdusReq)
    requires U.Initialised(sys) && 3 <= |sys.u.rows| && 4 <= |sys.t.rows|
    requires LocalIp(net, req.ulIp, PdusTunnel).Some? && |req.drbs| == 1
    ensures Ready(net, sys, cucpId, [req])
    ensures var s0, id := Bearer.SetupBearer(net, sys, cucpId, [req]), NewId(net, sys, cucpId, [req]);
            CommittedCtx(s0, id) && U.Modify(s0.u, id).1.Some? && U.Within([0], s0.u.rows[s0.u.index[id]].drbCount) &&
            var (s, w, copies) := M.Modified(s0, id, [0]);
            !M.Conserves(s0.t, copies, U.Commit(s, w).t) &&
            U.Pointed(U.RolledBackCtx(s, w), |s.t.rows|) && Used(U.Rollback(s, w).0.t) != Used(s0.t)
  {
    hide LocalIp, Bearer.SetupBearer, NewId, M.Modified, M.Conserves, U.Commit, LK.Settled, LK.Live, CommittedCtx, UsedIn;
    hide U.Rollback, U.RolledBackCtx, M.Distinct, M.Modifiable, Ready;
    SetupSucceeds(net, sys, cucpId, req);
    var s0, id := Bearer.SetupBearer(net, sys, cucpId, [req]), NewId(net, sys, cucpId, [req]);
    SetupContext(net, sys, cucpId, [req]);
    CommittedPointed(s0, id);
    AfterOneSetup(net, sys, cucpId, req);
    ModifyUeSucceeds(s0.u, id);
    ModifiedCopies(s0, id);
    M.CommittedModifiable(s0, id, [0]);
    assert M.Distinct([0]) by {
      OneIsDistinct();
    }
    ModifyAfterSetupConservesIff(net, sys, cucpId, [req], [0]);
    M.ModifyUndoneIff(s0, id, [0]);
    var (s, w, copies) := M.Modified(s0, id, [0]);
    var idxs: seq<nat> := [0];
    assert idxs[0] == 0 && U.DrbAt(s0.u.rows[s0.u.index[id]], |s0.t.rows|, idxs[0]) in copies;
    assert !M.Conserves(s0.t, copies, U.Commit(s, w).t);
    assert copies != map[];
  }

  lemma OneRowDistinct(rs: seq<nat>)
    requires |rs| == 1
    ensures M.Distinct(rs)
  {}

  /** What the first modification leaves, where the one DRB was copied: the context lists free rows only, and there is
      room for another modification. */
  lemma FirstModificationFreesAll(sys: U.System, id: nat)
    requires CommittedCtx(sys, id) && |Used(sys.t)| + 2 <= |sys.t.rows| && |U.UsedUes(sys.u)| + 2 <= |sys.u.rows|
    requires var c, n := sys.u.rows[sys.u.index[id]], |sys.t.rows|;
             c.pdusCount == c.drbCount == 1 && U.PdusRows(c, n) == U.DrbRows(c, n)
    ensures M.Modifiable(sys, id, [0]) && var (s, w, _) := M.Modified(sys, id, [0]);
            var s', n := U.Commit(s, w), |sys.t.rows|;
            M.Modifiable(s', id, []) && var c' := s'.u.rows[s'.u.index[id]];
            |s'.t.rows| == n && c'.pdusCount == c'.drbCount == 1 &&
            AllFree(s'.t, U.DrbRows(c', n)) && AllFree(s'.t, U.PdusRows(c', n))
  {
    hide CommittedCtx, M.Modified, M.Conserves, M.Distinct, U.Commit, AllFree, UsedIn;
    CommittedPointed(sys, id);
    var c, n := sys.u.rows[sys.u.index[id]], |sys.t.rows|;
    ModifyUeSucceeds(sys.u, id);
    ModifiedCopies(sys, id);
    M.CommittedModifiable(sys, id, [0]);
    assert M.Distinct([0]) && M.Distinct(U.DrbRows(c, n)) by {
      OneIsDistinct();
      OneRowDistinct(U.DrbRows(c, n));
    }
    assert c.drbs[..c.drbCount][0] == c.drbs[0];
    WholeModificationFreesAll(sys, id, [0]);
    M.ModifyCommitConserves(sys, id, [0]);
    var (s, w, _) := M.Modified(sys, id, [0]);
    ModifyUeSucceeds(U.Commit(s, w).u, id);
  }

  lemma ServeModify(sys: U.System, id: nat, positions: seq<nat>)
    requires Ordered(sys) && M.Modifiable(sys, id, positions)
    ensures var (s, w, _) := M.Modified(sys, id, positions);
            Follows(sys, Command.Modify(id, positions, true)) &&
            Serve(sys, Command.Modify(id, positions, true)) == U.Commit(s, w)
  {
    hide U.Commit, M.Modified;
  }

  lemma ThreeCommands(sys: U.System, first: Command, second: Command, third: Command)
    requires Ordered(sys) && Follows(sys, first) && Follows(Serve(sys, first), second)
    requires Follows(Serve(Serve(sys, first), second), third)
    ensures FollowsAll(sys, [first, second, third])
    ensures ServeAll(sys, [first, second, third]) == Serve(Serve(Serve(sys, first), second), third)
  {
    hide Serve, Follows, Ordered;
    var s1 := Serve(sys, first);
    var s2 := Serve(s1, second);
    assert [first, second, third][1..] == [second, third] && [second, third][1..] == [third] && [third][1..] == [];
    var s3 := Serve(s2, third);
    assert FollowsAll(s3, []) && ServeAll(s3, []) == s3;
    assert FollowsAll(s2, [third]) && ServeAll(s2, [third]) == s3;
    assert FollowsAll(s1, [second, third]) && ServeAll(s1, [second, third]) == s3;
  }

  /** In the same system: the one DRB is modified and the modification committed, and then a second modification, of
      nothing, is committed. A release that comes next follows a null pointer. */
  lemma SecondModificationCommitsGap(net: Net, sys: U.System, cucpId: nat, req: PdusReq)
    requires U.Initialised(sys) && 3 <= |sys.u.rows| && 4 <= |sys.t.rows|
    requires forall i :: 0 <= i < |sys.u.rows| ==> InRange(sys.u.rows[i], |sys.t.rows|)
    requires LocalIp(net, req.ulIp, PdusTunnel).Some? && |req.drbs| == 1
    ensures Ordered(sys) && Ready(net, sys, cucpId, [req])
    ensures var id := NewId(net, sys, cucpId, [req]);
            var cmds := [Setup(BearerReq(net, cucpId, [req])), Command.Modify(id, [0], true), Command.Modify(id, [], true)];
            FollowsAll(sys, cmds) && !Follows(ServeAll(sys, cmds), Release(id))
  {
    hide LocalIp, Bearer.SetupBearer, NewId, M.Modified, M.Modifiable, U.Commit, LK.Settled, CommittedCtx, UsedIn, Ready;
    hide Ordered, LeavesGap, AllFree;
    InitialisedReleasable(sys);
    SetupSucceeds(net, sys, cucpId, req);
    SetupContext(net, sys, cucpId, [req]);
    AfterOneSetup(net, sys, cucpId, req);
    var id := NewId(net, sys, cucpId, [req]);
    var first := Setup(BearerReq(net, cucpId, [req]));
    var s0 := Serve(sys, first);
    SetupSurvives(sys, first.req);
    assert s0 == Bearer.SetupBearer(net, sys, cucpId, [req]);
    CommittedPointed(s0, id);
    FirstModificationFreesAll(s0, id);
    ServeModify(s0, id, [0]);
    var s1 := Serve(s0, Command.Modify(id, [0], true));
    ServeModify(s1, id, []);
    FreeContextLeavesGap(s1, id);
    ModifyCommitSurvivesIff(s1, id, []);
    ThreeCommands(sys, first, Command.Modify(id, [0], true), Command.Modify(id, [], true));
  }

  /** A session request without DRBs is one whose DRBs all fail. */
  lemma EmptySessionFails(net: Net, t: Store, c: U.UeCtx, req: PdusReq)
    requires Sound(t, c) && req.drbs == []
    ensures AllDrbsFail(net, t, c, req) <==> OpenPdus(net, t, c, req).1.Some?
  {
    hide OpenPdus;
  }

  /** So its row is not given back when the UE is rolled back. */
  lemma EmptySessionLeaks(net: Net, sys: U.System, cucpId: nat, req: PdusReq)
    requires U.Initialised(sys) && 2 <= |sys.u.rows| && 2 <= |sys.t.rows|
    requires LocalIp(net, req.ulIp, PdusTunnel).Some? && req.drbs == []
    ensures var (s1, r, outs) := Bearer.AfterRequests(net, sys, cucpId, [req]);
            r.Some? &&
            var s2 := U.Rollback(s1, r.value).0;
            !(s2.t.index == sys.t.index && Used(s2.t) == Used(sys.t))
  {
    hide LocalIp, OpenPdus, SomeAllDrbsFail, AllDrbsFail, Bearer.SetupAll, Bearer.OpenUe, UsedIn, LK.Live, LK.Settled, U.Rollback;
    InitialisedSettled(sys);
    UeTaken(sys, cucpId);
    var (u1, r) := Bearer.OpenUe(sys.u, cucpId);
    var c := u1.rows[r.value];
    PdusRowTaken(net, sys.t, c, req);
    EmptySessionFails(net, sys.t, c, req);
    OneRequest(net, sys.t, c, req);
    UndoGivesBackAllIff(net, sys, cucpId, [req]);
  }

  /** DRB 1 and then DRB 33 are both accepted, and two listed rows have id 1. */
  lemma TwoDrbsOneId(net: Net, t: Store, c: U.UeCtx, first: DrbReq, second: DrbReq)
    requires Sound(t, c) && Roomy(t) && |Used(t)| + 3 <= |t.rows| && c.drbCount == 0 && first.drbId == 1 && second.drbId == 33
    ensures var (t', c', outs) := SetupDrbs(net, t, c, [first, second]);
            outs[0].Accepted? && outs[1].Accepted? && c'.drbCount == 2 &&
            t'.rows[U.DrbAt(c', |t'.rows|, 0)].id == t'.rows[U.DrbAt(c', |t'.rows|, 1)].id == 1
  {
    hide SetupDrb, UsedIn;
    DrbAccepted(net, t, c, first);
    var (t1, c1, o1) := SetupDrb(net, t, c, first);
    OneDrb(net, t, c, first);
    assert [first, second][..1] == [first];
    assert c1.drbs[..1][0] == c1.drbs[0];
    assert !DrbListed(t1, c1, 33);
    DrbAccepted(net, t1, c1, second);
    var (t2, c2, o2) := SetupDrb(net, t1, c1, second);
    assert c2.drbs[0] == c2.drbs[..1][0] == c1.drbs[0];
  }
}
