/** Setups of PDU sessions and DRBs on one UE context: which rows they take, and what a rollback gives back. */
module SetupRuns {
  import opened Options
  import opened T = TunnelStore
  import LK = LiveKeys
  import U = UeStore
  import opened Drb
  import opened Outcomes
  import opened Pdus
  import opened UeRelease
  import M = UeModify

  /** The table t grew out of t0 by taking the rows `held`, which are not indexed, and others that have been
      indexed since (leaked by failed setups): rows in use before are untouched, and no other row is used. */
  ghost predicate Held(t0: Store, t: Store, held: set<nat>) {
    LK.Live(t) && |t.rows| == |t0.rows| &&
    (forall q: nat :: q < |t.rows| && t0.rows[q].used ==> t.rows[q] == t0.rows[q]) &&
    (forall k :: k in t0.index ==> k in t.index && t.index[k] == t0.index[k]) &&
    (forall k :: k in t.index && k !in t0.index ==> !t0.rows[t.index[k]].used) &&
    (forall r :: r in held ==> r < |t.rows| && t.rows[r].used && !t0.rows[r].used && t.rows[r].key !in t.index) &&
    (forall q: nat :: q < |t.rows| && t.rows[q].used ==>
      t0.rows[q].used || q in held || (t.rows[q].key in t.index && t.rows[q].key !in t0.index))
  }

  lemma HeldStart(t: Store)
    requires LK.Live(t)
    ensures Held(t, t, {})
  {}

  lemma HeldOpen(t0: Store, t: Store, held: set<nat>, net: Net, remote: Ip, kind: Kind)
    requires Held(t0, t, held)
    ensures LK.Opened(t, net, remote, kind)
    ensures var (t', r) := Open(t, net, remote, kind);
            Held(t0, t', if r.None? then held else held + {r.value})
  {
    LK.OpenKeepsLive(t, net, remote, kind);
  }

  lemma HeldFill(t0: Store, t: Store, held: set<nat>, r: nat, ip: Ip, teid: nat, kind: Kind, id: nat)
    requires Held(t0, t, held) && r in held
    ensures Held(t0, Fill(t, r, ip, teid, kind, id), held)
  {
    LK.FillKeepsLive(t, r, ip, teid, kind, id);
  }

  lemma HeldKeysDiffer(t0: Store, t: Store, held: set<nat>)
    requires Held(t0, t, held)
    ensures forall r, q :: r in held && q in held && r != q ==> t.rows[r].key != t.rows[q].key
  {}

  /** Committing a held row: it is no longer held but indexed. */
  lemma HeldCommit(t0: Store, t: Store, held: set<nat>, r: nat)
    requires Held(t0, t, held) && r in held
    ensures var key := t.rows[r].key;
            Remove(t, key) == (t, NotFound) && FailureTail(t, key, r) == t.(index := t.index[key := r]) &&
            key !in t.index && Held(t0, t.(index := t.index[key := r]), held - {r})
  {
    LK.CommitKeepsLive(t, r);
    HeldKeysDiffer(t0, t, held);
    assert Commit(t, r) == t.(index := t.index[t.rows[r].key := r]);
  }

  lemma ConcatAssoc<X>(a: seq<X>, b: seq<X>, c: seq<X>)
    ensures (a + b) + c == a + (b + c)
  {}

  lemma MembersSnoc(rs: seq<nat>, r: nat)
    ensures M.Members(rs + [r]) == M.Members(rs) + {r}
  {}

  lemma MembersConcat(rs: seq<nat>, qs: seq<nat>)
    ensures M.Members(rs + qs) == M.Members(rs) + M.Members(qs)
  {}

  /** The context lists, each once, the rows held except some not listed yet. */
  ghost predicate ListsHeld(c: U.UeCtx, n: nat, held: set<nat>, unlisted: set<nat>) {
    U.Pointed(c, n) && M.Distinct(Listed(c, n)) && unlisted <= held && M.Members(Listed(c, n)) == held - unlisted
  }

  lemma RowCounts(c: U.UeCtx, n: nat)
    requires U.Pointed(c, n)
    ensures |U.DrbRows(c, n)| == c.drbCount && |U.PdusRows(c, n)| == c.pdusCount
  {}

  lemma InsertDistinct(a: seq<nat>, r: nat, b: seq<nat>)
    requires M.Distinct(a + b) && r !in a + b
    ensures M.Distinct(a + [r] + b) && M.Members(a + [r] + b) == M.Members(a + b) + {r}
  {
    var s := a + [r] + b;
    forall i, j | 0 <= i < j < |s|
      ensures s[i] != s[j]
    {
      assert i < |a| ==> s[i] == (a + b)[i];
      assert j < |a| ==> s[j] == (a + b)[j];
      assert i > |a| ==> s[i] == (a + b)[i - 1];
      assert j > |a| ==> s[j] == (a + b)[j - 1];
    }
    forall x
      ensures x in s <==> x in a + b || x == r
    {}
  }

  lemma AppendDrbLists(c: U.UeCtx, n: nat, held: set<nat>, unlisted: set<nat>, r: nat)
    requires ListsHeld(c, n, held, unlisted) && c.drbCount < U.MAX_DRB_PER_UE && r < n && r !in held
    ensures ListsHeld(AppendDrb(c, r), n, held + {r}, unlisted)
    ensures U.DrbRows(AppendDrb(c, r), n) == U.DrbRows(c, n) + [r]
    ensures U.PdusRows(AppendDrb(c, r), n) == U.PdusRows(c, n)
  {
    var c' := AppendDrb(c, r);
    assert c'.drbs[..c'.drbCount] == c.drbs[..c.drbCount] + [Some(r)];
    assert U.DrbRows(c', n) == U.DrbRows(c, n) + [r];
    assert r !in M.Members(Listed(c, n));
    InsertDistinct(U.DrbRows(c, n), r, U.PdusRows(c, n));
  }

  lemma AppendPdusLists(c: U.UeCtx, n: nat, held: set<nat>, unlisted: set<nat>, r: nat)
    requires ListsHeld(c, n, held, unlisted) && c.pdusCount < U.MAX_PDUS_PER_UE && r < n && r in unlisted
    ensures ListsHeld(AppendPdus(c, r), n, held, unlisted - {r})
    ensures U.PdusRows(AppendPdus(c, r), n) == U.PdusRows(c, n) + [r]
    ensures U.DrbRows(AppendPdus(c, r), n) == U.DrbRows(c, n)
  {
    var c' := AppendPdus(c, r);
    assert c'.pdus[..c'.pdusCount] == c.pdus[..c.pdusCount] + [Some(r)];
    assert U.PdusRows(c', n) == U.PdusRows(c, n) + [r];
    assert Listed(c, n) + [] == Listed(c, n);
    assert Listed(c', n) == Listed(c, n) + [r] + [];
    InsertDistinct(Listed(c, n), r, []);
  }

  /** What an accepted DRB setup does: it fills an unused row with the request's details under a key of the
      local address, lists it last, and reports its id and key. */
  ghost predicate DrbTaken(t: Store, c: U.UeCtx, req: DrbReq, s: DrbSucc, t': Store, c': U.UeCtx, r: nat) {
    U.Shaped(c) && c.drbCount < U.MAX_DRB_PER_UE && r < |t.rows| && !t.rows[r].used &&
    c' == AppendDrb(c, r) && t'.index == t.index &&
    t'.rows == t.rows[r := Tunnel(Key(s.ulIp, s.ulTeid), req.dlIp, req.dlTeid, DrbTunnel, s.drbId, true)] &&
    s.ulIp == F1U_LOCAL_IP && s.drbId == req.drbId % DRB_ID_RANGE && s.ulTeid < |t.rows|
  }

  /** The row listed last. */
  function LastDrb(c: U.UeCtx): nat
    requires U.Shaped(c) && 0 < c.drbCount && c.drbs[c.drbCount - 1].Some?
  {
    c.drbs[c.drbCount - 1].value
  }

  lemma OpenedIsUnused(t0: Store, t: Store, held: set<nat>, r: nat)
    requires Held(t0, t, held) && r < |t.rows| && !t.rows[r].used
    ensures r !in held
  {}

  lemma SetupDrbEffect(net: Net, t0: Store, t: Store, c: U.UeCtx, req: DrbReq, held: set<nat>, unlisted: set<nat>)
    requires Sound(t, c) && Held(t0, t, held) && ListsHeld(c, |t.rows|, held, unlisted)
    ensures var (t', c', o) := SetupDrb(net, t, c, req);
            match o
            case Rejected(f) =>
              c' == c && t'.rows == t.rows && t'.index == t.index && Held(t0, t', held) && f.drbId == req.drbId
            case Accepted(s) =>
              0 < c'.drbCount && var r := LastDrb(c');
              !DrbListed(t, c, req.drbId) && DrbTaken(t, c, req, s, t', c', r) && r !in held &&
              Held(t0, t', held + {r}) && ListsHeld(c', |t.rows|, held + {r}, unlisted) &&
              U.DrbRows(c', |t.rows|) == U.DrbRows(c, |t.rows|) + [r] && U.PdusRows(c', |t.rows|) == U.PdusRows(c, |t.rows|)
  {
    hide Open, Held, ListsHeld, Listed;
    var (t', c', o) := SetupDrb(net, t, c, req);
    HeldOpen(t0, t, held, net, req.dlIp, DrbTunnel);
    var (t1, a) := Open(t, net, req.dlIp, DrbTunnel);
    if o.Accepted? {
      var r := a.value;
      OpenedIsUnused(t0, t, held, r);
      HeldFill(t0, t1, held + {r}, r, req.dlIp, req.dlTeid, DrbTunnel, req.drbId % DRB_ID_RANGE);
      AppendDrbLists(c, |t.rows|, held, unlisted, r);
    }
  }

  /** Rows in use are not touched by later setups. */
  ghost predicate Keeps(t: Store, t': Store) {
    |t'.rows| == |t.rows| && forall q: nat :: q < |t.rows| && t.rows[q].used ==> t'.rows[q] == t.rows[q]
  }

  /** The response for a DRB carries the id and key of its row. */
  ghost predicate Describes(t: Store, r: nat, s: DrbSucc) {
    r < |t.rows| && t.rows[r].used && t.rows[r].key == Key(s.ulIp, s.ulTeid) && t.rows[r].id == s.drbId
  }

  /** The rows added to the DRB list are described, in order, by the accepted responses. */
  ghost predicate Reported(t: Store, rs: seq<nat>, ss: seq<DrbSucc>) {
    |rs| == |ss| && forall i :: 0 <= i < |rs| ==> Describes(t, rs[i], ss[i])
  }

  lemma ReportedNone(t: Store)
    ensures Reported(t, [], [])
  {}

  lemma ReportedKept(t: Store, t': Store, rs: seq<nat>, ss: seq<DrbSucc>)
    requires Reported(t, rs, ss) && Keeps(t, t')
    ensures Reported(t', rs, ss)
  {}

  lemma ReportedSnoc(t: Store, t': Store, rs: seq<nat>, ss: seq<DrbSucc>, r: nat, s: DrbSucc)
    requires Reported(t, rs, ss) && Keeps(t, t') && Describes(t', r, s)
    ensures Reported(t', rs + [r], ss + [s])
  {}

  /** The whole DRB loop: it lists the rows of the accepted requests, in order, after those listed before, and
      takes no other row. */
  lemma {:induction false} SetupDrbsEffect(net: Net, t0: Store, t: Store, c: U.UeCtx, reqs: seq<DrbReq>,
                                           held: set<nat>, unlisted: set<nat>)
    returns (added: seq<nat>)
    requires Sound(t, c) && Held(t0, t, held) && ListsHeld(c, |t.rows|, held, unlisted)
    ensures var (t', c', outs) := SetupDrbs(net, t, c, reqs);
            var n := |t.rows|;
            |t'.rows| == n && t'.index == t.index && Keeps(t, t') &&
            Held(t0, t', held + M.Members(added)) && ListsHeld(c', n, held + M.Members(added), unlisted) &&
            U.DrbRows(c', n) == U.DrbRows(c, n) + added && U.PdusRows(c', n) == U.PdusRows(c, n) &&
            Reported(t', added, Accepts(outs)) && (added == [] ==> c' == c)
  {
    hide Held, SetupDrb, Reported, ListsHeld, Listed, M.Members, U.DrbRows, U.PdusRows, U.Pointed;
    if reqs == [] {
      added := [];
      assert held + M.Members([]) == held by {
        M.NoMembers();
      }
      ReportedNone(t);
    } else {
      var init, req := reqs[..|reqs| - 1], reqs[|reqs| - 1];
      var before := SetupDrbsEffect(net, t0, t, c, init, held, unlisted);
      var (t1, c1, outs) := SetupDrbs(net, t, c, init);
      var (t2, c2, o) := SetupDrb(net, t1, c1, req);
      SetupDrbEffect(net, t0, t1, c1, req, held + M.Members(before), unlisted);
      AcceptsStep(outs, o);
      if o.Accepted? {
        var r := LastDrb(c2);
        added := before + [r];
        ReportedSnoc(t1, t2, before, Accepts(outs), r, o.succ);
        MembersSnoc(before, r);
        assert held + M.Members(added) == held + M.Members(before) + {r};
        ConcatAssoc(U.DrbRows(c, |t.rows|), before, [r]);
      } else {
        added := before;
        ReportedKept(t1, t2, before, Accepts(outs));
        assert Accepts(outs) + [] == Accepts(outs);
      }
    }
  }

  lemma OpenPdusEffect(net: Net, t0: Store, t: Store, c: U.UeCtx, req: PdusReq, held: set<nat>)
    requires Sound(t, c) && Held(t0, t, held) && ListsHeld(c, |t.rows|, held, {})
    ensures var (t', a) := OpenPdus(net, t, c, req);
            |t'.rows| == |t.rows| && t'.index == t.index && Keeps(t, t') &&
            match a
            case None => t'.rows == t.rows && Held(t0, t', held)
            case Some(p) =>
              !PdusListed(t, c, req.pdusId) && !t.rows[p].used && p !in held && Held(t0, t', held + {p}) &&
              ListsHeld(c, |t.rows|, held + {p}, {p}) &&
              t'.rows[p] == Tunnel(t'.rows[p].key, req.ulIp, req.ulTeid, PdusTunnel, req.pdusId, true)
  {
    hide Open, Held;
    HeldOpen(t0, t, held, net, req.ulIp, PdusTunnel);
    var (t1, a) := Open(t, net, req.ulIp, PdusTunnel);
    if a.Some? {
      OpenedIsUnused(t0, t, held, a.value);
      HeldFill(t0, t1, held + {a.value}, a.value, req.ulIp, req.ulTeid, PdusTunnel, req.pdusId);
      assert held + {a.value} - {a.value} == held - {};
    }
  }

  /** What an accepted PDU session setup has done: `added` are its DRB rows, `p` its own. */
  ghost predicate PdusTaken(t: Store, c: U.UeCtx, req: PdusReq, s: PdusSucc, t': Store, c': U.UeCtx, added: seq<nat>, p: nat) {
    U.Pointed(c, |t.rows|) && U.Pointed(c', |t.rows|) && |t'.rows| == |t.rows| && t'.index == t.index &&
    U.DrbRows(c', |t.rows|) == U.DrbRows(c, |t.rows|) + added && added != [] &&
    U.PdusRows(c', |t.rows|) == U.PdusRows(c, |t.rows|) + [p] && p < |t.rows| && !t.rows[p].used &&
    t'.rows[p] == Tunnel(Key(s.dlIp, s.dlTeid), req.ulIp, req.ulTeid, PdusTunnel, s.pdusId, true) &&
    s.pdusId == req.pdusId && Reported(t', added, s.succ) && |s.succ| + |s.fail| == |req.drbs|
  }

  /** One PDU session setup. A rejected one leaves both lists as they were; an accepted one adds one session and
      at least one DRB. Only the all-DRBs-fail tail touches the index: it leaks the session's row under its key. */
  lemma SetupPdusEffect(net: Net, t0: Store, t: Store, c: U.UeCtx, req: PdusReq, held: set<nat>)
    returns (added: seq<nat>, p: nat)
    requires Sound(t, c) && Held(t0, t, held) && ListsHeld(c, |t.rows|, held, {})
    ensures var (t', c', o) := SetupPdus(net, t, c, req);
            |t'.rows| == |t.rows| && Keeps(t, t') &&
            match o
            case Rejected(f) =>
              c' == c && f.pdusId == req.pdusId && Held(t0, t', held) &&
              (AllDrbsFail(net, t, c, req) <==> t'.index != t.index) &&
              (AllDrbsFail(net, t, c, req) ==>
                p < |t.rows| && t'.rows[p].used && t'.rows[p].key !in t.index && t'.index == t.index[t'.rows[p].key := p])
            case Accepted(s) =>
              !AllDrbsFail(net, t, c, req) && !PdusListed(t, c, req.pdusId) && PdusTaken(t, c, req, s, t', c', added, p) &&
              Held(t0, t', held + M.Members(added) + {p}) && ListsHeld(c', |t.rows|, held + M.Members(added) + {p}, {})
  {
    hide Held, OpenPdus, SetupDrbs, ListsHeld, Describes;
    OpenPdusEffect(net, t0, t, c, req, held);
    var (t1, a) := OpenPdus(net, t, c, req);
    added, p := [], 0;
    if a.Some? {
      p := a.value;
      added := SetupDrbsEffect(net, t0, t1, c, req.drbs, held + {p}, {p});
      var (t2, c2, outs) := SetupDrbs(net, t1, c, req.drbs);
      PartitionCount(outs);
      var now := held + {p} + M.Members(added);
      if |Rejects(outs)| == |req.drbs| {
        assert added == [];
        assert now == held + {p} && now - {p} == held;
        HeldCommit(t0, t2, now, p);
      } else {
        assert now == held + M.Members(added) + {p};
        AppendPdusLists(c2, |t.rows|, now, {p}, p);
        assert {p} - {p} == {};
      }
    }
  }
}
