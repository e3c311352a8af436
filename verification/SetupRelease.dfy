/** A bearer context from its setup to its release: what a successful setup commits, and what the release of
    that very context leaves behind. */
module SetupRelease {
  import opened Options
  import opened T = TunnelStore
  import TX = TunnelTransactions
  import LK = LiveKeys
  import U = UeStore
  import opened Drb
  import opened Outcomes
  import opened Pdus
  import Bearer
  import opened UePacking
  import opened UeRelease
  import opened SetupRuns
  import opened UeUndo
  import M = UeModify

  /** The index with the keys of some rows added. */
  ghost function Indexing(t: Store, rs: seq<nat>): map<Key, nat>
    requires U.Within(rs, |t.rows|)
  {
    if rs == [] then t.index
    else Indexing(t, rs[..|rs| - 1])[t.rows[rs[|rs| - 1]].key := rs[|rs| - 1]]
  }

  ghost predicate Fresh(t: Store, rs: seq<nat>) {
    U.Within(rs, |t.rows|) && M.Distinct(rs) &&
    forall i :: 0 <= i < |rs| ==> t.rows[rs[i]].used && t.rows[rs[i]].key !in t.index
  }

  /** The index maps the keys of these rows to them and every key it had before to what it had, and no more. */
  ghost predicate IndexedToo(t: Store, rs: seq<nat>, index: map<Key, nat>)
    requires U.Within(rs, |t.rows|)
  {
    (forall i :: 0 <= i < |rs| ==> t.rows[rs[i]].key in index && index[t.rows[rs[i]].key] == rs[i]) &&
    (forall k :: k in t.index ==> k in index && index[k] == t.index[k]) &&
    forall k :: k in index && k !in t.index ==> index[k] in rs && t.rows[index[k]].key == k
  }

  lemma IndexedOneMore(t: Store, rs: seq<nat>, index: map<Key, nat>, r: nat)
    requires U.Within(rs + [r], |t.rows|) && U.Within(rs, |t.rows|) && IndexedToo(t, rs, index)
    requires r < |t.rows| && t.rows[r].key !in t.index && forall i :: 0 <= i < |rs| ==> t.rows[rs[i]].key != t.rows[r].key
    ensures IndexedToo(t, rs + [r], index[t.rows[r].key := r])
  {}

  lemma FreshKeysDiffer(t: Store, rs: seq<nat>)
    requires LK.KeysDistinct(t) && Fresh(t, rs) && rs != []
    ensures var r := rs[|rs| - 1];
            Fresh(t, rs[..|rs| - 1]) && t.rows[r].key !in t.index &&
            forall i :: 0 <= i < |rs| - 1 ==> t.rows[rs[i]].key != t.rows[r].key
  {
    assert forall i :: 0 <= i < |rs| - 1 ==> rs[i] != rs[|rs| - 1];
  }

  lemma NothingIndexed(t: Store)
    ensures U.Within([], |t.rows|) && IndexedToo(t, [], t.index)
  {}

  lemma {:induction false} IndexingIndexes(t: Store, rs: seq<nat>)
    requires LK.KeysDistinct(t) && Fresh(t, rs)
    ensures IndexedToo(t, rs, Indexing(t, rs))
  {
    hide LK.KeysDistinct, IndexedToo;
    if rs == [] {
      NothingIndexed(t);
    } else {
      var init, last := rs[..|rs| - 1], rs[|rs| - 1];
      FreshKeysDiffer(t, rs);
      IndexingIndexes(t, init);
      assert rs == init + [last];
      IndexedOneMore(t, init, Indexing(t, init), last);
    }
  }

  lemma IndexingLooksUp(t: Store, rs: seq<nat>)
    requires LK.KeysDistinct(t) && Fresh(t, rs)
    ensures forall i :: 0 <= i < |rs| ==> t.rows[rs[i]].key in Indexing(t, rs) && Indexing(t, rs)[t.rows[rs[i]].key] == rs[i]
    ensures forall k :: k in t.index ==> k in Indexing(t, rs) && Indexing(t, rs)[k] == t.index[k]
    ensures forall k :: k in Indexing(t, rs) && k !in t.index ==> Indexing(t, rs)[k] in rs && t.rows[Indexing(t, rs)[k]].key == k
  {
    hide Indexing, LK.KeysDistinct;
    IndexingIndexes(t, rs);
  }

  /** Committing rows in use that are not indexed indexes them all and clears no slot. */
  lemma {:induction false} CommitFresh(t: Store, rs: seq<nat>)
    requires LK.Live(t) && Fresh(t, rs)
    ensures U.CommitRows(t, rs) == t.(index := Indexing(t, rs)) && LK.Live(U.CommitRows(t, rs))
    ensures Lists(U.CommittedSlots(t, rs), rs)
  {
    if rs != [] {
      var init, last := rs[..|rs| - 1], rs[|rs| - 1];
      CommitFresh(t, init);
      LK.CommitKeepsLive(U.CommitRows(t, init), last);
    }
  }

  lemma FreshConcat(t: Store, rs: seq<nat>, qs: seq<nat>)
    requires LK.Live(t) && Fresh(t, rs + qs)
    ensures Fresh(t, rs) && Fresh(t.(index := Indexing(t, rs)), qs)
  {
    assert forall i :: 0 <= i < |qs| ==> qs[i] == (rs + qs)[|rs| + i];
    assert forall i :: 0 <= i < |rs| ==> rs[i] == (rs + qs)[i];
    IndexingLooksUp(t, rs);
    forall i | 0 <= i < |qs|
      ensures t.rows[qs[i]].key !in Indexing(t, rs)
    {
      assert qs[i] !in rs;
    }
  }

  lemma ListsToRows(c: U.UeCtx, c': U.UeCtx, n: nat)
    requires U.Pointed(c, n) && U.Shaped(c') && c'.drbCount == c.drbCount && c'.pdusCount <= c'.drbCount
    requires Lists(c'.drbs[..c'.drbCount], U.DrbRows(c, n)) && c'.pdus[..c'.pdusCount] == c'.drbs[..c'.pdusCount]
    ensures U.Pointed(c', n) && U.DrbRows(c', n) == U.DrbRows(c, n)
    ensures U.PdusRows(c', n) == U.DrbRows(c, n)[..c'.pdusCount]
  {
    assert c'.pdus[..c'.pdusCount] == c'.drbs[..c'.drbCount][..c'.pdusCount];
  }

  lemma CommittedLists(t: Store, c: U.UeCtx)
    requires T.Valid(t) && U.Pointed(c, |t.rows|) && c.pdusCount <= c.drbCount
    requires Lists(U.CommittedSlots(t, U.DrbRows(c, |t.rows|)), U.DrbRows(c, |t.rows|))
    ensures var c', n := U.ListsCommitted(t, c), |t.rows|;
            U.Pointed(c', n) && c'.drbCount == c.drbCount && U.DrbRows(c', n) == U.DrbRows(c, n) &&
            U.PdusRows(c', n) == U.DrbRows(c, n)[..c.pdusCount]
  {
    hide U.ListsCommitted, U.CommittedSlots;
    M.DrbListKept(t, c);
    PduListBecomesDrbList(t, c);
    ListsToRows(c, U.ListsCommitted(t, c), |t.rows|);
  }

  lemma CommittedTunnels(t: Store, c: U.UeCtx)
    requires LK.Live(t) && U.Pointed(c, |t.rows|) && Fresh(t, Listed(c, |t.rows|)) && c.pdusCount <= c.drbCount
    ensures var t' := U.TunnelsCommitted(t, c);
            var c' := U.ListsCommitted(t, c);
            t' == t.(index := Indexing(t, Listed(c, |t.rows|))) && LK.Live(t') &&
            U.Pointed(c', |t.rows|) && U.DrbRows(c', |t.rows|) == U.DrbRows(c, |t.rows|) &&
            U.PdusRows(c', |t.rows|) == U.DrbRows(c, |t.rows|)[..c.pdusCount] && c'.pdusCount == c.pdusCount
  {
    var n := |t.rows|;
    var drbs, pdus := U.DrbRows(c, n), U.PdusRows(c, n);
    FreshConcat(t, drbs, pdus);
    CommitFresh(t, drbs);
    CommitFresh(t.(index := Indexing(t, drbs)), pdus);
    CommitFresh(t, drbs + pdus);
    CommitRowsConcat(t, drbs, pdus);
    CommittedLists(t, c);
  }

  /** The context after the requests of a bearer setup, and the state it is committed from. */
  ghost predicate Ready(net: Net, sys: U.System, cucpId: nat, reqs: seq<PdusReq>) {
    U.Valid(sys) && LK.Settled(sys.t) &&
    var (s1, r, outs) := Bearer.AfterRequests(net, sys, cucpId, reqs);
    r.Some? && Accepts(outs) != []
  }

  lemma SettledOrHeld(t: Store, t1: Store, held: set<nat>, rs: seq<nat>)
    requires LK.Settled(t) && Held(t, t1, held) && M.Members(rs) == held && M.Distinct(rs) && U.Within(rs, |t1.rows|)
    ensures Fresh(t1, rs) && forall q: nat :: q < |t1.rows| && t1.rows[q].used ==> LK.Indexed(t1, q) || q in rs
  {
    assert forall q :: q in rs <==> q in held;
    forall q: nat | q < |t1.rows| && t1.rows[q].used && q !in rs
      ensures LK.Indexed(t1, q)
    {
      if t.rows[q].used {
        assert LK.Indexed(t, q);
      }
    }
  }

  /** The rows listed before the commit: not indexed, in use, distinct; the others are indexed or unused. */
  lemma RequestsDone(net: Net, t: Store, c: U.UeCtx, reqs: seq<PdusReq>)
    requires LK.Settled(t) && U.Shaped(c) && c.pdusCount == c.drbCount == 0
    ensures var (t1, c1, outs) := Bearer.SetupAll(net, t, c, reqs);
            var n := |t1.rows|;
            LK.Live(t1) && IndexKept(t, t1) && Fresh(t1, Listed(c1, n)) &&
            c1.pdusCount <= c1.drbCount && c1.pdusCount == |Accepts(outs)| && (Accepts(outs) == [] ==> c1.drbCount == 0) &&
            (forall q: nat :: q < n && t1.rows[q].used ==> LK.Indexed(t1, q) || q in Listed(c1, n))
  {
    hide Bearer.SetupAll;
    HeldStart(t);
    ListsNothing(c, |t.rows|);
    var drbs, pdus := SetupAllEffect(net, t, t, c, reqs, {});
    var (t1, c1, outs) := Bearer.SetupAll(net, t, c, reqs);
    var held := {} + M.Members(drbs) + M.Members(pdus);
    assert held - {} == held;
    SettledOrHeld(t, t1, held, Listed(c1, |t1.rows|));
    assert |U.PdusRows(c1, |t1.rows|)| == |pdus| && |U.DrbRows(c1, |t1.rows|)| == |drbs|;
  }

  lemma CommittedSettled(t: Store, rs: seq<nat>)
    requires LK.Live(t) && Fresh(t, rs) && LK.Live(t.(index := Indexing(t, rs)))
    requires forall q: nat :: q < |t.rows| && t.rows[q].used ==> LK.Indexed(t, q) || q in rs
    ensures LK.Settled(t.(index := Indexing(t, rs))) && ListedRows(t.(index := Indexing(t, rs)), rs)
  {
    IndexingLooksUp(t, rs);
    forall q | q in rs
      ensures q < |t.rows| && LK.Indexed(t.(index := Indexing(t, rs)), q)
    {
      var i :| 0 <= i < |rs| && rs[i] == q;
    }
  }

  lemma ListedAgain(t: Store, drbs: seq<nat>, pdus: seq<nat>, k: nat)
    requires ListedRows(t, drbs + pdus) && k <= |drbs|
    ensures ListedRows(t, drbs + drbs[..k]) && ListedRows(t, drbs) && ListedRows(t, pdus)
  {
    assert forall i :: 0 <= i < |drbs| ==> drbs[i] == (drbs + pdus)[i];
    assert forall i :: 0 <= i < |pdus| ==> pdus[i] == (drbs + pdus)[|drbs| + i];
  }

  lemma CommitEstablished(s1: U.System, r: nat)
    requires U.Valid(s1) && r < |s1.u.rows| && Sound(s1.t, s1.u.rows[r]) && s1.u.rows[r].used
    requires var c1, n := s1.u.rows[r], |s1.t.rows|;
             LK.Live(s1.t) && Fresh(s1.t, Listed(c1, n)) && c1.pdusCount <= c1.drbCount && c1.cuupId !in s1.u.index &&
             forall q: nat :: q < n && s1.t.rows[q].used ==> LK.Indexed(s1.t, q) || q in Listed(c1, n)
    ensures var c1, n := s1.u.rows[r], |s1.t.rows|;
            var s' := U.Commit(s1, r);
            s'.u.index == s1.u.index[c1.cuupId := r] && |s'.u.rows| == |s1.u.rows| &&
            (forall i :: 0 <= i < |s1.u.rows| && i != r ==> s'.u.rows[i] == s1.u.rows[i]) &&
            s'.t == s1.t.(index := Indexing(s1.t, Listed(c1, n))) && LK.Settled(s'.t) &&
            CommittedCtx(s', c1.cuupId) && ListedRows(s'.t, Listed(c1, n)) &&
            U.DrbRows(s'.u.rows[r], n) == U.DrbRows(c1, n) &&
            U.PdusRows(s'.u.rows[r], n) == U.DrbRows(c1, n)[..c1.pdusCount]
  {
    hide U.ListsCommitted, U.TunnelsCommitted, Indexing, Fresh, LK.Live, LK.Indexed;
    var c1, n := s1.u.rows[r], |s1.t.rows|;
    CommittedTunnels(s1.t, c1);
    CommittedSettled(s1.t, Listed(c1, n));
    ListedAgain(s1.t.(index := Indexing(s1.t, Listed(c1, n))), U.DrbRows(c1, n), U.PdusRows(c1, n), c1.pdusCount);
  }

  /** A successful bearer setup indexes exactly the rows it has listed, so that index and tunnel table agree
      again and every reported key looks up its row. The committed context keeps its DRB list, but its PDU list
      is now a copy of the front of the DRB list. */
  lemma SetupCommits(net: Net, sys: U.System, cucpId: nat, reqs: seq<PdusReq>)
    requires Ready(net, sys, cucpId, reqs)
    ensures var (s1, r, outs) := Bearer.AfterRequests(net, sys, cucpId, reqs);
            var c1, n := s1.u.rows[r.value], |s1.t.rows|;
            var s' := Bearer.SetupBearer(net, sys, cucpId, reqs);
            c1.cuupId !in sys.u.index && s'.u.index == sys.u.index[c1.cuupId := r.value] &&
            r.value < |sys.u.rows| && !sys.u.rows[r.value].used && |s'.u.rows| == |sys.u.rows| &&
            (forall i :: 0 <= i < |sys.u.rows| && i != r.value ==> s'.u.rows[i] == sys.u.rows[i]) &&
            LK.Live(s1.t) && Fresh(s1.t, Listed(c1, n)) && s'.t == s1.t.(index := Indexing(s1.t, Listed(c1, n))) &&
            LK.Settled(s'.t) && CommittedCtx(s', c1.cuupId) && ListedRows(s'.t, Listed(c1, n)) && 0 < c1.pdusCount <= c1.drbCount &&
            U.DrbRows(s'.u.rows[r.value], n) == U.DrbRows(c1, n) &&
            U.PdusRows(s'.u.rows[r.value], n) == U.DrbRows(c1, n)[..c1.pdusCount]
  {
    hide U.Commit, U.ListsCommitted, Indexing, Fresh, LK.Settled, LK.Live, CommittedCtx;
    var (s1, r, outs) := Bearer.AfterRequests(net, sys, cucpId, reqs);
    OpenUeTakesRow(sys.u, cucpId);
    RequestsDone(net, sys.t, Bearer.OpenUe(sys.u, cucpId).0.rows[r.value], reqs);
    CommitEstablished(s1, r.value);
  }

  lemma {:induction false} OddConcat(rs: seq<nat>, qs: seq<nat>)
    ensures forall r :: r in OddRows(rs + qs) <==> (r in OddRows(rs)) != (r in OddRows(qs))
  {
    if qs == [] {
      assert rs + qs == rs;
    } else {
      OddConcat(rs, qs[..|qs| - 1]);
      assert (rs + qs)[..|rs + qs| - 1] == rs + qs[..|qs| - 1];
    }
  }

  /** Listing a front part twice leaves the rest as the rows listed an odd number of times. */
  lemma OddAfterOverlap(rs: seq<nat>, k: nat)
    requires M.Distinct(rs) && k <= |rs|
    ensures forall r :: r in OddRows(rs + rs[..k]) <==> r in rs && r !in rs[..k]
  {
    OddConcat(rs, rs[..k]);
    DistinctRowsAreOdd(rs);
    DistinctRowsAreOdd(rs[..k]);
  }

  lemma UesRestored(u: U.UeStore, u': U.UeStore, u'': U.UeStore, id: nat, r: nat)
    requires id !in u.index && u'.index == u.index[id := r] && r < |u.rows| == |u'.rows| && !u.rows[r].used
    requires forall i :: 0 <= i < |u.rows| && i != r ==> u'.rows[i] == u.rows[i]
    requires u''.index == u'.index - {id} && U.UsedUes(u'') == U.UsedUes(u') - {r}
    ensures u''.index == u.index && U.UsedUes(u'') == U.UsedUes(u)
  {}

  /** Rows whose keys look them up and that are in use; whose keys look them up although they are free; whose
      keys are gone and that are free. */
  ghost predicate LooksUpUsed(t: Store, rs: seq<nat>) {
    forall i :: 0 <= i < |rs| ==> rs[i] < |t.rows| && LK.Indexed(t, rs[i]) && t.rows[rs[i]].used
  }

  ghost predicate Dangling(t: Store, rs: seq<nat>) {
    forall i :: 0 <= i < |rs| ==> rs[i] < |t.rows| && LK.Indexed(t, rs[i]) && !t.rows[rs[i]].used
  }

  ghost predicate Gone(t: Store, rs: seq<nat>) {
    forall i :: 0 <= i < |rs| ==> rs[i] < |t.rows| && t.rows[rs[i]].key !in t.index && !t.rows[rs[i]].used
  }

  /** What a released list does to one indexed row. */
  lemma ReleasedRow(t: Store, rs: seq<nat>, odd: set<nat>, t': Store, r: nat)
    requires r < |t.rows| && LK.Indexed(t, r) && Toggled(Unused(t, rs), odd, t')
    ensures |t'.rows| == |t.rows| && t'.rows[r] == if r in rs then t.rows[r].(used := false) else t.rows[r]
    ensures if r in odd then t'.rows[r].key !in t'.index else LK.Indexed(t', r)
  {}

  lemma LeakedPdus(t: Store, drbs: seq<nat>, pdus: seq<nat>, k: nat, t': Store)
    requires LK.Settled(t) && ListedRows(t, drbs + pdus) && ListedRows(t, pdus) && M.Distinct(drbs + pdus) && k <= |drbs|
    requires forall i :: 0 <= i < |pdus| ==> t.rows[pdus[i]].used
    requires Toggled(Unused(t, drbs + drbs[..k]), OddRows(drbs + drbs[..k]), t')
    ensures LooksUpUsed(t', pdus)
  {
    hide Toggled, Unused, OddRows, LK.Settled, LK.Indexed;
    var rs := drbs + drbs[..k];
    OddRowsListed(rs);
    SublistsDistinct(drbs, pdus);
    forall i | 0 <= i < |pdus|
      ensures pdus[i] < |t'.rows| && LK.Indexed(t', pdus[i]) && t'.rows[pdus[i]].used
    {
      assert pdus[i] !in rs;
      ReleasedRow(t, rs, OddRows(rs), t', pdus[i]);
    }
  }

  lemma ListedInOverlap(drbs: seq<nat>, k: nat, i: nat)
    requires M.Distinct(drbs) && k <= |drbs| && i < |drbs|
    ensures drbs[i] in drbs + drbs[..k] && (drbs[i] in drbs[..k] <==> i < k)
  {
    assert (drbs + drbs[..k])[i] == drbs[i];
    if i < k {
      assert drbs[..k][i] == drbs[i];
    }
  }

  lemma LeakedDrbs(t: Store, drbs: seq<nat>, k: nat, t': Store)
    requires LK.Settled(t) && ListedRows(t, drbs) && M.Distinct(drbs) && k <= |drbs|
    requires Toggled(Unused(t, drbs + drbs[..k]), OddRows(drbs + drbs[..k]), t')
    ensures Dangling(t', drbs[..k]) && Gone(t', drbs[k..])
  {
    hide Toggled, Unused, OddRows, LK.Settled, LK.Indexed;
    var rs := drbs + drbs[..k];
    OddAfterOverlap(drbs, k);
    forall i | 0 <= i < |drbs|
      ensures drbs[i] < |t'.rows| && !t'.rows[drbs[i]].used
      ensures if i < k then LK.Indexed(t', drbs[i]) else t'.rows[drbs[i]].key !in t'.index
    {
      ListedInOverlap(drbs, k, i);
      ReleasedRow(t, rs, OddRows(rs), t', drbs[i]);
    }
    assert forall i :: 0 <= i < |drbs| - k ==> drbs[k..][i] == drbs[k + i];
  }

  lemma LeakedTunnels(t: Store, drbs: seq<nat>, pdus: seq<nat>, k: nat, t': Store, t'': Store)
    requires LK.Live(t) && Fresh(t, drbs + pdus) && 0 < k <= |drbs|
    requires t' == t.(index := Indexing(t, drbs + pdus)) && LK.Settled(t') && ListedRows(t', drbs + pdus)
    requires Toggled(Unused(t', drbs + drbs[..k]), OddRows(drbs + drbs[..k]), t'')
    ensures |t''.rows| == |t.rows|
    ensures LooksUpUsed(t'', pdus) && Dangling(t'', drbs[..k]) && Gone(t'', drbs[k..]) && !TX.Committed(t'')
  {
    IndexingLooksUp(t, drbs + pdus);
    ListedAgain(t', drbs, pdus, k);
    SublistsDistinct(drbs, pdus);
    assert forall i :: 0 <= i < |pdus| ==> pdus[i] == (drbs + pdus)[|drbs| + i];
    LeakedPdus(t', drbs, pdus, k, t'');
    LeakedDrbs(t', drbs, k, t'');
    assert LK.Indexed(t'', drbs[..k][0]);
  }

  /** Releasing a context straight after its setup restores the UE table, frees the DRB rows and deletes the
      keys of the DRBs past the number of sessions - but the session tunnels stay indexed and in use, and the
      first DRBs' keys stay indexed to rows that are free. As every successful setup has a session, it is never
      given back in full. */
  lemma ReleaseAfterSetupLeaks(net: Net, sys: U.System, cucpId: nat, reqs: seq<PdusReq>)
    requires Ready(net, sys, cucpId, reqs)
    ensures var (s1, r, outs) := Bearer.AfterRequests(net, sys, cucpId, reqs);
            var c1, n := s1.u.rows[r.value], |s1.t.rows|;
            var drbs, pdus, k := U.DrbRows(c1, n), U.PdusRows(c1, n), c1.pdusCount;
            var s' := Bearer.SetupBearer(net, sys, cucpId, reqs);
            CommittedCtx(s', c1.cuupId) &&
            var s'' := Bearer.ReleaseUe(s', c1.cuupId);
            s''.u.index == sys.u.index && U.UsedUes(s''.u) == U.UsedUes(sys.u) && 0 < k <= |drbs| && |s''.t.rows| == n &&
            LooksUpUsed(s''.t, pdus) && Dangling(s''.t, drbs[..k]) && Gone(s''.t, drbs[k..]) && !TX.Committed(s''.t)
  {
    hide Bearer.SetupBearer, Toggled, Unused, OddRows, Indexing, U.Commit, LooksUpUsed, Dangling, Gone;
    hide TX.Committed, LK.Settled, LK.Live, Fresh, ListedRows;
    SetupCommits(net, sys, cucpId, reqs);
    var (s1, r, outs) := Bearer.AfterRequests(net, sys, cucpId, reqs);
    var c1, n := s1.u.rows[r.value], |s1.t.rows|;
    var s' := Bearer.SetupBearer(net, sys, cucpId, reqs);
    ReleaseEffect(s', c1.cuupId);
    var s'' := Bearer.ReleaseUe(s', c1.cuupId);
    LeakedTunnels(s1.t, U.DrbRows(c1, n), U.PdusRows(c1, n), c1.pdusCount, s'.t, s''.t);
    UesRestored(sys.u, s'.u, s''.u, c1.cuupId, r.value);
  }

  lemma RowAtPosition(was: seq<nat>, copies: M.Copies, idxs: seq<nat>, k: nat)
    requires M.Distinct(was) && U.Within(idxs, |was|) && copies.Keys <= M.RowsAt(was, idxs) && k <= |was|
    ensures (forall p :: p in was[..k] ==> p !in copies) <==>
            forall i :: 0 <= i < |idxs| && idxs[i] < k ==> was[idxs[i]] !in copies
  {
    if forall i :: 0 <= i < |idxs| && idxs[i] < k ==> was[idxs[i]] !in copies {
      forall p | p in was[..k]
        ensures p !in copies
      {
        var j :| 0 <= j < k && was[j] == p;
        if j !in idxs {
          M.RowElsewhere(was, idxs, j);
        }
      }
    } else {
      var i :| 0 <= i < |idxs| && idxs[i] < k && was[idxs[i]] in copies;
      assert was[..k][idxs[i]] == was[idxs[i]];
    }
  }

  lemma CommittedPointed(sys: U.System, id: nat)
    requires CommittedCtx(sys, id)
    ensures U.Valid(sys) && id in sys.u.index && U.Pointed(sys.u.rows[sys.u.index[id]], |sys.t.rows|)
  {}

  /** The case of a context whose PDU list is the front of its DRB list. */
  lemma OverlapConservesIff(sys: U.System, id: nat, idxs: seq<nat>)
    requires CommittedCtx(sys, id) && U.Modify(sys.u, id).1.Some?
    requires var c, n := sys.u.rows[sys.u.index[id]], |sys.t.rows|;
             U.Within(idxs, c.drbCount) && M.Distinct(idxs) && M.Distinct(U.DrbRows(c, n)) && c.pdusCount <= c.drbCount &&
             U.PdusRows(c, n) == U.DrbRows(c, n)[..c.pdusCount]
    ensures var c := sys.u.rows[sys.u.index[id]];
            var (s, w, copies) := M.Modified(sys, id, idxs);
            M.Conserves(sys.t, copies, U.Commit(s, w).t) <==>
            forall i :: 0 <= i < |idxs| && idxs[i] < c.pdusCount ==> U.DrbAt(c, |sys.t.rows|, idxs[i]) !in copies
  {
    hide M.Conserves, U.Commit, M.Modified, M.Modifiable, CommittedCtx, M.Distinct, M.RowsAt;
    CommittedPointed(sys, id);
    M.CommittedModifiable(sys, id, idxs);
    var c, n := sys.u.rows[sys.u.index[id]], |sys.t.rows|;
    M.ModifyCommitConserves(sys, id, idxs);
    var (s, w, copies) := M.Modified(sys, id, idxs);
    RowAtPosition(U.DrbRows(c, n), copies, idxs, c.pdusCount);
    forall i | 0 <= i < |idxs|
      ensures U.DrbRows(c, n)[idxs[i]] == U.DrbAt(c, n, idxs[i])
    {
      assert c.drbs[..c.drbCount][idxs[i]] == c.drbs[idxs[i]];
    }
  }

  /** The UE id that a successful setup hands out. */
  ghost function NewId(net: Net, sys: U.System, cucpId: nat, reqs: seq<PdusReq>): nat
    requires Ready(net, sys, cucpId, reqs)
  {
    var (s1, r, outs) := Bearer.AfterRequests(net, sys, cucpId, reqs);
    s1.u.rows[r.value].cuupId
  }

  /** What the context of a successful setup lists when it is committed. */
  lemma SetupContext(net: Net, sys: U.System, cucpId: nat, reqs: seq<PdusReq>)
    requires Ready(net, sys, cucpId, reqs)
    ensures var s', id := Bearer.SetupBearer(net, sys, cucpId, reqs), NewId(net, sys, cucpId, reqs);
            CommittedCtx(s', id) && LK.Settled(s'.t) &&
            var c, n := s'.u.rows[s'.u.index[id]], |s'.t.rows|;
            0 < c.pdusCount <= c.drbCount && M.Distinct(U.DrbRows(c, n)) && U.PdusRows(c, n) == U.DrbRows(c, n)[..c.pdusCount]
  {
    hide Bearer.SetupBearer, Indexing, LK.Settled, LK.Live, CommittedCtx, ListedRows, M.Distinct, U.Commit;
    SetupCommits(net, sys, cucpId, reqs);
    var (s1, r, outs) := Bearer.AfterRequests(net, sys, cucpId, reqs);
    var s', id := Bearer.SetupBearer(net, sys, cucpId, reqs), NewId(net, sys, cucpId, reqs);
    CommittedPointed(s', id);
    SublistsDistinct(U.DrbRows(s1.u.rows[r.value], |s1.t.rows|), U.PdusRows(s1.u.rows[r.value], |s1.t.rows|));
    RowCounts(s'.u.rows[r.value], |s1.t.rows|);
    RowCounts(s1.u.rows[r.value], |s1.t.rows|);
  }

  /** Modifying a context straight after its setup: the packing loop has put the first DRBs in the PDU list too, so
      the tunnel table is conserved if and only if none of the DRBs copied has a position below the number of
      sessions. */
  lemma ModifyAfterSetupConservesIff(net: Net, sys: U.System, cucpId: nat, reqs: seq<PdusReq>, idxs: seq<nat>)
    requires Ready(net, sys, cucpId, reqs)
    requires M.Distinct(idxs)
    ensures var s', id := Bearer.SetupBearer(net, sys, cucpId, reqs), NewId(net, sys, cucpId, reqs);
            CommittedCtx(s', id) &&
            var c := s'.u.rows[s'.u.index[id]];
            0 < c.pdusCount <= c.drbCount &&
            (U.Within(idxs, c.drbCount) && U.Modify(s'.u, id).1.Some? ==>
             var (s, w, copies) := M.Modified(s', id, idxs);
             M.Conserves(s'.t, copies, U.Commit(s, w).t) <==>
             forall i :: 0 <= i < |idxs| && idxs[i] < c.pdusCount ==> U.DrbAt(c, |s'.t.rows|, idxs[i]) !in copies)
  {
    hide Bearer.SetupBearer, NewId, M.Modified, M.Conserves, U.Commit, LK.Settled, M.Distinct, CommittedCtx, U.DrbAt;
    SetupContext(net, sys, cucpId, reqs);
    CommittedPointed(Bearer.SetupBearer(net, sys, cucpId, reqs), NewId(net, sys, cucpId, reqs));
    var s', id := Bearer.SetupBearer(net, sys, cucpId, reqs), NewId(net, sys, cucpId, reqs);
    if U.Within(idxs, s'.u.rows[s'.u.index[id]].drbCount) && U.Modify(s'.u, id).1.Some? {
      OverlapConservesIff(s', id, idxs);
    }
  }

  lemma EmptyCommit(s1: U.System, r: nat)
    requires U.Valid(s1) && r < |s1.u.rows| && s1.u.rows[r].cuupId !in s1.u.index
    requires s1.u.rows[r].pdusCount == s1.u.rows[r].drbCount == 0
    ensures U.Pointed(s1.u.rows[r], |s1.t.rows|)
    ensures var s' := U.Commit(s1, r);
            s' == U.System(s1.t, s1.u.(index := s1.u.index[s1.u.rows[r].cuupId := r]))
  {
    var c := s1.u.rows[r];
    var drbs := U.DrbsAfterCommit(s1.t, c);
    assert drbs == c.drbs && U.Compact(drbs[..0], drbs) == drbs;
    assert U.PdusAfterCommit(s1.t, c) == c.pdus;
    assert U.ListsCommitted(s1.t, c) == c;
    assert s1.u.rows[r := c] == s1.u.rows;
  }

  lemma NothingListed(t: Store, c: U.UeCtx)
    requires LK.Live(t) && U.Pointed(c, |t.rows|) && c.pdusCount == c.drbCount == 0
    requires forall q: nat :: q < |t.rows| && t.rows[q].used ==> LK.Indexed(t, q) || q in Listed(c, |t.rows|)
    ensures LK.Settled(t)
  {}

  /** A bearer setup all of whose requests fail takes the UE row for good: the remove misses and the commit
      indexes the empty context. Index and tunnel table still agree. */
  lemma FailedSetupKeepsUe(net: Net, sys: U.System, cucpId: nat, reqs: seq<PdusReq>)
    requires U.Valid(sys) && LK.Settled(sys.t)
    requires var (s1, r, outs) := Bearer.AfterRequests(net, sys, cucpId, reqs); r.Some? && Accepts(outs) == []
    ensures var (s1, r, outs) := Bearer.AfterRequests(net, sys, cucpId, reqs);
            var id := s1.u.rows[r.value].cuupId;
            var s' := Bearer.SetupBearer(net, sys, cucpId, reqs);
            id !in sys.u.index && s'.u.index == sys.u.index[id := r.value] && s'.u.rows == s1.u.rows &&
            s'.u.rows[r.value].pdusCount == s'.u.rows[r.value].drbCount == 0 &&
            U.UsedUes(s'.u) == U.UsedUes(sys.u) + {r.value} && s'.t == s1.t && LK.Settled(s'.t)
  {
    hide LK.Settled;
    var (s1, r, outs) := Bearer.AfterRequests(net, sys, cucpId, reqs);
    OpenUeTakesRow(sys.u, cucpId);
    RequestsDone(net, sys.t, Bearer.OpenUe(sys.u, cucpId).0.rows[r.value], reqs);
    NothingListed(s1.t, s1.u.rows[r.value]);
    EmptyCommit(s1, r.value);
  }

  /** A bearer setup request, with the network state it meets. */
  datatype BearerReq = BearerReq(net: Net, cucpId: nat, pdus: seq<PdusReq>)

  lemma SetupStaysSettled(sys: U.System, req: BearerReq)
    requires U.Valid(sys) && LK.Settled(sys.t)
    ensures var s' := Bearer.SetupBearer(req.net, sys, req.cucpId, req.pdus);
            U.Valid(s') && LK.Settled(s'.t) && IndexKept(sys.t, s'.t)
  {
    hide LK.Settled;
    var (s1, r, outs) := Bearer.AfterRequests(req.net, sys, req.cucpId, req.pdus);
    if r.Some? {
      RequestsDone(req.net, sys.t, Bearer.OpenUe(sys.u, req.cucpId).0.rows[r.value], req.pdus);
      if Accepts(outs) == [] {
        FailedSetupKeepsUe(req.net, sys, req.cucpId, req.pdus);
      } else {
        SetupCommits(req.net, sys, req.cucpId, req.pdus);
        IndexingLooksUp(s1.t, Listed(s1.u.rows[r.value], |s1.t.rows|));
      }
    }
  }

  ghost function SetupBearers(sys: U.System, reqs: seq<BearerReq>): (s': U.System)
    requires U.Valid(sys)
    ensures U.Valid(s')
  {
    if reqs == [] then sys
    else
      var req := reqs[|reqs| - 1];
      Bearer.SetupBearer(req.net, SetupBearers(sys, reqs[..|reqs| - 1]), req.cucpId, req.pdus)
  }

  /** Over any run of bearer setups, successful or not, index and tunnel table agree whenever a setup ends, no
      two rows in use share a key, and every key indexed before still looks up its row. */
  lemma {:induction false} BearerSetupsStaySettled(sys: U.System, reqs: seq<BearerReq>)
    requires U.Valid(sys) && LK.Settled(sys.t)
    ensures var s' := SetupBearers(sys, reqs);
            LK.Settled(s'.t) && LK.KeysDistinct(s'.t) && IndexKept(sys.t, s'.t)
  {
    if reqs == [] {
      LK.SettledIsLive(sys.t);
    } else {
      BearerSetupsStaySettled(sys, reqs[..|reqs| - 1]);
      SetupStaysSettled(SetupBearers(sys, reqs[..|reqs| - 1]), reqs[|reqs| - 1]);
      LK.SettledIsLive(SetupBearers(sys, reqs).t);
    }
  }
}
