/** When the lists of a committed context can be followed. */
module UeGaps {
  import opened Options
  import opened T = TunnelStore
  import TX = TunnelTransactions
  import U = UeStore
  import opened UePacking
  import opened UeRelease
  import M = UeModify
  import opened SetupRuns
  import opened SetupRelease

  /** Each slot holds null or a row of an n-row tunnel table. */
  predicate Targeted(slots: U.Slots, n: nat) {
    forall i :: 0 <= i < |slots| && slots[i].Some? ==> slots[i].value < n
  }

  /** So do all slots of a context, those past the counts included. */
  predicate InRange(c: U.UeCtx, n: nat) {
    Targeted(c.pdus, n) && Targeted(c.drbs, n)
  }

  /** The DRB list of the committed context, with what the packing leaves behind its end. */
  ghost function PackedDrbs(t: Store, c: U.UeCtx): (slots: U.Slots)
    requires T.Valid(t) && U.Pointed(c, |t.rows|)
    ensures |slots| == |c.drbs|
  {
    var drbs := U.DrbsAfterCommit(t, c);
    U.Compact(drbs[..c.drbCount], drbs)
  }

  /** Of the first pdus_count slots of that list too few are left to fill up the PDU list, and the commit clears a
      session's slot that is not overwritten. As pdus_count stays, whatever follows the PDU list next then follows a
      null pointer. */
  ghost predicate LeavesGap(t: Store, c: U.UeCtx)
    requires T.Valid(t) && U.Pointed(c, |t.rows|)
  {
    exists i: nat :: |U.NonNull(PackedDrbs(t, c)[..c.pdusCount])| <= i < c.pdusCount && U.PdusAfterCommit(t, c)[i] == None
  }

  lemma NonNullPoints(slots: U.Slots, n: nat)
    requires Targeted(slots, n)
    ensures Targeted(U.NonNull(slots), n) && forall i :: 0 <= i < |U.NonNull(slots)| ==> U.NonNull(slots)[i].Some?
  {
    hide U.NonNull;
    NonNullElements(slots);
    forall i | 0 <= i < |U.NonNull(slots)|
      ensures U.NonNull(slots)[i].Some? && U.NonNull(slots)[i].value < n
    {
      assert U.NonNull(slots)[i] in slots;
    }
  }

  lemma CompactTargeted(source: U.Slots, target: U.Slots, n: nat)
    requires |source| <= |target| && Targeted(source, n) && Targeted(target, n)
    ensures Targeted(U.Compact(source, target), n)
  {
    hide U.NonNull;
    NonNullPoints(source, n);
  }

  lemma CommittedTargeted(t: Store, rs: seq<nat>, tail: U.Slots)
    requires T.Valid(t) && U.Within(rs, |t.rows|) && Targeted(tail, |t.rows|)
    ensures Targeted(U.CommittedSlots(t, rs) + tail, |t.rows|)
  {}

  lemma ListsTargeted(t: Store, c: U.UeCtx)
    requires T.Valid(t) && U.Pointed(c, |t.rows|) && InRange(c, |t.rows|)
    ensures Targeted(PackedDrbs(t, c), |t.rows|) && Targeted(U.PdusAfterCommit(t, c), |t.rows|)
  {
    hide U.CommitRows, U.CommittedSlots, U.Compact;
    var drbs := U.DrbsAfterCommit(t, c);
    CommittedTargeted(t, U.DrbRows(c, |t.rows|), c.drbs[c.drbCount..]);
    CompactTargeted(drbs[..c.drbCount], drbs, |t.rows|);
    CommittedTargeted(U.CommitRows(t, U.DrbRows(c, |t.rows|)), U.PdusRows(c, |t.rows|), c.pdus[c.pdusCount..]);
  }

  lemma FrontPoints(kept: U.Slots, target: U.Slots, p: nat, n: nat)
    requires |kept| <= p <= |target| && Targeted(kept, n) && Targeted(target, n) && forall i :: 0 <= i < |kept| ==> kept[i].Some?
    ensures U.AllPoint((kept + target[|kept|..])[..p], n) <==> !exists i: nat :: |kept| <= i < p && target[i] == None
  {
    var slots := kept + target[|kept|..];
    if U.AllPoint(slots[..p], n) {
      forall i: nat | |kept| <= i < p
        ensures target[i] != None
      {
        assert slots[..p][i] == slots[i] == target[i];
      }
    } else {
      var i :| 0 <= i < p && !(slots[..p][i].Some? && slots[..p][i].value < n);
      assert slots[..p][i] == slots[i];
    }
  }

  lemma DrbsStayPointed(t: Store, c: U.UeCtx)
    requires T.Valid(t) && U.Pointed(c, |t.rows|)
    ensures var c' := U.ListsCommitted(t, c);
            c'.drbCount <= |c'.drbs| && U.AllPoint(c'.drbs[..c'.drbCount], |t.rows|)
  {
    hide U.CommitRows, U.NonNull;
    var c' := U.ListsCommitted(t, c);
    var slots := U.CommittedSlots(t, U.DrbRows(c, |t.rows|));
    DrbListAfterCommit(t, c);
    NonNullElements(slots);
    forall i | 0 <= i < c'.drbCount
      ensures c'.drbs[..c'.drbCount][i].Some? && c'.drbs[..c'.drbCount][i].value < |t.rows|
    {
      assert c'.drbs[..c'.drbCount][i] in U.NonNull(slots);
    }
  }

  lemma FrontTargeted(slots: U.Slots, p: nat, n: nat)
    requires Targeted(slots, n) && p <= |slots|
    ensures Targeted(slots[..p], n)
  {}

/** A committed context can be followed if and only if the commit leaves no gap; and its slots stay in range. */
  lemma CommittedPointedIff(t: Store, c: U.UeCtx)
    requires T.Valid(t) && U.Pointed(c, |t.rows|) && InRange(c, |t.rows|)
    ensures var c' := U.ListsCommitted(t, c);
            InRange(c', |t.rows|) && (U.Pointed(c', |t.rows|) <==> !LeavesGap(t, c))
  {
    hide U.CommitRows, U.CommittedSlots, U.NonNull, U.DrbsAfterCommit, U.PdusAfterCommit, U.AllPoint, Targeted;
    var n := |t.rows|;
    ListsTargeted(t, c);
    DrbsStayPointed(t, c);
    var front, pdus := PackedDrbs(t, c)[..c.pdusCount], U.PdusAfterCommit(t, c);
    FrontTargeted(PackedDrbs(t, c), c.pdusCount, n);
    CompactTargeted(front, pdus, n);
    NonNullPoints(front, n);
    FrontPoints(U.NonNull(front), pdus, c.pdusCount, n);
  }

  /** A commit that leaves as many DRBs as there are sessions leaves no gap. */
  lemma EnoughDrbsLeaveNone(t: Store, c: U.UeCtx)
    requires T.Valid(t) && U.Pointed(c, |t.rows|) && c.pdusCount <= U.ListsCommitted(t, c).drbCount
    ensures !LeavesGap(t, c)
  {
    hide U.CommitRows, U.CommittedSlots, U.NonNull, U.DrbsAfterCommit, U.PdusAfterCommit;
    var c' := U.ListsCommitted(t, c);
    DrbsStayPointed(t, c);
    forall i | 0 <= i < c.pdusCount
      ensures c'.drbs[..c.pdusCount][i].Some?
    {
      assert c'.drbs[i] == c'.drbs[..c'.drbCount][i];
    }
    NonNullOfPointing(c'.drbs[..c.pdusCount]);
  }

  /** So the first modification of a committed context leaves none. */
  lemma FirstModificationLeavesNone(sys: U.System, id: nat, idxs: seq<nat>)
    requires CommittedCtx(sys, id) && U.Modify(sys.u, id).1.Some?
    requires var c := sys.u.rows[sys.u.index[id]];
             U.Within(idxs, c.drbCount) && M.Distinct(idxs) && M.Distinct(U.DrbRows(c, |sys.t.rows|)) && c.pdusCount <= c.drbCount
    ensures var (s, w, _) := M.Modified(sys, id, idxs);
            !LeavesGap(s.t, s.u.rows[w])
  {
    hide M.Conserves, M.Distinct, LeavesGap;
    M.ModifyCommitConserves(sys, id, idxs);
    M.ModifyTakesRow(sys.u, id);
    var (s, w, _) := M.Modified(sys, id, idxs);
    EnoughDrbsLeaveNone(s.t, s.u.rows[w]);
  }

  ghost predicate AllFree(t: Store, rs: seq<nat>) {
    forall i :: 0 <= i < |rs| ==> rs[i] < |t.rows| && !t.rows[rs[i]].used
  }

  /** Commits take no row. */
  lemma {:induction false} CommitsTakeNone(t: Store, rs: seq<nat>)
    requires T.Valid(t) && U.Within(rs, |t.rows|)
    ensures forall i :: 0 <= i < |t.rows| && !t.rows[i].used ==> !U.CommitRows(t, rs).rows[i].used
  {
    if rs != [] {
      CommitsTakeNone(t, rs[..|rs| - 1]);
    }
  }

  lemma {:induction false} FreeSlotsCleared(t: Store, rs: seq<nat>)
    requires T.Valid(t) && AllFree(t, rs)
    ensures forall i :: 0 <= i < |rs| ==> U.CommittedSlots(t, rs)[i] == None
  {
    hide U.CommitRows;
    if rs != [] {
      FreeSlotsCleared(t, rs[..|rs| - 1]);
      CommitsTakeNone(t, rs);
    }
  }

  /** With every listed row free, and a DRB for each session, a gap is left. */
  lemma FreeListsLeaveGap(t: Store, c: U.UeCtx)
    requires T.Valid(t) && U.Pointed(c, |t.rows|) && 0 < c.pdusCount <= c.drbCount
    requires AllFree(t, U.DrbRows(c, |t.rows|)) && AllFree(t, U.PdusRows(c, |t.rows|))
    ensures LeavesGap(t, c)
  {
    hide U.CommitRows, U.NonNull, U.CommittedSlots;
    var drbs, pdus := U.DrbRows(c, |t.rows|), U.PdusRows(c, |t.rows|);
    FreeSlotsCleared(t, drbs);
    CommitsTakeNone(t, drbs);
    FreeSlotsCleared(U.CommitRows(t, drbs), pdus);
    var slots := U.DrbsAfterCommit(t, c);
    NonNullElements(slots[..c.drbCount]);
    assert U.NonNull(slots[..c.drbCount]) == [] && PackedDrbs(t, c) == slots;
    NonNullElements(slots[..c.pdusCount]);
    assert U.NonNull(PackedDrbs(t, c)[..c.pdusCount]) == [];
    assert U.PdusAfterCommit(t, c)[0] == None;
  }

  /** The keys of the rows rs are distinct and look up the rows qs, none its own. */
  ghost predicate LooksUpOthers(t: Store, rs: seq<nat>, qs: seq<nat>) {
    SelfKeyed(t) && U.Within(rs, |t.rows|) && DistinctKeys(t, rs) && |qs| == |rs| &&
    forall i :: 0 <= i < |rs| ==> t.rows[rs[i]].key in t.index && t.index[t.rows[rs[i]].key] == qs[i] != rs[i]
  }

  ghost predicate KeyKept(t: Store, k: Key, t': Store) {
    k in t.index && k in t'.index && t'.index[k] == t.index[k]
  }

  lemma OtherFreed(t: Store, r: nat, qs: seq<nat>)
    requires T.Valid(t) && r < |t.rows| && t.rows[r].key in t.index && t.index[t.rows[r].key] != r && AllFree(t, qs)
    ensures AllFree(T.Commit(t, r), qs + [t.index[t.rows[r].key]])
  {}

  lemma OtherKeyKept(t: Store, r: nat, k: Key)
    requires T.Valid(t) && r < |t.rows| && k in t.index && k != t.rows[r].key
    ensures KeyKept(t, k, T.Commit(t, r))
  {}

  lemma {:induction false} OtherKeysKept(t: Store, rs: seq<nat>, k: Key)
    requires SelfKeyed(t) && U.Within(rs, |t.rows|) && k in t.index
    requires forall i :: 0 <= i < |rs| ==> t.rows[rs[i]].key != k
    ensures KeyKept(t, k, U.CommitRows(t, rs))
  {
    hide T.Commit;
    if rs != [] {
      var init, last := rs[..|rs| - 1], rs[|rs| - 1];
      OtherKeysKept(t, init, k);
      CommitsOnlyFree(t, init);
      OtherKeyKept(U.CommitRows(t, init), last, k);
    }
  }

  /** Committing the rows rs frees the rows qs. */
  lemma {:induction false} CommitFreesOthers(t: Store, rs: seq<nat>, qs: seq<nat>)
    requires LooksUpOthers(t, rs, qs)
    ensures T.Valid(t) && U.Within(rs, |t.rows|) && AllFree(U.CommitRows(t, rs), qs)
  {
    hide T.Commit;
    if rs != [] {
      var init, last := rs[..|rs| - 1], rs[|rs| - 1];
      CommitFreesOthers(t, init, qs[..|init|]);
      CommitsOnlyFree(t, init);
      OtherKeysKept(t, init, t.rows[last].key);
      OtherFreed(U.CommitRows(t, init), last, qs[..|init|]);
      assert qs == qs[..|init|] + [qs[|init|]];
    }
  }

  lemma CopiesLookedUp(t0: Store, t: Store, copies: M.Copies, was: seq<nat>)
    requires M.Staged(t0, t, copies) && M.AllIndexed(t0, was) && M.Distinct(was) && forall r :: r in was ==> r in copies
    ensures LooksUpOthers(M.Switched(t, copies, M.Members(was)), was, M.CurrentAll(copies, was))
  {
    M.SwitchedValid(t0, t, copies, M.Members(was));
    var s := M.Switched(t, copies, M.Members(was));
    forall i | 0 <= i < |was|
      ensures s.rows[was[i]].key in s.index && s.index[s.rows[was[i]].key] == copies[was[i]] != was[i]
    {
      M.SwitchedKey(t, copies, M.Members(was), t0.rows[was[i]].key);
    }
  }

  /** A modification of every DRB of a context whose PDU list is its DRB list: the commit frees all the copies, and
      these are what the context lists then. */
  lemma CopiesFreed(t0: Store, t: Store, c: U.UeCtx, copies: M.Copies, was: seq<nat>)
    requires M.Staged(t0, t, copies) && M.AllIndexed(t0, was) && M.Distinct(was) && forall r :: r in was ==> r in copies
    requires U.Pointed(c, |t.rows|) && U.DrbRows(c, |t.rows|) == M.CurrentAll(copies, was) && U.PdusRows(c, |t.rows|) == was
    ensures var c', t', n := U.ListsCommitted(t, c), U.TunnelsCommitted(t, c), |t.rows|;
            U.Pointed(c', n) && c'.drbCount == c.drbCount &&
            AllFree(t', U.DrbRows(c', n)) && AllFree(t', U.PdusRows(c', n))
  {
    hide M.Staged, M.Switched, U.CommitRows, U.ListsCommitted, U.CommittedSlots;
    var now := M.CurrentAll(copies, was);
    RowCounts(c, |t.rows|);
    M.StagedValid(t0, t, copies);
    M.CommitCurrent(t0, t, copies, was);
    CopiesLookedUp(t0, t, copies, was);
    CommitFreesOthers(M.Switched(t, copies, M.Members(was)), was, now);
    CommittedLists(t, c);
    assert now[..c.pdusCount] == now;
  }

  /** Modifying nothing of a context whose listed rows are all free: the commit leaves a gap. */
  lemma FreeContextLeavesGap(sys: U.System, id: nat)
    requires M.Modifiable(sys, id, [])
    requires var c, n := sys.u.rows[sys.u.index[id]], |sys.t.rows|;
             0 < c.pdusCount <= c.drbCount && AllFree(sys.t, U.DrbRows(c, n)) && AllFree(sys.t, U.PdusRows(c, n))
    ensures var (s, w, _) := M.Modified(sys, id, []);
            LeavesGap(s.t, s.u.rows[w])
  {
    hide LeavesGap, U.Pointed;
    M.ModifyTakesRow(sys.u, id);
    var (u1, r) := U.Modify(sys.u, id);
    M.PointedByPrefixes(sys.u.rows[sys.u.index[id]], u1.rows[r.value], |sys.t.rows|);
    FreeListsLeaveGap(sys.t, u1.rows[r.value]);
  }

  /** The context after a modification of every DRB has been committed, where the PDU list was the DRB list: it is
      looked up under its id, and every row it lists is free. */
  lemma WholeModificationFreesAll(sys: U.System, id: nat, idxs: seq<nat>)
    requires CommittedCtx(sys, id) && U.Modify(sys.u, id).1.Some?
    requires var c, n := sys.u.rows[sys.u.index[id]], |sys.t.rows|;
             U.Within(idxs, c.drbCount) && M.Distinct(idxs) && M.Distinct(U.DrbRows(c, n)) && U.PdusRows(c, n) == U.DrbRows(c, n)
    requires forall r :: r in U.DrbRows(sys.u.rows[sys.u.index[id]], |sys.t.rows|) ==> r in M.Modified(sys, id, idxs).2
    ensures var (s, w, _) := M.Modified(sys, id, idxs);
            var s', n := U.Commit(s, w), |sys.t.rows|;
            var c' := s'.u.rows[w];
            s'.u.index == sys.u.index[id := w] && |s'.u.rows| == |sys.u.rows| && |s'.t.rows| == n &&
            c'.used && U.Pointed(c', n) &&
            c'.pdusCount == c'.drbCount == sys.u.rows[sys.u.index[id]].drbCount &&
            AllFree(s'.t, U.DrbRows(c', n)) && AllFree(s'.t, U.PdusRows(c', n))
  {
    hide M.Staged, M.CurrentAll, M.RowsAt, M.AllIndexed, M.Distinct, U.ListsCommitted, U.TunnelsCommitted, AllFree;
    var c, n := sys.u.rows[sys.u.index[id]], |sys.t.rows|;
    var was := U.DrbRows(c, n);
    M.ModifyTakesRow(sys.u, id);
    var (u1, a) := U.Modify(sys.u, id);
    M.PointedByPrefixes(c, u1.rows[a.value], n);
    M.ListedIndexed(sys.t, was, was);
    M.ModifyAllStages(sys.t, u1.rows[a.value], idxs);
    var (s, w, copies) := M.Modified(sys, id, idxs);
    CopiesFreed(sys.t, s.t, s.u.rows[w], copies, was);
    M.ModifiedUes(sys.u, s.u, id, w, U.ListsCommitted(s.t, s.u.rows[w]));
  }
}
