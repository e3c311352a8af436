/** The two DRB loops of ue_ctx_commit: what is left of the list is what is still in use. */
module UePacking {
  import opened Options
  import opened T = TunnelStore
  import TX = TunnelTransactions
  import LK = LiveKeys
  import opened UeStore

  /** Indexed rows carry their own keys. */
  ghost predicate SelfKeyed(t: Store) {
    T.Valid(t) && forall k :: k in t.index ==> t.rows[t.index[k]].key == k
  }

  ghost predicate DistinctKeys(t: Store, rs: seq<nat>)
    requires Within(rs, |t.rows|)
  {
    forall i, j :: 0 <= i < j < |rs| ==> t.rows[rs[i]].key != t.rows[rs[j]].key
  }

  /** The rows of a list that are in use, in list order. */
  function Survivors(t: Store, rs: seq<nat>): seq<nat>
    requires forall i :: 0 <= i < |rs| ==> rs[i] < |t.rows|
  {
    if rs == [] then []
    else
      var last := rs[|rs| - 1];
      Survivors(t, rs[..|rs| - 1]) + (if t.rows[last].used then [last] else [])
  }

  /** The slots point at exactly these rows, in order. */
  ghost predicate Lists(slots: Slots, rs: seq<nat>) {
    |slots| == |rs| && forall i :: 0 <= i < |slots| ==> slots[i] == Some(rs[i])
  }

  /** Commits write no key and set no used flag. */
  lemma CommitOnlyFrees(t: Store, r: nat)
    requires SelfKeyed(t) && r < |t.rows|
    ensures var t' := T.Commit(t, r);
            SelfKeyed(t') && |t'.rows| == |t.rows| &&
            forall i :: 0 <= i < |t.rows| ==>
              t'.rows[i] == t.rows[i] || (t'.rows[i] == t.rows[i].(used := false) && i != r && t.rows[i].key == t.rows[r].key)
  {}

  lemma {:induction false} CommitsOnlyFree(t: Store, rs: seq<nat>)
    requires SelfKeyed(t) && Within(rs, |t.rows|)
    ensures SelfKeyed(CommitRows(t, rs))
    ensures forall i :: 0 <= i < |t.rows| ==>
      CommitRows(t, rs).rows[i] == t.rows[i] || CommitRows(t, rs).rows[i] == t.rows[i].(used := false)
  {
    if rs != [] {
      CommitsOnlyFree(t, rs[..|rs| - 1]);
      CommitOnlyFrees(CommitRows(t, rs[..|rs| - 1]), rs[|rs| - 1]);
    }
  }

  /** With distinct keys a slot is cleared exactly if its row is unused when the whole loop is done. */
  lemma {:induction false} ClearedWhenUnused(t: Store, rs: seq<nat>)
    requires SelfKeyed(t) && Within(rs, |t.rows|) && DistinctKeys(t, rs)
    ensures forall i :: 0 <= i < |rs| ==>
      CommittedSlots(t, rs)[i] == if CommitRows(t, rs).rows[rs[i]].used then Some(rs[i]) else None
  {
    if rs != [] {
      var init := rs[..|rs| - 1];
      ClearedWhenUnused(t, init);
      CommitsOnlyFree(t, init);
      CommitOnlyFrees(CommitRows(t, init), rs[|rs| - 1]);
      forall i | 0 <= i < |init|
        ensures CommitRows(t, rs).rows[rs[i]] == CommitRows(t, init).rows[rs[i]]
      {
        assert CommitRows(t, init).rows[rs[i]].key == t.rows[rs[i]].key != t.rows[rs[|rs| - 1]].key;
      }
    }
  }

  lemma {:induction false} NonNullIsSurvivors(t: Store, rs: seq<nat>, slots: Slots)
    requires |slots| == |rs| && Within(rs, |t.rows|)
    requires forall i :: 0 <= i < |rs| ==> slots[i] == if t.rows[rs[i]].used then Some(rs[i]) else None
    ensures Lists(NonNull(slots), Survivors(t, rs))
  {
    if rs != [] {
      NonNullIsSurvivors(t, rs[..|rs| - 1], slots[..|rs| - 1]);
    }
  }

  /** Survivors are the used rows of the list, each once if the list has no duplicates. */
  lemma {:induction false} SurvivorsAreUsed(t: Store, rs: seq<nat>)
    requires Within(rs, |t.rows|)
    ensures |Survivors(t, rs)| <= |rs|
    ensures forall r :: r in Survivors(t, rs) <==> r in rs && t.rows[r].used
    ensures (forall i, j :: 0 <= i < j < |rs| ==> rs[i] != rs[j]) ==>
      forall i, j :: 0 <= i < j < |Survivors(t, rs)| ==> Survivors(t, rs)[i] != Survivors(t, rs)[j]
  {
    if rs != [] {
      var init, last := rs[..|rs| - 1], rs[|rs| - 1];
      SurvivorsAreUsed(t, init);
      assert rs == init + [last];
    }
  }

  lemma DrbListAfterCommit(t: Store, c: UeCtx)
    requires T.Valid(t) && Pointed(c, |t.rows|)
    ensures var c' := ListsCommitted(t, c);
            c'.drbCount == |NonNull(CommittedSlots(t, DrbRows(c, |t.rows|)))| <= c.drbCount &&
            c'.drbs[..c'.drbCount] == NonNull(CommittedSlots(t, DrbRows(c, |t.rows|)))
  {
    var drbs := DrbsAfterCommit(t, c);
    assert drbs[..c.drbCount] == CommittedSlots(t, DrbRows(c, |t.rows|));
    var kept := NonNull(drbs[..c.drbCount]);
    assert (kept + drbs[|kept|..])[..|kept|] == kept;
  }

  /** For listed DRB rows with distinct keys, the commit leaves in positions 0 to drbCount - 1 exactly the rows
      still in use, in their original order. */
  lemma PackingKeepsUsedRows(t: Store, c: UeCtx)
    requires SelfKeyed(t) && Pointed(c, |t.rows|) && DistinctKeys(t, DrbRows(c, |t.rows|))
    ensures var rs := DrbRows(c, |t.rows|);
            var t' := CommitRows(t, rs);
            var c' := ListsCommitted(t, c);
            c'.drbCount <= c.drbCount && Lists(c'.drbs[..c'.drbCount], Survivors(t', rs))
  {
    var rs := DrbRows(c, |t.rows|);
    ClearedWhenUnused(t, rs);
    NonNullIsSurvivors(CommitRows(t, rs), rs, CommittedSlots(t, rs));
    DrbListAfterCommit(t, c);
  }

  lemma {:induction false} NonNullOfPointing(slots: Slots)
    requires forall i :: 0 <= i < |slots| ==> slots[i].Some?
    ensures NonNull(slots) == slots
  {
    if slots != [] {
      NonNullOfPointing(slots[..|slots| - 1]);
    }
  }

  lemma {:induction false} NonNullElements(slots: Slots)
    ensures forall s :: s in NonNull(slots) <==> s in slots && s.Some?
    ensures NonNull(slots) == [] <==> forall i :: 0 <= i < |slots| ==> slots[i] == None
  {
    if slots != [] {
      var init := slots[..|slots| - 1];
      NonNullElements(init);
      assert slots == init + [slots[|slots| - 1]];
    }
  }

  lemma FrontKeptIff(kept: Slots, target: Slots, n: nat)
    requires |kept| <= n <= |target|
    ensures (kept + target[|kept|..])[..n] == target[..n] <==> kept <= target[..n]
  {
    var k := |kept|;
    var now, was := (kept + target[k..])[..n], target[..n];
    assert now[..k] == kept && now[k..] == was[k..];
    assert now == now[..k] + now[k..] && was == was[..k] + was[k..];
  }

  /** Which lists survive the packing of others into them: those that begin with what is moved there. */
  lemma CompactKeepsIff(source: Slots, target: Slots, n: nat)
    requires |source| <= n <= |target|
    ensures Compact(source, target)[..n] == target[..n] <==> NonNull(source) <= target[..n]
  {
    hide NonNull;
    FrontKeptIff(NonNull(source), target, n);
  }

  lemma CompactDisjoint(source: Slots, front: Slots)
    requires |source| == |front|
    requires forall i, j :: 0 <= i < |front| && 0 <= j < |source| ==> front[i] != source[j]
    ensures NonNull(source) <= front <==> forall i :: 0 <= i < |source| ==> source[i] == None
  {
    var kept := NonNull(source);
    NonNullElements(source);
    if kept != [] {
      assert kept[0] in source;
    }
  }

  /** All keys of used rows are distinct and indexed ones look up their own rows: the state between requests. */
  ghost predicate Orderly(t: Store) {
    TX.Committed(t) && LK.KeysDistinct(t)
  }

  ghost predicate AllUsed(t: Store, rs: seq<nat>) {
    forall i :: 0 <= i < |rs| ==> rs[i] < |t.rows| && t.rows[rs[i]].used
  }

  lemma CommitKeepsRows(t: Store, r: nat)
    requires Orderly(t) && r < |t.rows| && t.rows[r].used
    ensures Orderly(T.Commit(t, r)) && T.Commit(t, r).rows == t.rows
  {
    if t.rows[r].key in t.index {
      assert t.index[t.rows[r].key] == r;
    }
  }

  lemma OrderlyIsValid(t: Store)
    requires Orderly(t)
    ensures T.Valid(t)
  {}

  /** Committing rows in use clears no slot. */
  lemma {:induction false} CommitsKeepRows(t: Store, rs: seq<nat>)
    requires Orderly(t) && AllUsed(t, rs)
    ensures Orderly(CommitRows(t, rs)) && CommitRows(t, rs).rows == t.rows && Lists(CommittedSlots(t, rs), rs)
  {
    hide T.Commit, Orderly;
    assert T.Valid(t) by {
      OrderlyIsValid(t);
    }
    if rs != [] {
      CommitsKeepRows(t, rs[..|rs| - 1]);
      CommitKeepsRows(CommitRows(t, rs[..|rs| - 1]), rs[|rs| - 1]);
    }
  }

  /** The commit of a context whose listed rows are in use writes no DRB slot, and only PDU slots that the packing
      loop moves. */
  lemma ListsAfterCommit(t: Store, c: UeCtx)
    requires Orderly(t) && Pointed(c, |t.rows|)
    requires AllUsed(t, DrbRows(c, |t.rows|)) && AllUsed(t, PdusRows(c, |t.rows|))
    ensures ListsCommitted(t, c) == c.(pdus := Compact(c.drbs[..c.pdusCount], c.pdus))
  {
    hide CommitRows, CommittedSlots, Orderly, NonNull;
    OrderlyIsValid(t);
    var drbs, pdus := DrbRows(c, |t.rows|), PdusRows(c, |t.rows|);
    CommitsKeepRows(t, drbs);
    OrderlyIsValid(CommitRows(t, drbs));
    CommitsKeepRows(CommitRows(t, drbs), pdus);
    assert DrbsAfterCommit(t, c) == c.drbs;
    assert PdusAfterCommit(t, c) == c.pdus;
    NonNullOfPointing(c.drbs[..c.drbCount]);
    assert Compact(c.drbs[..c.drbCount], c.drbs) == c.drbs;
  }

  /** Because the PDU packing loop reads the DRB list, the commit of a context whose listed rows are in use keeps the
      PDU list if and only if that list already begins with the DRBs found in the first pdus_count DRB slots. So if
      no session is listed as a DRB there must be no such DRB at all. */
  lemma PduListSurvivesCommitIff(t: Store, c: UeCtx)
    requires Orderly(t) && Pointed(c, |t.rows|)
    requires AllUsed(t, DrbRows(c, |t.rows|)) && AllUsed(t, PdusRows(c, |t.rows|))
    ensures var kept := ListsCommitted(t, c).pdus[..c.pdusCount] == c.pdus[..c.pdusCount];
            (kept <==> NonNull(c.drbs[..c.pdusCount]) <= c.pdus[..c.pdusCount]) &&
            ((forall i, j :: 0 <= i < c.pdusCount && 0 <= j < c.pdusCount ==> c.pdus[i] != c.drbs[j]) ==>
              (kept <==> forall i :: 0 <= i < c.pdusCount ==> c.drbs[i] == None))
  {
    hide CommitRows, CommittedSlots, Orderly, NonNull, AllUsed, ListsCommitted;
    OrderlyIsValid(t);
    ListsAfterCommit(t, c);
    CompactKeepsIff(c.drbs[..c.pdusCount], c.pdus, c.pdusCount);
    if forall i, j :: 0 <= i < c.pdusCount && 0 <= j < c.pdusCount ==> c.pdus[i] != c.drbs[j] {
      CompactDisjoint(c.drbs[..c.pdusCount], c.pdus[..c.pdusCount]);
    }
  }

  /** With at least as many DRBs left as PDU sessions listed, the PDU list becomes a copy of the DRB list. */
  lemma PduListBecomesDrbList(t: Store, c: UeCtx)
    requires T.Valid(t) && Pointed(c, |t.rows|)
    requires c.pdusCount <= ListsCommitted(t, c).drbCount
    ensures var c' := ListsCommitted(t, c);
            c'.pdusCount == c.pdusCount && c'.pdus[..c.pdusCount] == c'.drbs[..c.pdusCount]
  {
    hide CommittedSlots, CommitRows, NonNull;
    var c' := ListsCommitted(t, c);
    DrbListAfterCommit(t, c);
    NonNullElements(CommittedSlots(t, DrbRows(c, |t.rows|)));
    forall i | 0 <= i < c.pdusCount
      ensures c'.drbs[i].Some?
    {
      var s := c'.drbs[..c'.drbCount][i];
      assert s == c'.drbs[i] && s in NonNull(CommittedSlots(t, DrbRows(c, |t.rows|)));
    }
    NonNullOfPointing(c'.drbs[..c.pdusCount]);
  }
}
