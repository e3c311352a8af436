/** Release of a UE context: ue_ctx_remove, then ue_ctx_commit (e1ap_bearer_release.c). */
module UeRelease {
  import opened T = TunnelStore
  import TX = TunnelTransactions
  import LK = LiveKeys
  import U = UeStore
  import Bearer

  ghost predicate ListedRows(t: Store, rs: seq<nat>) {
    T.Valid(t) && forall i :: 0 <= i < |rs| ==> rs[i] < |t.rows| && LK.Indexed(t, rs[i])
  }

  /** The table with a set of rows marked unused, or the rows of a list. */
  function Freed(t: Store, rows: set<nat>): Store {
    t.(rows := seq(|t.rows|, i requires 0 <= i < |t.rows| =>
      if i in rows then t.rows[i].(used := false) else t.rows[i]))
  }

  function Unused(t: Store, rs: seq<nat>): Store {
    Freed(t, set r | r in rs)
  }

  lemma UnusedNone(t: Store)
    ensures Unused(t, []) == t
  {
    assert Unused(t, []).rows == t.rows;
  }

  lemma RemoveMarksUnused(t: Store, rs: seq<nat>, r: nat)
    requires T.Valid(t) && r < |t.rows| && LK.Indexed(t, r)
    ensures var t1 := Unused(t, rs);
            T.Valid(t1) && |t1.rows| == |t.rows| && t1.rows[r].key == t.rows[r].key &&
            T.Remove(t1, t1.rows[r].key).0 == Unused(t, rs + [r])
  {
    assert T.Remove(Unused(t, rs), t.rows[r].key).0.rows == Unused(t, rs + [r]).rows;
  }

  lemma {:induction false} RemoveRowsMarksUnused(t: Store, rs: seq<nat>)
    requires ListedRows(t, rs)
    ensures U.RemoveRows(t, rs) == Unused(t, rs)
  {
    hide T.Remove, Unused, LK.Indexed;
    UnusedNone(t);
    if rs != [] {
      var init, last := rs[..|rs| - 1], rs[|rs| - 1];
      RemoveRowsMarksUnused(t, init);
      assert rs == init + [last];
      RemoveMarksUnused(t, init, last);
    }
  }

  lemma UnusedTwice(t: Store, rs: seq<nat>, qs: seq<nat>)
    requires ListedRows(t, rs) && ListedRows(t, qs)
    ensures ListedRows(Unused(t, rs), qs) && Unused(Unused(t, rs), qs) == Unused(t, rs + qs)
  {
    assert Unused(Unused(t, rs), qs).rows == Unused(t, rs + qs).rows;
  }

  /** The rows that occur an odd number of times. */
  ghost function OddRows(rs: seq<nat>): set<nat> {
    if rs == [] then {}
    else
      var odd, last := OddRows(rs[..|rs| - 1]), rs[|rs| - 1];
      if last in odd then odd - {last} else odd + {last}
  }

  lemma {:induction false} OddRowsParity(rs: seq<nat>)
    ensures forall r :: r in OddRows(rs) <==> multiset(rs)[r] % 2 == 1
  {
    if rs != [] {
      OddRowsParity(rs[..|rs| - 1]);
      assert rs == rs[..|rs| - 1] + [rs[|rs| - 1]];
    }
  }

  lemma {:induction false} DistinctRowsAreOdd(rs: seq<nat>)
    requires forall i, j :: 0 <= i < j < |rs| ==> rs[i] != rs[j]
    ensures forall r :: r in OddRows(rs) <==> r in rs
  {
    if rs != [] {
      DistinctRowsAreOdd(rs[..|rs| - 1]);
      assert rs == rs[..|rs| - 1] + [rs[|rs| - 1]];
    }
  }

  /** Committing an unused row toggles its key: deleted if it is indexed, indexed again if it is not. So a key
      is gone in the end exactly if its row is listed an odd number of times. */
  ghost predicate Toggled(t: Store, odd: set<nat>, t': Store) {
    t'.rows == t.rows && t'.slot == t.slot && t'.lastId == t.lastId &&
    t'.index == map k | k in t.index && t.index[k] !in odd :: t.index[k]
  }

  lemma ToggleStep(t: Store, odd: set<nat>, t1: Store, r: nat)
    requires T.Valid(t) && Toggled(t, odd, t1) && r < |t.rows| && LK.Indexed(t, r) && !t.rows[r].used
    requires forall k :: k in t.index ==> t.rows[t.index[k]].key == k
    ensures T.Valid(t1) && Toggled(t, if r in odd then odd - {r} else odd + {r}, T.Commit(t1, r))
  {
    var key := t.rows[r].key;
    assert forall k :: k in t.index && t.index[k] == r ==> k == key;
    assert key in t1.index <==> r !in odd;
  }

  lemma {:induction false} CommitUnusedToggles(t: Store, rs: seq<nat>)
    requires ListedRows(t, rs) && forall i :: 0 <= i < |rs| ==> !t.rows[rs[i]].used
    requires forall k :: k in t.index ==> t.rows[t.index[k]].key == k
    ensures Toggled(t, OddRows(rs), U.CommitRows(t, rs))
  {
    if rs == [] {
      assert t.index == map k | k in t.index && t.index[k] !in OddRows(rs) :: t.index[k];
    } else {
      CommitUnusedToggles(t, rs[..|rs| - 1]);
      ToggleStep(t, OddRows(rs[..|rs| - 1]), U.CommitRows(t, rs[..|rs| - 1]), rs[|rs| - 1]);
    }
  }

  lemma {:induction false} CommitRowsConcat(t: Store, rs: seq<nat>, qs: seq<nat>)
    requires T.Valid(t) && U.Within(rs, |t.rows|) && U.Within(qs, |t.rows|)
    ensures U.Within(rs + qs, |t.rows|) && U.CommitRows(t, rs + qs) == U.CommitRows(U.CommitRows(t, rs), qs)
  {
    hide T.Commit;
    if qs == [] {
      assert rs + qs == rs;
    } else {
      CommitRowsConcat(t, rs, qs[..|qs| - 1]);
      assert (rs + qs)[..|rs + qs| - 1] == rs + qs[..|qs| - 1];
    }
  }

  /** The rows a context lists, in the order in which they are committed. */
  function Listed(c: U.UeCtx, n: nat): seq<nat>
    requires U.Pointed(c, n)
  {
    U.DrbRows(c, n) + U.PdusRows(c, n)
  }

  function KeysOf(t: Store, rs: seq<nat>): set<Key>
    requires forall i :: 0 <= i < |rs| ==> rs[i] < |t.rows|
  {
    set i | 0 <= i < |rs| :: t.rows[rs[i]].key
  }

  /** A committed context: indexed under its own id, used, and listing only used, indexed rows. */
  ghost predicate CommittedCtx(sys: U.System, id: nat) {
    U.Valid(sys) && TX.Committed(sys.t) && id in sys.u.index &&
    var c := sys.u.rows[sys.u.index[id]];
    c.cuupId == id && c.used && U.Pointed(c, |sys.t.rows|) && ListedRows(sys.t, Listed(c, |sys.t.rows|))
  }

  lemma UnusedSwap(t: Store, rs: seq<nat>, qs: seq<nat>)
    ensures Unused(t, rs + qs) == Unused(t, qs + rs)
  {
    assert Unused(t, rs + qs).rows == Unused(t, qs + rs).rows;
  }

  lemma RemoveListedRows(t: Store, drbs: seq<nat>, pdus: seq<nat>)
    requires TX.Committed(t) && ListedRows(t, drbs + pdus)
    ensures ListedRows(t, drbs) && ListedRows(t, pdus)
    ensures U.RemoveRows(U.RemoveRows(t, pdus), drbs) == Unused(t, drbs + pdus)
  {
    hide Unused, U.RemoveRows, LK.Indexed, T.Valid, TX.Committed;
    assert forall i :: 0 <= i < |pdus| ==> pdus[i] == (drbs + pdus)[|drbs| + i];
    assert forall i :: 0 <= i < |drbs| ==> drbs[i] == (drbs + pdus)[i];
    RemoveRowsMarksUnused(t, pdus);
    UnusedTwice(t, pdus, drbs);
    RemoveRowsMarksUnused(Unused(t, pdus), drbs);
    UnusedSwap(t, pdus, drbs);
  }

  lemma UnusedListed(t: Store, rs: seq<nat>)
    requires TX.Committed(t) && ListedRows(t, rs)
    ensures var t1 := Unused(t, rs);
            ListedRows(t1, rs) && (forall i :: 0 <= i < |rs| ==> !t1.rows[rs[i]].used) &&
            forall k :: k in t1.index ==> t1.rows[t1.index[k]].key == k
  {}

  lemma SublistsWithin(drbs: seq<nat>, pdus: seq<nat>, n: nat)
    requires U.Within(drbs + pdus, n)
    ensures U.Within(drbs, n) && U.Within(pdus, n)
  {
    assert forall i :: 0 <= i < |pdus| ==> pdus[i] == (drbs + pdus)[|drbs| + i];
    assert forall i :: 0 <= i < |drbs| ==> drbs[i] == (drbs + pdus)[i];
  }

  lemma CommitListedRows(t: Store, drbs: seq<nat>, pdus: seq<nat>)
    requires TX.Committed(t) && ListedRows(t, drbs + pdus)
    ensures var t1 := Unused(t, drbs + pdus);
            T.Valid(t1) && U.Within(drbs, |t1.rows|) && U.Within(pdus, |t1.rows|) &&
            Toggled(t1, OddRows(drbs + pdus), U.CommitRows(U.CommitRows(t1, drbs), pdus))
  {
    UnusedListed(t, drbs + pdus);
    SublistsWithin(drbs, pdus, |t.rows|);
    CommitRowsConcat(Unused(t, drbs + pdus), drbs, pdus);
    CommitUnusedToggles(Unused(t, drbs + pdus), drbs + pdus);
  }

  lemma ReleaseTunnels(t: Store, c: U.UeCtx)
    requires TX.Committed(t) && U.Pointed(c, |t.rows|) && ListedRows(t, Listed(c, |t.rows|))
    ensures var t' := U.TunnelsCommitted(U.RemoveRows(U.RemoveRows(t, U.PdusRows(c, |t.rows|)), U.DrbRows(c, |t.rows|)), c);
            Toggled(Unused(t, Listed(c, |t.rows|)), OddRows(Listed(c, |t.rows|)), t')
  {
    RemoveListedRows(t, U.DrbRows(c, |t.rows|), U.PdusRows(c, |t.rows|));
    CommitListedRows(t, U.DrbRows(c, |t.rows|), U.PdusRows(c, |t.rows|));
  }

  /** What a release does to any committed context, whatever its lists: the UE id and its row are gone, every
      listed row is free, and exactly the keys of rows listed an odd number of times are deleted. Nothing else
      changes. */
  lemma ReleaseEffect(sys: U.System, id: nat)
    requires CommittedCtx(sys, id)
    ensures var r := sys.u.index[id];
            var rs := Listed(sys.u.rows[r], |sys.t.rows|);
            var s' := Bearer.ReleaseUe(sys, id);
            s'.u.index == sys.u.index - {id} && U.UsedUes(s'.u) == U.UsedUes(sys.u) - {r} &&
            |s'.u.rows| == |sys.u.rows| && (forall i :: 0 <= i < |sys.u.rows| && i != r ==> s'.u.rows[i] == sys.u.rows[i]) &&
            Toggled(Unused(sys.t, rs), OddRows(rs), s'.t)
  {
    hide Toggled, OddRows, Unused, U.RemoveRows, U.CommitRows;
    var r := sys.u.index[id];
    var c := sys.u.rows[r];
    var s1 := U.Remove(sys, id).0;
    assert s1.u.rows[r] == c.(used := false);
    assert U.PdusRows(s1.u.rows[r], |sys.t.rows|) == U.PdusRows(c, |sys.t.rows|);
    assert U.DrbRows(s1.u.rows[r], |sys.t.rows|) == U.DrbRows(c, |sys.t.rows|);
    ReleaseTunnels(sys.t, c);
  }

  lemma KeyOfListedRow(t: Store, rs: seq<nat>, k: Key)
    requires TX.Committed(t) && ListedRows(t, rs) && k in t.index
    ensures k in KeysOf(t, rs) <==> t.index[k] in rs
  {
    if t.index[k] in rs {
      var i :| 0 <= i < |rs| && rs[i] == t.index[k];
    }
  }

  lemma {:induction false} OddRowsListed(rs: seq<nat>)
    ensures forall r :: r in OddRows(rs) ==> r in rs
  {
    if rs != [] {
      OddRowsListed(rs[..|rs| - 1]);
    }
  }

  lemma ToggledExactIff(t: Store, rs: seq<nat>, t': Store)
    requires TX.Committed(t) && ListedRows(t, rs) && Toggled(Unused(t, rs), OddRows(rs), t')
    ensures t'.index == t.index - KeysOf(t, rs) <==> forall r :: r in rs ==> r in OddRows(rs)
  {
    forall k | k in t.index
      ensures k in KeysOf(t, rs) <==> t.index[k] in rs
    {
      KeyOfListedRow(t, rs, k);
    }
    OddRowsListed(rs);
    if r :| r in rs && r !in OddRows(rs) {
      var k := t.rows[r].key;
      assert LK.Indexed(t, r) && k in t'.index && k in KeysOf(t, rs);
    } else {
      assert t'.index == t.index - KeysOf(t, rs);
    }
  }

  /** The release deletes exactly the listed keys if and only if every row is listed an odd number of times,
      as when the lists have no duplicates. */
  lemma ReleaseExactIff(sys: U.System, id: nat)
    requires CommittedCtx(sys, id)
    ensures var rs := Listed(sys.u.rows[sys.u.index[id]], |sys.t.rows|);
            Bearer.ReleaseUe(sys, id).t.index == sys.t.index - KeysOf(sys.t, rs) <==>
            forall r :: r in rs ==> multiset(rs)[r] % 2 == 1
  {
    var rs := Listed(sys.u.rows[sys.u.index[id]], |sys.t.rows|);
    ReleaseEffect(sys, id);
    OddRowsParity(rs);
    ToggledExactIff(sys.t, rs, Bearer.ReleaseUe(sys, id).t);
  }

  lemma ReleasedUsed(t: Store, rs: seq<nat>, t': Store)
    requires t'.rows == Unused(t, rs).rows
    ensures T.Used(t') == T.Used(t) - (set i | 0 <= i < |rs| :: rs[i])
  {
    assert forall r :: r in (set i | 0 <= i < |rs| :: rs[i]) <==> r in rs;
  }

  lemma ReleasedView(t: Store, rs: seq<nat>, t': Store)
    requires TX.Committed(t) && ListedRows(t, rs) && t'.rows == Unused(t, rs).rows && t'.index == t.index - KeysOf(t, rs)
    requires t'.slot == t.slot && t'.lastId == t.lastId
    requires forall k :: k in t'.index ==> t.index[k] !in rs
    ensures TX.Committed(t') && T.View(t') == T.View(t) - KeysOf(t, rs)
    ensures T.Used(t') == T.Used(t) - (set i | 0 <= i < |rs| :: rs[i])
  {
    hide LK.Indexed, T.UsedIn, KeysOf;
    ReleasedUsed(t, rs, t');
  }

  lemma ReleasedSettled(t: Store, rs: seq<nat>, t': Store)
    requires LK.Settled(t) && TX.Committed(t') && t'.rows == Unused(t, rs).rows && |t'.rows| == |t.rows|
    requires forall k :: k in t.index && t.index[k] !in rs ==> k in t'.index && t'.index[k] == t.index[k]
    ensures LK.Settled(t')
  {
    forall r: nat | r < |t'.rows| && t'.rows[r].used
      ensures LK.Indexed(t', r)
    {
      assert LK.Indexed(t, r);
    }
  }

  lemma DistinctReleased(t: Store, rs: seq<nat>, t': Store)
    requires TX.Committed(t) && ListedRows(t, rs) && Toggled(Unused(t, rs), OddRows(rs), t')
    requires forall r :: r in OddRows(rs) <==> r in rs
    ensures TX.Committed(t') && T.View(t') == T.View(t) - KeysOf(t, rs)
    ensures T.Used(t') == T.Used(t) - (set i | 0 <= i < |rs| :: rs[i])
    ensures LK.Settled(t) ==> LK.Settled(t')
  {
    ToggledExactIff(t, rs, t');
    forall k | k in t.index
      ensures k in t'.index <==> t.index[k] !in rs
    {
      KeyOfListedRow(t, rs, k);
    }
    ReleasedView(t, rs, t');
    if LK.Settled(t) {
      ReleasedSettled(t, rs, t');
    }
  }

  /** Release of a committed context with distinct listed rows: its id and exactly its tunnel keys are deleted,
      exactly its rows are freed, and every other UE id and key looks up what it did before. */
  lemma ReleaseIsExactAndFramed(sys: U.System, id: nat)
    requires CommittedCtx(sys, id)
    requires var rs := Listed(sys.u.rows[sys.u.index[id]], |sys.t.rows|);
             forall i, j :: 0 <= i < j < |rs| ==> rs[i] != rs[j]
    ensures var r := sys.u.index[id];
            var rs := Listed(sys.u.rows[r], |sys.t.rows|);
            var s' := Bearer.ReleaseUe(sys, id);
            TX.Committed(s'.t) && T.View(s'.t) == T.View(sys.t) - KeysOf(sys.t, rs) &&
            T.Used(s'.t) == T.Used(sys.t) - (set i | 0 <= i < |rs| :: rs[i]) &&
            (LK.Settled(sys.t) ==> LK.Settled(s'.t)) &&
            s'.u.index == sys.u.index - {id} && U.UsedUes(s'.u) == U.UsedUes(sys.u) - {r} &&
            forall other :: other in s'.u.index && sys.u.index[other] != r ==>
              s'.u.rows[s'.u.index[other]] == sys.u.rows[sys.u.index[other]]
  {
    var rs := Listed(sys.u.rows[sys.u.index[id]], |sys.t.rows|);
    ReleaseEffect(sys, id);
    DistinctRowsAreOdd(rs);
    DistinctReleased(sys.t, rs, Bearer.ReleaseUe(sys, id).t);
  }
}
