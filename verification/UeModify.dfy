/** Modification of a UE context: ue_ctx_modify, then drb_modify on some list positions, then ue_ctx_commit. */
module UeModify {
  import opened Options
  import opened Circular
  import opened T = TunnelStore
  import TX = TunnelTransactions
  import LK = LiveKeys
  import U = UeStore
  import Drb
  import opened UePacking
  import opened UeRelease

  ghost predicate Distinct(rs: seq<nat>) {
    forall i, j :: 0 <= i < j < |rs| ==> rs[i] != rs[j]
  }

  /** Which new row holds the modified copy of an old row. */
  type Copies = map<nat, nat>

  function Current(copies: Copies, r: nat): nat {
    if r in copies then copies[r] else r
  }

  /** Each copy holds its row's contents in a row unused before. */
  ghost predicate CopiesHold(t0: Store, t: Store, copies: Copies) {
    forall q :: q in copies ==>
      q < |t0.rows| && LK.Indexed(t0, q) && copies[q] < |t0.rows| && copies[q] < |t.rows| &&
      !t0.rows[copies[q]].used && t.rows[copies[q]] == t0.rows[q]
  }

  /** The table t after copies of committed rows of table t0 were made in rows that t0 does not use. */
  ghost predicate Staged(t0: Store, t: Store, copies: Copies) {
    TX.Committed(t0) && T.Valid(t) && t.index == t0.index && |t.rows| == |t0.rows| &&
    (forall r: nat :: r < |t0.rows| && t0.rows[r].used ==> t.rows[r] == t0.rows[r]) &&
    CopiesHold(t0, t, copies) &&
    (forall r, q :: r in copies && q in copies && r != q ==> copies[r] != copies[q]) &&
    T.Used(t) == T.Used(t0) + copies.Values
  }

  lemma CopyAdded(copies: Copies, r: nat, w: nat)
    requires r !in copies && w !in copies.Values
    requires forall p, q :: p in copies && q in copies && p != q ==> copies[p] != copies[q]
    ensures var copies' := copies[r := w];
            copies'.Values == copies.Values + {w} &&
            forall p, q :: p in copies' && q in copies' && p != q ==> copies'[p] != copies'[q]
  {
    var copies' := copies[r := w];
    assert copies'[r] == w;
    assert forall q :: q in copies ==> copies'[q] == copies[q] && copies[q] in copies.Values;
  }

  /** The contents of row r, in use, written to the unused row w. */
  lemma RowCopied(t: Store, r: nat, w: nat, t': Store)
    requires r < |t.rows| && w < |t.rows| && t.rows[r].used && w !in T.Used(t) && t'.rows == t.rows[w := t.rows[r]]
    ensures T.Used(t') == T.Used(t) + {w}
  {}

  lemma StagedUsed(t0: Store, t: Store, copies: Copies, r: nat)
    requires Staged(t0, t, copies) && r < |t0.rows| && LK.Indexed(t0, r)
    ensures r < |t.rows| && t.rows[r] == t0.rows[r] && t0.rows[r].used
  {}

  lemma UnusedBefore(t0: Store, t: Store, copies: Copies, w: nat)
    requires Staged(t0, t, copies) && w < |t.rows| && w !in T.Used(t)
    ensures w !in copies.Values && !t0.rows[w].used && !t.rows[w].used
  {
    assert w !in T.Used(t0);
  }

  lemma CopiesStillHold(t0: Store, t: Store, copies: Copies, r: nat, w: nat, t': Store)
    requires CopiesHold(t0, t, copies) && w !in copies.Values && r < |t.rows| == |t0.rows| && LK.Indexed(t0, r)
    requires w < |t.rows| && !t0.rows[w].used && t.rows[r] == t0.rows[r] && t'.rows == t.rows[w := t.rows[r]]
    ensures CopiesHold(t0, t', copies[r := w])
  {
    assert forall q :: q in copies ==> copies[q] in copies.Values;
  }

  lemma CopyStaged(t0: Store, t: Store, copies: Copies, r: nat, w: nat, t': Store)
    requires Staged(t0, t, copies) && r < |t0.rows| && LK.Indexed(t0, r) && r !in copies
    requires w < |t.rows| && w !in T.Used(t) && t'.rows == t.rows[w := t.rows[r]] && t'.index == t.index
    requires T.Valid(t')
    ensures Staged(t0, t', copies[r := w])
  {
    hide T.Valid, T.UsedIn, CopiesHold, TX.Committed;
    UnusedBefore(t0, t, copies, w);
    StagedUsed(t0, t, copies, r);
    CopyAdded(copies, r, w);
    RowCopied(t, r, w, t');
    CopiesStillHold(t0, t, copies, r, w, t');
  }

  lemma StagedValid(t0: Store, t: Store, copies: Copies)
    requires Staged(t0, t, copies)
    ensures T.Valid(t) && t.index == t0.index && |t.rows| == |t0.rows|
  {}

  /** One drb_modify of a row that has no copy yet; without a free row nothing changes. */
  lemma StageRow(t0: Store, t: Store, copies: Copies, r: nat)
    requires Staged(t0, t, copies) && r < |t0.rows| && LK.Indexed(t0, r) && r !in copies
    ensures var (t1, a) := Modify(t, t.rows[r].key);
            |t1.rows| == |t.rows| && (a.None? ==> t1 == t) &&
            (a.Some? ==> a.value < |t.rows| && a.value != r && !t.rows[a.value].used &&
                         Staged(t0, t1.(rows := t1.rows[a.value := t1.rows[r]]), copies[r := a.value]))
  {
    hide Staged, Alloc, T.UsedIn, IsFirstFree, AllButCursor;
    StagedUsed(t0, t, copies, r);
    StagedValid(t0, t, copies);
    var key := t.rows[r].key;
    TX.AllocTakesFreeRow(t, key);
    var (t1, a) := Modify(t, key);
    if a.Some? {
      UnusedBefore(t0, t, copies, a.value);
      CopyStaged(t0, t, copies, r, a.value, t1.(rows := t1.rows[a.value := t1.rows[r]]));
    }
  }

  /** The table after the listed rows in `done` have been committed in their current form. */
  ghost function Switched(t: Store, copies: Copies, done: set<nat>): Store {
    t.(index := map k | k in t.index :: if t.index[k] in done then Current(copies, t.index[k]) else t.index[k],
       rows := seq(|t.rows|, r requires 0 <= r < |t.rows| =>
         if r in done && r in copies then t.rows[r].(used := false) else t.rows[r]))
  }

  lemma SwitchedRows(t: Store, copies: Copies, done: set<nat>, r: nat)
    requires r < |t.rows| && r !in done
    ensures var s := Switched(t, copies, done);
            s.rows[r] == t.rows[r] &&
            Switched(t, copies, done + {r}).rows ==
              if r in copies then s.rows[r := s.rows[r].(used := false)] else s.rows
  {}

  lemma OnlyOwnKey(t: Store, r: nat)
    requires r < |t.rows| && LK.Indexed(t, r) && SelfKeyed(t)
    ensures t.rows[r].key in t.index && forall k :: k in t.index ==> (t.index[k] == r <==> k == t.rows[r].key)
  {}

  lemma SwitchedIndex(t: Store, copies: Copies, done: set<nat>, r: nat)
    requires r < |t.rows| && r !in done && LK.Indexed(t, r) && SelfKeyed(t)
    ensures var s := Switched(t, copies, done);
            s.index.Keys == t.index.Keys && s.index[t.rows[r].key] == r &&
            Switched(t, copies, done + {r}).index == s.index[t.rows[r].key := Current(copies, r)]
  {
    hide SelfKeyed, LK.Indexed, Current;
    OnlyOwnKey(t, r);
  }

  lemma CurrentRow(t0: Store, t: Store, copies: Copies, done: set<nat>, r: nat)
    requires Staged(t0, t, copies) && r < |t0.rows| && LK.Indexed(t0, r) && r !in done
    requires forall q :: q in done ==> q < |t0.rows| && t0.rows[q].used
    ensures var s, w := Switched(t, copies, done), Current(copies, r);
            w < |t.rows| && s.rows[w] == t.rows[w] && t.rows[w].used && t.rows[w].key == t.rows[r].key && LK.Indexed(t, r)
  {
    var w := Current(copies, r);
    assert w !in done;
  }

  /** The row that a key looks up once the rows in `done` are switched carries that key. */
  lemma CurrentCarriesKey(t0: Store, t: Store, copies: Copies, k: Key)
    requires Staged(t0, t, copies) && k in t.index
    ensures var r := t.index[k];
            r < |t.rows| && Current(copies, r) < |t.rows| && t.rows[r].key == k && t.rows[Current(copies, r)].key == k
  {}

  lemma SwitchedShape(t: Store, copies: Copies, done: set<nat>)
    ensures var s := Switched(t, copies, done);
            |s.rows| == |t.rows| && s.index.Keys == t.index.Keys && s.slot == t.slot && s.lastId == t.lastId
  {}

  lemma SwitchedKey(t: Store, copies: Copies, done: set<nat>, k: Key)
    requires k in t.index && t.index[k] < |t.rows| && Current(copies, t.index[k]) < |t.rows|
    ensures var s, r := Switched(t, copies, done), t.index[k];
            k in s.index && s.index[k] < |s.rows| && s.index[k] == (if r in done then Current(copies, r) else r) &&
            s.rows[s.index[k]].key == t.rows[s.index[k]].key
  {}

  lemma SwitchedValid(t0: Store, t: Store, copies: Copies, done: set<nat>)
    requires Staged(t0, t, copies)
    ensures T.Valid(Switched(t, copies, done)) && SelfKeyed(t) && SelfKeyed(Switched(t, copies, done))
  {
    hide Current, Switched;
    var s := Switched(t, copies, done);
    forall k | k in t.index
      ensures k in s.index && s.index[k] < |s.rows| && s.rows[s.index[k]].key == k
      ensures t.index[k] < |t.rows| && t.rows[t.index[k]].key == k
    {
      CurrentCarriesKey(t0, t, copies, k);
      SwitchedKey(t, copies, done, k);
    }
    SwitchedShape(t, copies, done);
  }

  /** Committing one more listed row: its key switches to its current row, and an old row is freed. */
  lemma SwitchStep(t0: Store, t: Store, copies: Copies, done: set<nat>, r: nat)
    requires Staged(t0, t, copies) && r < |t0.rows| && LK.Indexed(t0, r) && r !in done
    requires forall q :: q in done ==> q < |t0.rows| && t0.rows[q].used
    ensures var s := Switched(t, copies, done);
            T.Valid(s) && Current(copies, r) < |s.rows| &&
            T.Commit(s, Current(copies, r)) == Switched(t, copies, done + {r}) &&
            Switched(t, copies, done + {r}).rows[Current(copies, r)].used
  {
    hide T.Commit;
    var s, w := Switched(t, copies, done), Current(copies, r);
    SwitchedValid(t0, t, copies, done);
    CurrentRow(t0, t, copies, done, r);
    SwitchedRows(t, copies, done, r);
    SwitchedIndex(t, copies, done, r);
    assert w == r <==> r !in copies;
    TX.CommitReplaces(s, w);
  }

  function Members(rs: seq<nat>): set<nat> {
    set r | r in rs
  }

  function CurrentAll(copies: Copies, was: seq<nat>): (now: seq<nat>)
    ensures |now| == |was|
  {
    seq(|was|, i requires 0 <= i < |was| => Current(copies, was[i]))
  }

  ghost predicate AllIndexed(t: Store, rs: seq<nat>) {
    forall i :: 0 <= i < |rs| ==> rs[i] < |t.rows| && LK.Indexed(t, rs[i])
  }

  lemma SwitchedNone(t: Store, copies: Copies)
    ensures Switched(t, copies, {}) == t
  {
    assert Switched(t, copies, {}).index == t.index && Switched(t, copies, {}).rows == t.rows;
  }

  lemma CurrentAllSnoc(copies: Copies, was: seq<nat>)
    requires was != []
    ensures var now, last := CurrentAll(copies, was), was[|was| - 1];
            now[..|now| - 1] == CurrentAll(copies, was[..|was| - 1]) && now[|now| - 1] == Current(copies, last) &&
            Members(was) == Members(was[..|was| - 1]) + {last}
  {
    assert was == was[..|was| - 1] + [was[|was| - 1]];
  }

  lemma MembersUsed(t0: Store, rs: seq<nat>)
    requires TX.Committed(t0) && AllIndexed(t0, rs)
    ensures forall q :: q in Members(rs) ==> q < |t0.rows| && t0.rows[q].used
  {}

  lemma NoMembers()
    ensures Members([]) == {}
  {}

  lemma NotMember(rs: seq<nat>)
    requires rs != [] && Distinct(rs)
    ensures rs[|rs| - 1] !in Members(rs[..|rs| - 1])
  {}

  /** The DRB commit loop on a list with some rows replaced by their copies; no slot is cleared. */
  lemma {:induction false} CommitCurrent(t0: Store, t: Store, copies: Copies, was: seq<nat>)
    requires Staged(t0, t, copies) && AllIndexed(t0, was) && Distinct(was)
    ensures var now := CurrentAll(copies, was);
            U.Within(now, |t.rows|) && Lists(U.CommittedSlots(t, now), now) &&
            U.CommitRows(t, now) == Switched(t, copies, Members(was))
  {
    hide Switched, T.Commit, Current, LK.Indexed, CopiesHold, Members;
    if was == [] {
      SwitchedNone(t, copies);
      assert Members(was) == {} by {
        NoMembers();
      }
    } else {
      var init, last := was[..|was| - 1], was[|was| - 1];
      CommitCurrent(t0, t, copies, init);
      CurrentAllSnoc(copies, was);
      MembersUsed(t0, init);
      NotMember(was);
      SwitchedShape(t, copies, Members(init));
      SwitchStep(t0, t, copies, Members(init), last);
    }
  }

  /** Committing a listed row that has no copy, or whose key has not been switched, does nothing. */
  lemma CommitUntouched(t0: Store, t: Store, copies: Copies, done: set<nat>, r: nat)
    requires Staged(t0, t, copies) && r < |t0.rows| && LK.Indexed(t0, r) && !(r in copies && r in done)
    ensures var s := Switched(t, copies, done);
            T.Valid(s) && T.Commit(s, r) == s && s.rows[r].used
  {
    SwitchedValid(t0, t, copies, done);
  }

  lemma {:induction false} AllUntouched(t0: Store, t: Store, copies: Copies, done: set<nat>, pdus: seq<nat>)
    requires Staged(t0, t, copies) && AllIndexed(t0, pdus)
    requires forall i :: 0 <= i < |pdus| ==> !(pdus[i] in copies && pdus[i] in done)
    ensures var s := Switched(t, copies, done);
            T.Valid(s) && U.Within(pdus, |s.rows|) && U.CommitRows(s, pdus) == s && Lists(U.CommittedSlots(s, pdus), pdus)
  {
    hide T.Commit, Switched;
    assert |Switched(t, copies, done).rows| == |t.rows| == |t0.rows| by {
      SwitchedShape(t, copies, done);
    }
    SwitchedValid(t0, t, copies, done);
    if pdus != [] {
      AllUntouched(t0, t, copies, done, pdus[..|pdus| - 1]);
      CommitUntouched(t0, t, copies, done, pdus[|pdus| - 1]);
    }
  }

  /** But a modified row that is also listed as a PDU session takes its key back and frees the copy. */
  lemma CommitTouched(t0: Store, t: Store, copies: Copies, done: set<nat>, r: nat)
    requires Staged(t0, t, copies) && r in copies && r in done
    ensures var s := Switched(t, copies, done);
            T.Valid(s) && r < |s.rows| && !T.Commit(s, r).rows[copies[r]].used
  {
    SwitchedValid(t0, t, copies, done);
    assert LK.Indexed(t0, r) && t0.rows[r].used;
    assert Switched(t, copies, done).index[t0.rows[r].key] == copies[r];
  }

  lemma {:induction false} FreedStaysFree(s: Store, rs: seq<nat>, j: nat, r: nat)
    requires SelfKeyed(s) && U.Within(rs, |s.rows|) && j < |rs| && r < |s.rows|
    requires U.CommitRows(s, rs[..j]) == s && !T.Commit(s, rs[j]).rows[r].used
    ensures !U.CommitRows(s, rs).rows[r].used
  {
    hide T.Commit;
    var init := rs[..|rs| - 1];
    if j < |init| {
      assert init[..j] == rs[..j];
      FreedStaysFree(s, init, j, r);
      CommitsOnlyFree(s, init);
      CommitOnlyFrees(U.CommitRows(s, init), rs[|init|]);
    }
  }

  lemma {:induction false} SomeTouched(t0: Store, t: Store, copies: Copies, done: set<nat>, pdus: seq<nat>, j: nat)
    requires Staged(t0, t, copies) && AllIndexed(t0, pdus) && j < |pdus| && pdus[j] in copies && pdus[j] in done
    ensures var s := Switched(t, copies, done);
            T.Valid(s) && U.Within(pdus, |s.rows|) &&
            exists r :: r in copies && copies[r] < |s.rows| && !U.CommitRows(s, pdus).rows[copies[r]].used
  {
    var s := Switched(t, copies, done);
    if i :| 0 <= i < j && pdus[i] in copies && pdus[i] in done {
      SomeTouched(t0, t, copies, done, pdus, i);
    } else {
      SwitchedValid(t0, t, copies, done);
      AllUntouched(t0, t, copies, done, pdus[..j]);
      CommitTouched(t0, t, copies, done, pdus[j]);
      FreedStaysFree(s, pdus, j, copies[pdus[j]]);
    }
  }

  ghost predicate Relocated(index: map<Key, nat>, copies: Copies, index': map<Key, nat>) {
    index'.Keys == index.Keys && forall k :: k in index ==> index'[k] == Current(copies, index[k])
  }

  /** What a committed modification must leave: every modified key looks up its new row with the contents of
      the copy, every old row is free, all else is as before, and as many rows are used. */
  ghost predicate Conserves(t0: Store, copies: Copies, t': Store) {
    T.Valid(t0) && T.Valid(t') && Relocated(t0.index, copies, t'.index) && T.View(t') == T.View(t0) &&
    T.Used(t') == T.Used(t0) - copies.Keys + copies.Values && |T.Used(t')| == |T.Used(t0)|
  }

  lemma CopiesSplit(copies: Copies, r: nat)
    requires r in copies && forall q, p :: q in copies && p in copies && q != p ==> copies[q] != copies[p]
    ensures var rest := copies - {r};
            copies.Values == rest.Values + {copies[r]} && copies[r] !in rest.Values && copies.Keys == rest.Keys + {r}
  {
    assert forall q :: q in copies && q != r ==> (copies - {r})[q] == copies[q];
  }

  lemma {:induction false} CopiesCount(copies: Copies)
    requires forall r, q :: r in copies && q in copies && r != q ==> copies[r] != copies[q]
    ensures |copies.Values| == |copies.Keys|
  {
    if copies != map[] {
      var r :| r in copies;
      CopiesCount(copies - {r});
      CopiesSplit(copies, r);
    }
  }

  lemma SwitchedUsed(t0: Store, t: Store, copies: Copies, done: set<nat>)
    requires Staged(t0, t, copies) && copies.Keys <= done
    ensures T.Used(Switched(t, copies, done)) == T.Used(t) - copies.Keys
  {}

  lemma StagedSets(t0: Store, t: Store, copies: Copies)
    requires Staged(t0, t, copies)
    ensures copies.Keys <= T.Used(t0) && copies.Values !! T.Used(t0) && T.Used(t) == T.Used(t0) + copies.Values
    ensures |copies.Values| == |copies.Keys|
  {
    CopiesCount(copies);
  }

  lemma SwapCount(used0: set<nat>, out: set<nat>, inn: set<nat>)
    requires out <= used0 && inn !! used0 && |inn| == |out|
    ensures used0 + inn - out == used0 - out + inn && |used0 - out + inn| == |used0|
  {
    assert |used0 - out| == |used0| - |out|;
    assert (used0 - out) !! inn;
  }

  lemma SwitchedLooksUp(t0: Store, t: Store, copies: Copies, done: set<nat>, k: Key)
    requires Staged(t0, t, copies) && copies.Keys <= done && k in t0.index
    ensures var s := Switched(t, copies, done);
            k in s.index && s.index[k] == Current(copies, t0.index[k]) && s.index[k] < |s.rows| &&
            s.rows[s.index[k]] == t0.rows[t0.index[k]]
  {
    var r := t0.index[k];
    if r in copies {
      assert copies[r] !in copies;
    }
  }

  lemma SwitchedKeys(t0: Store, t: Store, copies: Copies, done: set<nat>)
    requires Staged(t0, t, copies)
    ensures T.Valid(t0) && T.Valid(Switched(t, copies, done)) && Switched(t, copies, done).index.Keys == t0.index.Keys
  {
    SwitchedValid(t0, t, copies, done);
  }

  lemma SwitchedView(t0: Store, t: Store, copies: Copies, done: set<nat>)
    requires Staged(t0, t, copies) && copies.Keys <= done
    ensures var s := Switched(t, copies, done);
            T.Valid(t0) && T.Valid(s) && Relocated(t0.index, copies, s.index) && T.View(s) == T.View(t0)
  {
    hide Staged, Switched, Current, T.Valid;
    SwitchedKeys(t0, t, copies, done);
    forall k | k in t0.index
      ensures k in Switched(t, copies, done).index
      ensures Switched(t, copies, done).index[k] == Current(copies, t0.index[k])
      ensures T.View(Switched(t, copies, done))[k] == T.View(t0)[k]
    {
      SwitchedLooksUp(t0, t, copies, done, k);
    }
    assert T.View(Switched(t, copies, done)).Keys == T.View(t0).Keys;
  }

  lemma SwitchedConserves(t0: Store, t: Store, copies: Copies, done: set<nat>)
    requires Staged(t0, t, copies) && copies.Keys <= done
    ensures Conserves(t0, copies, Switched(t, copies, done))
  {
    SwitchedUsed(t0, t, copies, done);
    StagedSets(t0, t, copies);
    SwapCount(T.Used(t0), copies.Keys, copies.Values);
    SwitchedView(t0, t, copies, done);
  }

  /** The tunnel table is conserved if and only if no modified row is also listed as a PDU session. */
  lemma TunnelsConservedIff(t0: Store, t: Store, copies: Copies, was: seq<nat>, pdus: seq<nat>)
    requires Staged(t0, t, copies) && AllIndexed(t0, was) && Distinct(was) && AllIndexed(t0, pdus)
    requires forall r :: r in copies ==> r in was
    ensures var now := CurrentAll(copies, was);
            U.Within(now, |t.rows|) && U.Within(pdus, |t.rows|) &&
            (Conserves(t0, copies, U.CommitRows(U.CommitRows(t, now), pdus)) <==> forall p :: p in pdus ==> p !in copies)
  {
    var done := Members(was);
    CommitCurrent(t0, t, copies, was);
    var s := Switched(t, copies, done);
    if forall p :: p in pdus ==> p !in copies {
      AllUntouched(t0, t, copies, done, pdus);
      SwitchedConserves(t0, t, copies, done);
    } else {
      var p :| p in pdus && p in copies;
      var j :| 0 <= j < |pdus| && pdus[j] == p;
      SomeTouched(t0, t, copies, done, pdus, j);
      var t' := U.CommitRows(s, pdus);
      var r :| r in copies && !t'.rows[copies[r]].used;
      assert copies[r] in copies.Values && copies[r] !in T.Used(t');
    }
  }

  /** drb_modify at each of some list positions in turn, with the copies made. */
  ghost function ModifyAll(t: Store, c: U.UeCtx, idxs: seq<nat>): (a: (Store, U.UeCtx, Copies))
    requires T.Valid(t) && U.Pointed(c, |t.rows|) && U.Within(idxs, c.drbCount)
    ensures T.Valid(a.0) && |a.0.rows| == |t.rows| && U.Pointed(a.1, |t.rows|)
    ensures a.1 == c.(drbs := a.1.drbs)
  {
    if idxs == [] then (t, c, map[])
    else
      var (t1, c1, copies) := ModifyAll(t, c, idxs[..|idxs| - 1]);
      var idx := idxs[|idxs| - 1];
      var (t2, c2, ok) := Drb.ModifyDrb(t1, c1, idx);
      (t2, c2, if ok then copies[U.DrbAt(c1, |t.rows|, idx) := U.DrbAt(c2, |t.rows|, idx)] else copies)
  }

  lemma CurrentAllUpdate(copies: Copies, was: seq<nat>, idx: nat, r: nat)
    requires Distinct(was) && idx < |was|
    ensures CurrentAll(copies[was[idx] := r], was) == CurrentAll(copies, was)[idx := r]
  {
    assert CurrentAll(copies[was[idx] := r], was) == CurrentAll(copies, was)[idx := r];
  }

  lemma ModifyOne(t0: Store, t: Store, c: U.UeCtx, copies: Copies, was: seq<nat>, idx: nat)
    requires Staged(t0, t, copies) && AllIndexed(t0, was) && Distinct(was) && idx < |was| && was[idx] !in copies
    requires U.Pointed(c, |t.rows|) && U.DrbRows(c, |t.rows|) == CurrentAll(copies, was)
    ensures var (t', c', ok) := Drb.ModifyDrb(t, c, idx);
            var copies' := if ok then copies[was[idx] := c'.drbs[idx].value] else copies;
            c.drbs[idx].value == was[idx] && Staged(t0, t', copies') && U.DrbRows(c', |t.rows|) == CurrentAll(copies', was)
  {
    var now := U.DrbRows(c, |t.rows|);
    assert c.drbs[idx] == c.drbs[..c.drbCount][idx] == Some(now[idx]) == Some(was[idx]);
    StageRow(t0, t, copies, was[idx]);
    var (t', c', ok) := Drb.ModifyDrb(t, c, idx);
    if ok {
      var r := c'.drbs[idx].value;
      assert c'.drbs[..c.drbCount] == c.drbs[..c.drbCount][idx := Some(r)];
      assert U.DrbRows(c', |t.rows|) == now[idx := r];
      CurrentAllUpdate(copies, was, idx, r);
    }
  }

  /** The rows at some positions of a list. */
  ghost function RowsAt(was: seq<nat>, idxs: seq<nat>): set<nat>
    requires U.Within(idxs, |was|)
  {
    if idxs == [] then {} else RowsAt(was, idxs[..|idxs| - 1]) + {was[idxs[|idxs| - 1]]}
  }

  lemma {:induction false} RowElsewhere(was: seq<nat>, idxs: seq<nat>, idx: nat)
    requires U.Within(idxs, |was|) && Distinct(was) && idx < |was| && idx !in idxs
    ensures was[idx] !in RowsAt(was, idxs)
  {
    if idxs != [] {
      RowElsewhere(was, idxs[..|idxs| - 1], idx);
    }
  }

  lemma {:induction false} RowsAtListed(was: seq<nat>, idxs: seq<nat>)
    requires U.Within(idxs, |was|)
    ensures forall r :: r in RowsAt(was, idxs) ==> r in was
  {
    if idxs != [] {
      RowsAtListed(was, idxs[..|idxs| - 1]);
    }
  }

  lemma StagedStart(t: Store)
    requires TX.Committed(t)
    ensures Staged(t, t, map[])
  {
    var none: Copies := map[];
    assert none.Values == {};
  }

  lemma {:induction false} ModifyAllStages(t: Store, c: U.UeCtx, idxs: seq<nat>)
    requires TX.Committed(t) && U.Pointed(c, |t.rows|) && U.Within(idxs, c.drbCount) && Distinct(idxs)
    requires AllIndexed(t, U.DrbRows(c, |t.rows|)) && Distinct(U.DrbRows(c, |t.rows|))
    ensures var was := U.DrbRows(c, |t.rows|);
            var (t', c', copies) := ModifyAll(t, c, idxs);
            Staged(t, t', copies) && U.DrbRows(c', |t.rows|) == CurrentAll(copies, was) && copies.Keys <= RowsAt(was, idxs)
  {
    hide Staged, Drb.ModifyDrb;
    var was := U.DrbRows(c, |t.rows|);
    if idxs == [] {
      StagedStart(t);
      assert CurrentAll(map[], was) == was;
    } else {
      var init, idx := idxs[..|idxs| - 1], idxs[|idxs| - 1];
      ModifyAllStages(t, c, init);
      var (t1, c1, copies) := ModifyAll(t, c, init);
      RowElsewhere(was, init, idx);
      ModifyOne(t, t1, c1, copies, was, idx);
    }
  }

  /** ue_ctx_modify takes an unused row, under the same id and with the same lists; the old row stays. */
  lemma ModifyTakesRow(u: U.UeStore, id: nat)
    requires U.ValidUes(u) && id in u.index && u.rows[u.index[id]].used && U.Modify(u, id).1.Some?
    ensures var (u1, w) := U.Modify(u, id);
            var c, d := u.rows[u.index[id]], u1.rows[w.value];
            w.value != u.index[id] && !u.rows[w.value].used && u1 == u.(rows := u.rows[w.value := d], slot := w.value) &&
            d.cuupId == id && d.used && d.pdusCount == c.pdusCount && d.drbCount == c.drbCount &&
            d.pdus[..d.pdusCount] == c.pdus[..c.pdusCount] && d.drbs[..d.drbCount] == c.drbs[..c.drbCount]
  {
    SearchIsFirstFit(u.slot, |u.rows|, U.UsedUes(u));
    var w := U.Modify(u, id).1.value;
    assert w !in U.UsedUes(u);
  }

  lemma PointedByPrefixes(c: U.UeCtx, d: U.UeCtx, n: nat)
    requires U.Pointed(c, n) && U.Shaped(d) && d.pdusCount == c.pdusCount && d.drbCount == c.drbCount
    requires d.pdus[..d.pdusCount] == c.pdus[..c.pdusCount] && d.drbs[..d.drbCount] == c.drbs[..c.drbCount]
    ensures U.Pointed(d, n) && U.DrbRows(d, n) == U.DrbRows(c, n) && U.PdusRows(d, n) == U.PdusRows(c, n)
  {}

  /** The id looks up a used row whose lists can be followed, the positions are listed, and a UE row is free. */
  ghost predicate Modifiable(sys: U.System, id: nat, idxs: seq<nat>) {
    U.Valid(sys) && id in sys.u.index && U.Modify(sys.u, id).1.Some? &&
    var c := sys.u.rows[sys.u.index[id]];
    c.used && U.Pointed(c, |sys.t.rows|) && U.Within(idxs, c.drbCount)
  }

  lemma CommittedModifiable(sys: U.System, id: nat, idxs: seq<nat>)
    requires CommittedCtx(sys, id) && U.Modify(sys.u, id).1.Some?
    requires U.Within(idxs, sys.u.rows[sys.u.index[id]].drbCount)
    ensures Modifiable(sys, id, idxs)
  {}

  /** ue_ctx_modify followed by drb_modify at some positions: the state before the commit, the new context's
      row and the copies made. */
  ghost function Modified(sys: U.System, id: nat, idxs: seq<nat>): (a: (U.System, nat, Copies))
    requires Modifiable(sys, id, idxs)
    ensures U.Valid(a.0) && a.1 < |a.0.u.rows| && U.Pointed(a.0.u.rows[a.1], |a.0.t.rows|)
  {
    ModifyTakesRow(sys.u, id);
    var (u1, r) := U.Modify(sys.u, id);
    PointedByPrefixes(sys.u.rows[sys.u.index[id]], u1.rows[r.value], |sys.t.rows|);
    var (t2, c2, copies) := ModifyAll(sys.t, u1.rows[r.value], idxs);
    (U.System(t2, u1.(rows := u1.rows[r.value := c2])), r.value, copies)
  }

  lemma ListedIndexed(t: Store, was: seq<nat>, pdus: seq<nat>)
    requires ListedRows(t, was + pdus)
    ensures AllIndexed(t, was) && AllIndexed(t, pdus)
  {
    assert forall i :: 0 <= i < |was| ==> was[i] == (was + pdus)[i];
    assert forall i :: 0 <= i < |pdus| ==> pdus[i] == (was + pdus)[|was| + i];
  }

  lemma DrbListKept(t: Store, c: U.UeCtx)
    requires T.Valid(t) && U.Pointed(c, |t.rows|)
    requires Lists(U.CommittedSlots(t, U.DrbRows(c, |t.rows|)), U.DrbRows(c, |t.rows|))
    ensures var c' := U.ListsCommitted(t, c);
            c'.drbCount == c.drbCount && Lists(c'.drbs[..c'.drbCount], U.DrbRows(c, |t.rows|))
  {
    hide U.ListsCommitted, U.CommittedSlots, U.NonNull;
    DrbListAfterCommit(t, c);
    NonNullOfPointing(U.CommittedSlots(t, U.DrbRows(c, |t.rows|)));
  }

  lemma ModifiedTunnels(t0: Store, t: Store, c: U.UeCtx, copies: Copies, was: seq<nat>, pdus: seq<nat>, idxs: seq<nat>)
    requires Staged(t0, t, copies) && U.Pointed(c, |t.rows|) && Distinct(was) && AllIndexed(t0, was) && AllIndexed(t0, pdus)
    requires U.DrbRows(c, |t.rows|) == CurrentAll(copies, was) && U.PdusRows(c, |t.rows|) == pdus
    requires U.Within(idxs, |was|) && copies.Keys <= RowsAt(was, idxs)
    ensures var c' := U.ListsCommitted(t, c);
            c'.drbCount == c.drbCount && Lists(c'.drbs[..c'.drbCount], CurrentAll(copies, was)) &&
            (Conserves(t0, copies, U.TunnelsCommitted(t, c)) <==> forall p :: p in pdus ==> p !in copies)
  {
    RowsAtListed(was, idxs);
    TunnelsConservedIff(t0, t, copies, was, pdus);
    CommitCurrent(t0, t, copies, was);
    DrbListKept(t, c);
  }

  lemma ModifiedUes(u0: U.UeStore, u: U.UeStore, id: nat, w: nat, c': U.UeCtx)
    requires U.ValidUes(u0) && U.ValidUes(u) && id in u0.index && u0.rows[u0.index[id]].used
    requires w < |u.rows| == |u0.rows| && w != u0.index[id] && !u0.rows[w].used && u.index == u0.index
    requires forall i :: 0 <= i < |u0.rows| && i != w ==> u.rows[i] == u0.rows[i]
    requires c'.cuupId == id && c'.used && U.Shaped(c')
    ensures var u' := U.CommitIndex(u.(rows := u.rows[w := c']), w);
            u'.rows[w] == c' && |u'.rows| == |u0.rows| && u'.index == u0.index[id := w] &&
            U.UsedUes(u') == U.UsedUes(u0) - {u0.index[id]} + {w} && |U.UsedUes(u')| == |U.UsedUes(u0)| &&
            forall i :: 0 <= i < |u0.rows| && i != u0.index[id] && i != w ==> u'.rows[i] == u0.rows[i]
  {
    var u' := U.CommitIndex(u.(rows := u.rows[w := c']), w);
    assert u'.rows[w] == c';
    assert u0.index[id] in U.UsedUes(u0) && w !in U.UsedUes(u0) - {u0.index[id]};
    assert U.UsedUes(u') == U.UsedUes(u0) - {u0.index[id]} + {w};
  }

  /** Modify, then commit, of a committed context with distinct DRB rows. The DRB list keeps its length and
      order, with the modified rows replaced by their copies; the UE id looks up the new row and the old UE row
      is freed, so as many UE rows are used as before; every other UE row is untouched. The tunnel table is
      conserved - each modified key looks up its copy, each old row is freed, all other keys are left alone and
      as many rows are used as before - if and only if no modified DRB row is also listed as a PDU session. */
  lemma ModifyCommitConserves(sys: U.System, id: nat, idxs: seq<nat>)
    requires CommittedCtx(sys, id) && U.Modify(sys.u, id).1.Some?
    requires var c := sys.u.rows[sys.u.index[id]];
             U.Within(idxs, c.drbCount) && Distinct(idxs) && Distinct(U.DrbRows(c, |sys.t.rows|))
    ensures var r := sys.u.index[id];
            var c := sys.u.rows[r];
            var was, pdus := U.DrbRows(c, |sys.t.rows|), U.PdusRows(c, |sys.t.rows|);
            var (s, w, copies) := Modified(sys, id, idxs);
            var s' := U.Commit(s, w);
            var c' := s'.u.rows[w];
            copies.Keys <= RowsAt(was, idxs) &&
            c'.drbCount == c.drbCount && Lists(c'.drbs[..c'.drbCount], CurrentAll(copies, was)) &&
            w != r && s'.u.index == sys.u.index[id := w] && U.UsedUes(s'.u) == U.UsedUes(sys.u) - {r} + {w} &&
            |U.UsedUes(s'.u)| == |U.UsedUes(sys.u)| &&
            (forall i :: 0 <= i < |sys.u.rows| && i != r && i != w ==> s'.u.rows[i] == sys.u.rows[i]) &&
            (Conserves(sys.t, copies, s'.t) <==> forall p :: p in pdus ==> p !in copies)
  {
    hide Staged, Conserves, Lists, CurrentAll, RowsAt, AllIndexed, Distinct, U.ListsCommitted, U.TunnelsCommitted;
    var c := sys.u.rows[sys.u.index[id]];
    var n := |sys.t.rows|;
    var was, pdus := U.DrbRows(c, n), U.PdusRows(c, n);
    ModifyTakesRow(sys.u, id);
    var (u1, a) := U.Modify(sys.u, id);
    PointedByPrefixes(c, u1.rows[a.value], n);
    ListedIndexed(sys.t, was, pdus);
    ModifyAllStages(sys.t, u1.rows[a.value], idxs);
    var (s, w, copies) := Modified(sys, id, idxs);
    ModifiedTunnels(sys.t, s.t, s.u.rows[w], copies, was, pdus, idxs);
    ModifiedUes(sys.u, s.u, id, w, U.ListsCommitted(s.t, s.u.rows[w]));
  }

  /** Rolling back rows that are in use and indexed under their own keys does nothing. */
  lemma {:induction false} RollbackIndexedNothing(t: Store, rs: seq<nat>)
    requires T.Valid(t) && AllIndexed(t, rs) && forall i :: 0 <= i < |rs| ==> t.rows[rs[i]].used
    ensures U.Within(rs, |t.rows|) && U.RollbackRows(t, rs) == t
  {
    if rs != [] {
      RollbackIndexedNothing(t, rs[..|rs| - 1]);
      var r := rs[|rs| - 1];
      assert t.rows[r := t.rows[r].(used := true)] == t.rows;
    }
  }

  lemma StagedIndexed(t0: Store, t: Store, copies: Copies, rs: seq<nat>)
    requires Staged(t0, t, copies) && AllIndexed(t0, rs)
    ensures T.Valid(t) && |t.rows| == |t0.rows| && AllIndexed(t, rs) && forall i :: 0 <= i < |rs| ==> t.rows[rs[i]].used
  {}

  lemma CopiesTaken(t0: Store, t: Store, copies: Copies)
    requires Staged(t0, t, copies)
    ensures t.index == t0.index && T.Used(t) == T.Used(t0) + copies.Values
    ensures T.Used(t) == T.Used(t0) <==> copies == map[]
  {
    if copies != map[] {
      var r :| r in copies;
      assert copies[r] in copies.Values && copies[r] !in T.Used(t0);
    } else {
      assert copies.Values == {};
    }
  }

  /** Modify, then rollback: only the lists of the committed row are rolled back, and these rows are in use and
      indexed, so the copies stay in use. Everything is given back if and only if no DRB was copied. */
  lemma ModifyUndoneIff(sys: U.System, id: nat, idxs: seq<nat>)
    requires CommittedCtx(sys, id) && U.Modify(sys.u, id).1.Some?
    requires var c := sys.u.rows[sys.u.index[id]];
             U.Within(idxs, c.drbCount) && Distinct(idxs) && Distinct(U.DrbRows(c, |sys.t.rows|))
    ensures var (s, w, copies) := Modified(sys, id, idxs);
            U.Pointed(U.RolledBackCtx(s, w), |s.t.rows|) &&
            var (s', status) := U.Rollback(s, w);
            status == Success && s'.u.index == sys.u.index && U.UsedUes(s'.u) == U.UsedUes(sys.u) &&
            (forall i :: 0 <= i < |sys.u.rows| && i != w ==> s'.u.rows[i] == sys.u.rows[i]) &&
            s'.t.index == sys.t.index && T.Used(s'.t) == T.Used(sys.t) + copies.Values &&
            (T.Used(s'.t) == T.Used(sys.t) <==> copies == map[])
  {
    hide U.RollbackRows, Staged, AllIndexed, Current, CurrentAll, RowsAt, Distinct, LK.Indexed;
    var c := sys.u.rows[sys.u.index[id]];
    var n := |sys.t.rows|;
    var was, pdus := U.DrbRows(c, n), U.PdusRows(c, n);
    ModifyTakesRow(sys.u, id);
    var (u1, a) := U.Modify(sys.u, id);
    PointedByPrefixes(c, u1.rows[a.value], n);
    ListedIndexed(sys.t, was, pdus);
    ModifyAllStages(sys.t, u1.rows[a.value], idxs);
    var (s, w, copies) := Modified(sys, id, idxs);
    StagedIndexed(sys.t, s.t, copies, was);
    StagedIndexed(sys.t, s.t, copies, pdus);
    RollbackIndexedNothing(s.t, pdus);
    RollbackIndexedNothing(s.t, was);
    CopiesTaken(sys.t, s.t, copies);
  }
}
