/** What one transaction on one tunnel achieves: opened by add, modify or remove, it is undone by rollback
    and equals a map insert, update or delete when committed. */
module TunnelTransactions {
  import opened Options
  import opened Circular
  import opened TunnelStore

  /** Every indexed row is used and carries its own key (so no two keys share a row). */
  ghost predicate Committed(s: Store) {
    Valid(s) && forall k :: k in s.index ==> s.rows[s.index[k]].key == k && s.rows[s.index[k]].used
  }

  /** The same used rows with the same contents, and the same index: only cursors and the contents of unused
      rows may differ. */
  ghost predicate SameStore(s: Store, s': Store) {
    s'.index == s.index && |s'.rows| == |s.rows| &&
    forall i :: 0 <= i < |s.rows| ==> s'.rows[i].used == s.rows[i].used && (s.rows[i].used ==> s'.rows[i] == s.rows[i])
  }

  /** The row handed out by an allocation was unused and becomes used under the key; nothing else changes. */
  lemma AllocTakesFreeRow(s: Store, key: Key)
    requires Valid(s)
    ensures var (s', r) := Alloc(s, key);
            s'.index == s.index && s'.lastId == s.lastId &&
            (r.None? <==> AllButCursor(s.slot, |s.rows|, Used(s))) && (r.None? ==> s' == s) &&
            (r.Some? ==> IsFirstFree(r.value, s.slot, |s.rows|, Used(s)) && r.value !in Used(s) &&
                         s'.rows == s.rows[r.value := s.rows[r.value].(key := key, used := true)] &&
                         s'.slot == r.value && Used(s') == Used(s) + {r.value})
  {
    SearchIsFirstFit(s.slot, |s.rows|, Used(s));
  }

  lemma AddRollback(s: Store, key: Key, ip: Ip, teid: nat, kind: Kind, id: nat)
    requires Committed(s) && Add(s, key).1.Some?
    ensures var (s1, r) := Add(s, key);
            var (s2, status) := Rollback(Fill(s1, r.value, ip, teid, kind, id), r.value);
            SameStore(s, s2) && status == Success
  {
    AllocTakesFreeRow(s, key);
  }

  /** A modify hands out a row that holds any contents the caller writes, here those of a copy. */
  lemma ModifyRollback(s: Store, key: Key, ip: Ip, teid: nat, kind: Kind, id: nat)
    requires Committed(s) && Modify(s, key).1.Some?
    ensures var (s1, r) := Modify(s, key);
            var (s2, status) := Rollback(Fill(s1, r.value, ip, teid, kind, id), r.value);
            SameStore(s, s2) && status == Success
  {
    AllocTakesFreeRow(s, key);
  }

  lemma RemoveRollback(s: Store, key: Key)
    requires Committed(s) && key in s.index
    ensures Rollback(Remove(s, key).0, s.index[key]) == (s, Success)
  {
    assert Rollback(Remove(s, key).0, s.index[key]).0.rows == s.rows;
  }

  /** Committing an added tunnel inserts it: its key was not in the view, and nothing else changes there. */
  lemma AddCommitInserts(s: Store, key: Key, ip: Ip, teid: nat, kind: Kind, id: nat)
    requires Committed(s) && Add(s, key).1.Some?
    ensures var (s1, r) := Add(s, key);
            var s2 := Commit(Fill(s1, r.value, ip, teid, kind, id), r.value);
            Committed(s2) && key !in View(s) &&
            View(s2) == View(s)[key := Tunnel(key, ip, teid, kind, id, true)] && Used(s2) == Used(s) + {r.value}
  {
    AllocTakesFreeRow(s, key);
  }

  /** Committing a used row whose key is indexed: the key looks it up, and a different old row is freed. */
  lemma CommitReplaces(s: Store, r: nat)
    requires Valid(s) && r < |s.rows| && s.rows[r].used && s.rows[r].key in s.index
    ensures var key := s.rows[r].key;
            var q, s' := s.index[key], Commit(s, r);
            s' == s.(rows := if q == r then s.rows else s.rows[q := s.rows[q].(used := false)], index := s.index[key := r]) &&
            (q != r ==> Used(s') == Used(s) - {q})
  {
    if s.index[s.rows[r].key] == r {
      assert s.index[s.rows[r].key := r] == s.index;
    }
  }

  lemma SwappedCount(used: set<nat>, out: nat, inn: nat)
    requires out in used && inn !in used
    ensures used + {inn} - {out} == used - {out} + {inn} && |used - {out} + {inn}| == |used|
  {
    assert inn !in used - {out};
  }

  lemma IsUsed(s: Store, r: nat)
    requires r < |s.rows|
    ensures r in Used(s) <==> s.rows[r].used
  {}

  lemma FillKeepsUsed(s: Store, r: nat, ip: Ip, teid: nat, kind: Kind, id: nat)
    requires r < |s.rows|
    ensures Used(Fill(s, r, ip, teid, kind, id)) == Used(s)
  {}

  /** One key of a committed table looks up a new row; the rows of the other keys are as before. */
  lemma KeyUpdated(s: Store, s': Store, key: Key, r: nat)
    requires Committed(s) && Valid(s') && key in s.index && s'.index == s.index[key := r] && r < |s'.rows| == |s.rows|
    requires s'.rows[r].key == key && s'.rows[r].used
    requires forall k :: k in s.index && k != key ==> s'.rows[s.index[k]] == s.rows[s.index[k]]
    ensures Committed(s') && key in View(s) && View(s') == View(s)[key := s'.rows[r]]
  {}

  /** Committing a modified tunnel replaces its contents, frees the old row and takes one new row. */
  lemma ModifyCommitUpdates(s: Store, key: Key, ip: Ip, teid: nat, kind: Kind, id: nat)
    requires Committed(s) && Modify(s, key).1.Some?
    ensures var (s1, r) := Modify(s, key);
            var s2 := Commit(Fill(s1, r.value, ip, teid, kind, id), r.value);
            Committed(s2) && key in View(s) &&
            View(s2) == View(s)[key := Tunnel(key, ip, teid, kind, id, true)] &&
            Used(s2) == Used(s) - {s.index[key]} + {r.value} && r.value !in Used(s) && |Used(s2)| == |Used(s)|
  {
    hide Alloc, Commit, UsedIn, AllButCursor, IsFirstFree, View;
    AllocTakesFreeRow(s, key);
    var (s1, r) := Modify(s, key);
    var f := Fill(s1, r.value, ip, teid, kind, id);
    IsUsed(s, s.index[key]);
    FillKeepsUsed(s1, r.value, ip, teid, kind, id);
    CommitReplaces(f, r.value);
    SwappedCount(Used(s), s.index[key], r.value);
    IsUsed(s, r.value);
    KeyUpdated(s, Commit(f, r.value), key, r.value);
  }

  /** Committing a removed tunnel deletes its key from the view and frees its row. */
  lemma RemoveCommitDeletes(s: Store, key: Key)
    requires Committed(s) && key in s.index
    ensures var s2 := Commit(Remove(s, key).0, s.index[key]);
            Committed(s2) && View(s2) == View(s) - {key} && Used(s2) == Used(s) - {s.index[key]}
  {
    var s1 := Remove(s, key).0;
    assert s1.rows[s.index[key]].key == key;
    assert Commit(s1, s.index[key]).index == s.index - {key};
  }

  /** A rollback fails, changing nothing, exactly for a row of no valid state: free and new, or replaced with one of the
      two rows free. Otherwise a row that is indexed is in use afterwards, and any other is free. */
  lemma RollbackCases(s: Store, r: nat)
    requires Valid(s) && r < |s.rows|
    ensures var (s', status) := Rollback(s, r);
            var key := s.rows[r].key;
            (status == Failed <==>
              if key in s.index then s.index[key] != r && !(s.rows[r].used && s.rows[s.index[key]].used) else !s.rows[r].used) &&
            (status == Failed ==> s' == s) &&
            (status != Failed ==>
              status == Success &&
              s' == s.(rows := s.rows[r := s.rows[r].(used := key in s.index && s.index[key] == r)]))
  {}

  /** A commit deletes a key exactly for a free row that its own key looks up, and it reports a failure exactly if it
      does so and the key's position was not 0. */
  lemma CommitReports(s: Store, r: nat, position: nat)
    requires Valid(s) && r < |s.rows|
    ensures var key := s.rows[r].key;
            var gone := key in s.index && s.index[key] == r && !s.rows[r].used;
            (gone <==> key !in Commit(s, r).index) && (gone <==> !(s.index.Keys <= Commit(s, r).index.Keys)) &&
            CommitStatus(CommitDeletes(s, r), position) == (if gone && position != 0 then Failed else Success)
  {}
}
