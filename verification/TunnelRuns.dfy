/** Whole runs of the tunnel table, over any interleaving of transactions. */
module TunnelRuns {
  import opened Options
  import opened Circular
  import opened TunnelStore
  import opened TunnelTransactions
  import LK = LiveKeys

  /** The table with its open transactions: `handles` are the rows handed out by add or modify and not yet
      committed or rolled back, `removed` the keys removed and not yet committed or rolled back. */
  datatype Session = Session(s: Store, handles: set<nat>, removed: set<Key>)

  datatype Step =
    | DoAdd(key: Key)
    | DoModify(key: Key)
    | DoFill(row: nat, remoteIp: Ip, remoteTeid: nat, kind: Kind, id: nat)
    | DoRemove(key: Key)
    | DoCommit(row: nat)
    | DoRollback(row: nat)

  /** Index and table agree. */
  ghost predicate Agree(x: Session) {
    Valid(x.s) && x.removed <= x.s.index.Keys &&
    (forall k :: k in x.s.index ==> x.s.rows[x.s.index[k]].key == k) &&
    (forall r :: r in x.handles ==> r < |x.s.rows| && x.s.rows[r].used && r !in x.s.index.Values) &&
    (forall r: nat :: r < |x.s.rows| ==>
      (x.s.rows[r].used <==> r in x.handles || (r in x.s.index.Values && x.s.rows[r].key !in x.removed)))
  }

  predicate Reachable(x: Session, r: nat) {
    r < |x.s.rows| && (r in x.handles || r in x.s.index.Values)
  }

  /** Callers write to, commit and roll back rows that they hold open or find indexed. */
  predicate Known(x: Session, step: Step) {
    match step
    case DoFill(r, _, _, _, _) => Reachable(x, r)
    case DoCommit(r) => Reachable(x, r)
    case DoRollback(r) => Reachable(x, r)
    case _ => true
  }

  /** The row of a pending removal is the first free one after the cursor. */
  ghost predicate RemovedNextInLine(x: Session)
    requires Valid(x.s)
  {
    exists k :: k in x.removed && k in x.s.index && IsFirstFree(x.s.index[k], x.s.slot, |x.s.rows|, Used(x.s))
  }

  /** A step that reaches an allocation does not meet that. */
  ghost predicate Safe(x: Session, step: Step)
    requires Valid(x.s)
  {
    match step
    case DoAdd(key) => key in x.s.index || !RemovedNextInLine(x)
    case DoModify(key) => key !in x.s.index || !RemovedNextInLine(x)
    case _ => true
  }

  function Take(x: Session, a: (Store, Option<nat>)): Session {
    Session(a.0, if a.1.Some? then x.handles + {a.1.value} else x.handles, x.removed)
  }

  function Do(x: Session, step: Step): (x': Session)
    requires Valid(x.s) && Known(x, step)
    ensures Valid(x'.s) && |x'.s.rows| == |x.s.rows|
  {
    match step
    case DoAdd(key) => Take(x, Add(x.s, key))
    case DoModify(key) => Take(x, Modify(x.s, key))
    case DoFill(r, ip, teid, kind, id) => x.(s := Fill(x.s, r, ip, teid, kind, id))
    case DoRemove(key) =>
      var (s', status) := Remove(x.s, key);
      Session(s', x.handles, if status == Success then x.removed + {key} else x.removed)
    case DoCommit(r) => Session(Commit(x.s, r), x.handles - {r}, x.removed - {x.s.rows[r].key})
    case DoRollback(r) =>
      var (s', status) := Rollback(x.s, r);
      if status != Success then x.(s := s')
      else if r in x.handles then Session(s', x.handles - {r}, x.removed)
      else Session(s', x.handles, x.removed - {x.s.rows[r].key})
  }

  /** An allocation is handed an indexed row exactly if the row of some pending removal is the first free one. */
  lemma AllocTakesRemovedRowIff(x: Session, key: Key)
    requires Agree(x)
    ensures var r := Alloc(x.s, key).1;
            r.Some? && r.value in x.s.index.Values <==> RemovedNextInLine(x)
  {
    hide Gap;
    var r := Alloc(x.s, key).1;
    SearchIsFirstFit(x.s.slot, |x.s.rows|, Used(x.s));
    if r.Some? && r.value in x.s.index.Values {
      var k :| k in x.s.index && x.s.index[k] == r.value;
      assert k in x.removed;
    }
  }

  lemma TakenAgreesIff(x: Session, key: Key)
    requires Agree(x)
    ensures var a := Alloc(x.s, key);
            Agree(Take(x, a)) <==> (a.1.Some? ==> a.1.value !in x.s.index.Values)
  {
    AllocTakesFreeRow(x.s, key);
    var (s', r) := Alloc(x.s, key);
    if r.Some? && r.value !in x.s.index.Values {
      forall k | k in s'.index
        ensures s'.rows[s'.index[k]].key == k
      {
        assert x.s.index[k] in x.s.index.Values;
      }
    }
  }

  lemma AgreeValid(x: Session)
    requires Agree(x)
    ensures Valid(x.s)
  {}

  /** An allocation keeps index and table in agreement if and only if no pending removal has freed the row that is
      next in line. */
  lemma AllocKeepsAgreement(x: Session, key: Key)
    requires Agree(x)
    ensures Agree(Take(x, Alloc(x.s, key))) <==> !RemovedNextInLine(x)
  {
    hide Agree, Take, Alloc, RemovedNextInLine;
    assert Valid(x.s) by { AgreeValid(x); }
    AllocTakesRemovedRowIff(x, key);
    TakenAgreesIff(x, key);
  }

  lemma RemoveKeepsAgreement(x: Session, key: Key)
    requires Agree(x)
    ensures Agree(Do(x, DoRemove(key)))
  {
    if key in x.s.index {
      assert x.s.index[key] in x.s.index.Values;
    }
  }

  /** Which rows are indexed once key looks up r, a row that was not indexed. */
  lemma IndexPut(index: map<Key, nat>, key: Key, r: nat)
    requires r !in index.Values && forall k, l :: k in index && l in index && k != l ==> index[k] != index[l]
    ensures index[key := r].Values == (if key in index then index.Values - {index[key]} else index.Values) + {r}
  {
    var index' := index[key := r];
    assert index'[key] == r;
    forall i | i in index.Values && !(key in index && i == index[key])
      ensures i in index'.Values
    {
      var k :| k in index && index[k] == i;
      assert index'[k] == i;
    }
  }

  lemma IndexDropped(index: map<Key, nat>, key: Key)
    requires key in index && forall k, l :: k in index && l in index && k != l ==> index[k] != index[l]
    ensures (index - {key}).Values == index.Values - {index[key]}
  {
    forall i | i in index.Values && i != index[key]
      ensures i in (index - {key}).Values
    {
      var k :| k in index && index[k] == i;
      assert (index - {key})[k] == i;
    }
  }

  lemma CommitNewAgrees(x: Session, r: nat)
    requires Agree(x) && r in x.handles && x.s.rows[r].key !in x.s.index
    ensures Agree(Do(x, DoCommit(r)))
  {
    IndexPut(x.s.index, x.s.rows[r].key, r);
  }

  lemma CommitSameAgrees(x: Session, r: nat)
    requires Agree(x) && r < |x.s.rows| && r in x.s.index.Values
    ensures Agree(Do(x, DoCommit(r)))
  {
    var key := x.s.rows[r].key;
    if !x.s.rows[r].used {
      IndexDropped(x.s.index, key);
    }
  }

  lemma CommitReplacingAgrees(x: Session, r: nat)
    requires Agree(x) && r in x.handles && x.s.rows[r].key in x.s.index
    ensures Agree(Do(x, DoCommit(r)))
  {
    var key := x.s.rows[r].key;
    assert x.s.index[key] in x.s.index.Values;
    IndexPut(x.s.index, key, r);
  }

  lemma CommitKeepsAgreement(x: Session, r: nat)
    requires Agree(x) && Reachable(x, r)
    ensures Agree(Do(x, DoCommit(r)))
  {
    hide Do;
    if r in x.s.index.Values {
      CommitSameAgrees(x, r);
    } else if x.s.rows[r].key in x.s.index {
      CommitReplacingAgrees(x, r);
    } else {
      CommitNewAgrees(x, r);
    }
  }

  lemma RollbackKeepsAgreement(x: Session, r: nat)
    requires Agree(x) && Reachable(x, r)
    ensures Agree(Do(x, DoRollback(r)))
  {
    var key := x.s.rows[r].key;
    if key in x.s.index {
      assert x.s.index[key] in x.s.index.Values;
    }
  }

  /** A step keeps index and table in agreement if and only if it is safe. */
  lemma StepAgreesIff(x: Session, step: Step)
    requires Agree(x) && Known(x, step)
    ensures Agree(Do(x, step)) <==> Safe(x, step)
  {
    match step
    case DoAdd(key) => AllocKeepsAgreement(x, key);
    case DoModify(key) => AllocKeepsAgreement(x, key);
    case DoFill(_, _, _, _, _) =>
    case DoRemove(key) => RemoveKeepsAgreement(x, key);
    case DoCommit(r) => CommitKeepsAgreement(x, r);
    case DoRollback(r) => RollbackKeepsAgreement(x, r);
  }

  predicate KnownRun(x: Session, steps: seq<Step>)
    requires Valid(x.s)
    decreases |steps|
  {
    steps == [] || (Known(x, steps[0]) && KnownRun(Do(x, steps[0]), steps[1..]))
  }

  function Run(x: Session, steps: seq<Step>): (x': Session)
    requires Valid(x.s) && KnownRun(x, steps)
    ensures |x'.s.rows| == |x.s.rows|
    decreases |steps|
  {
    if steps == [] then x else Run(Do(x, steps[0]), steps[1..])
  }

  /** Index and table agree before the run, after it and at every step in between. */
  ghost predicate AgreesAllAlong(x: Session, steps: seq<Step>)
    requires Valid(x.s) && KnownRun(x, steps)
    decreases |steps|
  {
    Agree(x) && (steps == [] || AgreesAllAlong(Do(x, steps[0]), steps[1..]))
  }

  ghost predicate SafeRun(x: Session, steps: seq<Step>)
    requires Valid(x.s) && KnownRun(x, steps)
    decreases |steps|
  {
    steps == [] || (Safe(x, steps[0]) && SafeRun(Do(x, steps[0]), steps[1..]))
  }

  lemma {:induction false} RunAgreesIff(x: Session, steps: seq<Step>)
    requires Agree(x) && KnownRun(x, steps)
    ensures AgreesAllAlong(x, steps) <==> SafeRun(x, steps)
    ensures SafeRun(x, steps) ==> Agree(Run(x, steps))
    decreases |steps|
  {
    hide Agree, Safe, Do, Known;
    AgreeValid(x);
    if steps != [] {
      StepAgreesIff(x, steps[0]);
      if Safe(x, steps[0]) {
        RunAgreesIff(Do(x, steps[0]), steps[1..]);
      }
    }
  }

  lemma {:induction false} IndexedRowsCount(index: map<Key, nat>, keys: set<Key>, rows: seq<Tunnel>)
    requires keys <= index.Keys
    requires forall k :: k in keys ==> index[k] < |rows| && rows[index[k]].key == k
    ensures |set k | k in keys :: index[k]| == |keys|
  {
    if keys != {} {
      var k :| k in keys;
      var rest := keys - {k};
      IndexedRowsCount(index, rest, rows);
      assert (set j | j in keys :: index[j]) == (set j | j in rest :: index[j]) + {index[k]};
      assert index[k] !in (set j | j in rest :: index[j]);
    }
  }

  lemma LiveRowsAndHandles(x: Session)
    requires Agree(x)
    ensures var live := set k | k in x.s.index.Keys - x.removed :: x.s.index[k];
            Used(x.s) == live + x.handles && live !! x.handles
  {
    var live := set k | k in x.s.index.Keys - x.removed :: x.s.index[k];
    forall r: nat | r < |x.s.rows|
      ensures r in live <==> r in x.s.index.Values && x.s.rows[r].key !in x.removed
    {
      if r in x.s.index.Values && x.s.rows[r].key !in x.removed {
        assert x.s.rows[r].key in x.s.index.Keys - x.removed;
      }
    }
  }

  /** Conservation: used rows = indexed keys - pending removals + open handles. */
  lemma UsedRowsAccounted(x: Session)
    requires Agree(x)
    ensures |Used(x.s)| == |x.s.index| - |x.removed| + |x.handles|
  {
    LiveRowsAndHandles(x);
    IndexedRowsCount(x.s.index, x.s.index.Keys - x.removed, x.s.rows);
    assert |x.s.index.Keys - x.removed| == |x.s.index.Keys| - |x.removed|;
  }

  /** No more keys are indexed than the table has rows, which is the capacity the hash is created with. */
  lemma IndexFitsHash(x: Session)
    requires Agree(x)
    ensures |x.s.index| <= |x.s.rows|
  {
    IndexedRowsCount(x.s.index, x.s.index.Keys, x.s.rows);
    var indexed := set k | k in x.s.index.Keys :: x.s.index[k];
    var all := LK.Below(|x.s.rows|);
    assert indexed <= all;
    assert |all - indexed| == |all| - |indexed|;
  }

  lemma InitialAgrees(s: Store)
    requires Valid(s) && s.index == map[] && Used(s) == {}
    ensures Agree(Session(s, {}, {}))
  {
    assert forall r: nat :: r < |s.rows| && s.rows[r].used ==> r in Used(s);
  }

  ghost predicate SoundlyIndexed(x: Session) {
    (forall k :: k in x.s.index ==> x.s.index[k] < |x.s.rows| && x.s.rows[x.s.index[k]].key == k) &&
    (forall k, l :: k in x.s.index && l in x.s.index && k != l ==> x.s.index[k] != x.s.index[l]) &&
    |Used(x.s)| == |x.s.index| - |x.removed| + |x.handles| && |x.s.index| <= |x.s.rows|
  }

  lemma AgreeSoundlyIndexed(x: Session)
    requires Agree(x)
    ensures SoundlyIndexed(x)
  {
    UsedRowsAccounted(x);
    IndexFitsHash(x);
  }

  /** Over a run from an initialised table index and table agree all along if and only if no allocation takes the
      row of a pending removal. At its end then each indexed key maps to a row holding that key, no two keys share a
      row, and the used rows are exactly accounted for. */
  lemma IndexAndTableAgree(s: Store, steps: seq<Step>)
    requires Valid(s) && s.index == map[] && Used(s) == {}
    requires KnownRun(Session(s, {}, {}), steps)
    ensures var x0 := Session(s, {}, {});
            (AgreesAllAlong(x0, steps) <==> SafeRun(x0, steps)) &&
            (SafeRun(x0, steps) ==> SoundlyIndexed(Run(x0, steps)))
  {
    var x0 := Session(s, {}, {});
    InitialAgrees(s);
    RunAgreesIff(x0, steps);
    if SafeRun(x0, steps) {
      AgreeSoundlyIndexed(Run(x0, steps));
    }
  }

  /** An unsafe step does show, in every table where the row freed by a removal is next in line: removing key k,
      adding a key l and committing it give both keys the same row. */
  lemma AllocationDuringRemovalBreaksAgreement(s: Store, handles: set<nat>, k: Key, l: Key)
    requires Agree(Session(s, handles, {})) && k in s.index && l !in s.index
    requires IsFirstFree(s.index[k], s.slot, |s.rows|, Used(s) - {s.index[k]})
    ensures var (s1, r) := Add(Remove(s, k).0, l);
            r == Some(s.index[k]) &&
            var s2 := Commit(s1, s.index[k]);
            k in s2.index && l in s2.index && s2.index[k] == s2.index[l] == s.index[k] && s2.rows[s.index[k]].key == l
  {
    var s0 := Remove(s, k).0;
    assert Used(s0) == Used(s) - {s.index[k]};
    SearchIsFirstFit(s0.slot, |s0.rows|, Used(s0));
  }

  /** Such a table: in one with at least two rows and nothing used but a committed row just after the cursor. */
  lemma RemovedRowNextInLine(n: nat, k: Key)
    requires 1 < n
    ensures var blank := Tunnel(k, 0, 0, PdusTunnel, 0, false);
            var s := Store(seq(n, i => blank)[1 := blank.(used := true)], map[k := 1], 0, 0);
            Agree(Session(s, {}, {})) && IsFirstFree(s.index[k], s.slot, |s.rows|, Used(s) - {s.index[k]})
  {
    var blank := Tunnel(k, 0, 0, PdusTunnel, 0, false);
    var s := Store(seq(n, i => blank)[1 := blank.(used := true)], map[k := 1], 0, 0);
    assert s.index[k] in s.index.Values;
  }
}
