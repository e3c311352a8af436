/** Which ids and rows UE contexts get. */
module UeIds {
  import opened Options
  import opened Circular
  import T = TunnelStore
  import U = UeStore
  import opened Pdus
  import Bearer

  /** The first id after the cursor that is not indexed. */
  ghost predicate IsNextUeId(u: U.UeStore, id: nat)
    requires U.ValidUes(u)
  {
    id < |u.rows| && id != u.lastId && id !in u.index &&
    forall j: nat :: j < |u.rows| && 0 < Gap(u.lastId, j, |u.rows|) < Gap(u.lastId, id, |u.rows|) ==> j in u.index
  }

  /** The first row after the cursor that is not in use. */
  ghost predicate IsNextUeRow(u: U.UeStore, r: nat)
    requires U.ValidUes(u)
  {
    r < |u.rows| && r != u.slot && !u.rows[r].used &&
    forall q: nat :: q < |u.rows| && 0 < Gap(u.slot, q, |u.rows|) < Gap(u.slot, r, |u.rows|) ==> u.rows[q].used
  }

  ghost predicate NoUeIdLeft(u: U.UeStore) {
    forall id: nat :: id < |u.rows| && id != u.lastId ==> id in u.index
  }

  ghost predicate NoUeRowLeft(u: U.UeStore) {
    forall r: nat :: r < |u.rows| && r != u.slot ==> u.rows[r].used
  }

  /** The next id is handed out and the cursor moves there; there is none if and only if every id but the cursor's is
      indexed. */
  lemma IdAllocTakesNextId(u: U.UeStore)
    requires U.ValidUes(u)
    ensures var (u', id) := U.IdAlloc(u);
            match id
            case None => NoUeIdLeft(u) && u' == u
            case Some(i) => !NoUeIdLeft(u) && IsNextUeId(u, i) && u' == u.(lastId := i)
  {
    var taken := U.IdsTaken(u.index, |u.rows|);
    SearchIsFirstFit(u.lastId, |u.rows|, taken);
    if U.IdAlloc(u).1.None? {
      forall id: nat | id < |u.rows| && id != u.lastId
        ensures id in u.index
      {
        assert id in taken;
      }
    }
  }

  /** The next row is taken under the id, with its old lists and counts; there is none if and only if every row but the
      cursor's is in use. */
  lemma AllocTakesNextRow(u: U.UeStore, id: nat)
    requires U.ValidUes(u)
    ensures var (u', r) := U.Alloc(u, id);
            match r
            case None => NoUeRowLeft(u) && u' == u
            case Some(q) =>
              !NoUeRowLeft(u) && IsNextUeRow(u, q) &&
              u' == u.(rows := u.rows[q := u.rows[q].(cuupId := id, used := true)], slot := q)
  {
    SearchIsFirstFit(u.slot, |u.rows|, U.UsedUes(u));
    if U.Alloc(u, id).1.None? {
      forall r: nat | r < |u.rows| && r != u.slot
        ensures u.rows[r].used
      {
        assert r in U.UsedUes(u);
      }
    }
  }

  /** A UE gets a context if and only if an id and a row are left: the next row, under the next id, with empty lists.
      Otherwise nothing moves but the id cursor, and that only if no row is left. */
  lemma OpenUeTakesNext(u: U.UeStore, cucpId: nat)
    requires U.ValidUes(u)
    ensures var (u', r) := Bearer.OpenUe(u, cucpId);
            match r
            case None => (NoUeIdLeft(u) || NoUeRowLeft(u)) && (u' == u || (NoUeRowLeft(u) && u' == u.(lastId := u'.lastId)))
            case Some(q) =>
              !NoUeIdLeft(u) && !NoUeRowLeft(u) && IsNextUeRow(u, q) &&
              var id := u'.rows[q].cuupId;
              IsNextUeId(u, id) &&
              u' == U.UeStore(u.rows[q := u.rows[q].(cuupId := id, cucpId := cucpId, used := true, pdusCount := 0, drbCount := 0)],
                              u.index, q, id)
  {
    hide U.IdAlloc, U.Alloc, NoUeIdLeft;
    IdAllocTakesNextId(u);
    var (u1, id) := U.IdAlloc(u);
    if id.Some? {
      AllocTakesNextRow(u1, id.value);
      var u2 := Bearer.OpenUe(u, cucpId).0;
      assert forall r: nat :: IsNextUeRow(u1, r) <==> IsNextUeRow(u, r);
      assert NoUeRowLeft(u1) <==> NoUeRowLeft(u);
    }
  }

  /** Commits and removals leave the cursors alone. */
  lemma ConcludedKeepsCursors(sys: U.System, r: nat)
    requires U.Valid(sys) && r < |sys.u.rows| && U.Pointed(sys.u.rows[r], |sys.t.rows|)
    ensures U.Commit(sys, r).u.lastId == sys.u.lastId && U.Commit(sys, r).u.slot == sys.u.slot
  {}

  /** A setup that gets a context leaves the id cursor on the id handed out. */
  lemma SetupMovesCursor(net: T.Net, sys: U.System, cucpId: nat, reqs: seq<PdusReq>)
    requires U.Valid(sys) && Bearer.AfterRequests(net, sys, cucpId, reqs).1.Some?
    ensures var (s1, r, _) := Bearer.AfterRequests(net, sys, cucpId, reqs);
            var id := s1.u.rows[r.value].cuupId;
            IsNextUeId(sys.u, id) && IsNextUeRow(sys.u, r.value) &&
            Bearer.SetupBearer(net, sys, cucpId, reqs).u.lastId == id
  {
    hide U.Commit, Bearer.OpenUe, Bearer.SetupAll;
    OpenUeTakesNext(sys.u, cucpId);
    var (s1, r, _) := Bearer.AfterRequests(net, sys, cucpId, reqs);
    ConcludedKeepsCursors(s1, r.value);
  }

  lemma RemovedStaysPointed(sys: U.System, id: nat)
    requires U.Valid(sys) && id in sys.u.index && U.Pointed(sys.u.rows[sys.u.index[id]], |sys.t.rows|)
    ensures var s1 := U.Remove(sys, id).0;
            U.Valid(s1) && sys.u.index[id] < |s1.u.rows| && s1.u.lastId == sys.u.lastId &&
            U.Pointed(s1.u.rows[sys.u.index[id]], |s1.t.rows|)
  {}

  /** So the id of a UE that is set up and released again is not the one that the next UE gets. */
  lemma ReleasedIdNotReused(net: T.Net, sys: U.System, cucpId: nat, reqs: seq<PdusReq>, other: nat)
    requires U.Valid(sys) && Bearer.AfterRequests(net, sys, cucpId, reqs).1.Some?
    requires var (s1, r, _) := Bearer.AfterRequests(net, sys, cucpId, reqs);
             var id, s2 := s1.u.rows[r.value].cuupId, Bearer.SetupBearer(net, sys, cucpId, reqs);
             id in s2.u.index && U.Pointed(s2.u.rows[s2.u.index[id]], |s2.t.rows|)
    ensures var (s1, r, _) := Bearer.AfterRequests(net, sys, cucpId, reqs);
            var id, s2 := s1.u.rows[r.value].cuupId, Bearer.SetupBearer(net, sys, cucpId, reqs);
            var s3 := Bearer.ReleaseUe(s2, id);
            U.ValidUes(s3.u) && s3.u.lastId == id &&
            var (u4, q) := Bearer.OpenUe(s3.u, other);
            q.Some? ==> u4.rows[q.value].cuupId != id
  {
    hide U.Commit, U.Pointed, Bearer.OpenUe, Bearer.AfterRequests, Bearer.SetupBearer, U.RemoveRows;
    SetupMovesCursor(net, sys, cucpId, reqs);
    var (s1, r, _) := Bearer.AfterRequests(net, sys, cucpId, reqs);
    var id, s2 := s1.u.rows[r.value].cuupId, Bearer.SetupBearer(net, sys, cucpId, reqs);
    RemovedStaysPointed(s2, id);
    ConcludedKeepsCursors(U.Remove(s2, id).0, s2.u.index[id]);
    OpenUeTakesNext(Bearer.ReleaseUe(s2, id).u, other);
  }

  /** An indexed id is refused a further row by an add, and a new one by a modification. */
  lemma RowsRefused(u: U.UeStore, id: nat)
    requires U.ValidUes(u)
    ensures id in u.index ==> U.Add(u, id) == (u, None)
    ensures id !in u.index ==> U.Modify(u, id) == (u, None)
    ensures NoUeRowLeft(u) ==> U.Add(u, id) == U.Modify(u, id) == (u, None)
  {
    AllocTakesNextRow(u, id);
  }

  lemma NextUeRowUnique(u: U.UeStore)
    requires U.ValidUes(u)
    ensures forall r: nat, q: nat :: IsNextUeRow(u, r) && IsNextUeRow(u, q) ==> r == q
  {
    forall r: nat, q: nat | IsNextUeRow(u, r) && IsNextUeRow(u, q)
      ensures r == q
    {
      assert Gap(u.slot, r, |u.rows|) == Gap(u.slot, q, |u.rows|);
    }
  }

  /** A removed context that is modified before its removal is committed can be handed its own row, and is left with
      empty lists: the copy loops count in the row they read. */
  lemma ModifiedOntoItself(u: U.UeStore, id: nat)
    requires U.ValidUes(u) && id in u.index
    ensures var (u', r) := U.Modify(u, id);
            var c := u.rows[u.index[id]];
            (r == Some(u.index[id]) <==> IsNextUeRow(u, u.index[id])) &&
            (r == Some(u.index[id]) ==>
              u' == u.(rows := u.rows[u.index[id] := c.(cuupId := id, used := true, pdusCount := 0, drbCount := 0)],
                       slot := u.index[id]))
  {
    AllocTakesNextRow(u, id);
    SearchIsFirstFit(u.slot, |u.rows|, U.UsedUes(u));
    NextUeRowUnique(u);
  }

  /** A removal reports an unknown id. A rollback of a context fails, changing nothing, exactly for one in no valid
      state: free and new, or replaced with one of the two rows free. A committed context in use is left alone. */
  lemma StatusCases(sys: U.System, id: nat, r: nat)
    requires U.Valid(sys) && r < |sys.u.rows|
    requires id in sys.u.index ==> U.Pointed(sys.u.rows[sys.u.index[id]], |sys.t.rows|)
    requires U.RollbackActs(sys, r) ==> U.Pointed(U.RolledBackCtx(sys, r), |sys.t.rows|)
    ensures U.Remove(sys, id).1 == (if id in sys.u.index then T.Success else T.NotFound)
    ensures id !in sys.u.index ==> U.Remove(sys, id).0 == sys
    ensures var (s', status) := U.Rollback(sys, r);
            var own := sys.u.rows[r].cuupId;
            (status == T.Failed <==>
              if own in sys.u.index then
                sys.u.index[own] != r && !(sys.u.rows[r].used && sys.u.rows[sys.u.index[own]].used)
              else !sys.u.rows[r].used) &&
            (status != T.Failed ==> status == T.Success) && (status == T.Failed ==> s' == sys) &&
            (own in sys.u.index && sys.u.index[own] == r && sys.u.rows[r].used ==> s' == sys) &&
            s'.u == sys.u.(rows := s'.u.rows) &&
            (status == T.Success ==>
              s'.u.rows == sys.u.rows[r := sys.u.rows[r].(used := own in sys.u.index && sys.u.index[own] == r)])
  {
    hide U.RollbackRows, U.RemoveRows;
  }

  /** A commit deletes an id exactly for a free row that its own id looks up, and it reports a failure exactly if it
      does so and the id's position was not 0. */
  lemma CommitReports(u: U.UeStore, r: nat, position: nat)
    requires U.ValidUes(u) && r < |u.rows|
    ensures var id := u.rows[r].cuupId;
            var gone := id in u.index && u.index[id] == r && !u.rows[r].used;
            (gone <==> id !in U.CommitIndex(u, r).index) &&
            T.CommitStatus(U.CommitDeletes(u, r), position) == (if gone && position != 0 then T.Failed else T.Success)
  {}
}
