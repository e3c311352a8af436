/** Why live keys are unique. */
module LiveKeys {
  import opened Options
  import opened Circular
  import opened TunnelStore
  import opened TunnelTransactions

  ghost predicate Indexed(s: Store, r: nat)
    requires r < |s.rows|
  {
    s.rows[r].key in s.index && s.index[s.rows[r].key] == r
  }

  /** Every indexed row is used and carries its own key, and every used row is indexed. */
  ghost predicate Settled(s: Store) {
    Committed(s) && forall r: nat :: r < |s.rows| && s.rows[r].used ==> Indexed(s, r)
  }

  ghost predicate KeysDistinct(s: Store) {
    forall r: nat, q: nat ::
      r < |s.rows| && q < |s.rows| && r != q && s.rows[r].used && s.rows[q].used ==> s.rows[r].key != s.rows[q].key
  }

  /** The id is the TEID of some used row. */
  ghost predicate InUse(s: Store, id: nat) {
    exists r: nat :: r < |s.rows| && s.rows[r].used && s.rows[r].key.teid == id
  }

  /** All ids from an uncommitted row's own up to the cursor are in use. */
  ghost predicate Swept(s: Store)
    requires Valid(s)
  {
    forall r: nat, id: nat |
      r < |s.rows| && s.rows[r].used && !Indexed(s, r) && id < |s.rows| && s.rows[r].key.teid < |s.rows| &&
      Gap(s.rows[r].key.teid, id, |s.rows|) <= Gap(s.rows[r].key.teid, s.lastId, |s.rows|) :: InUse(s, id)
  }

  /** No allocation can succeed any more. */
  ghost predicate Full(s: Store)
    requires Valid(s)
  {
    AllButCursor(s.slot, |s.rows|, Used(s))
  }

  /** The invariant of any mix of openings and commits of opened rows. Although tunnel_key_alloc only looks at committed
      keys and one id cursor serves all local addresses, keys stay unique: before the cursor can come round to the id of
      an uncommitted row, it has passed an id in use by some row N times over, so all N rows are used and the add
      fails. */
  ghost predicate Live(s: Store) {
    Committed(s) && KeysDistinct(s) &&
    (forall r: nat :: r < |s.rows| && s.rows[r].used && !Indexed(s, r) ==> s.rows[r].key.teid < |s.rows|) &&
    (Full(s) || Swept(s))
  }

  lemma SettledIsLive(s: Store)
    requires Settled(s)
    ensures Live(s)
  {}

  ghost function RowOf(s: Store, id: nat): (r: nat)
    requires InUse(s, id)
    ensures r < |s.rows| && s.rows[r].used && s.rows[r].key.teid == id
  {
    var r: nat :| r < |s.rows| && s.rows[r].used && s.rows[r].key.teid == id;
    r
  }

  /** The rows of the first n ids. */
  ghost function RowsOfIds(s: Store, n: nat): set<nat>
    requires forall id: nat :: id < n ==> InUse(s, id)
  {
    if n == 0 then {} else RowsOfIds(s, n - 1) + {RowOf(s, n - 1)}
  }

  /** The pigeonhole: distinct ids in use sit in distinct used rows. */
  lemma {:induction false} IdsNeedRows(s: Store, n: nat)
    requires forall id: nat :: id < n ==> InUse(s, id)
    ensures |RowsOfIds(s, n)| == n
    ensures forall r :: r in RowsOfIds(s, n) ==> r < |s.rows| && s.rows[r].used && s.rows[r].key.teid < n
  {
    hide InUse, RowOf;
    if n > 0 {
      IdsNeedRows(s, n - 1);
    }
  }

  ghost function Below(n: nat): (b: set<nat>)
    ensures |b| == n && forall i: nat :: i in b <==> i < n
  {
    if n == 0 then {} else Below(n - 1) + {n - 1}
  }

  lemma SubsetOfSameSize<T>(a: set<T>, b: set<T>)
    requires a <= b && |a| == |b|
    ensures a == b
  {
    assert |b - a| == |b| - |a|;
  }

  /** When all N ids are in use all N rows are used. */
  lemma AllIdsFillTable(s: Store)
    requires Valid(s) && forall id: nat :: id < |s.rows| ==> InUse(s, id)
    ensures Full(s) && forall i: nat :: i < |s.rows| ==> s.rows[i].used
  {
    var n := |s.rows|;
    var image := RowsOfIds(s, n);
    IdsNeedRows(s, n);
    SubsetOfSameSize(image, Below(n));
    forall i: nat | i < n
      ensures i in Used(s) && s.rows[i].used
    {
      assert i in image;
    }
  }

  /** What a successful key allocation tells about the ids it passed: each is in use. */
  lemma PassedIdsInUse(s: Store, net: Net, remote: Ip, kind: Kind)
    requires Committed(s) && KeyAlloc(s, net, remote, kind).1.Some?
    ensures var (s1, key) := KeyAlloc(s, net, remote, kind);
            s1 == s.(lastId := key.value.teid) && key.value !in s.index && key.value.teid != s.lastId &&
            forall id: nat :: id < |s.rows| && 0 < Gap(s.lastId, id, |s.rows|) < Gap(s.lastId, key.value.teid, |s.rows|) ==>
              InUse(s, id)
  {
    var ip := LocalIp(net, remote, kind).value;
    var n := |s.rows|;
    SearchIsFirstFit(s.lastId, n, IdsTaken(s.index, ip, n));
    var key := KeyAlloc(s, net, remote, kind).1.value;
    forall id: nat | id < n && 0 < Gap(s.lastId, id, n) < Gap(s.lastId, key.teid, n)
      ensures InUse(s, id)
    {
      assert id in IdsTaken(s.index, ip, n);
      assert s.rows[s.index[Key(ip, id)]].key.teid == id;
    }
  }

  /** A cursor move that reaches an uncommitted row's id again has swept every id. */
  lemma LapFillsTable(s: Store, r: nat, id: nat)
    requires Committed(s) && Swept(s) && id < |s.rows| && id != s.lastId
    requires r < |s.rows| && s.rows[r].used && !Indexed(s, r) && s.rows[r].key.teid < |s.rows|
    requires forall j: nat :: j < |s.rows| && 0 < Gap(s.lastId, j, |s.rows|) < Gap(s.lastId, id, |s.rows|) ==> InUse(s, j)
    requires Gap(s.rows[r].key.teid, s.lastId, |s.rows|) + Gap(s.lastId, id, |s.rows|) >= |s.rows|
    ensures Full(s)
  {
    var n, p := |s.rows|, s.rows[r].key.teid;
    forall j: nat | j < n
      ensures InUse(s, j)
    {
      if Gap(p, j, n) > Gap(p, s.lastId, n) {
        assert 0 < Gap(s.lastId, j, n) < Gap(s.lastId, id, n);
      }
    }
    AllIdsFillTable(s);
  }

  /** What one opening does: it takes at most one row, unused so far, under a key that is new among the used
      rows and not indexed, with the local address of the request; everything else stays. */
  ghost predicate Opened(s: Store, net: Net, remote: Ip, kind: Kind)
    requires Valid(s)
  {
    var (s', r) := Open(s, net, remote, kind);
    s'.index == s.index && |s'.rows| == |s.rows| && s'.lastId < |s.rows| && s'.slot < |s.rows| &&
    match r
    case None => s'.rows == s.rows
    case Some(r) =>
      r < |s.rows| && !s.rows[r].used && Used(s') == Used(s) + {r} &&
      var key := s'.rows[r].key;
      s'.rows == s.rows[r := s.rows[r].(key := key, used := true)] &&
      LocalIp(net, remote, kind) == Some(key.ip) && key.teid < |s.rows| && key !in s.index &&
      forall q: nat :: q < |s.rows| && s.rows[q].used ==> s.rows[q].key != key
  }

  lemma RefusedStaysLive(s: Store, s': Store)
    requires Live(s) && Valid(s') && Full(s') && s' == s.(lastId := s'.lastId)
    ensures Live(s')
  {
    assert forall q: nat :: q < |s.rows| ==> (Indexed(s', q) <==> Indexed(s, q));
  }

  lemma OpenedStaysLive(s: Store, s': Store, r: nat)
    requires Live(s) && Valid(s') && Swept(s') && r < |s.rows| && !s.rows[r].used && s'.index == s.index && r < |s'.rows|
    requires s'.rows == s.rows[r := s.rows[r].(key := s'.rows[r].key, used := true)]
    requires s'.rows[r].key.teid < |s.rows|
    requires forall q: nat :: q < |s.rows| && s.rows[q].used ==> s.rows[q].key != s'.rows[r].key
    ensures Live(s')
  {
    forall q: nat | q < |s.rows| && s'.rows[q].used && !Indexed(s', q)
      ensures s'.rows[q].key.teid < |s.rows|
    {
      if q != r {
        assert !Indexed(s, q);
      }
    }
  }

  lemma OpenedKeyIsNew(s: Store, key: Key)
    requires Live(s) && !Full(s) && key !in s.index && key.teid < |s.rows| && key.teid != s.lastId
    requires forall j: nat :: j < |s.rows| && 0 < Gap(s.lastId, j, |s.rows|) < Gap(s.lastId, key.teid, |s.rows|) ==> InUse(s, j)
    ensures forall q: nat :: q < |s.rows| && s.rows[q].used ==> s.rows[q].key != key
  {
    forall q: nat | q < |s.rows| && s.rows[q].used
      ensures s.rows[q].key != key
    {
      if s.rows[q].key == key {
        LapFillsTable(s, q, key.teid);
      }
    }
  }

  lemma StaysInUse(s: Store, s': Store, added: nat, id: nat)
    requires added < |s.rows| == |s'.rows| && !s.rows[added].used && s'.rows == s.rows[added := s'.rows[added]]
    requires s'.rows[added].used && (InUse(s, id) || s'.rows[added].key.teid == id)
    ensures InUse(s', id)
  {
    if InUse(s, id) {
      assert s'.rows[RowOf(s, id)] == s.rows[RowOf(s, id)];
    }
  }

  /** From an uncommitted row's id up to the moved cursor every id is in use. */
  lemma SweptFurther(s: Store, s': Store, added: nat, r: nat, id: nat)
    requires Live(s) && !Full(s) && added < |s.rows| == |s'.rows| && !s.rows[added].used && s'.index == s.index
    requires s'.rows == s.rows[added := s'.rows[added]] && s'.rows[added].used && s'.rows[added].key.teid == s'.lastId
    requires s'.lastId < |s.rows| && s'.lastId != s.lastId
    requires forall j: nat :: j < |s.rows| && 0 < Gap(s.lastId, j, |s.rows|) < Gap(s.lastId, s'.lastId, |s.rows|) ==> InUse(s, j)
    requires r < |s.rows| && s'.rows[r].used && !Indexed(s', r) && s'.rows[r].key.teid < |s.rows| && id < |s.rows|
    requires Gap(s'.rows[r].key.teid, id, |s.rows|) <= Gap(s'.rows[r].key.teid, s'.lastId, |s.rows|)
    ensures InUse(s', id)
  {
    hide InUse, AllButCursor;
    var p, n := s'.rows[r].key.teid, |s.rows|;
    if r == added || id == s'.lastId {
      StaysInUse(s, s', added, s'.lastId);
    } else {
      assert !Indexed(s, r);
      if Gap(p, s.lastId, n) + Gap(s.lastId, s'.lastId, n) >= n {
        LapFillsTable(s, r, s'.lastId);
      } else if Gap(p, id, n) > Gap(p, s.lastId, n) {
        assert 0 < Gap(s.lastId, id, n) < Gap(s.lastId, s'.lastId, n);
      }
      StaysInUse(s, s', added, id);
    }
  }

  lemma NotUsed(s: Store, r: nat)
    requires r !in Used(s) && r < |s.rows|
    ensures !s.rows[r].used
  {}

  lemma OpenedStaysSwept(s: Store, key: Key)
    requires Live(s) && !Full(s) && key !in s.index && key.teid < |s.rows| && key.teid != s.lastId
    requires forall j: nat :: j < |s.rows| && 0 < Gap(s.lastId, j, |s.rows|) < Gap(s.lastId, key.teid, |s.rows|) ==> InUse(s, j)
    requires Alloc(s.(lastId := key.teid), key).1.Some?
    ensures Swept(Alloc(s.(lastId := key.teid), key).0)
  {
    hide Alloc, Gap, InUse, Indexed, Full, UsedIn, IsFirstFree, AllButCursor;
    AllocTakesFreeRow(s.(lastId := key.teid), key);
    var (s', a) := Alloc(s.(lastId := key.teid), key);
    var n := |s.rows|;
    NotUsed(s, a.value);
    forall r: nat, id: nat | r < n && s'.rows[r].used && !Indexed(s', r) && id < n && s'.rows[r].key.teid < n &&
                             Gap(s'.rows[r].key.teid, id, n) <= Gap(s'.rows[r].key.teid, s'.lastId, n)
      ensures InUse(s', id)
    {
      SweptFurther(s, s', a.value, r, id);
    }
  }

  /** One opening keeps the invariant. */
  lemma OpenKeepsLive(s: Store, net: Net, remote: Ip, kind: Kind)
    requires Live(s)
    ensures Live(Open(s, net, remote, kind).0) && Opened(s, net, remote, kind)
  {
    var (s1, key) := KeyAlloc(s, net, remote, kind);
    if key.Some? {
      PassedIdsInUse(s, net, remote, kind);
      AllocTakesFreeRow(s1, key.value);
      assert Used(s1) == Used(s);
      var (s', r) := Alloc(s1, key.value);
      if r.Some? {
        OpenedKeyIsNew(s, key.value);
        OpenedStaysSwept(s, key.value);
        assert s'.rows[r.value].key == key.value;
        OpenedStaysLive(s, s', r.value);
      } else {
        RefusedStaysLive(s, s1);
      }
    }
  }

  /** Writing the other fields of a row, and committing an opened row, keep the invariant. */
  lemma FillKeepsLive(s: Store, r: nat, ip: Ip, teid: nat, kind: Kind, id: nat)
    requires Live(s) && r < |s.rows|
    ensures Live(Fill(s, r, ip, teid, kind, id)) && Used(Fill(s, r, ip, teid, kind, id)) == Used(s)
  {
    var s' := Fill(s, r, ip, teid, kind, id);
    assert Used(s') == Used(s);
    forall j | InUse(s, j)
      ensures InUse(s', j)
    {
      assert s'.rows[RowOf(s, j)].key.teid == j;
    }
    assert forall q: nat :: q < |s.rows| ==> (Indexed(s', q) <==> Indexed(s, q));
  }

  lemma CommitKeepsLive(s: Store, r: nat)
    requires Live(s) && r < |s.rows| && s.rows[r].used
    ensures Live(Commit(s, r)) && Commit(s, r).rows == s.rows && Commit(s, r).index == s.index[s.rows[r].key := r]
  {
    var s' := Commit(s, r);
    var key := s.rows[r].key;
    if key in s.index {
      assert s.index[key] == r;
      assert s.index[key := r] == s.index;
    }
    forall j | InUse(s, j)
      ensures InUse(s', j)
    {
      assert s'.rows[RowOf(s, j)].key.teid == j;
    }
    assert forall q: nat :: q < |s.rows| && q != r && s.rows[q].used ==> (Indexed(s', q) <==> Indexed(s, q));
  }
}
