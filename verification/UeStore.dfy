/** The UE context table as a value, on top of the tunnel table: the effect of every operation of ue_ctx.c.
    A list slot holds a tunnel row number, or None where the C code holds NULL. */
module UeStore {
  import opened Options
  import opened Circular
  import T = TunnelStore

  const MAX_PDUS_PER_UE: nat := 4

  const MAX_DRB_PER_UE: nat := 4

  type Slots = seq<Option<nat>>

  /** ue_ctx_t. The slots at or past a count keep whatever was last written there. */
  datatype UeCtx = UeCtx(cuupId: nat, cucpId: nat, pdusCount: nat, drbCount: nat, used: bool, pdus: Slots, drbs: Slots)

  /** A row never written: the table is a static array. */
  const BLANK_CTX: UeCtx :=
    UeCtx(0, 0, 0, 0, false, seq(MAX_PDUS_PER_UE, _ => None), seq(MAX_DRB_PER_UE, _ => None))

  datatype UeStore = UeStore(rows: seq<UeCtx>, index: map<nat, nat>, slot: nat, lastId: nat)

  datatype System = System(t: T.Store, u: UeStore)

  predicate Shaped(c: UeCtx) {
    |c.pdus| == MAX_PDUS_PER_UE && |c.drbs| == MAX_DRB_PER_UE && c.pdusCount <= |c.pdus| && c.drbCount <= |c.drbs|
  }

  ghost predicate ValidUes(u: UeStore) {
    u.slot < |u.rows| && u.lastId < |u.rows| &&
    (forall id :: id in u.index ==> u.index[id] < |u.rows|) &&
    forall i :: 0 <= i < |u.rows| ==> Shaped(u.rows[i])
  }

  /** Each id looks up a used row that carries it, and each used row is looked up by its id. */
  ghost predicate UesAgree(u: UeStore) {
    ValidUes(u) &&
    (forall id :: id in u.index ==> u.rows[u.index[id]].cuupId == id && u.rows[u.index[id]].used) &&
    forall i :: 0 <= i < |u.rows| && u.rows[i].used ==> u.rows[i].cuupId in u.index && u.index[u.rows[i].cuupId] == i
  }

  ghost predicate Valid(sys: System) {
    T.Valid(sys.t) && ValidUes(sys.u)
  }

  function UsedUes(u: UeStore): set<nat> {
    set i: nat | i < |u.rows| && u.rows[i].used
  }

  /** Both tables as their initialisation leaves them. */
  ghost predicate Initialised(sys: System) {
    Valid(sys) && sys.t.index == map[] && T.Used(sys.t) == {} && sys.u.index == map[] && UsedUes(sys.u) == {}
  }

  predicate AllPoint(slots: Slots, n: nat) {
    forall i :: 0 <= i < |slots| ==> slots[i].Some? && slots[i].value < n
  }

  /** The listed slots point at rows of an n-row tunnel table, as every operation that follows them demands. */
  predicate Pointed(c: UeCtx, n: nat) {
    Shaped(c) && AllPoint(c.pdus[..c.pdusCount], n) && AllPoint(c.drbs[..c.drbCount], n)
  }

  function Targets(slots: Slots, n: nat): (rs: seq<nat>)
    requires AllPoint(slots, n)
    ensures |rs| == |slots| && forall i :: 0 <= i < |rs| ==> Some(rs[i]) == slots[i] && rs[i] < n
  {
    seq(|slots|, i requires 0 <= i < |slots| => slots[i].value)
  }

  function PdusRows(c: UeCtx, n: nat): seq<nat>
    requires Pointed(c, n)
  {
    Targets(c.pdus[..c.pdusCount], n)
  }

  function DrbRows(c: UeCtx, n: nat): seq<nat>
    requires Pointed(c, n)
  {
    Targets(c.drbs[..c.drbCount], n)
  }

  /** The row that a DRB list position points at. */
  function DrbAt(c: UeCtx, n: nat, idx: nat): (r: nat)
    requires Pointed(c, n) && idx < c.drbCount
    ensures c.drbs[idx] == Some(r) && r < n
  {
    assert c.drbs[idx] == c.drbs[..c.drbCount][idx];
    c.drbs[idx].value
  }

  ghost predicate Within(rs: seq<nat>, n: nat) {
    forall i :: 0 <= i < |rs| ==> rs[i] < n
  }

  function SetUsed(u: UeStore, r: nat, used: bool): UeStore
    requires r < |u.rows|
  {
    u.(rows := u.rows[r := u.rows[r].(used := used)])
  }

  function IdsTaken(index: map<nat, nat>, n: nat): set<nat> {
    set i: nat | i < n && i in index
  }

  function IdAlloc(u: UeStore): (UeStore, Option<nat>)
    requires ValidUes(u)
  {
    match Search(u.lastId, |u.rows|, IdsTaken(u.index, |u.rows|))
    case None => (u, None)
    case Some(i) => (u.(lastId := i), Some(i))
  }

  /** ue_ctx_alloc: only the id and the used flag are written; lists and counts are the row's old ones. */
  function Alloc(u: UeStore, id: nat): (a: (UeStore, Option<nat>))
    requires ValidUes(u)
    ensures ValidUes(a.0) && |a.0.rows| == |u.rows| && (a.1.Some? ==> a.1.value < |u.rows|)
  {
    match Search(u.slot, |u.rows|, UsedUes(u))
    case None => (u, None)
    case Some(r) => (u.(rows := u.rows[r := u.rows[r].(cuupId := id, used := true)], slot := r), Some(r))
  }

  function Add(u: UeStore, id: nat): (a: (UeStore, Option<nat>))
    requires ValidUes(u)
    ensures ValidUes(a.0) && |a.0.rows| == |u.rows| && (a.1.Some? ==> a.1.value < |u.rows|)
  {
    if id in u.index then (u, None) else Alloc(u, id)
  }

  /** Removing, committing and rolling back listed tunnels, one after the other. */
  ghost function RemoveRows(t: T.Store, rs: seq<nat>): (t': T.Store)
    requires T.Valid(t) && Within(rs, |t.rows|)
    ensures T.Valid(t') && |t'.rows| == |t.rows|
  {
    if rs == [] then t
    else
      var t1 := RemoveRows(t, rs[..|rs| - 1]);
      T.Remove(t1, t1.rows[rs[|rs| - 1]].key).0
  }

  ghost function CommitRows(t: T.Store, rs: seq<nat>): (t': T.Store)
    requires T.Valid(t) && Within(rs, |t.rows|)
    ensures T.Valid(t') && |t'.rows| == |t.rows|
  {
    if rs == [] then t else T.Commit(CommitRows(t, rs[..|rs| - 1]), rs[|rs| - 1])
  }

  ghost function RollbackRows(t: T.Store, rs: seq<nat>): (t': T.Store)
    requires T.Valid(t) && Within(rs, |t.rows|)
    ensures T.Valid(t') && |t'.rows| == |t.rows|
  {
    if rs == [] then t else T.Rollback(RollbackRows(t, rs[..|rs| - 1]), rs[|rs| - 1]).0
  }

  /** The list after the commit loop: each slot is cleared if its row is unused right after its own commit. */
  ghost function CommittedSlots(t: T.Store, rs: seq<nat>): (slots: Slots)
    requires T.Valid(t) && Within(rs, |t.rows|)
    ensures |slots| == |rs|
    ensures forall i :: 0 <= i < |rs| ==> slots[i] == None || slots[i] == Some(rs[i])
  {
    if rs == [] then []
    else
      var last := rs[|rs| - 1];
      CommittedSlots(t, rs[..|rs| - 1]) + [if CommitRows(t, rs).rows[last].used then Some(last) else None]
  }

  function NonNull(slots: Slots): (kept: Slots)
    ensures |kept| <= |slots|
  {
    if slots == [] then []
    else
      var last := slots[|slots| - 1];
      NonNull(slots[..|slots| - 1]) + (if last.Some? then [last] else [])
  }

  /** The packing loop: the non-null slots of `source` move to the front of `target`, whose tail stays. */
  function Compact(source: Slots, target: Slots): Slots
    requires |source| <= |target|
  {
    NonNull(source) + target[|NonNull(source)|..]
  }

  /** The commit loop after i slots: `t` is the tunnel table, `now` the list, `was` its value before. */
  ghost predicate PartlyCommitted(t0: T.Store, rs: seq<nat>, i: nat, t: T.Store, now: Slots, was: Slots) {
    T.Valid(t0) && Within(rs, |t0.rows|) && i <= |rs| <= |was| &&
    (forall k :: 0 <= k < |rs| ==> was[k] == Some(rs[k])) &&
    t == CommitRows(t0, rs[..i]) && now == CommittedSlots(t0, rs[..i]) + was[i..]
  }

  lemma CommitStart(t0: T.Store, rs: seq<nat>, was: Slots)
    requires T.Valid(t0) && Within(rs, |t0.rows|) && |rs| <= |was| && forall k :: 0 <= k < |rs| ==> was[k] == Some(rs[k])
    ensures PartlyCommitted(t0, rs, 0, t0, was, was)
  {}

  lemma CommitStep(t0: T.Store, rs: seq<nat>, i: nat, t: T.Store, now: Slots, was: Slots)
    requires PartlyCommitted(t0, rs, i, t, now, was) && i < |rs|
    ensures |now| == |was| && now[i] == Some(rs[i]) && T.Valid(t) && rs[i] < |t.rows|
    ensures var t' := T.Commit(t, rs[i]);
            |t'.rows| == |t.rows| &&
            PartlyCommitted(t0, rs, i + 1, t', if t'.rows[rs[i]].used then now else now[i := None], was)
  {
    assert rs[..i + 1][..i] == rs[..i];
  }

  lemma CommitLoopDone(t0: T.Store, rs: seq<nat>, t: T.Store, now: Slots, was: Slots)
    requires PartlyCommitted(t0, rs, |rs|, t, now, was)
    ensures t == CommitRows(t0, rs) && now == CommittedSlots(t0, rs) + was[|rs|..]
  {
    assert rs[..|rs|] == rs;
  }

  /** The packing loop after i slots have been read and j moved: `now` is the target list, `was` its value
      before the loop. The source list may be the target list itself. */
  ghost predicate PartlyPacked(source: Slots, i: nat, j: nat, now: Slots, was: Slots) {
    j <= i <= |source| && i <= |was| && j == |NonNull(source[..i])| && now == NonNull(source[..i]) + was[j..]
  }

  lemma PackStart(source: Slots, was: Slots)
    ensures PartlyPacked(source, 0, 0, was, was)
  {}

  lemma PackDone(source: Slots, i: nat, j: nat, now: Slots, was: Slots)
    requires PartlyPacked(source, i, j, now, was)
    ensures i <= |source| && i <= |was| && j == |NonNull(source[..i])| && now == Compact(source[..i], was)
  {}

  lemma PackStep(source: Slots, i: nat, j: nat, now: Slots, was: Slots)
    requires PartlyPacked(source, i, j, now, was) && i < |source| && i < |was|
    ensures |now| == |was| && j <= i && now[i] == was[i]
    ensures source[i] == None ==> PartlyPacked(source, i + 1, j, now, was)
    ensures source[i] != None ==> PartlyPacked(source, i + 1, j + 1, now[j := source[i]], was)
  {
    assert source[..i + 1][..i] == source[..i];
  }

  /** The lists after the four loops of ue_ctx_commit. The PDU packing loop reads the DRB list
      (ue_ctx.c:291-293), and the PDU count stays. */
  ghost function DrbsAfterCommit(t: T.Store, c: UeCtx): (slots: Slots)
    requires T.Valid(t) && Pointed(c, |t.rows|)
    ensures |slots| == |c.drbs|
  {
    CommittedSlots(t, DrbRows(c, |t.rows|)) + c.drbs[c.drbCount..]
  }

  ghost function PdusAfterCommit(t: T.Store, c: UeCtx): (slots: Slots)
    requires T.Valid(t) && Pointed(c, |t.rows|)
    ensures |slots| == |c.pdus|
  {
    CommittedSlots(CommitRows(t, DrbRows(c, |t.rows|)), PdusRows(c, |t.rows|)) + c.pdus[c.pdusCount..]
  }

  ghost function ListsCommitted(t: T.Store, c: UeCtx): (c': UeCtx)
    requires T.Valid(t) && Pointed(c, |t.rows|)
    ensures Shaped(c') && c' == c.(drbs := c'.drbs, drbCount := c'.drbCount, pdus := c'.pdus)
  {
    var drbs := DrbsAfterCommit(t, c);
    var packed := Compact(drbs[..c.drbCount], drbs);
    c.(drbs := packed, drbCount := |NonNull(drbs[..c.drbCount])|,
       pdus := Compact(packed[..c.pdusCount], PdusAfterCommit(t, c)))
  }

  ghost function TunnelsCommitted(t: T.Store, c: UeCtx): (t': T.Store)
    requires T.Valid(t) && Pointed(c, |t.rows|)
    ensures T.Valid(t') && |t'.rows| == |t.rows|
  {
    CommitRows(CommitRows(t, DrbRows(c, |t.rows|)), PdusRows(c, |t.rows|))
  }

  /** The rest of ue_ctx_commit: the index entry of the context's id. */
  function CommitIndex(u: UeStore, r: nat): (u': UeStore)
    requires ValidUes(u) && r < |u.rows|
    ensures ValidUes(u') && |u'.rows| == |u.rows|
  {
    var id := u.rows[r].cuupId;
    if id !in u.index then u.(index := u.index[id := r])
    else if u.index[id] == r then if u.rows[r].used then u else u.(index := u.index - {id})
    else SetUsed(u, u.index[id], false).(index := u.index[id := r])
  }

  /** The commit of r deletes its id from the index. */
  predicate CommitDeletes(u: UeStore, r: nat)
    requires r < |u.rows|
  {
    u.rows[r].cuupId in u.index && u.index[u.rows[r].cuupId] == r && !u.rows[r].used
  }

  ghost function Commit(sys: System, r: nat): (sys': System)
    requires Valid(sys) && r < |sys.u.rows| && Pointed(sys.u.rows[r], |sys.t.rows|)
    ensures Valid(sys')
  {
    var c := sys.u.rows[r];
    System(TunnelsCommitted(sys.t, c), CommitIndex(sys.u.(rows := sys.u.rows[r := ListsCommitted(sys.t, c)]), r))
  }

  ghost function Remove(sys: System, id: nat): (System, T.Status)
    requires Valid(sys) && (id in sys.u.index ==> Pointed(sys.u.rows[sys.u.index[id]], |sys.t.rows|))
  {
    if id !in sys.u.index then (sys, T.NotFound)
    else
      var r := sys.u.index[id];
      var c := sys.u.rows[r];
      (System(RemoveRows(RemoveRows(sys.t, PdusRows(c, |sys.t.rows|)), DrbRows(c, |sys.t.rows|)),
              sys.u.(rows := sys.u.rows[r := c.(used := false)])), T.Success)
  }

  /** A row after k turns of a copy loop of ue_ctx_modify, whose counter is the row's own count. */
  function PdusCopied(from: UeCtx, to: UeCtx, k: nat): (c: UeCtx)
    requires Shaped(from) && Shaped(to) && k <= from.pdusCount
    ensures Shaped(c)
  {
    to.(pdusCount := k, pdus := from.pdus[..k] + to.pdus[k..])
  }

  function DrbsCopied(from: UeCtx, to: UeCtx, k: nat): (c: UeCtx)
    requires Shaped(from) && Shaped(to) && k <= from.drbCount
    ensures Shaped(c)
  {
    to.(drbCount := k, drbs := from.drbs[..k] + to.drbs[k..])
  }

  lemma CopyStart(from: UeCtx, to: UeCtx)
    requires Shaped(from) && Shaped(to)
    ensures PdusCopied(from, to, 0) == to.(pdusCount := 0) && DrbsCopied(from, to, 0) == to.(drbCount := 0)
  {}

  lemma CopyPdusStep(from: UeCtx, to: UeCtx, k: nat)
    requires Shaped(from) && Shaped(to) && k < from.pdusCount
    ensures var c := PdusCopied(from, to, k);
            c.pdusCount == k &&
            c.(pdus := c.pdus[k := from.pdus[k]], pdusCount := k + 1) == PdusCopied(from, to, k + 1)
  {
    var c := PdusCopied(from, to, k);
    assert c.pdus[k := from.pdus[k]] == from.pdus[..k + 1] + to.pdus[k + 1..];
  }

  lemma CopyDrbsStep(from: UeCtx, to: UeCtx, k: nat)
    requires Shaped(from) && Shaped(to) && k < from.drbCount
    ensures var c := DrbsCopied(from, to, k);
            c.drbCount == k &&
            c.(drbs := c.drbs[k := from.drbs[k]], drbCount := k + 1) == DrbsCopied(from, to, k + 1)
  {
    var c := DrbsCopied(from, to, k);
    assert c.drbs[k := from.drbs[k]] == from.drbs[..k + 1] + to.drbs[k + 1..];
  }

  /** The copy loops count in the new row while reading the old row's counts, so a row copied onto itself
      (possible while the old row's removal is pending) ends up with empty lists. */
  function CopyLists(from: UeCtx, to: UeCtx, same: bool): UeCtx
    requires Shaped(from) && Shaped(to)
  {
    if same then to.(pdusCount := 0, drbCount := 0)
    else DrbsCopied(from, PdusCopied(from, to, from.pdusCount), from.drbCount)
  }

  function Modify(u: UeStore, id: nat): (a: (UeStore, Option<nat>))
    requires ValidUes(u)
    ensures ValidUes(a.0) && |a.0.rows| == |u.rows| && (a.1.Some? ==> a.1.value < |u.rows|)
  {
    if id !in u.index then (u, None)
    else
      var (u1, r) := Alloc(u, id);
      if r.None? then (u1, None)
      else
        var entry := u.index[id];
        (u1.(rows := u1.rows[r.value := CopyLists(u1.rows[entry], u1.rows[r.value], entry == r.value)]), r)
  }

  /** The context whose lists a rollback follows: its own, or the committed one's after a modify. */
  ghost function RolledBackCtx(sys: System, r: nat): UeCtx
    requires Valid(sys) && r < |sys.u.rows|
  {
    var id := sys.u.rows[r].cuupId;
    if id in sys.u.index then sys.u.rows[sys.u.index[id]] else sys.u.rows[r]
  }

  /** A rollback follows the lists unless the context is a committed one in use, or is in no state that
      ue_ctx_rollback knows. */
  ghost predicate RollbackActs(sys: System, r: nat)
    requires Valid(sys) && r < |sys.u.rows|
  {
    var id := sys.u.rows[r].cuupId;
    if id in sys.u.index && sys.u.index[id] == r then !sys.u.rows[r].used
    else sys.u.rows[r].used && RolledBackCtx(sys, r).used
  }

  ghost function Rollback(sys: System, r: nat): (System, T.Status)
    requires Valid(sys) && r < |sys.u.rows|
    requires RollbackActs(sys, r) ==> Pointed(RolledBackCtx(sys, r), |sys.t.rows|)
  {
    var id := sys.u.rows[r].cuupId;
    var committed := id in sys.u.index && sys.u.index[id] == r;
    if RollbackActs(sys, r) then
      var c := RolledBackCtx(sys, r);
      var n := |sys.t.rows|;
      (System(RollbackRows(RollbackRows(sys.t, PdusRows(c, n)), DrbRows(c, n)), SetUsed(sys.u, r, committed)), T.Success)
    else (sys, if committed then T.Success else T.Failed)
  }
}
