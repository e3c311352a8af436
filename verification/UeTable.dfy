/** The UE context table in place: ue_ctx_table_g, its id index and cursors (ue_ctx.c), driving the tunnel table. Every
    method is proved to compute the function of the same name in UeStore. */
module UeTable {
  import opened Options
  import opened Circular
  import T = TunnelStore
  import U = UeStore
  import TunnelTable

  class UeTable {
    const tunnels: TunnelTable.TunnelTable
    const rows: array<U.UeCtx>
    var index: map<nat, nat>
    var slot: nat
    var lastId: nat

    ghost predicate Valid()
      reads this, rows, tunnels, tunnels.rows
    {
      U.Valid(Abs())
    }

    ghost function Ues(): U.UeStore
      reads this, rows
    {
      U.UeStore(rows[..], index, slot, lastId)
    }

    ghost function Abs(): U.System
      reads this, rows, tunnels, tunnels.rows
    {
      U.System(tunnels.Abs(), Ues())
    }

    constructor (n: nat, tunnels: TunnelTable.TunnelTable)
      requires 0 < n && tunnels.Valid()
      ensures fresh(rows) && rows.Length == n && this.tunnels == tunnels
      ensures Valid() && index == map[] && forall i :: 0 <= i < n ==> rows[i] == U.BLANK_CTX
      ensures U.UsedUes(Ues()) == {}
    {
      this.tunnels := tunnels;
      rows := new U.UeCtx[n](_ => U.BLANK_CTX);
      index, slot, lastId := map[], 0, 0;
    }

    method IdAlloc() returns (id: Option<nat>)
      requires Valid()
      modifies this`lastId
      ensures (Ues(), id) == U.IdAlloc(old(Ues()))
      ensures Valid()
    {
      var n := rows.Length;
      ghost var taken := U.IdsTaken(index, n);
      var i: nat := Next(lastId, n);
      while i != lastId
        invariant i < n
        invariant SearchFrom(i, lastId, n, taken) == Search(lastId, n, taken)
        decreases Gap(i, lastId, n)
      {
        if i !in index {
          lastId := i;
          return Some(i);
        }
        i := Next(i, n);
      }
      return None;
    }

    method Alloc(id: nat) returns (r: Option<nat>)
      requires Valid()
      modifies this`slot, rows
      ensures (Ues(), r) == U.Alloc(old(Ues()), id)
      ensures Valid()
    {
      var n := rows.Length;
      ghost var taken := U.UsedUes(Ues());
      var i: nat := Next(slot, n);
      while i != slot
        invariant i < n
        invariant SearchFrom(i, slot, n, taken) == Search(slot, n, taken)
        decreases Gap(i, slot, n)
      {
        if !rows[i].used {
          rows[i] := rows[i].(cuupId := id, used := true);
          slot := i;
          assert rows[..] == old(rows[..])[i := old(rows[i]).(cuupId := id, used := true)];
          return Some(i);
        }
        i := Next(i, n);
      }
      return None;
    }

    /** ue_ctx_get */
    method Get(id: nat) returns (r: Option<nat>)
      requires Valid()
      ensures r.Some? <==> id in index
      ensures r.Some? ==> r.value < rows.Length && r.value == index[id]
      ensures r.Some? && U.UesAgree(Ues()) ==> rows[r.value].cuupId == id && rows[r.value].used
    {
      r := if id in index then Some(index[id]) else None;
    }

    method Add(id: nat) returns (r: Option<nat>)
      requires Valid()
      modifies this`slot, rows
      ensures (Ues(), r) == U.Add(old(Ues()), id)
      ensures Valid()
    {
      if id in index {
        return None;
      }
      r := Alloc(id);
    }

    method SetUsed(r: nat, used: bool)
      requires Valid() && r < rows.Length
      modifies rows
      ensures Ues() == U.SetUsed(old(Ues()), r, used)
      ensures Valid()
    {
      rows[r] := rows[r].(used := used);
      assert rows[..] == old(rows[..])[r := old(rows[r]).(used := used)];
    }

    /** Removes the tunnels of one list, following its slots. */
    method RemoveListed(list: U.Slots)
      requires tunnels.Valid() && U.AllPoint(list, tunnels.rows.Length)
      modifies tunnels.rows
      ensures tunnels.Abs() == U.RemoveRows(old(tunnels.Abs()), U.Targets(list, tunnels.rows.Length))
      ensures tunnels.Valid()
    {
      ghost var rs := U.Targets(list, tunnels.rows.Length);
      for i := 0 to |list|
        invariant tunnels.Valid()
        invariant tunnels.Abs() == U.RemoveRows(old(tunnels.Abs()), rs[..i])
      {
        assert rs[..i + 1][..i] == rs[..i];
        var _ := tunnels.Remove(tunnels.rows[list[i].value].key);
      }
      assert rs[..|list|] == rs;
    }

    method Remove(id: nat) returns (status: T.Status)
      requires Valid() && (id in index ==> U.Pointed(rows[index[id]], tunnels.rows.Length))
      modifies rows, tunnels.rows
      ensures (Abs(), status) == U.Remove(old(Abs()), id)
      ensures Valid()
    {
      if id !in index {
        return T.NotFound;
      }
      var e := index[id];
      SetUsed(e, false);
      RemoveListed(rows[e].pdus[..rows[e].pdusCount]);
      RemoveListed(rows[e].drbs[..rows[e].drbCount]);
      return T.Success;
    }

    method Modify(id: nat) returns (r: Option<nat>)
      requires Valid()
      modifies this`slot, rows
      ensures (Ues(), r) == U.Modify(old(Ues()), id)
      ensures Valid()
    {
      if id !in index {
        return None;
      }
      var e := index[id];
      r := Alloc(id);
      if r.None? {
        return None;
      }
      ghost var u1 := Ues();
      CopyPdus(e, r.value);
      CopyDrbs(e, r.value);
      assert rows[r.value] == U.CopyLists(u1.rows[e], u1.rows[r.value], e == r.value);
      assert rows[..] == u1.rows[r.value := rows[r.value]];
    }

    /** The first copy loop of ue_ctx_modify, counting in the target's own count field. */
    method CopyPdus(e: nat, w: nat)
      requires Valid() && e < rows.Length && w < rows.Length
      modifies rows
      ensures var c, d := old(rows[e]), old(rows[w]);
              rows[..] == old(rows[..])[w := if e == w then d.(pdusCount := 0) else U.PdusCopied(c, d, c.pdusCount)]
      ensures Valid()
    {
      hide U.PdusCopied;
      ghost var c, d := rows[e], rows[w];
      U.CopyStart(c, d);
      rows[w] := rows[w].(pdusCount := 0);
      while rows[w].pdusCount < rows[e].pdusCount
        invariant if e == w then rows[w] == d.(pdusCount := 0)
                  else rows[e] == c && rows[w].pdusCount <= c.pdusCount && rows[w] == U.PdusCopied(c, d, rows[w].pdusCount)
        invariant forall i :: 0 <= i < rows.Length && i != w ==> rows[i] == old(rows[i])
        invariant U.Shaped(rows[w])
      {
        U.CopyPdusStep(c, d, rows[w].pdusCount);
        var k := rows[w].pdusCount;
        rows[w] := rows[w].(pdus := rows[w].pdus[k := rows[e].pdus[k]]);
        rows[w] := rows[w].(pdusCount := k + 1);
      }
      assert rows[..] == old(rows[..])[w := rows[w]];
    }

    method CopyDrbs(e: nat, w: nat)
      requires Valid() && e < rows.Length && w < rows.Length
      modifies rows
      ensures var c, d := old(rows[e]), old(rows[w]);
              rows[..] == old(rows[..])[w := if e == w then d.(drbCount := 0) else U.DrbsCopied(c, d, c.drbCount)]
      ensures Valid()
    {
      hide U.DrbsCopied;
      ghost var c, d := rows[e], rows[w];
      U.CopyStart(c, d);
      rows[w] := rows[w].(drbCount := 0);
      while rows[w].drbCount < rows[e].drbCount
        invariant if e == w then rows[w] == d.(drbCount := 0)
                  else rows[e] == c && rows[w].drbCount <= c.drbCount && rows[w] == U.DrbsCopied(c, d, rows[w].drbCount)
        invariant forall i :: 0 <= i < rows.Length && i != w ==> rows[i] == old(rows[i])
        invariant U.Shaped(rows[w])
      {
        U.CopyDrbsStep(c, d, rows[w].drbCount);
        var k := rows[w].drbCount;
        rows[w] := rows[w].(drbs := rows[w].drbs[k := rows[e].drbs[k]]);
        rows[w] := rows[w].(drbCount := k + 1);
      }
      assert rows[..] == old(rows[..])[w := rows[w]];
    }

    /** The first and third loops of ue_ctx_commit: commit each listed tunnel and clear the slots of removed
        ones. */
    method CommitListed(list: U.Slots, count: nat) returns (slots: U.Slots)
      requires tunnels.Valid() && count <= |list| && U.AllPoint(list[..count], tunnels.rows.Length)
      modifies tunnels`index, tunnels.rows
      ensures var rs := U.Targets(list[..count], tunnels.rows.Length);
              tunnels.Abs() == U.CommitRows(old(tunnels.Abs()), rs) &&
              slots == U.CommittedSlots(old(tunnels.Abs()), rs) + list[count..]
      ensures tunnels.Valid()
    {
      hide T.Commit, T.CommitDeletes, T.CommitStatus, U.CommitRows, U.CommittedSlots;
      slots := list;
      ghost var t0 := tunnels.Abs();
      ghost var rs := U.Targets(list[..count], tunnels.rows.Length);
      U.CommitStart(t0, rs, list);
      var i := 0;
      while i < count
        invariant i <= count && tunnels.Valid()
        invariant U.PartlyCommitted(t0, rs, i, tunnels.Abs(), slots, list)
      {
        U.CommitStep(t0, rs, i, tunnels.Abs(), slots, list);
        var entry := slots[i].value;
        var position: nat := *;
        var _ := tunnels.Commit(Some(entry), position);
        if !tunnels.rows[entry].used {
          slots := slots[i := None];
        }
        i := i + 1;
      }
      U.CommitLoopDone(t0, rs, tunnels.Abs(), slots, list);
    }

    /** The second loop: packs a list in place and counts what is left. */
    method PackInPlace(list: U.Slots, count: nat) returns (slots: U.Slots, left: nat)
      requires count <= |list|
      ensures slots == U.Compact(list[..count], list) && left == |U.NonNull(list[..count])|
    {
      hide U.PartlyPacked, U.NonNull;
      U.PackStart(list, list);
      slots, left := list, 0;
      var i := 0;
      while i < count
        invariant i <= count && U.PartlyPacked(list, i, left, slots, list)
      {
        U.PackStep(list, i, left, slots, list);
        if slots[i] != None {
          slots := slots[left := slots[i]];
          left := left + 1;
        }
        i := i + 1;
      }
      U.PackDone(list, count, left, slots, list);
    }

    /** The fourth loop: packs one list into another. */
    method PackInto(source: U.Slots, count: nat, list: U.Slots) returns (slots: U.Slots)
      requires count <= |source| && count <= |list|
      ensures slots == U.Compact(source[..count], list)
    {
      hide U.PartlyPacked, U.NonNull;
      U.PackStart(source, list);
      slots := list;
      var i, j := 0, 0;
      while i < count
        invariant i <= count && U.PartlyPacked(source, i, j, slots, list)
      {
        U.PackStep(source, i, j, slots, list);
        if source[i] != None {
          slots := slots[j := source[i]];
          j := j + 1;
        }
        i := i + 1;
      }
      U.PackDone(source, count, j, slots, list);
    }

    /** A null context is refused; otherwise the commit takes effect and succeeds. */
    method Commit(ctx: Option<nat>, position: nat) returns (status: T.Status)
      requires Valid()
      requires ctx.Some? ==> ctx.value < rows.Length && U.Pointed(rows[ctx.value], tunnels.rows.Length)
      modifies this`index, rows, tunnels`index, tunnels.rows
      ensures ctx.None? ==> status == T.Failed && Abs() == old(Abs())
      ensures ctx.Some? ==> Abs() == U.Commit(old(Abs()), ctx.value)
      ensures ctx.Some? ==> status == T.CommitStatus(U.CommitDeletes(old(Ues()), ctx.value), position)
      ensures Valid()
    {
      if ctx.None? {
        return T.Failed;
      }
      var w := ctx.value;
      CommitLists(w);
      status := CommitIndex(w, position);
    }

    /** `position` is what the hash returns if an id is deleted; any other number than 0 is taken for an error. */
    method CommitIndex(w: nat, position: nat) returns (status: T.Status)
      requires Valid() && w < rows.Length
      modifies this`index, rows
      ensures Ues() == U.CommitIndex(old(Ues()), w)
      ensures status == T.CommitStatus(U.CommitDeletes(old(Ues()), w), position)
      ensures Valid()
    {
      var id := rows[w].cuupId;
      if id !in index {
        index := index[id := w];
        return T.Success;
      }
      var entry := index[id];
      if entry == w {
        if !rows[entry].used {
          index := index - {id};
          if position != 0 {
            return T.Failed;
          }
        }
        return T.Success;
      }
      SetUsed(entry, false);
      index := index[id := w];
      return T.Success;
    }

    /** The four loops of ue_ctx_commit; the last one passes the DRB list as its source (ue_ctx.c:291). */
    method CommitLists(w: nat)
      requires Valid() && w < rows.Length && U.Pointed(rows[w], tunnels.rows.Length)
      modifies rows, tunnels`index, tunnels.rows
      ensures tunnels.Abs() == U.TunnelsCommitted(old(tunnels.Abs()), old(rows[w]))
      ensures rows[..] == old(rows[..])[w := U.ListsCommitted(old(tunnels.Abs()), old(rows[w]))]
      ensures Valid()
    {
      hide T.Commit, U.CommittedSlots, U.CommitRows, U.NonNull;
      var c := rows[w];
      ghost var t0 := tunnels.Abs();
      var drbs := CommitListed(c.drbs, c.drbCount);
      assert drbs == U.DrbsAfterCommit(t0, c);
      var drbs', left := PackInPlace(drbs, c.drbCount);
      var pdus := CommitListed(c.pdus, c.pdusCount);
      assert pdus == U.PdusAfterCommit(t0, c);
      var pdus' := PackInto(drbs', c.pdusCount, pdus);
      var c' := c.(drbs := drbs', drbCount := left, pdus := pdus');
      assert c' == U.ListsCommitted(t0, c);
      rows[w] := c';
    }

    method RollbackListed(list: U.Slots)
      requires tunnels.Valid() && U.AllPoint(list, tunnels.rows.Length)
      modifies tunnels.rows
      ensures tunnels.Abs() == U.RollbackRows(old(tunnels.Abs()), U.Targets(list, tunnels.rows.Length))
      ensures tunnels.Valid()
    {
      ghost var rs := U.Targets(list, tunnels.rows.Length);
      for i := 0 to |list|
        invariant tunnels.Valid()
        invariant tunnels.Abs() == U.RollbackRows(old(tunnels.Abs()), rs[..i])
      {
        assert rs[..i + 1][..i] == rs[..i];
        var _ := tunnels.Rollback(list[i].value);
      }
      assert rs[..|list|] == rs;
    }

    method RollbackLists(e: nat)
      requires Valid() && e < rows.Length && U.Pointed(rows[e], tunnels.rows.Length)
      modifies tunnels.rows
      ensures var c, n := rows[e], tunnels.rows.Length;
              tunnels.Abs() == U.RollbackRows(U.RollbackRows(old(tunnels.Abs()), U.PdusRows(c, n)), U.DrbRows(c, n))
      ensures Valid()
    {
      RollbackListed(rows[e].pdus[..rows[e].pdusCount]);
      RollbackListed(rows[e].drbs[..rows[e].drbCount]);
    }

    method Rollback(w: nat) returns (status: T.Status)
      requires Valid() && w < rows.Length
      requires U.RollbackActs(Abs(), w) ==> U.Pointed(U.RolledBackCtx(Abs(), w), tunnels.rows.Length)
      modifies rows, tunnels.rows
      ensures (Abs(), status) == U.Rollback(old(Abs()), w)
      ensures Valid()
    {
      var id := rows[w].cuupId;
      if id !in index {
        if rows[w].used {
          RollbackLists(w);
          SetUsed(w, false);
          return T.Success;
        }
        return T.Failed;
      }
      var entry := index[id];
      if w == entry {
        if !rows[entry].used {
          RollbackLists(w);
          SetUsed(entry, true);
        }
        return T.Success;
      }
      if rows[w].used && rows[entry].used {
        RollbackLists(entry);
        SetUsed(w, false);
        return T.Success;
      }
      return T.Failed;
    }
  }
}
