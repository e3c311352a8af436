/** The tunnel table in place: tunnel_table_g, its hash index and the two cursors (tunnel.c). Every method is proved to
    compute the function of the same name in TunnelStore. */
module TunnelTable {
  import opened Options
  import opened Circular
  import S = TunnelStore
  import TX = TunnelTransactions

  class TunnelTable {
    const rows: array<S.Tunnel>
    var index: map<S.Key, nat>
    var slot: nat
    var lastId: nat

    ghost predicate Valid()
      reads this, rows
    {
      S.Valid(Abs())
    }

    /** The table's contents as a value. */
    ghost function Abs(): S.Store
      reads this, rows
    {
      S.Store(rows[..], index, slot, lastId)
    }

    /** An initialised table: no row used, nothing indexed. */
    constructor (n: nat)
      requires 0 < n
      ensures fresh(rows) && rows.Length == n
      ensures Valid() && index == map[] && S.Used(Abs()) == {}
    {
      var blank := S.Tunnel(S.Key(0, 0), 0, 0, S.PdusTunnel, 0, false);
      rows := new S.Tunnel[n](_ => blank);
      index, slot, lastId := map[], 0, 0;
    }

    method KeyAlloc(net: S.Net, remote: S.Ip, kind: S.Kind) returns (key: Option<S.Key>)
      requires Valid()
      modifies this`lastId
      ensures (Abs(), key) == S.KeyAlloc(old(Abs()), net, remote, kind)
      ensures Valid()
    {
      var ip;
      match kind {
        case PdusTunnel =>
          if remote in net.source {
            ip := net.source[remote];
          } else if remote in net.gateway && net.gateway[remote] in net.source {
            ip := net.source[net.gateway[remote]];
          } else {
            return None;
          }
        case DrbTunnel =>
          ip := S.F1U_LOCAL_IP;
      }
      var n := rows.Length;
      ghost var taken := S.IdsTaken(index, ip, n);
      var i: nat := Next(lastId, n);
      while i != lastId
        invariant i < n
        invariant SearchFrom(i, lastId, n, taken) == Search(lastId, n, taken)
        decreases Gap(i, lastId, n)
      {
        if S.Key(ip, i) !in index {
          lastId := i;
          return Some(S.Key(ip, i));
        }
        i := Next(i, n);
      }
      return None;
    }

    method Alloc(key: S.Key) returns (r: Option<nat>)
      requires Valid()
      modifies this`slot, rows
      ensures (Abs(), r) == S.Alloc(old(Abs()), key)
      ensures Valid()
    {
      var n := rows.Length;
      ghost var taken := S.Used(Abs());
      var i: nat := Next(slot, n);
      while i != slot
        invariant i < n
        invariant SearchFrom(i, slot, n, taken) == Search(slot, n, taken)
        decreases Gap(i, slot, n)
      {
        if !rows[i].used {
          rows[i] := rows[i].(key := key, used := true);
          slot := i;
          assert rows[..] == old(rows[..])[i := old(rows[i]).(key := key, used := true)];
          return Some(i);
        }
        i := Next(i, n);
      }
      return None;
    }

    /** tunnel_get */
    method Get(key: S.Key) returns (r: Option<nat>)
      requires Valid()
      ensures r.Some? <==> key in S.View(Abs())
      ensures r.Some? ==> r.value < rows.Length && r.value == index[key] && rows[r.value] == S.View(Abs())[key]
      ensures r.Some? && TX.Committed(Abs()) ==> rows[r.value].key == key && rows[r.value].used
    {
      r := if key in index then Some(index[key]) else None;
    }

    method Add(key: S.Key) returns (r: Option<nat>)
      requires Valid()
      modifies this`slot, rows
      ensures (Abs(), r) == S.Add(old(Abs()), key)
      ensures Valid()
    {
      if key in index {
        return None;
      }
      r := Alloc(key);
    }

    method SetUsed(r: nat, used: bool)
      requires Valid() && r < rows.Length
      modifies rows
      ensures Abs() == S.SetUsed(old(Abs()), r, used)
      ensures Valid()
    {
      rows[r] := rows[r].(used := used);
      assert rows[..] == old(rows[..])[r := old(rows[r]).(used := used)];
    }

    method Remove(key: S.Key) returns (status: S.Status)
      requires Valid()
      modifies rows
      ensures (Abs(), status) == S.Remove(old(Abs()), key)
      ensures Valid()
    {
      if key !in index {
        return S.NotFound;
      }
      SetUsed(index[key], false);
      return S.Success;
    }

    method Modify(key: S.Key) returns (r: Option<nat>)
      requires Valid()
      modifies this`slot, rows
      ensures (Abs(), r) == S.Modify(old(Abs()), key)
      ensures Valid()
    {
      if key !in index {
        return None;
      }
      r := Alloc(key);
    }

    /** A null handle is refused; otherwise the commit takes effect and succeeds. */
    /** `position` is what the hash returns if a key is deleted. */
    method Commit(nt: Option<nat>, position: nat) returns (status: S.Status)
      requires Valid() && (nt.Some? ==> nt.value < rows.Length)
      modifies this`index, rows
      ensures nt.None? ==> status == S.Failed && Abs() == old(Abs())
      ensures nt.Some? ==> Abs() == S.Commit(old(Abs()), nt.value)
      ensures nt.Some? ==> status == S.CommitStatus(S.CommitDeletes(old(Abs()), nt.value), position)
      ensures Valid()
    {
      if nt.None? {
        return S.Failed;
      }
      var r := nt.value;
      var key := rows[r].key;
      if key !in index {
        index := index[key := r];
        return S.Success;
      }
      var entry := index[key];
      if r == entry {
        if !rows[entry].used {
          index := index - {key};
          if position != 0 {
            return S.Failed;
          }
        }
        return S.Success;
      }
      SetUsed(entry, false);
      index := index[key := r];
      return S.Success;
    }

    method Rollback(r: nat) returns (status: S.Status)
      requires Valid() && r < rows.Length
      modifies rows
      ensures (Abs(), status) == S.Rollback(old(Abs()), r)
      ensures Valid()
    {
      var key := rows[r].key;
      if key !in index {
        if rows[r].used {
          SetUsed(r, false);
          return S.Success;
        }
        return S.Failed;
      }
      var entry := index[key];
      if r == entry {
        if !rows[entry].used {
          SetUsed(r, true);
        } else {
          assert rows[..][r := rows[r].(used := true)] == rows[..];
        }
        return S.Success;
      }
      if rows[r].used && rows[entry].used {
        SetUsed(r, false);
        return S.Success;
      }
      return S.Failed;
    }

    method Fill(r: nat, remoteIp: S.Ip, remoteTeid: nat, kind: S.Kind, id: nat)
      requires Valid() && r < rows.Length
      modifies rows
      ensures Abs() == S.Fill(old(Abs()), r, remoteIp, remoteTeid, kind, id)
      ensures Valid()
    {
      rows[r] := rows[r].(remoteIp := remoteIp, remoteTeid := remoteTeid, kind := kind, id := id);
      assert rows[..] == old(rows[..])[r := rows[r]];
    }
  }
}
