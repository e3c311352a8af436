/** What one opening of a tunnel hands out, and when it fails. */
module Openings {
  import opened Options
  import opened Circular
  import opened TunnelStore

  /** ip is where a session tunnel to this peer starts: the source address that the ARP cache has for the peer or,
      without one, for the gateway of the route to it. */
  predicate SourceFor(net: Net, peer: Ip, ip: Ip) {
    if peer in net.source then net.source[peer] == ip
    else peer in net.gateway && net.gateway[peer] in net.source && net.source[net.gateway[peer]] == ip
  }

  predicate StartsAt(net: Net, peer: Ip, kind: Kind, ip: Ip) {
    match kind
    case PdusTunnel => SourceFor(net, peer, ip)
    case DrbTunnel => ip == F1U_LOCAL_IP
  }

  /** Neither the peer nor a gateway to it has an ARP entry. */
  predicate Unreachable(net: Net, peer: Ip) {
    peer !in net.source && (peer in net.gateway ==> net.gateway[peer] !in net.source)
  }

  lemma ReachableHasSource(net: Net, peer: Ip)
    ensures Unreachable(net, peer) <==> forall ip :: !SourceFor(net, peer, ip)
  {
    if !Unreachable(net, peer) {
      assert SourceFor(net, peer, if peer in net.source then net.source[peer] else net.source[net.gateway[peer]]);
    }
  }

  /** Every row but the cursor's is in use. */
  ghost predicate NoRowLeft(t: Store) {
    forall r: nat :: r < |t.rows| && r != t.slot ==> t.rows[r].used
  }

  /** Every id but the cursor's is indexed under this address. */
  ghost predicate NoIdLeft(t: Store, ip: Ip) {
    forall id: nat :: id < |t.rows| && id != t.lastId ==> Key(ip, id) in t.index
  }

  /** The first id after the cursor that is not indexed under this address. */
  ghost predicate IsNextId(t: Store, ip: Ip, id: nat)
    requires Valid(t)
  {
    id < |t.rows| && id != t.lastId && Key(ip, id) !in t.index &&
    forall j: nat :: j < |t.rows| && 0 < Gap(t.lastId, j, |t.rows|) < Gap(t.lastId, id, |t.rows|) ==> Key(ip, j) in t.index
  }

  /** The first row after the cursor that is not in use. */
  ghost predicate IsNextRow(t: Store, r: nat)
    requires Valid(t)
  {
    r < |t.rows| && r != t.slot && !t.rows[r].used &&
    forall q: nat :: q < |t.rows| && 0 < Gap(t.slot, q, |t.rows|) < Gap(t.slot, r, |t.rows|) ==> t.rows[q].used
  }

  /** tunnel_key_alloc hands out the next id under the address where the tunnel starts, and moves the cursor there. */
  lemma KeyAllocTakesNextId(t: Store, net: Net, peer: Ip, kind: Kind, ip: Ip)
    requires Valid(t) && StartsAt(net, peer, kind, ip)
    ensures var (t', key) := KeyAlloc(t, net, peer, kind);
            match key
            case None => NoIdLeft(t, ip) && t' == t
            case Some(k) => !NoIdLeft(t, ip) && k.ip == ip && IsNextId(t, ip, k.teid) && t' == t.(lastId := k.teid)
  {
    var taken := IdsTaken(t.index, ip, |t.rows|);
    SearchIsFirstFit(t.lastId, |t.rows|, taken);
    assert forall id: nat :: id < |t.rows| ==> (id in taken <==> Key(ip, id) in t.index);
    if KeyAlloc(t, net, peer, kind).1.None? {
      forall id: nat | id < |t.rows| && id != t.lastId
        ensures Key(ip, id) in t.index
      {
        assert id in taken;
      }
    }
  }

  lemma RowAllocTakesNextRow(t: Store, key: Key)
    requires Valid(t)
    ensures var (t', r) := Alloc(t, key);
            match r
            case None => NoRowLeft(t) && t' == t
            case Some(q) =>
              !NoRowLeft(t) && IsNextRow(t, q) &&
              t' == t.(rows := t.rows[q := t.rows[q].(key := key, used := true)], slot := q)
  {
    SearchIsFirstFit(t.slot, |t.rows|, Used(t));
    if Alloc(t, key).1.None? {
      forall r: nat | r < |t.rows| && r != t.slot
        ensures t.rows[r].used
      {
        assert r in Used(t);
      }
    }
  }

  lemma RowLeftNeedsNoId(t: Store, t1: Store)
    requires Valid(t) && t1 == t.(lastId := t1.lastId) && t1.lastId < |t.rows|
    ensures NoRowLeft(t1) <==> NoRowLeft(t)
    ensures forall r: nat :: IsNextRow(t1, r) <==> IsNextRow(t, r)
  {}

  /** An opening takes the next row under the next id of its address. It fails if and only if no id or no row is left,
      and then nothing moves but the id cursor, and that only if no row is left. */
  lemma OpenTakesNext(t: Store, net: Net, peer: Ip, kind: Kind, ip: Ip)
    requires Valid(t) && StartsAt(net, peer, kind, ip)
    ensures var (t', r) := Open(t, net, peer, kind);
            match r
            case None => (NoIdLeft(t, ip) || NoRowLeft(t)) && (t' == t || (NoRowLeft(t) && t' == t.(lastId := t'.lastId)))
            case Some(q) =>
              !NoIdLeft(t, ip) && !NoRowLeft(t) && IsNextRow(t, q) &&
              var key := t'.rows[q].key;
              key.ip == ip && IsNextId(t, ip, key.teid) &&
              t' == Store(t.rows[q := t.rows[q].(key := key, used := true)], t.index, q, key.teid)
  {
    hide KeyAlloc, Alloc, StartsAt, NoRowLeft, NoIdLeft, IsNextRow;
    KeyAllocTakesNextId(t, net, peer, kind, ip);
    var (t1, key) := KeyAlloc(t, net, peer, kind);
    if key.Some? {
      RowAllocTakesNextRow(t1, key.value);
      RowLeftNeedsNoId(t, t1);
    }
  }

  /** Towards an unreachable peer no session tunnel is opened and nothing moves. */
  lemma UnreachableRefused(t: Store, net: Net, peer: Ip)
    requires Valid(t) && Unreachable(net, peer)
    ensures Open(t, net, peer, PdusTunnel) == (t, None)
  {}
}
