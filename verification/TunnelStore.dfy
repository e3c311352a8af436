/** The tunnel table as a value: rows, key index and the two cursors, with the effect of every operation of
    tunnel.c. Row numbers stand for the C code's row pointers. The class TunnelTable is proved to compute
    these functions in place; TunnelTransactions, TunnelRuns and LiveKeys say what they achieve. */
module TunnelStore {
  import opened Options
  import opened Circular

  type Ip = nat

  /** pfm_retval_t */
  datatype Status = Success | Failed | NotFound

  /** tunnel_key_t */
  datatype Key = Key(ip: Ip, teid: nat)

  datatype Kind = PdusTunnel | DrbTunnel

  /** tunnel_t. `id` is the first byte of the pdus_info/drb_info union. */
  datatype Tunnel = Tunnel(key: Key, remoteIp: Ip, remoteTeid: nat, kind: Kind, id: nat, used: bool)

  datatype Store = Store(rows: seq<Tunnel>, index: map<Key, nat>, slot: nat, lastId: nat)

  /** What the ARP cache (remote address to local source address) and the route table (remote address to
      gateway) answer while keys are allocated. */
  datatype Net = Net(source: map<Ip, Ip>, gateway: map<Ip, Ip>)

  /** 192.168.0.1, the local address of every DRB tunnel. */
  const F1U_LOCAL_IP: Ip := 0xC0A8_0001

  /** Cursors and indexed rows lie inside the table. */
  ghost predicate Valid(s: Store) {
    s.slot < |s.rows| && s.lastId < |s.rows| &&
    forall k :: k in s.index ==> s.index[k] < |s.rows|
  }

  function UsedIn(rows: seq<Tunnel>): set<nat> {
    set i: nat | i < |rows| && rows[i].used
  }

  function Used(s: Store): set<nat> {
    UsedIn(s.rows)
  }

  function IdsTaken(index: map<Key, nat>, ip: Ip, n: nat): set<nat> {
    set i: nat | i < n && Key(ip, i) in index
  }

  /** The committed view: what a lookup can find. */
  ghost function View(s: Store): map<Key, Tunnel>
    requires Valid(s)
  {
    map k | k in s.index :: s.rows[s.index[k]]
  }

  function SetUsed(s: Store, r: nat, used: bool): (s': Store)
    requires r < |s.rows|
  {
    s.(rows := s.rows[r := s.rows[r].(used := used)])
  }

  /** The local address chosen by tunnel_key_alloc for a remote address and tunnel type. */
  function LocalIp(net: Net, remote: Ip, kind: Kind): Option<Ip> {
    match kind
    case DrbTunnel => Some(F1U_LOCAL_IP)
    case PdusTunnel =>
      if remote in net.source then Some(net.source[remote])
      else if remote in net.gateway && net.gateway[remote] in net.source then Some(net.source[net.gateway[remote]])
      else None
  }

  function KeyAlloc(s: Store, net: Net, remote: Ip, kind: Kind): (a: (Store, Option<Key>))
    requires Valid(s)
    ensures Valid(a.0) && a.0 == s.(lastId := a.0.lastId)
  {
    match LocalIp(net, remote, kind)
    case None => (s, None)
    case Some(ip) =>
      match Search(s.lastId, |s.rows|, IdsTaken(s.index, ip, |s.rows|))
      case None => (s, None)
      case Some(i) => (s.(lastId := i), Some(Key(ip, i)))
  }

  /** tunnel_alloc: only the key and the used flag of the row found are written. */
  function Alloc(s: Store, key: Key): (a: (Store, Option<nat>))
    requires Valid(s)
    ensures Valid(a.0) && |a.0.rows| == |s.rows| && (a.1.Some? ==> a.1.value < |s.rows|)
  {
    match Search(s.slot, |s.rows|, Used(s))
    case None => (s, None)
    case Some(r) => (s.(rows := s.rows[r := s.rows[r].(key := key, used := true)], slot := r), Some(r))
  }

  function Add(s: Store, key: Key): (a: (Store, Option<nat>))
    requires Valid(s)
    ensures Valid(a.0) && |a.0.rows| == |s.rows| && (a.1.Some? ==> a.1.value < |s.rows|)
  {
    if key in s.index then (s, None) else Alloc(s, key)
  }

  /** tunnel_key_alloc followed by tunnel_add, as drb_setup and pdus_setup use them. */
  function Open(s: Store, net: Net, remote: Ip, kind: Kind): (a: (Store, Option<nat>))
    requires Valid(s)
    ensures Valid(a.0) && |a.0.rows| == |s.rows| && (a.1.Some? ==> a.1.value < |s.rows|)
  {
    var (s1, key) := KeyAlloc(s, net, remote, kind);
    if key.None? then (s1, None) else Add(s1, key.value)
  }

  function Remove(s: Store, key: Key): (a: (Store, Status))
    requires Valid(s)
    ensures Valid(a.0) && |a.0.rows| == |s.rows|
  {
    if key !in s.index then (s, NotFound) else (SetUsed(s, s.index[key], false), Success)
  }

  function Modify(s: Store, key: Key): (a: (Store, Option<nat>))
    requires Valid(s)
    ensures Valid(a.0) && |a.0.rows| == |s.rows| && (a.1.Some? ==> a.1.value < |s.rows|)
  {
    if key !in s.index then (s, None) else Alloc(s, key)
  }

  function Commit(s: Store, r: nat): (s': Store)
    requires Valid(s) && r < |s.rows|
    ensures Valid(s') && |s'.rows| == |s.rows|
  {
    var key := s.rows[r].key;
    if key !in s.index then s.(index := s.index[key := r])
    else if s.index[key] == r then
      if s.rows[r].used then s else s.(index := s.index - {key})
    else SetUsed(s, s.index[key], false).(index := s.index[key := r])
  }

  /** The commit of r deletes its key from the index. */
  predicate CommitDeletes(s: Store, r: nat)
    requires r < |s.rows|
  {
    s.rows[r].key in s.index && s.index[s.rows[r].key] == r && !s.rows[r].used
  }

  /** What a commit reports. The deletion gives the position the key had in the hash, which is taken for an error code
      unless it is 0 (tunnel.c:376-385). */
  function CommitStatus(deletes: bool, position: nat): Status {
    if deletes && position != 0 then Failed else Success
  }

  function Rollback(s: Store, r: nat): (a: (Store, Status))
    requires Valid(s) && r < |s.rows|
    ensures Valid(a.0) && |a.0.rows| == |s.rows|
  {
    var key := s.rows[r].key;
    if key !in s.index then
      if s.rows[r].used then (SetUsed(s, r, false), Success) else (s, Failed)
    else
      var entry := s.index[key];
      if entry == r then (SetUsed(s, r, true), Success)
      else if s.rows[r].used && s.rows[entry].used then (SetUsed(s, r, false), Success)
      else (s, Failed)
  }

  /** The writes that callers make to a row they were handed: everything but the key and the used flag. */
  function Fill(s: Store, r: nat, remoteIp: Ip, remoteTeid: nat, kind: Kind, id: nat): Store
    requires r < |s.rows|
  {
    s.(rows := s.rows[r := s.rows[r].(remoteIp := remoteIp, remoteTeid := remoteTeid, kind := kind, id := id)])
  }
}
