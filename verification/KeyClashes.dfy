/** Unique keys when rows are freed. */
module KeyClashes {
  import opened Options
  import opened Circular
  import opened TunnelStore
  import opened TunnelTransactions
  import opened LiveKeys
  import opened KeyRuns

  /** Row q is in use under an uncommitted key that is the next one to be handed out for its address. */
  ghost predicate HoldsNextKey(s: Store, q: nat, ip: Ip)
    requires Valid(s) && q < |s.rows|
  {
    var key := s.rows[q].key;
    s.rows[q].used && key !in s.index && key.ip == ip &&
    IsFirstFree(key.teid, s.lastId, |s.rows|, IdsTaken(s.index, ip, |s.rows|))
  }

  /** An opening would be handed the key of a row in use, and a row for it: a key allocation looks at committed keys
      only. Openings that are rolled back always lead here. */
  ghost predicate Clash(s: Store, net: Net, remote: Ip, kind: Kind)
    requires Valid(s)
  {
    var ip := LocalIp(net, remote, kind);
    ip.Some? && !Full(s) && exists q: nat :: q < |s.rows| && HoldsNextKey(s, q, ip.value)
  }

  lemma NotTaken(s: Store, ip: Ip, id: nat)
    requires s.lastId < |s.rows| && IsFirstFree(id, s.lastId, |s.rows|, IdsTaken(s.index, ip, |s.rows|))
    ensures id < |s.rows| && Key(ip, id) !in s.index
  {}

  lemma KeyHandedOut(s: Store, net: Net, remote: Ip, kind: Kind)
    requires Valid(s) && KeyAlloc(s, net, remote, kind).1.Some?
    ensures var (s1, key) := KeyAlloc(s, net, remote, kind);
            s1 == s.(lastId := key.value.teid) && LocalIp(net, remote, kind) == Some(key.value.ip) && key.value !in s.index &&
            key.value.teid < |s.rows| &&
            IsFirstFree(key.value.teid, s.lastId, |s.rows|, IdsTaken(s.index, key.value.ip, |s.rows|))
  {
    hide IsFirstFree, LocalIp;
    var ip := LocalIp(net, remote, kind).value;
    var key := KeyAlloc(s, net, remote, kind).1.value;
    SearchIsFirstFit(s.lastId, |s.rows|, IdsTaken(s.index, ip, |s.rows|));
    NotTaken(s, ip, key.teid);
  }

  lemma OnlyNextKey(s: Store, q: nat, key: Key)
    requires Valid(s) && q < |s.rows| && key !in s.index && key.teid < |s.rows|
    requires IsFirstFree(key.teid, s.lastId, |s.rows|, IdsTaken(s.index, key.ip, |s.rows|))
    ensures HoldsNextKey(s, q, key.ip) <==> s.rows[q].used && s.rows[q].key == key
  {
    hide IsFirstFree, AllButCursor;
    SearchIsFirstFit(s.lastId, |s.rows|, IdsTaken(s.index, key.ip, |s.rows|));
  }

  lemma TakenDistinctIff(s: Store, s': Store, r: nat, key: Key)
    requires Committed(s) && KeysDistinct(s) && r < |s.rows| && !s.rows[r].used && s'.index == s.index
    requires s'.slot < |s.rows| && s'.lastId < |s.rows| && s'.rows == s.rows[r := s.rows[r].(key := key, used := true)]
    ensures Committed(s')
    ensures KeysDistinct(s') <==> forall q: nat :: q < |s.rows| ==> !(s.rows[q].used && s.rows[q].key == key)
  {
    if q: nat :| q < |s.rows| && s.rows[q].used && s.rows[q].key == key {
      assert s'.rows[q].key == s'.rows[r].key;
    }
  }

  lemma OpenedDistinctIff(s: Store, s1: Store, key: Key)
    requires Committed(s) && KeysDistinct(s) && key !in s.index && s1 == s.(lastId := key.teid) && key.teid < |s.rows|
    requires IsFirstFree(key.teid, s.lastId, |s.rows|, IdsTaken(s.index, key.ip, |s.rows|))
    ensures var (s', r) := Add(s1, key);
            Committed(s') && (r.Some? <==> !Full(s)) &&
            (KeysDistinct(s') <==> r.None? || forall q: nat :: q < |s.rows| ==> !HoldsNextKey(s, q, key.ip))
  {
    hide Alloc, IsFirstFree, UsedIn, AllButCursor;
    AllocTakesFreeRow(s1, key);
    var (s', r) := Alloc(s1, key);
    if r.Some? {
      NotUsed(s, r.value);
      forall q: nat | q < |s.rows|
        ensures HoldsNextKey(s, q, key.ip) <==> s.rows[q].used && s.rows[q].key == key
      {
        OnlyNextKey(s, q, key);
      }
      TakenDistinctIff(s, s', r.value, key);
    }
  }

  /** After any history, rollbacks included, an opening keeps the keys of used rows distinct if and only if the next
      key for its address is not that of an uncommitted row in use. */
  lemma OpenKeepsDistinctIff(s: Store, net: Net, remote: Ip, kind: Kind)
    requires Committed(s) && KeysDistinct(s)
    ensures Committed(Open(s, net, remote, kind).0)
    ensures KeysDistinct(Open(s, net, remote, kind).0) <==> !Clash(s, net, remote, kind)
  {
    hide Alloc, IsFirstFree, AllButCursor, UsedIn, LocalIp;
    var (s1, key) := KeyAlloc(s, net, remote, kind);
    var ip := LocalIp(net, remote, kind);
    if ip.Some? {
      SearchIsFirstFit(s.lastId, |s.rows|, IdsTaken(s.index, ip.value, |s.rows|));
      if key.Some? {
        KeyHandedOut(s, net, remote, kind);
        AllocTakesFreeRow(s1, key.value);
        OpenedDistinctIff(s, s1, key.value);
      }
    }
  }

  lemma CommitKeepsDistinct(s: Store, r: nat)
    requires Committed(s) && KeysDistinct(s) && r < |s.rows| && s.rows[r].used
    ensures Committed(Commit(s, r)) && KeysDistinct(Commit(s, r))
  {
    if s.rows[r].key in s.index {
      assert s.index[s.rows[r].key] == r;
    }
  }

  lemma RollbackKeepsDistinct(s: Store, r: nat)
    requires Committed(s) && KeysDistinct(s) && r < |s.rows|
    ensures Committed(Rollback(s, r).0) && KeysDistinct(Rollback(s, r).0)
  {
    if s.rows[r].key in s.index && s.index[s.rows[r].key] == r {
      assert s.rows[r := s.rows[r].(used := true)] == s.rows;
    }
  }

  /** Filling in, committing and rolling back never give two used rows the same key. */
  lemma OthersKeepDistinct(s: Store, move: Move)
    requires Committed(s) && KeysDistinct(s) && !move.Opening?
    ensures Committed(Moved(s, move)) && KeysDistinct(Moved(s, move))
  {
    hide Commit, Rollback;
    match move
    case Filling(_, _, _, _, _) =>
    case Committing(r) =>
      if r in Used(s) {
        CommitKeepsDistinct(s, r);
      }
    case RollingBack(r) =>
      if r < |s.rows| {
        RollbackKeepsDistinct(s, r);
      }
  }

  ghost predicate ClashFree(s: Store, moves: seq<Move>, k: nat)
    requires Valid(s) && k < |moves|
  {
    moves[k].Opening? ==> !Clash(MovedAll(s, moves[..k]), moves[k].net, moves[k].remote, moves[k].kind)
  }

  /** No opening of the run meets a clash. */
  ghost predicate AllClashFree(s: Store, moves: seq<Move>)
    requires Valid(s)
  {
    forall k: nat :: k < |moves| ==> ClashFree(s, moves, k)
  }

  /** The keys of used rows are distinct at every point of the run. */
  ghost predicate DistinctAllAlong(s: Store, moves: seq<Move>)
    requires Valid(s)
  {
    KeysDistinct(MovedAll(s, moves)) && (moves != [] ==> DistinctAllAlong(s, moves[..|moves| - 1]))
  }

  lemma ClashFreeStep(s: Store, moves: seq<Move>)
    requires Valid(s) && moves != []
    ensures AllClashFree(s, moves) <==>
            AllClashFree(s, moves[..|moves| - 1]) && ClashFree(s, moves, |moves| - 1)
  {
    hide Clash, MovedAll;
    var front := moves[..|moves| - 1];
    forall k: nat | k < |front|
      ensures ClashFree(s, front, k) <==> ClashFree(s, moves, k)
    {
      assert front[..k] == moves[..k];
    }
    if AllClashFree(s, moves) {
      forall k: nat | k < |front|
        ensures ClashFree(s, front, k)
      {
        assert ClashFree(s, moves, k);
      }
    }
  }

  lemma NoMoves(s: Store)
    requires Valid(s)
    ensures MovedAll(s, []) == s && AllClashFree(s, [])
  {}

  lemma LastMoveDistinctIff(s: Store, move: Move)
    requires Committed(s) && KeysDistinct(s)
    ensures Committed(Moved(s, move))
    ensures KeysDistinct(Moved(s, move)) <==> (move.Opening? ==> !Clash(s, move.net, move.remote, move.kind))
  {
    hide KeysDistinct, Clash;
    match move
    case Opening(net, remote, kind) => OpenKeepsDistinctIff(s, net, remote, kind);
    case Filling(_, _, _, _, _) => OthersKeepDistinct(s, move);
    case Committing(_) => OthersKeepDistinct(s, move);
    case RollingBack(_) => OthersKeepDistinct(s, move);
  }

  /** Over any run, rollbacks included, the keys of used rows stay distinct all along if and only if no opening
      meets a clash. */
  lemma {:induction false} KeysStayDistinctIff(s: Store, moves: seq<Move>)
    requires Committed(s) && KeysDistinct(s)
    ensures DistinctAllAlong(s, moves) <==> AllClashFree(s, moves)
    ensures AllClashFree(s, moves) ==> Committed(MovedAll(s, moves))
  {
    hide KeysDistinct, Clash, Moved, AllClashFree;
    if moves == [] {
      NoMoves(s);
    } else {
      var front := moves[..|moves| - 1];
      KeysStayDistinctIff(s, front);
      ClashFreeStep(s, moves);
      if AllClashFree(s, front) {
        LastMoveDistinctIff(MovedAll(s, front), moves[|moves| - 1]);
      }
    }
  }

  lemma {:induction false} MovedAllConcat(s: Store, first: seq<Move>, last: seq<Move>)
    requires Valid(s)
    ensures MovedAll(s, first + last) == MovedAll(MovedAll(s, first), last)
  {
    hide Moved;
    if last == [] {
      assert first + last == first;
    } else {
      var init := last[..|last| - 1];
      MovedAllConcat(s, first, init);
      assert (first + last)[..|first + last| - 1] == first + init;
    }
  }

  /** How far the id cursor has to go until it stands on id p, a whole lap if it stands there now. */
  function Lap(s: Store, p: nat): nat
    requires s.lastId < |s.rows| && p < |s.rows|
  {
    if s.lastId == p then |s.rows| else Gap(s.lastId, p, |s.rows|)
  }

  /** An uncommitted row q in use, and two rows left. */
  ghost predicate Exposed(s: Store, q: nat, a: nat, b: nat) {
    Committed(s) && KeysDistinct(s) && q < |s.rows| && s.rows[q].used && s.rows[q].key !in s.index &&
    s.rows[q].key.teid < |s.rows| && a < |s.rows| && b < |s.rows| && a != b && !s.rows[a].used && !s.rows[b].used
  }

  lemma RoomLeft(s: Store, q: nat, a: nat, b: nat)
    requires Exposed(s, q, a, b)
    ensures !Full(s)
    ensures !AllButCursor(s.lastId, |s.rows|, IdsTaken(s.index, s.rows[q].key.ip, |s.rows|))
  {
    var ip, p := s.rows[q].key.ip, s.rows[q].key.teid;
    assert a !in Used(s) && b !in Used(s);
    if AllButCursor(s.lastId, |s.rows|, IdsTaken(s.index, ip, |s.rows|)) {
      assert p !in IdsTaken(s.index, ip, |s.rows|) && p == s.lastId;
      forall id: nat | id < |s.rows|
        ensures InUse(s, id)
      {
        if id == p {
          assert s.rows[q].key.teid == id;
        } else {
          assert id in IdsTaken(s.index, ip, |s.rows|);
          assert s.rows[s.index[Key(ip, id)]].key.teid == id;
        }
      }
      AllIdsFillTable(s);
      assert false;
    }
  }

  lemma MovedAllOne(s: Store, move: Move)
    requires Valid(s)
    ensures MovedAll(s, [move]) == Moved(s, move)
  {
    hide Moved;
    assert [move][..0] == [];
  }

  lemma MovedAllTwo(s: Store, first: Move, second: Move)
    requires Valid(s)
    ensures MovedAll(s, [first, second]) == Moved(Moved(s, first), second)
  {
    hide Moved, Valid;
    assert [first, second][..1] == [first];
    MovedAllOne(s, first);
  }

  lemma RowHandedOut(s: Store, net: Net, remote: Ip, kind: Kind, q: nat, a: nat, b: nat) returns (r: nat, i: nat)
    requires Exposed(s, q, a, b) && LocalIp(net, remote, kind) == Some(s.rows[q].key.ip) && !Full(s)
    requires !AllButCursor(s.lastId, |s.rows|, IdsTaken(s.index, s.rows[q].key.ip, |s.rows|))
    requires !Clash(s, net, remote, kind)
    ensures var s' := Open(s, net, remote, kind).0;
            var key := Key(s.rows[q].key.ip, i);
            r < |s.rows| && !s.rows[r].used && s'.index == s.index && s'.lastId == i && s'.slot == r && key !in s.index &&
            s'.rows == s.rows[r := s.rows[r].(key := key, used := true)] &&
            IsFirstFree(i, s.lastId, |s.rows|, IdsTaken(s.index, key.ip, |s.rows|)) && i != s.rows[q].key.teid
  {
    hide Alloc, AllButCursor, UsedIn, LocalIp, IsFirstFree;
    var ip := s.rows[q].key.ip;
    SearchIsFirstFit(s.lastId, |s.rows|, IdsTaken(s.index, ip, |s.rows|));
    KeyHandedOut(s, net, remote, kind);
    var (s1, key) := KeyAlloc(s, net, remote, kind);
    AllocTakesFreeRow(s1, key.value);
    i := key.value.teid;
    r := Alloc(s1, key.value).1.value;
    NotUsed(s, r);
    OnlyNextKey(s, q, key.value);
  }

  lemma RolledBackExposed(s: Store, after: Store, q: nat, a: nat, b: nat, r: nat)
    requires Exposed(s, q, a, b) && Valid(after) && |after.rows| == |s.rows| && r < |s.rows| && !s.rows[r].used && after.index == s.index
    requires after.rows == s.rows[r := after.rows[r]]
    requires after.rows[r].used && after.rows[r].key !in s.index
    ensures var s' := Rollback(after, r).0;
            Exposed(s', q, a, b) && s'.rows[q] == s.rows[q] && s'.index == s.index && s'.lastId == after.lastId
  {}

  lemma LapShrinks(s: Store, s': Store, q: nat, i: nat)
    requires Valid(s) && q < |s.rows| == |s'.rows| && s'.lastId == i < |s.rows| && s.rows[q].key !in s.index
    requires s.rows[q].key.teid < |s.rows| && i != s.rows[q].key.teid
    requires IsFirstFree(i, s.lastId, |s.rows|, IdsTaken(s.index, s.rows[q].key.ip, |s.rows|))
    ensures Lap(s', s.rows[q].key.teid) < Lap(s, s.rows[q].key.teid)
  {
    var p := s.rows[q].key.teid;
    assert p !in IdsTaken(s.index, s.rows[q].key.ip, |s.rows|);
  }

  /** An opening and its rollback only move the cursors, here nearer to the id of the uncommitted row. */
  lemma OpenAndRollBack(s: Store, net: Net, remote: Ip, kind: Kind, q: nat, a: nat, b: nat) returns (r: nat)
    requires Exposed(s, q, a, b) && LocalIp(net, remote, kind) == Some(s.rows[q].key.ip)
    requires !Clash(s, net, remote, kind)
    ensures var s' := MovedAll(s, [Opening(net, remote, kind), RollingBack(r)]);
            Exposed(s', q, a, b) && s'.rows[q] == s.rows[q] && Lap(s', s.rows[q].key.teid) < Lap(s, s.rows[q].key.teid)
  {
    hide Alloc, KeyAlloc, Clash, AllButCursor, UsedIn, LocalIp, IsFirstFree, IdsTaken, KeysDistinct;
    RoomLeft(s, q, a, b);
    var after := Open(s, net, remote, kind).0;
    var i;
    r, i := RowHandedOut(s, net, remote, kind, q, a, b);
    var s' := Rollback(after, r).0;
    var o := Opening(net, remote, kind);
    MovedAllTwo(s, o, RollingBack(r));
    RolledBackExposed(s, after, q, a, b, r);
    LapShrinks(s, s', q, i);
  }

  ghost predicate OnlyOpensAndRollsBack(moves: seq<Move>) {
    forall i :: 0 <= i < |moves| ==> moves[i].Opening? || moves[i].RollingBack?
  }

  /** Openings that are each rolled back always reach a clash: while an uncommitted row is in use and two rows are
      left, they bring the id cursor round to that row's id. */
  lemma {:induction false} RollbacksReachClash(s: Store, net: Net, remote: Ip, kind: Kind, q: nat, a: nat, b: nat)
    returns (moves: seq<Move>)
    requires Exposed(s, q, a, b) && LocalIp(net, remote, kind) == Some(s.rows[q].key.ip)
    ensures OnlyOpensAndRollsBack(moves)
    ensures Committed(MovedAll(s, moves)) && KeysDistinct(MovedAll(s, moves)) && Clash(MovedAll(s, moves), net, remote, kind)
    decreases Lap(s, s.rows[q].key.teid)
  {
    hide Clash, Moved, Lap, LocalIp, KeysDistinct;
    if Clash(s, net, remote, kind) {
      moves := [];
    } else {
      var r := OpenAndRollBack(s, net, remote, kind, q, a, b);
      var pair := [Opening(net, remote, kind), RollingBack(r)];
      var rest := RollbacksReachClash(MovedAll(s, pair), net, remote, kind, q, a, b);
      moves := pair + rest;
      MovedAllConcat(s, pair, rest);
    }
  }

  /** So from any such state some run of openings and rollbacks gives two used rows one key. */
  lemma RollbacksBreakUniqueness(s: Store, net: Net, remote: Ip, kind: Kind, q: nat, a: nat, b: nat)
    returns (moves: seq<Move>)
    requires Exposed(s, q, a, b) && LocalIp(net, remote, kind) == Some(s.rows[q].key.ip)
    ensures OnlyOpensAndRollsBack(moves) && !KeysDistinct(MovedAll(s, moves))
  {
    hide Clash, LocalIp, KeysDistinct, Open;
    var before := RollbacksReachClash(s, net, remote, kind, q, a, b);
    moves := before + [Opening(net, remote, kind)];
    assert moves[..|moves| - 1] == before;
    OpenKeepsDistinctIff(MovedAll(s, before), net, remote, kind);
  }

  lemma FirstOpening(s: Store, net: Net, remote: Ip) returns (q: nat)
    requires Valid(s) && s.index == map[] && Used(s) == {} && 3 <= |s.rows|
    ensures q < |s.rows|
    ensures forall a: nat, b: nat :: a < |s.rows| && b < |s.rows| && a != b && a != q && b != q ==>
      Exposed(Open(s, net, remote, DrbTunnel).0, q, a, b)
    ensures Open(s, net, remote, DrbTunnel).0.rows[q].key.ip == F1U_LOCAL_IP
  {
    hide Alloc;
    forall i: nat | i < |s.rows|
      ensures !s.rows[i].used
    {
      IsUsed(s, i);
    }
    SearchIsFirstFit(s.lastId, |s.rows|, IdsTaken(s.index, F1U_LOCAL_IP, |s.rows|));
    assert Next(s.lastId, |s.rows|) !in IdsTaken(s.index, F1U_LOCAL_IP, |s.rows|);
    KeyHandedOut(s, net, remote, DrbTunnel);
    var (s1, key) := KeyAlloc(s, net, remote, DrbTunnel);
    AllocTakesFreeRow(s1, key.value);
    assert Next(s.slot, |s.rows|) !in Used(s1);
    q := Alloc(s1, key.value).1.value;
  }

  /** In particular from every initialised table of at least three rows, with DRB tunnels alone. */
  lemma RollbackBreaksUniqueness(s: Store, net: Net, remote: Ip) returns (moves: seq<Move>)
    requires Valid(s) && s.index == map[] && Used(s) == {} && 3 <= |s.rows|
    ensures OnlyOpensAndRollsBack(moves) && !KeysDistinct(MovedAll(s, moves))
  {
    hide KeysDistinct, IsFirstFree, AllButCursor, Alloc;
    var o := Opening(net, remote, DrbTunnel);
    var q := FirstOpening(s, net, remote);
    var s1 := Moved(s, o);
    MovedAllOne(s, o);
    var a := if q == 0 then 1 else 0;
    var b := if q == 2 then 1 else 2;
    var rest := RollbacksBreakUniqueness(s1, net, remote, DrbTunnel, q, a, b);
    moves := [o] + rest;
    MovedAllConcat(s, [o], rest);
  }
}
