/** Whole runs of openings, commits and rollbacks: as long as nothing is rolled back the keys of used rows stay
    distinct. KeyClashes says what rollbacks change. */
module KeyRuns {
  import opened TunnelStore
  import opened LiveKeys

  /** The steps of a run of transactions that open tunnels; each opening meets its own network state. */
  datatype Move =
    | Opening(net: Net, remote: Ip, kind: Kind)
    | Filling(row: nat, ip: Ip, teid: nat, kind: Kind, id: nat)
    | Committing(row: nat)
    | RollingBack(row: nat)

  /** Only rows in use are filled and committed. */
  ghost function Moved(s: Store, move: Move): (s': Store)
    requires Valid(s)
    ensures Valid(s') && |s'.rows| == |s.rows|
  {
    match move
    case Opening(net, remote, kind) => Open(s, net, remote, kind).0
    case Filling(r, ip, teid, kind, id) => if r in Used(s) then Fill(s, r, ip, teid, kind, id) else s
    case Committing(r) => if r in Used(s) then Commit(s, r) else s
    case RollingBack(r) => if r < |s.rows| then Rollback(s, r).0 else s
  }

  ghost function MovedAll(s: Store, moves: seq<Move>): (s': Store)
    requires Valid(s)
    ensures Valid(s') && |s'.rows| == |s.rows|
  {
    if moves == [] then s else Moved(MovedAll(s, moves[..|moves| - 1]), moves[|moves| - 1])
  }

  lemma MoveKeepsLive(s: Store, move: Move)
    requires Live(s) && !move.RollingBack?
    ensures Live(Moved(s, move)) && Used(s) <= Used(Moved(s, move))
  {
    match move
    case Opening(net, remote, kind) => OpenKeepsLive(s, net, remote, kind);
    case Filling(r, ip, teid, kind, id) =>
      if r in Used(s) {
        FillKeepsLive(s, r, ip, teid, kind, id);
      }
    case Committing(r) =>
      if r in Used(s) {
        CommitKeepsLive(s, r);
      }
  }

  ghost predicate NothingRolledBack(moves: seq<Move>) {
    forall i :: 0 <= i < |moves| ==> !moves[i].RollingBack?
  }

  /** From a settled table, no run of openings over any mix of tunnel types and addresses, of writes to opened rows and
      of their commits ever yields two used rows with the same key. */
  lemma {:induction false} LiveKeysUnique(s: Store, moves: seq<Move>)
    requires Settled(s) && NothingRolledBack(moves)
    ensures Live(MovedAll(s, moves)) && KeysDistinct(MovedAll(s, moves))
  {
    if moves == [] {
      SettledIsLive(s);
    } else {
      LiveKeysUnique(s, moves[..|moves| - 1]);
      MoveKeepsLive(MovedAll(s, moves[..|moves| - 1]), moves[|moves| - 1]);
    }
  }
}
