/** The worker's transmit ring (pfm_worker_loop.c): an array with head and tail cursors, one slot kept free. */
module TxRing {

  /** The packets a ring holds, oldest first. */
  function Held<P>(queue: seq<P>, head: nat, tail: nat): seq<P>
    requires head < |queue| && tail < |queue|
  {
    if tail <= head then queue[tail..head] else queue[tail..] + queue[..head]
  }

  lemma HeldFromTail<P>(queue: seq<P>, head: nat, tail: nat)
    requires head < |queue| && tail < |queue| && head != tail
    ensures var next := if tail + 1 == |queue| then 0 else tail + 1;
            Held(queue, head, tail) == [queue[tail]] + Held(queue, head, next)
  {}

  lemma HeldEmpty<P>(queue: seq<P>, head: nat, tail: nat)
    requires head < |queue| && tail < |queue|
    ensures Held(queue, head, tail) == [] <==> head == tail
  {}

  /** One packet moves from what is held to the front of the output. */
  lemma DrawOne<P>(held: seq<P>, was: seq<P>, count: nat, pkt: P, rest: seq<P>)
    requires count < |held| && count < |was| && held[count..] == [pkt] + rest
    ensures (held[..count] + was[count..])[count := pkt] == held[..count + 1] + was[count + 1..]
    ensures rest == held[count + 1..]
  {
    assert held[count] == held[count..][0];
    assert held[count + 1..] == held[count..][1..];
  }

  function Flatten<P>(batches: seq<seq<P>>): seq<P> {
    if batches == [] then [] else Flatten(batches[..|batches| - 1]) + batches[|batches| - 1]
  }

  lemma FlattenNone<P>()
    ensures Flatten<P>([]) == []
  {}

  function Take<P>(held: seq<P>, max: nat): (seq<P>, seq<P>) {
    var k := if max < |held| then max else |held|;
    (held[..k], held[k..])
  }

  lemma FlattenSnoc<P>(batches: seq<seq<P>>, batch: seq<P>, rest: seq<P>)
    ensures Flatten(batches + [batch]) + rest == Flatten(batches) + (batch + rest)
  {
    assert (batches + [batch])[..|batches|] == batches;
  }

  lemma TakeSplits<P>(held: seq<P>, max: nat)
    ensures var (out, left) := Take(held, max);
            held == out + left && |out| <= max && (|out| == max || left == [])
  {}

  /** The bounded queue the ring stands for: a full queue refuses the packet. */
  function Put<P>(capacity: nat, held: seq<P>, pkt: P): seq<P> {
    if |held| < capacity then held + [pkt] else held
  }

  class Worker<P(0)> {
    const queue: array<P>
    var head: nat
    var tail: nat

    ghost predicate Valid()
      reads this
    {
      head < queue.Length && tail < queue.Length
    }

    ghost function Contents(): seq<P>
      requires Valid()
      reads this, queue
    {
      Held(queue[..], head, tail)
    }

    constructor (size: nat)
      requires 0 < size
      ensures Valid() && fresh(queue) && queue.Length == size && Contents() == []
    {
      queue := new P[size];
      head, tail := 0, 0;
    }

    /** queue_pkt_to_tx: the slot is written before the ring is found to be full. */
    method Enqueue(pkt: P)
      requires Valid()
      modifies this`head, queue
      ensures Valid() && Contents() == Put(queue.Length - 1, old(Contents()), pkt)
      ensures if |old(Contents())| < queue.Length - 1 then Contents() == old(Contents()) + [pkt] else Contents() == old(Contents())
    {
      var lastHead := head;
      queue[head] := pkt;
      head := head + 1;
      if queue.Length == head {
        head := 0;
      }
      if head == tail {
        head := lastHead;
      }
    }

    /** get_pkt_to_tx: up to max packets, moved to the front of pkts. */
    method Draw(pkts: array<P>, max: nat) returns (count: nat)
      requires Valid() && max <= pkts.Length && pkts != queue
      modifies this`tail, pkts
      ensures Valid() && count <= pkts.Length
      ensures (pkts[..count], Contents()) == Take(old(Contents()), max)
      ensures old(Contents()) == pkts[..count] + Contents() && count <= max && (count == max || Contents() == [])
      ensures pkts[count..] == old(pkts[count..])
    {
      hide Held;
      count := 0;
      ghost var held, was := Contents(), pkts[..];
      while head != tail
        invariant Valid() && count <= max && count <= |held|
        invariant pkts[..] == held[..count] + was[count..] && Contents() == held[count..]
        decreases |held| - count
      {
        HeldFromTail(queue[..], head, tail);
        if count >= max {
          break;
        }
        DrawOne(held, was, count, queue[tail], Held(queue[..], head, if tail + 1 == queue.Length then 0 else tail + 1));
        pkts[count] := queue[tail];
        count := count + 1;
        tail := tail + 1;
        if queue.Length == tail {
          tail := 0;
        }
      }
      HeldEmpty(queue[..], head, tail);
      assert pkts[..count] == pkts[..][..count] && pkts[count..] == pkts[..][count..];
      TakeSplits(held, max);
    }

    /** The drain loop of worker_loop: returns the batches handed to the distributor. */
    method Drain(pkts: array<P>, max: nat) returns (batches: seq<seq<P>>)
      requires Valid() && 0 < max <= pkts.Length && pkts != queue
      modifies this`tail, pkts
      ensures Valid() && Contents() == [] && Flatten(batches) == old(Contents())
      ensures forall i :: 0 <= i < |batches| ==> 0 < |batches[i]| <= max
    {
      hide Held, Flatten, Take;
      batches := [];
      FlattenNone<P>();
      assert [] + Contents() == Contents();
      while true
        invariant Valid() && Flatten(batches) + Contents() == old(Contents())
        invariant forall i :: 0 <= i < |batches| ==> 0 < |batches[i]| <= max
        decreases |Contents()|
      {
        ghost var held := Contents();
        var count := Draw(pkts, max);
        TakeSplits(held, max);
        FlattenSnoc(batches, pkts[..count], Contents());
        if 0 == count {
          assert pkts[..count] == [] && held == [];
          assert Flatten(batches) + [] == Flatten(batches);
          break;
        }
        batches := batches + [pkts[..count]];
      }
    }
  }

  datatype Event<P> = Queue(pkt: P) | DrawUpTo(max: nat)

  /** A run of the queue: packets held, packets accepted so far, packets handed out so far. */
  datatype Run<P> = Run(held: seq<P>, accepted: seq<P>, sent: seq<P>)

  function Step<P>(capacity: nat, run: Run<P>, e: Event<P>): Run<P> {
    match e
    case Queue(pkt) =>
      Run(Put(capacity, run.held, pkt), if |run.held| < capacity then run.accepted + [pkt] else run.accepted, run.sent)
    case DrawUpTo(max) =>
      var (out, left) := Take(run.held, max);
      Run(left, run.accepted, run.sent + out)
  }

  function RunAll<P>(capacity: nat, events: seq<Event<P>>): Run<P> {
    if events == [] then Run([], [], []) else Step(capacity, RunAll(capacity, events[..|events| - 1]), events[|events| - 1])
  }

  /** For any interleaving of queueing and drawing, packets leave in acceptance order, each once: those sent
      followed by those still held are exactly those accepted; and never more than the capacity is held. */
  lemma {:induction false} FirstInFirstOut<P>(capacity: nat, events: seq<Event<P>>)
    ensures var run := RunAll(capacity, events);
            run.sent + run.held == run.accepted && |run.held| <= capacity
  {
    if events != [] {
      FirstInFirstOut(capacity, events[..|events| - 1]);
      var run, e := RunAll(capacity, events[..|events| - 1]), events[|events| - 1];
      match e {
        case Queue(pkt) =>
          assert run.sent + (run.held + [pkt]) == (run.sent + run.held) + [pkt];
        case DrawUpTo(max) =>
          var (out, left) := Take(run.held, max);
          assert run.sent + out + left == run.sent + run.held;
      }
    }
  }
}
