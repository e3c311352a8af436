/** The response lists of a setup: accepted and rejected requests, split in request order. */
module Outcomes {
  import opened Drb

  function Accepts<S, F>(outs: seq<Outcome<S, F>>): (ss: seq<S>)
    ensures |ss| <= |outs|
  {
    if outs == [] then []
    else
      var last := outs[|outs| - 1];
      Accepts(outs[..|outs| - 1]) + (if last.Accepted? then [last.succ] else [])
  }

  function Rejects<S, F>(outs: seq<Outcome<S, F>>): (fs: seq<F>)
    ensures |fs| <= |outs|
  {
    if outs == [] then []
    else
      var last := outs[|outs| - 1];
      Rejects(outs[..|outs| - 1]) + (if last.Rejected? then [last.fail] else [])
  }

  lemma AcceptsStep<S, F>(outs: seq<Outcome<S, F>>, o: Outcome<S, F>)
    ensures Accepts(outs + [o]) == Accepts(outs) + (if o.Accepted? then [o.succ] else [])
    ensures Rejects(outs + [o]) == Rejects(outs) + (if o.Rejected? then [o.fail] else [])
  {
    assert (outs + [o])[..|outs|] == outs;
  }

  lemma {:induction false} PartitionCount<S, F>(outs: seq<Outcome<S, F>>)
    ensures |Accepts(outs)| + |Rejects(outs)| == |outs|
  {
    if outs != [] {
      PartitionCount(outs[..|outs| - 1]);
    }
  }

  /** The i-th outcome is in the list of its kind, at the position given by the number of its kind before it. */
  ghost predicate Placed<S, F>(outs: seq<Outcome<S, F>>, i: nat)
    requires i < |outs|
  {
    var a, r := |Accepts(outs[..i])|, |Rejects(outs[..i])|;
    match outs[i]
    case Accepted(s) => a < |Accepts(outs)| && Accepts(outs)[a] == s
    case Rejected(f) => r < |Rejects(outs)| && Rejects(outs)[r] == f
  }

  lemma {:induction false} PlacedInOrder<S, F>(outs: seq<Outcome<S, F>>, i: nat)
    requires i < |outs|
    ensures Placed(outs, i)
  {
    var init := outs[..|outs| - 1];
    if i < |init| {
      PlacedInOrder(init, i);
      assert outs[..i] == init[..i];
    }
  }

  /** The two lists together hold every outcome once, each list in request order: a stable partition. */
  lemma StablePartition<S, F>(outs: seq<Outcome<S, F>>)
    ensures |Accepts(outs)| + |Rejects(outs)| == |outs|
    ensures forall i: nat :: i < |outs| ==> Placed(outs, i)
  {
    PartitionCount(outs);
    forall i: nat | i < |outs|
      ensures Placed(outs, i)
    {
      PlacedInOrder(outs, i);
    }
  }
}
