/** The round-robin readers: link_read (pfm_link.c) and kni_read (pfm_kni.c). */
module RoundRobin {
  import opened Options
  import opened Circular

  /** The first ready index from `next` on, going up circularly, if any. */
  ghost predicate Serves(next: nat, ready: seq<bool>, k: nat)
    requires next < |ready|
  {
    k < |ready| && ready[k] && forall j: nat :: j < |ready| && Gap(next, j, |ready|) < Gap(next, k, |ready|) ==> !ready[j]
  }

  ghost predicate NoneReady(ready: seq<bool>) {
    forall j :: 0 <= j < |ready| ==> !ready[j]
  }

  /** One call of either reader: the cursor before it, what was ready, and what it served. */
  datatype Call = Call(next: nat, ready: seq<bool>, served: Option<nat>)

  /** What a call does: it serves the first ready index from the cursor on, if any, and leaves the cursor after it. */
  ghost predicate Follows(n: nat, call: Call, next: nat) {
    call.next < n == |call.ready| && next < n &&
    match call.served
    case Some(k) => Serves(call.next, call.ready, k) && next == Next(k, n)
    case None => NoneReady(call.ready) && next == call.next
  }

  /** Successive calls over n indexes, and the cursor after them. */
  ghost predicate History(n: nat, calls: seq<Call>, final: nat) {
    forall t {:trigger calls[t]} :: 0 <= t < |calls| ==>
      Follows(n, calls[t], if t + 1 < |calls| then calls[t + 1].next else final)
  }

  lemma FollowsBound(n: nat, call: Call, next: nat)
    requires Follows(n, call, next)
    ensures next < n
  {}

  lemma HistorySnoc(n: nat, calls: seq<Call>, call: Call, next: nat)
    requires History(n, calls, call.next) && Follows(n, call, next)
    ensures History(n, calls + [call], next)
  {}

  /** The indexes less than `seen` steps from the start are not ready. */
  ghost predicate Passed(start: nat, ready: seq<bool>, seen: nat)
    requires start < |ready|
  {
    forall j: nat :: j < |ready| && Gap(start, j, |ready|) < seen ==> !ready[j]
  }

  lemma ScanStart(start: nat, ready: seq<bool>)
    requires start < |ready|
    ensures Gap(start, start, |ready|) == 0 && Passed(start, ready, 0)
  {}

  lemma ScanFound(start: nat, ready: seq<bool>, i: nat)
    requires start < |ready| && i < |ready| && Passed(start, ready, Gap(start, i, |ready|)) && ready[i]
    ensures Follows(|ready|, Call(start, ready, Some(i)), Next(i, |ready|))
  {}

  lemma ScanPassed(start: nat, ready: seq<bool>, i: nat)
    requires start < |ready| && i < |ready| && Passed(start, ready, Gap(start, i, |ready|)) && !ready[i]
    ensures var n := |ready|;
            Passed(start, ready, Gap(start, i, n) + 1) &&
            if Next(i, n) == start then Follows(n, Call(start, ready, None), start) && NoneReady(ready)
            else Gap(start, Next(i, n), n) == Gap(start, i, n) + 1
  {
    var n := |ready|;
    forall j: nat | j < n && Gap(start, j, n) < Gap(start, i, n) + 1
      ensures !ready[j]
    {
      assert Gap(start, j, n) == Gap(start, i, n) ==> j == i;
    }
  }

  /** link_info_t, as far as reading uses it. */
  datatype Link = Link(linkId: nat, enabled: bool)

  function Min(a: nat, b: nat): (m: nat)
    ensures m <= a && m <= b && (m == a || m == b)
  {
    if a < b then a else b
  }

  function LinksReady(links: seq<Link>, waiting: seq<nat>, burst: nat): seq<bool>
    requires |links| == |waiting|
  {
    seq(|links|, i requires 0 <= i < |links| => links[i].enabled && 0 < waiting[i] && 0 < burst)
  }

  /** What one read finds. */
  datatype LinkTurn = LinkTurn(links: seq<Link>, waiting: seq<nat>)

  class LinkReader {
    var next: nat

    constructor ()
      ensures next == 0
    {
      next := 0;
    }

    /** link_read. waiting[i] packets can be received from link i; the result is the burst's size and, if it is
        not empty, the link's index. One call inspects no link twice. */
    method Read(links: seq<Link>, waiting: seq<nat>, burst: nat) returns (size: nat, served: Option<nat>, linkId: Option<nat>)
      requires next < |links| == |waiting|
      modifies this
      ensures Follows(|links|, Call(old(next), LinksReady(links, waiting, burst), served), next)
      ensures match served
              case Some(k) => links[k].enabled && size == Min(waiting[k], burst) && 0 < size && linkId == Some(links[k].linkId)
              case None =>
                size == 0 && forall i :: 0 <= i < |links| ==> !(links[i].enabled && 0 < waiting[i] && 0 < burst)
    {
      hide Follows, Passed, Gap;
      var n := |links|;
      var start := next;
      ghost var seen := 0;
      ghost var ready := LinksReady(links, waiting, burst);
      ScanStart(start, ready);
      size, served, linkId := 0, None, None;
      while true
        invariant next < n && seen < n && size == 0
        invariant seen == Gap(start, next, n)
        invariant Passed(start, ready, seen)
        decreases n - seen
      {
        size := 0;
        var i := next;
        if links[i].enabled {
          size := Min(waiting[i], burst);
          linkId := Some(links[i].linkId);
        }
        next := next + 1;
        if next >= n {
          next := 0;
        }
        if 0 < size {
          ScanFound(start, ready, i);
          return size, Some(i), linkId;
        }
        ScanPassed(start, ready, i);
        seen := seen + 1;
        if next == start {
          break;
        }
      }
      assert forall i :: 0 <= i < n ==> !ready[i] && ready[i] == (links[i].enabled && 0 < waiting[i] && 0 < burst);
    }

    /** The reads of rx_loop, one a turn, whatever the links are like at each. */
    method ReadTurns(turns: seq<LinkTurn>, n: nat, burst: nat) returns (calls: seq<Call>)
      requires next < n && forall t :: 0 <= t < |turns| ==> |turns[t].links| == |turns[t].waiting| == n
      modifies this
      ensures |calls| == |turns| && History(n, calls, next) && next < n
      ensures forall t :: 0 <= t < |turns| ==> calls[t].ready == LinksReady(turns[t].links, turns[t].waiting, burst)
    {
      hide Follows, LinksReady;
      calls := [];
      for i := 0 to |turns|
        invariant |calls| == i && next < n && History(n, calls, next)
        invariant forall t :: 0 <= t < i ==> calls[t].ready == LinksReady(turns[t].links, turns[t].waiting, burst)
      {
        var before := next;
        var ready := LinksReady(turns[i].links, turns[i].waiting, burst);
        var size, served, linkId := Read(turns[i].links, turns[i].waiting, burst);
        FollowsBound(n, Call(before, ready, served), next);
        HistorySnoc(n, calls, Call(before, ready, served), next);
        calls := calls + [Call(before, ready, served)];
      }
    }
  }

  /** kni_info_t, as far as reading uses it: whether it has a KNI, and its state after pending requests have been
      handled. */
  datatype Kni = Kni(linkId: nat, present: bool, enabled: bool)

  function KnisReady(knis: seq<Kni>, waiting: seq<nat>, burst: nat): seq<bool>
    requires |knis| == |waiting|
  {
    seq(|knis|, i requires 0 <= i < |knis| => knis[i].present && knis[i].enabled && 0 < waiting[i] && 0 < burst)
  }

  datatype KniTurn = KniTurn(knis: seq<Kni>, waiting: seq<nat>)

  class KniReader {
    var next: nat

    constructor ()
      ensures next == 0
    {
      next := 0;
    }

    /** kni_read */
    method Read(knis: seq<Kni>, waiting: seq<nat>, burst: nat) returns (size: nat, served: Option<nat>, linkId: Option<nat>)
      requires next < |knis| == |waiting|
      modifies this
      ensures Follows(|knis|, Call(old(next), KnisReady(knis, waiting, burst), served), next)
      ensures match served
              case Some(k) => knis[k].present && knis[k].enabled && size == Min(waiting[k], burst) && 0 < size && linkId == Some(knis[k].linkId)
              case None =>
                size == 0 && forall i :: 0 <= i < |knis| ==> !(knis[i].present && knis[i].enabled && 0 < waiting[i] && 0 < burst)
    {
      hide Follows, Passed, Gap;
      var n := |knis|;
      var start := next;
      ghost var seen := 0;
      ghost var ready := KnisReady(knis, waiting, burst);
      ScanStart(start, ready);
      size, served, linkId := 0, None, None;
      while true
        invariant next < n && seen < n && size == 0
        invariant seen == Gap(start, next, n)
        invariant Passed(start, ready, seen)
        decreases n - seen
      {
        size := 0;
        var i := next;
        if knis[i].present {
          if knis[i].enabled {
            size := Min(waiting[i], burst);
            linkId := Some(knis[i].linkId);
          }
        }
        next := next + 1;
        if next >= n {
          next := 0;
        }
        if 0 < size {
          ScanFound(start, ready, i);
          return size, Some(i), linkId;
        }
        ScanPassed(start, ready, i);
        seen := seen + 1;
        if next == start {
          break;
        }
      }
      assert forall i :: 0 <= i < n ==> !ready[i] && ready[i] == (knis[i].present && knis[i].enabled && 0 < waiting[i] && 0 < burst);
    }

    /** The reads of tx_loop, one a turn, whatever the KNIs are like at each. */
    method ReadTurns(turns: seq<KniTurn>, n: nat, burst: nat) returns (calls: seq<Call>)
      requires next < n && forall t :: 0 <= t < |turns| ==> |turns[t].knis| == |turns[t].waiting| == n
      modifies this
      ensures |calls| == |turns| && History(n, calls, next) && next < n
      ensures forall t :: 0 <= t < |turns| ==> calls[t].ready == KnisReady(turns[t].knis, turns[t].waiting, burst)
    {
      hide Follows, KnisReady;
      calls := [];
      for i := 0 to |turns|
        invariant |calls| == i && next < n && History(n, calls, next)
        invariant forall t :: 0 <= t < i ==> calls[t].ready == KnisReady(turns[t].knis, turns[t].waiting, burst)
      {
        var before := next;
        var ready := KnisReady(turns[i].knis, turns[i].waiting, burst);
        var size, served, linkId := Read(turns[i].knis, turns[i].waiting, burst);
        FollowsBound(n, Call(before, ready, served), next);
        HistorySnoc(n, calls, Call(before, ready, served), next);
        calls := calls + [Call(before, ready, served)];
      }
    }
  }

  /** An index that is ready at every call is reached within as many calls as it is steps away. */
  lemma {:induction false} ServedWithinGap(n: nat, calls: seq<Call>, final: nat, t: nat, x: nat)
    requires History(n, calls, final) && x < n && t < |calls| && calls[t].next < n
    requires t + Gap(calls[t].next, x, n) < |calls|
    requires forall s :: t <= s <= t + Gap(calls[t].next, x, n) ==> |calls[s].ready| == n && calls[s].ready[x]
    ensures exists s :: t <= s <= t + Gap(calls[t].next, x, n) && calls[s].served == Some(x)
    decreases Gap(calls[t].next, x, n)
  {
    var c := calls[t];
    assert c.ready[x];
    var k := c.served.value;
    if k == x {
      assert calls[t].served == Some(x);
    } else {
      assert Gap(c.next, k, n) < Gap(c.next, x, n);
      assert calls[t + 1].next == Next(k, n);
      ServedWithinGap(n, calls, final, t + 1, x);
    }
  }

  /** Fairness: with n indexes, one that is ready at each of n successive calls is served by one of them,
      whatever the others do. */
  lemma ServedWithinRound(n: nat, calls: seq<Call>, final: nat, t: nat, x: nat)
    requires History(n, calls, final) && x < n && t + n <= |calls|
    requires forall s :: t <= s < t + n ==> |calls[s].ready| == n && calls[s].ready[x]
    ensures exists s :: t <= s < t + n && calls[s].served == Some(x)
  {
    assert calls[t].next < n;
    ServedWithinGap(n, calls, final, t, x);
    var s :| t <= s <= t + Gap(calls[t].next, x, n) && calls[s].served == Some(x);
  }
}
