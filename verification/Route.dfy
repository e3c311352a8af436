/** The route table (pfm_route.c): rows kept in step with a longest-prefix index. */
module Route {
  import opened Options

  type Ip = n: nat | n < 0x1_0000_0000

  /** The address without its k low bits. */
  function Drop(ip: nat, k: nat): nat
    decreases k
  {
    if k == 0 then ip else Drop(ip / 2, k - 1)
  }

  /** A prefix as the index keeps it: depth (1 to 32) and the network bits; host bits are masked away. */
  datatype Rule = Rule(depth: nat, bits: nat)

  function RuleAt(ip: Ip, depth: nat): Rule {
    Rule(depth, Drop(ip, if depth <= 32 then 32 - depth else 0))
  }

  predicate Covers(rule: Rule, ip: Ip) {
    RuleAt(ip, rule.depth) == rule
  }

  function Pow2(k: nat): (p: nat)
    ensures 0 < p
  {
    if k == 0 then 1 else 2 * Pow2(k - 1)
  }

  /** net/depth contains ip: both lie in the same block of 2^(32 - depth) addresses. */
  predicate Contains(net: Ip, depth: nat, ip: Ip)
    requires 1 <= depth <= 32
  {
    net / Pow2(32 - depth) == ip / Pow2(32 - depth)
  }

  lemma {:induction false} MulAtLeast(p: nat, a: nat, b: nat)
    requires a < b
    ensures p * a + p <= p * b
    decreases b
  {
    assert p * b == p * (b - 1) + p;
    if a < b - 1 {
      MulAtLeast(p, a, b - 1);
    }
  }

  lemma QuotientIs(x: nat, p: nat, q: nat, r: nat)
    requires x == p * q + r && r < p
    ensures x / p == q
  {
    var q', r' := x / p, x % p;
    assert x == p * q' + r';
    if q < q' {
      MulAtLeast(p, q, q');
    } else if q' < q {
      MulAtLeast(p, q', q);
    }
  }

  lemma HalfQuotient(x: nat, p: nat)
    requires 0 < p
    ensures (x / 2) / p == x / (2 * p)
  {
    var q, r := (x / 2) / p, (x / 2) % p;
    assert x / 2 == p * q + r;
    assert x == (2 * p) * q + (2 * r + x % 2);
    QuotientIs(x, 2 * p, q, 2 * r + x % 2);
  }

  lemma {:induction false} DropIsQuotient(ip: nat, k: nat)
    ensures Drop(ip, k) == ip / Pow2(k)
    decreases k
  {
    if k > 0 {
      DropIsQuotient(ip / 2, k - 1);
      HalfQuotient(ip, Pow2(k - 1));
    }
  }

  /** The masked prefix covers exactly the addresses of its block. */
  lemma CoversIff(net: Ip, depth: nat, ip: Ip)
    requires 1 <= depth <= 32
    ensures Covers(RuleAt(net, depth), ip) <==> Contains(net, depth, ip)
  {
    DropIsQuotient(net, 32 - depth);
    DropIsQuotient(ip, 32 - depth);
  }

  /** route_t; link_id is eight bits wide. */
  datatype Route = Route(linkId: nat, netMask: Ip, depth: nat, gateway: Ip)

  /** The arguments of one pfm_route_add, whether the index would take a new prefix, and the number that happens
      to stand in the row variable before the index is asked (the source does not initialise it). */
  datatype AddReq = AddReq(net: Ip, depth: nat, gateway: Ip, linkId: nat, indexTakes: bool, stray: nat)

  datatype Status = Added | IndexError | NoMemory

  datatype Table = Table(entries: seq<Route>, count: nat, lpm: map<Rule, nat>)

  /** The depths that the index knows. */
  predicate ValidReq(req: AddReq) {
    1 <= req.depth <= 32
  }

  function RuleOf(req: AddReq): Rule {
    RuleAt(req.net, req.depth)
  }

  function RouteOf(req: AddReq): Route {
    Route(req.linkId % 256, req.net, req.depth, req.gateway)
  }

  function RowRule(t: Table, i: nat): Rule
    requires i < |t.entries|
  {
    RuleAt(t.entries[i].netMask, t.entries[i].depth)
  }

  /** Prefixes are in bijection with rows 0 to count - 1. */
  ghost predicate InStep(t: Table) {
    t.count <= |t.entries| &&
    (forall rule :: rule in t.lpm ==> t.lpm[rule] < t.count && RowRule(t, t.lpm[rule]) == rule) &&
    forall i: nat :: i < t.count ==>
      1 <= t.entries[i].depth <= 32 && RowRule(t, i) in t.lpm && t.lpm[RowRule(t, i)] == i
  }

  predicate Fits(t: Table) {
    t.count <= |t.entries| && forall rule <- t.lpm :: t.lpm[rule] < |t.entries|
  }

  /** pfm_route_add. For a depth out of range the index answers with an error code, which is taken for a hit, so
      the stray row is written and success reported. */
  function Add(t: Table, req: AddReq): (r: (Table, Status))
    requires Fits(t) && (ValidReq(req) || req.stray < |t.entries|)
    ensures Fits(r.0) && |r.0.entries| == |t.entries|
  {
    var rule := RuleOf(req);
    if !ValidReq(req) then (t.(entries := t.entries[req.stray := RouteOf(req)]), Added)
    else if rule in t.lpm then (t.(entries := t.entries[t.lpm[rule] := RouteOf(req)]), Added)
    else if t.count < |t.entries| then
      if !req.indexTakes then (t, IndexError)
      else (Table(t.entries[t.count := RouteOf(req)], t.count + 1, t.lpm[rule := t.count]), Added)
    else (t, NoMemory)
  }

  /** The lookup of the longest stored prefix of at most this depth. */
  function Longest(lpm: map<Rule, nat>, ip: Ip, depth: nat): (k: Option<nat>)
    requires depth <= 32
    ensures k.Some? ==> exists rule :: rule in lpm && lpm[rule] == k.value
  {
    if depth == 0 then None
    else if RuleAt(ip, depth) in lpm then Some(lpm[RuleAt(ip, depth)])
    else Longest(lpm, ip, depth - 1)
  }

  /** Row i is in use and its prefix contains the address. */
  ghost predicate RowContains(t: Table, i: nat, ip: Ip)
    requires InStep(t)
  {
    i < t.count && Contains(t.entries[i].netMask, t.entries[i].depth, ip)
  }

  lemma RowContainsIff(t: Table, i: nat, ip: Ip)
    requires InStep(t) && i < t.count
    ensures RowContains(t, i, ip) <==> RowRule(t, i) == RuleAt(ip, t.entries[i].depth)
  {
    hide Contains, Drop;
    CoversIff(t.entries[i].netMask, t.entries[i].depth, ip);
  }

  /** The lookup finds the row with the longest of the prefixes that contain the address, if any does. */
  lemma {:induction false} LongestRow(t: Table, ip: Ip, depth: nat)
    requires InStep(t) && depth <= 32
    requires forall i: nat :: RowContains(t, i, ip) ==> t.entries[i].depth <= depth
    ensures match Longest(t.lpm, ip, depth)
            case Some(k) => RowContains(t, k, ip) && forall i: nat :: RowContains(t, i, ip) ==> t.entries[i].depth <= t.entries[k].depth
            case None => forall i: nat :: !RowContains(t, i, ip)
  {
    hide Drop, Contains;
    forall i: nat | i < t.count
      ensures RowContains(t, i, ip) <==> RowRule(t, i) == RuleAt(ip, t.entries[i].depth)
    {
      RowContainsIff(t, i, ip);
    }
    if depth > 0 && RuleAt(ip, depth) !in t.lpm {
      LongestRow(t, ip, depth - 1);
    }
  }

  lemma AddKeepsInStep(t: Table, req: AddReq)
    requires InStep(t) && ValidReq(req)
    ensures InStep(Add(t, req).0)
  {
    hide Drop, RuleAt;
    assert RuleAt(RouteOf(req).netMask, RouteOf(req).depth) == RuleOf(req);
  }

  /** The row holds what the request asked for; link_id is cut to eight bits. */
  predicate Holds(row: Route, req: AddReq) {
    row.netMask == req.net && row.depth == req.depth && row.gateway == req.gateway && row.linkId == req.linkId % 256
  }

  /** An add keeps rows and index in step if and only if its depth is in range or the stray row is not in use.
      Out of range it reports success all the same, and leaves the index as it was. */
  lemma AddKeepsInStepIff(t: Table, req: AddReq)
    requires InStep(t) && (ValidReq(req) || req.stray < |t.entries|)
    ensures InStep(Add(t, req).0) <==> ValidReq(req) || t.count <= req.stray
    ensures !ValidReq(req) ==>
      var (t', status) := Add(t, req);
      status == Added && t'.lpm == t.lpm && t'.count == t.count && Holds(t'.entries[req.stray], req) &&
      forall i: nat :: i < |t.entries| && i != req.stray ==> t'.entries[i] == t.entries[i]
  {
    hide Drop, RuleAt;
    if ValidReq(req) {
      AddKeepsInStep(t, req);
    } else if t.count <= req.stray {
      assert forall i: nat :: i < t.count ==> RowRule(Add(t, req).0, i) == RowRule(t, i);
    } else {
      assert Add(t, req).0.entries[req.stray].depth == req.depth;
    }
  }

  class RouteTable {
    const entries: array<Route>
    var count: nat
    var lpm: map<Rule, nat>

    ghost predicate Valid()
      reads this, entries
    {
      InStep(Abs())
    }

    ghost function Abs(): Table
      reads this, entries
    {
      Table(entries[..], count, lpm)
    }

    constructor (size: nat)
      ensures Valid() && count == 0 && lpm == map[] && entries.Length == size
    {
      entries := new Route[size](_ => Route(0, 0, 0, 0));
      count, lpm := 0, map[];
    }

    method RouteAdd(req: AddReq) returns (status: Status)
      requires Valid() && (ValidReq(req) || req.stray < entries.Length)
      modifies this`count, this`lpm, entries
      ensures (Abs(), status) == Add(old(Abs()), req)
      ensures Valid() <==> ValidReq(req) || old(count) <= req.stray
    {
      hide Drop, RuleAt;
      AddKeepsInStepIff(Abs(), req);
      var rule := RuleOf(req);
      var key := req.stray;
      if !ValidReq(req) || rule in lpm {
        if ValidReq(req) {
          key := lpm[rule];
        }
      } else if count < entries.Length {
        key := count;
        if !req.indexTakes {
          return IndexError;
        }
        lpm := lpm[rule := key];
        count := count + 1;
      } else {
        return NoMemory;
      }
      entries[key] := RouteOf(req);
      assert entries[..] == old(entries[..])[key := RouteOf(req)];
      return Added;
    }

    method RouteQuery(ip: Ip) returns (r: Option<nat>)
      requires Valid()
      ensures r == Longest(lpm, ip, 32)
      ensures match r
              case Some(k) => RowContains(Abs(), k, ip) &&
                              forall i: nat :: RowContains(Abs(), i, ip) ==> entries[i].depth <= entries[k].depth
              case None => forall i: nat :: !RowContains(Abs(), i, ip)
    {
      LongestRow(Abs(), ip, 32);
      r := Longest(lpm, ip, 32);
    }
  }

  /** The prefixes indexed to the first n rows. */
  ghost function RulesBelow(t: Table, n: nat): set<Rule> {
    set rule | rule in t.lpm && t.lpm[rule] < n
  }

  lemma RulesBelowStep(t: Table, n: nat)
    requires InStep(t) && n < t.count
    ensures RulesBelow(t, n + 1) == RulesBelow(t, n) + {RowRule(t, n)} && RowRule(t, n) !in RulesBelow(t, n)
  {
    hide RuleAt;
  }

  lemma {:induction false} LpmCount(t: Table, n: nat)
    requires InStep(t) && n <= t.count
    ensures |RulesBelow(t, n)| == n && (n == t.count ==> |t.lpm| == n)
  {
    hide RuleAt;
    if n > 0 {
      LpmCount(t, n - 1);
      RulesBelowStep(t, n - 1);
    } else {
      assert RulesBelow(t, n) == {};
    }
    if n == t.count {
      assert RulesBelow(t, n) == t.lpm.Keys;
    }
  }

  /** A full table refuses exactly the new prefixes; a stored one is always accepted and updated in its row. */
  lemma RefusedOnlyIfNewAndFull(t: Table, req: AddReq)
    requires InStep(t) && ValidReq(req)
    ensures Add(t, req).1 == NoMemory <==> RuleOf(req) !in t.lpm && |t.lpm| == |t.entries|
    ensures Add(t, req).1 == IndexError <==> RuleOf(req) !in t.lpm && |t.lpm| < |t.entries| && !req.indexTakes
    ensures Add(t, req).1 != Added ==> Add(t, req).0 == t
    ensures |t.lpm| == t.count
  {
    LpmCount(t, t.count);
  }

  predicate AllValid(reqs: seq<AddReq>) {
    forall i :: 0 <= i < |reqs| ==> ValidReq(reqs[i])
  }

  /** A run of adds, with the requests accepted so far. */
  function RunAdds(size: nat, reqs: seq<AddReq>): (r: (Table, seq<AddReq>))
    requires AllValid(reqs)
    ensures Fits(r.0) && |r.0.entries| == size
  {
    if reqs == [] then (Table(seq(size, _ => Route(0, 0, 0, 0)), 0, map[]), [])
    else
      var (t, accepted) := RunAdds(size, reqs[..|reqs| - 1]);
      var (t', status) := Add(t, reqs[|reqs| - 1]);
      (t', if status == Added then accepted + [reqs[|reqs| - 1]] else accepted)
  }

  /** The last request for a prefix. */
  function LastFor(reqs: seq<AddReq>, rule: Rule): (k: Option<nat>)
    ensures match k
            case Some(i) => i < |reqs| && RuleOf(reqs[i]) == rule && forall j :: i < j < |reqs| ==> RuleOf(reqs[j]) != rule
            case None => forall j :: 0 <= j < |reqs| ==> RuleOf(reqs[j]) != rule
  {
    if reqs == [] then None
    else if RuleOf(reqs[|reqs| - 1]) == rule then Some(|reqs| - 1)
    else LastFor(reqs[..|reqs| - 1], rule)
  }

  /** What the table remembers of one prefix: its last request. */
  ghost predicate RemembersRule(t: Table, accepted: seq<AddReq>, rule: Rule)
    requires Fits(t)
  {
    match LastFor(accepted, rule)
    case None => rule !in t.lpm
    case Some(i) => rule in t.lpm && t.entries[t.lpm[rule]] == RouteOf(accepted[i])
  }

  /** The index holds exactly the accepted prefixes, each with the last request accepted for it. */
  ghost predicate Remembers(t: Table, accepted: seq<AddReq>) {
    InStep(t) && AllValid(accepted) && forall rule :: RemembersRule(t, accepted, rule)
  }

  lemma LastForAppend(accepted: seq<AddReq>, req: AddReq, rule: Rule)
    requires AllValid(accepted) && ValidReq(req)
    ensures LastFor(accepted + [req], rule) ==
            if RuleOf(req) == rule then Some(|accepted|) else LastFor(accepted, rule)
  {
    assert (accepted + [req])[..|accepted|] == accepted;
  }

  /** The rows of the other prefixes do not change. */
  lemma AddFrames(t: Table, req: AddReq, rule: Rule)
    requires InStep(t) && ValidReq(req) && rule in t.lpm && rule != RuleOf(req)
    ensures var t' := Add(t, req).0;
            rule in t'.lpm && t'.lpm[rule] == t.lpm[rule] && t'.entries[t'.lpm[rule]] == t.entries[t.lpm[rule]]
  {}

  lemma AddRemembersRule(t: Table, accepted: seq<AddReq>, req: AddReq, rule: Rule)
    requires InStep(t) && AllValid(accepted) && ValidReq(req) && RemembersRule(t, accepted, rule)
    ensures var (t', status) := Add(t, req);
            RemembersRule(t', if status == Added then accepted + [req] else accepted, rule)
  {
    hide Drop, RuleAt, LastFor;
    LastForAppend(accepted, req, rule);
    if rule in t.lpm && rule != RuleOf(req) {
      AddFrames(t, req, rule);
    }
  }

  lemma AddRemembers(t: Table, accepted: seq<AddReq>, req: AddReq)
    requires Remembers(t, accepted) && ValidReq(req)
    ensures var (t', status) := Add(t, req);
            Remembers(t', if status == Added then accepted + [req] else accepted)
  {
    hide Drop, RuleAt, LastFor, RouteOf, RemembersRule;
    AddKeepsInStep(t, req);
    var (t', status) := Add(t, req);
    var log := if status == Added then accepted + [req] else accepted;
    forall rule
      ensures RemembersRule(t', log, rule)
    {
      AddRemembersRule(t, accepted, req, rule);
    }
  }

  lemma {:induction false} RunRemembers(size: nat, reqs: seq<AddReq>)
    requires AllValid(reqs)
    ensures Remembers(RunAdds(size, reqs).0, RunAdds(size, reqs).1)
  {
    if reqs != [] {
      RunRemembers(size, reqs[..|reqs| - 1]);
      var (t, accepted) := RunAdds(size, reqs[..|reqs| - 1]);
      AddRemembers(t, accepted, reqs[|reqs| - 1]);
    }
  }

  /** The prefix of a request contains the address. */
  ghost predicate ReqContains(req: AddReq, ip: Ip)
    requires ValidReq(req)
  {
    Contains(req.net, req.depth, ip)
  }

  lemma ReqContainsIff(req: AddReq, ip: Ip)
    requires ValidReq(req)
    ensures ReqContains(req, ip) <==> RuleOf(req) == RuleAt(ip, req.depth)
  {
    CoversIff(req.net, req.depth, ip);
  }

  /** accepted[i] is the answer for ip: of the requests whose prefix contains ip it has the longest prefix, and
      is the last one for it. */
  ghost predicate IsAnswer(accepted: seq<AddReq>, i: nat, ip: Ip)
    requires AllValid(accepted)
  {
    i < |accepted| && ReqContains(accepted[i], ip) &&
    forall j :: 0 <= j < |accepted| && ReqContains(accepted[j], ip) ==>
      accepted[j].depth < accepted[i].depth || (accepted[j].depth == accepted[i].depth && j <= i)
  }

  lemma HitAnswers(t: Table, accepted: seq<AddReq>, ip: Ip, depth: nat) returns (i: nat)
    requires Remembers(t, accepted) && depth <= 32 && RuleAt(ip, depth) in t.lpm
    requires forall j :: 0 <= j < |accepted| && ReqContains(accepted[j], ip) ==> accepted[j].depth <= depth
    ensures IsAnswer(accepted, i, ip) && t.lpm[RuleAt(ip, depth)] < t.count <= |t.entries|
    ensures Holds(t.entries[t.lpm[RuleAt(ip, depth)]], accepted[i])
  {
    hide Drop, ReqContains;
    assert RemembersRule(t, accepted, RuleAt(ip, depth));
    i := LastFor(accepted, RuleAt(ip, depth)).value;
    ReqContainsIff(accepted[i], ip);
    forall j | 0 <= j < |accepted| && ReqContains(accepted[j], ip)
      ensures accepted[j].depth < accepted[i].depth || (accepted[j].depth == accepted[i].depth && j <= i)
    {
      ReqContainsIff(accepted[j], ip);
    }
  }

  lemma MissedDepth(t: Table, accepted: seq<AddReq>, ip: Ip, depth: nat)
    requires Remembers(t, accepted) && RuleAt(ip, depth) !in t.lpm
    ensures forall j :: 0 <= j < |accepted| && ReqContains(accepted[j], ip) ==> accepted[j].depth != depth
  {
    hide ReqContains;
    assert RemembersRule(t, accepted, RuleAt(ip, depth));
    forall j | 0 <= j < |accepted| && ReqContains(accepted[j], ip)
      ensures accepted[j].depth != depth
    {
      ReqContainsIff(accepted[j], ip);
    }
  }

  lemma {:induction false} LongestAnswers(t: Table, accepted: seq<AddReq>, ip: Ip, depth: nat)
    requires Remembers(t, accepted) && depth <= 32
    requires forall j :: 0 <= j < |accepted| && ReqContains(accepted[j], ip) ==> accepted[j].depth <= depth
    ensures match Longest(t.lpm, ip, depth)
            case Some(k) => k < t.count <= |t.entries| &&
                            exists i: nat :: IsAnswer(accepted, i, ip) && Holds(t.entries[k], accepted[i])
            case None => forall j :: 0 <= j < |accepted| ==> !ReqContains(accepted[j], ip)
  {
    hide Drop, InStep, IsAnswer, Holds, ReqContains, RemembersRule;
    if depth > 0 {
      if RuleAt(ip, depth) in t.lpm {
        var i := HitAnswers(t, accepted, ip, depth);
      } else {
        MissedDepth(t, accepted, ip, depth);
        LongestAnswers(t, accepted, ip, depth - 1);
      }
    }
  }

  /** After any sequence of adds a query returns the route most recently accepted for the longest accepted prefix
      that contains the address (there is only one such), and nothing exactly when no accepted prefix contains it. */
  lemma QueryAgreesWithHistory(size: nat, reqs: seq<AddReq>, ip: Ip)
    requires AllValid(reqs)
    ensures var (t, accepted) := RunAdds(size, reqs);
            AllValid(accepted) && InStep(t) &&
            match Longest(t.lpm, ip, 32)
            case Some(k) => k < t.count && exists i: nat :: IsAnswer(accepted, i, ip) && Holds(t.entries[k], accepted[i])
            case None => forall j :: 0 <= j < |accepted| ==> !ReqContains(accepted[j], ip)
    ensures var accepted := RunAdds(size, reqs).1;
            forall i: nat, j: nat :: IsAnswer(accepted, i, ip) && IsAnswer(accepted, j, ip) ==> i == j
  {
    hide ReqContains;
    RunRemembers(size, reqs);
    var (t, accepted) := RunAdds(size, reqs);
    LongestAnswers(t, accepted, ip, 32);
  }
}
