/** The transmit loop (pfm_tx_loop.c): a dequeued burst of packets is split into one burst per run of packets
    for the same link. */
module TxBatch {
  /** An mbuf: an identity, and the link it is to leave by. */
  datatype Packet = Packet(id: nat, port: int)

  datatype Burst = Burst(link: int, pkts: seq<Packet>)

  /** One more packet: it joins the last burst if that is for its link. */
  function Extend(bs: seq<Burst>, p: Packet): seq<Burst> {
    if bs != [] && bs[|bs| - 1].link == p.port then bs[..|bs| - 1] + [Burst(p.port, bs[|bs| - 1].pkts + [p])]
    else bs + [Burst(p.port, [p])]
  }

  /** The runs of packets for the same link, in order. */
  function Bursts(pkts: seq<Packet>): seq<Burst> {
    if pkts == [] then [] else Extend(Bursts(pkts[..|pkts| - 1]), pkts[|pkts| - 1])
  }

  function Join(bs: seq<Burst>): seq<Packet> {
    if bs == [] then [] else Join(bs[..|bs| - 1]) + bs[|bs| - 1].pkts
  }

  ghost predicate ForOneLink(b: Burst) {
    b.pkts != [] && forall i :: 0 <= i < |b.pkts| ==> b.pkts[i].port == b.link
  }

  /** Every burst is non-empty and for one link only, and adjacent bursts are for different links. */
  ghost predicate WellSplit(bs: seq<Burst>) {
    (forall i :: 0 <= i < |bs| ==> ForOneLink(bs[i])) &&
    forall i :: 0 < i < |bs| ==> bs[i - 1].link != bs[i].link
  }

  lemma JoinSnoc(bs: seq<Burst>, b: Burst)
    ensures Join(bs + [b]) == Join(bs) + b.pkts
  {
    assert (bs + [b])[..|bs|] == bs;
  }

  lemma ExtendSplits(bs: seq<Burst>, p: Packet)
    requires WellSplit(bs)
    ensures WellSplit(Extend(bs, p)) && Join(Extend(bs, p)) == Join(bs) + [p]
  {
    if bs != [] && bs[|bs| - 1].link == p.port {
      var before, last := bs[..|bs| - 1], bs[|bs| - 1];
      JoinSnoc(before, Burst(p.port, last.pkts + [p]));
      assert Join(before) + (last.pkts + [p]) == (Join(before) + last.pkts) + [p];
    } else {
      JoinSnoc(bs, Burst(p.port, [p]));
    }
  }

  lemma NothingSplit()
    ensures WellSplit([]) && Join([]) == []
  {}

  /** The bursts are well split and concatenate to the packets. */
  lemma {:induction false} BurstsSplit(pkts: seq<Packet>)
    ensures WellSplit(Bursts(pkts)) && Join(Bursts(pkts)) == pkts
  {
    hide Extend, WellSplit, Join;
    if pkts != [] {
      BurstsSplit(pkts[..|pkts| - 1]);
      ExtendSplits(Bursts(pkts[..|pkts| - 1]), pkts[|pkts| - 1]);
      assert pkts == pkts[..|pkts| - 1] + [pkts[|pkts| - 1]];
    } else {
      NothingSplit();
    }
  }

  /** The bursts without their very last packet. */
  function Trim(bs: seq<Burst>): seq<Burst>
    requires bs != []
  {
    var last := bs[|bs| - 1];
    if |last.pkts| <= 1 then bs[..|bs| - 1]
    else bs[..|bs| - 1] + [Burst(last.link, last.pkts[..|last.pkts| - 1])]
  }

  lemma TrimExtends(bs: seq<Burst>)
    requires WellSplit(bs) && bs != []
    ensures var last := bs[|bs| - 1];
            last.pkts != [] &&
            var p := last.pkts[|last.pkts| - 1];
            WellSplit(Trim(bs)) && Extend(Trim(bs), p) == bs && Join(bs) == Join(Trim(bs)) + [p]
  {
    var before, last := bs[..|bs| - 1], bs[|bs| - 1];
    assert ForOneLink(last);
    var p := last.pkts[|last.pkts| - 1];
    assert last.pkts == last.pkts[..|last.pkts| - 1] + [p];
    if |last.pkts| > 1 {
      JoinSnoc(before, Burst(last.link, last.pkts[..|last.pkts| - 1]));
      assert Extend(Trim(bs), p) == before + [last];
    } else {
      assert last == Burst(p.port, [p]);
    }
  }

  /** There is only one way to split packets like that. */
  lemma {:induction false} SplitIsUnique(bs: seq<Burst>)
    requires WellSplit(bs)
    ensures Bursts(Join(bs)) == bs
    decreases |Join(bs)|
  {
    hide WellSplit, Extend, Trim;
    if bs != [] {
      TrimExtends(bs);
      SplitIsUnique(Trim(bs));
      assert Join(bs)[..|Join(bs)| - 1] == Join(Trim(bs));
    }
  }

  function Min(a: nat, b: nat): (m: nat)
    ensures m <= a && m <= b && (m == a || m == b)
  {
    if a < b then a else b
  }

  /** What the driver takes of each burst, and what is freed; room(i) is the space it has for the i-th burst. */
  ghost function Sent(bs: seq<Burst>, room: nat -> nat): seq<Packet> {
    if bs == [] then []
    else
      var k := |bs| - 1;
      Sent(bs[..k], room) + bs[k].pkts[..Min(room(k), |bs[k].pkts|)]
  }

  ghost function Dropped(bs: seq<Burst>, room: nat -> nat): seq<Packet> {
    if bs == [] then []
    else
      var k := |bs| - 1;
      Dropped(bs[..k], room) + bs[k].pkts[Min(room(k), |bs[k].pkts|)..]
  }

  lemma SentSnoc(bs: seq<Burst>, b: Burst, room: nat -> nat)
    ensures Sent(bs + [b], room) == Sent(bs, room) + b.pkts[..Min(room(|bs|), |b.pkts|)]
    ensures Dropped(bs + [b], room) == Dropped(bs, room) + b.pkts[Min(room(|bs|), |b.pkts|)..]
  {
    assert (bs + [b])[..|bs|] == bs;
  }

  /** Every packet is either transmitted or freed, exactly once. */
  lemma {:induction false} EveryPacketOnce(bs: seq<Burst>, room: nat -> nat)
    ensures multiset(Sent(bs, room)) + multiset(Dropped(bs, room)) == multiset(Join(bs))
  {
    if bs != [] {
      var k := |bs| - 1;
      EveryPacketOnce(bs[..k], room);
      var m := Min(room(k), |bs[k].pkts|);
      assert bs[k].pkts == bs[k].pkts[..m] + bs[k].pkts[m..];
    }
  }

  lemma NoBursts()
    ensures Bursts([]) == []
  {}

  lemma FirstBurst(p: Packet)
    ensures Bursts([p]) == [Burst(p.port, [p])]
  {
    assert [p][..0] == [] && Bursts([p][..0]) == [];
  }

  /** One more packet: it joins the run so far, or starts the next one. */
  lemma BurstsGrow(pkts: seq<Packet>, p: Packet, bursts: seq<Burst>, link: int, run: seq<Packet>)
    requires Bursts(pkts) == bursts + [Burst(link, run)]
    ensures Bursts(pkts + [p]) ==
            if p.port == link then bursts + [Burst(link, run + [p])] else (bursts + [Burst(link, run)]) + [Burst(p.port, [p])]
  {
    assert (pkts + [p])[..|pkts|] == pkts;
    assert (bursts + [Burst(link, run)])[..|bursts|] == bursts;
  }

  lemma SentNothing(room: nat -> nat)
    ensures Sent([], room) == Dropped([], room) == []
  {}

  class TxLoop {
    var transmitted: seq<Packet>
    var freed: seq<Packet>

    constructor ()
      ensures transmitted == freed == []
    {
      transmitted, freed := [], [];
    }

    /** tx_burst: the driver takes what it has room for, the rest is freed. */
    method TxBurst(pkts: array<Packet>, count: nat, room: nat)
      requires count <= pkts.Length
      modifies this
      ensures transmitted == old(transmitted) + pkts[..Min(room, count)]
      ensures freed == old(freed) + pkts[Min(room, count)..count]
    {
      var sent := Min(room, count);
      transmitted := transmitted + pkts[..sent];
      var i := sent;
      while i < count
        invariant sent <= i <= count
        invariant freed == old(freed) + pkts[sent..i]
        invariant transmitted == old(transmitted) + pkts[..sent]
      {
        freed := freed + [pkts[i]];
        i := i + 1;
      }
    }

    /** tx_burst for the next burst of a batch, after the bursts already sent. */
    method SendNext(out: array<Packet>, count: nat, link: int, room: nat -> nat, index: nat,
                    ghost bursts: seq<Burst>, ghost sent: seq<Packet>, ghost dropped: seq<Packet>)
      requires count <= out.Length && index == |bursts|
      requires transmitted == sent + Sent(bursts, room) && freed == dropped + Dropped(bursts, room)
      modifies this
      ensures var bs := bursts + [Burst(link, out[..count])];
              transmitted == sent + Sent(bs, room) && freed == dropped + Dropped(bs, room)
    {
      hide Sent, Dropped;
      SentSnoc(bursts, Burst(link, out[..count]), room);
      TxBurst(out, count, room(index));
      assert out[..count][..Min(room(index), count)] == out[..Min(room(index), count)];
      assert out[..count][Min(room(index), count)..] == out[Min(room(index), count)..count];
    }

    /** One turn of tx_loop on a dequeued burst; `bursts` are those sent. */
    method SendBatch(pkts: array<Packet>, count: nat, out: array<Packet>, room: nat -> nat) returns (ghost bursts: seq<Burst>)
      requires count <= pkts.Length && count <= out.Length && pkts != out
      modifies this, out
      ensures bursts == Bursts(pkts[..count])
      ensures transmitted == old(transmitted) + Sent(bursts, room)
      ensures freed == old(freed) + Dropped(bursts, room)
    {
      hide Sent, Dropped, Bursts;
      bursts := [];
      SentNothing(room);
      NoBursts();
      if count == 0 {
        return;
      }
      var lastLink := pkts[0].port;
      var outCount: nat := 0;
      var index: nat := 0;
      for i := 0 to count
        invariant outCount <= i && index == |bursts|
        invariant i == 0 ==> outCount == 0 && bursts == [] && lastLink == pkts[0].port
        invariant 0 < i ==> 0 < outCount && Bursts(pkts[..i]) == bursts + [Burst(lastLink, out[..outCount])]
        invariant transmitted == old(transmitted) + Sent(bursts, room)
        invariant freed == old(freed) + Dropped(bursts, room)
      {
        assert pkts[..i + 1] == pkts[..i] + [pkts[i]];
        if i == 0 {
          FirstBurst(pkts[0]);
        } else {
          BurstsGrow(pkts[..i], pkts[i], bursts, lastLink, out[..outCount]);
        }
        var link := pkts[i].port;
        if link != lastLink {
          SendNext(out, outCount, lastLink, room, index, bursts, old(transmitted), old(freed));
          bursts := bursts + [Burst(lastLink, out[..outCount])];
          index := index + 1;
          outCount := 0;
          lastLink := link;
        }
        out[outCount] := pkts[i];
        outCount := outCount + 1;
        assert out[..outCount] == out[..outCount - 1] + [pkts[i]];
      }
      SendNext(out, outCount, lastLink, room, index, bursts, old(transmitted), old(freed));
      bursts := bursts + [Burst(lastLink, out[..outCount])];
    }
  }
}
