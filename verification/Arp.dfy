/** The ARP cache (pfm_arp.c): rows addressed by a hash position, and a refresh timer in each row. */
module Arp {
  import opened Options

  /** A row's refresh timer: stopped, or set at some second to run out a period later. */
  datatype Timer = Stopped | Armed(since: nat, period: nat)

  /** pfm_arp_entry_t. */
  datatype Entry = Entry(dstIp: nat, srcIp: nat, mac: nat, linkId: nat, tryCount: nat, timer: Timer)

  const BLANK := Entry(0, 0, 0, 0, 0, Stopped)

  /** The rows and the hash, which gives each key the position of its row. */
  datatype Table = Table(entries: seq<Entry>, index: map<nat, nat>)

  /** What happens to the cache: a reply arrives, with the position the hash would give a new key (None when it
      has no room), or the timer of a row runs out and is served some seconds late. */
  datatype Event =
    | Reply(at: nat, ip: nat, srcIp: nat, mac: nat, slot: Option<nat>)
    | Fire(row: nat, late: nat)

  datatype Request = ToLink(linkId: nat, srcIp: nat, ip: nat) | ToAllLinks(ip: nat)

  /** What the cache did. An event that cannot happen in the state (a position that is taken, a timer that is
      stopped) is skipped. */
  datatype Note =
    | Stored(at: nat, ip: nat, srcIp: nat, mac: nat)
    | Refused(ip: nat)
    | Fired(at: nat, ip: nat, late: nat, sent: Request)
    | Skipped

  predicate Sound(t: Table) {
    forall ip <- t.index :: t.index[ip] < |t.entries|
  }

  /** Each key's row holds that key with its timer running; every other row is blank. */
  ghost predicate InStep(t: Table) {
    Sound(t) &&
    (forall ip <- t.index :: t.entries[t.index[ip]].dstIp == ip && t.entries[t.index[ip]].timer.Armed?) &&
    forall row: nat :: row < |t.entries| && t.entries[row] != BLANK ==>
      t.entries[row].dstIp in t.index && t.index[t.entries[row].dstIp] == row
  }

  function Store(t: Table, row: nat, e: Event): (r: Table)
    requires Sound(t) && e.Reply? && row < |t.entries|
    ensures Sound(r)
  {
    Table(t.entries[row := Entry(e.ip, e.srcIp, e.mac, t.entries[row].linkId, 0, Armed(e.at, 5))],
          t.index[e.ip := row])
  }

  function Receive(t: Table, e: Event): (r: (Table, Note))
    requires Sound(t) && e.Reply?
    ensures Sound(r.0)
  {
    if e.ip in t.index then (Store(t, t.index[e.ip], e), Stored(e.at, e.ip, e.srcIp, e.mac))
    else if e.slot.None? then (t, Refused(e.ip))
    else if e.slot.value < |t.entries| && e.slot.value !in t.index.Values then
      (Store(t, e.slot.value, e), Stored(e.at, e.ip, e.srcIp, e.mac))
    else (t, Skipped)
  }

  function Clear(t: Table, row: nat): (r: Table)
    requires Sound(t) && row < |t.entries|
    ensures Sound(r)
  {
    Table(t.entries[row := BLANK], t.index - {t.entries[row].dstIp})
  }

  predicate Running(t: Table, row: nat) {
    row < |t.entries| && t.entries[row].timer.Armed?
  }

  function Expire(t: Table, row: nat, late: nat): (r: (Table, Note))
    requires Sound(t) && Running(t, row)
    ensures Sound(r.0)
  {
    var entry := t.entries[row];
    var at := entry.timer.since + entry.timer.period + late;
    if entry.tryCount < 2 then
      (t.(entries := t.entries[row := entry.(tryCount := entry.tryCount + 1,
                                             timer := Armed(at, 5 * (entry.tryCount + 1)))]),
       Fired(at, entry.dstIp, late, ToLink(entry.linkId, entry.srcIp, entry.dstIp)))
    else (Clear(t, row), Fired(at, entry.dstIp, late, ToAllLinks(entry.dstIp)))
  }

  function Step(t: Table, e: Event): (r: (Table, Note))
    requires Sound(t)
    ensures Sound(r.0)
  {
    match e
    case Reply(_, _, _, _, _) => Receive(t, e)
    case Fire(row, late) => if Running(t, row) then Expire(t, row, late) else (t, Skipped)
  }

  /** The hash has a free position for a new key. */
  predicate RoomFor(t: Table, e: Event)
    requires e.Reply?
  {
    e.slot.Some? && e.slot.value < |t.entries| && e.slot.value !in t.index.Values
  }

  /** The address looks up a row with the reply's addresses and a timer of five seconds, not asked for again yet. */
  ghost predicate FreshlyCached(t: Table, at: nat, ip: nat, srcIp: nat, mac: nat) {
    ip in t.index && t.index[ip] < |t.entries| &&
    var row := t.entries[t.index[ip]];
    row.dstIp == ip && row.srcIp == srcIp && row.mac == mac && row.tryCount == 0 && row.timer == Armed(at, 5)
  }

  /** What an event must lead to. A reply for a cached address, or with a free position, is stored; for a new address
      without a position it is refused. The timer of a row fires if it is running, for the address of the row. */
  ghost predicate Answers(t: Table, e: Event, t': Table, note: Note) {
    match e
    case Reply(at, ip, srcIp, mac, slot) =>
      if ip in t.index || RoomFor(t, e) then
        note == Stored(at, ip, srcIp, mac) && FreshlyCached(t', at, ip, srcIp, mac) &&
        t'.index[ip] == if ip in t.index then t.index[ip] else slot.value
      else note == (if slot.None? then Refused(ip) else Skipped) && t' == t
    case Fire(row, late) =>
      if row < |t.entries| && t.entries[row].timer.Armed? then
        note.Fired? && note.ip == t.entries[row].dstIp && note.late == late && note.ip in t.index && t.index[note.ip] == row
      else note == Skipped && t' == t
  }

  lemma StepAnswers(t: Table, e: Event)
    requires InStep(t)
    ensures Answers(t, e, Step(t, e).0, Step(t, e).1)
  {}

  lemma StoreKeepsInStep(t: Table, row: nat, e: Event)
    requires InStep(t) && e.Reply? && row < |t.entries|
    requires if e.ip in t.index then row == t.index[e.ip] else row !in t.index.Values
    ensures InStep(Store(t, row, e))
  {
    var t' := Store(t, row, e);
    forall ip <- t'.index
      ensures t'.entries[t'.index[ip]].dstIp == ip && t'.entries[t'.index[ip]].timer.Armed?
    {
      if ip != e.ip {
        assert t.index[ip] in t.index.Values;
        assert t.entries[t.index[ip]].dstIp == ip;
      }
    }
  }

  lemma StepKeepsInStep(t: Table, e: Event)
    requires InStep(t)
    ensures InStep(Step(t, e).0)
  {
    if e.Reply? {
      if e.ip in t.index {
        StoreKeepsInStep(t, t.index[e.ip], e);
      } else if e.slot.Some? && e.slot.value < |t.entries| && e.slot.value !in t.index.Values {
        StoreKeepsInStep(t, e.slot.value, e);
      }
    }
  }

  class ArpTable {
    const entries: array<Entry>
    var index: map<nat, nat>

    ghost predicate Valid()
      reads this, entries
    {
      InStep(Abs())
    }

    ghost function Abs(): Table
      reads this, entries
    {
      Table(entries[..], index)
    }

    constructor (size: nat)
      ensures Valid() && Abs() == Table(seq(size, _ => BLANK), map[])
    {
      entries := new Entry[size](_ => BLANK);
      index := map[];
    }

    /** The reply's own link is an argument of the source function that it never stores. */
    method ProcessReply(e: Event) returns (ok: bool)
      requires Valid() && e.Reply?
      requires e.ip !in index && e.slot.Some? ==> e.slot.value < entries.Length && e.slot.value !in index.Values
      modifies this`index, entries
      ensures Abs() == Receive(old(Abs()), e).0 && Valid()
      ensures ok <==> e.ip in old(index) || e.slot.Some?
      ensures ok ==> FreshlyCached(Abs(), e.at, e.ip, e.srcIp, e.mac)
      ensures !ok ==> Abs() == old(Abs())
    {
      StepAnswers(Abs(), e);
      StepKeepsInStep(Abs(), e);
      var key;
      if e.ip in index {
        key := index[e.ip];
      } else if e.slot.Some? {
        key := e.slot.value;
      } else {
        return false;
      }
      index := index[e.ip := key];
      entries[key] := entries[key].(dstIp := e.ip, srcIp := e.srcIp, mac := e.mac, tryCount := 0);
      entries[key] := entries[key].(timer := Armed(e.at, 5));
      assert entries[..] == Store(old(Abs()), key, e).entries;
      return true;
    }

    method ClearEntry(row: nat)
      requires row < entries.Length && Sound(Abs())
      modifies this`index, entries
      ensures Abs() == Clear(old(Abs()), row)
    {
      index := index - {entries[row].dstIp};
      entries[row] := entries[row].(mac := 0);
      entries[row] := entries[row].(dstIp := 0, srcIp := 0, tryCount := 0, linkId := 0);
      entries[row] := entries[row].(timer := Stopped);
      assert entries[..] == old(entries[..])[row := BLANK];
    }

    method RefreshCallback(row: nat, late: nat) returns (sent: Request)
      requires Valid() && Running(Abs(), row)
      modifies this`index, entries
      ensures Abs() == Expire(old(Abs()), row, late).0 && Valid()
      ensures sent == Expire(old(Abs()), row, late).1.sent
    {
      StepKeepsInStep(Abs(), Fire(row, late));
      var entry := entries[row];
      var period := 5 * (entry.tryCount + 1);
      if entry.tryCount < 2 {
        sent := ToLink(entry.linkId, entry.srcIp, entry.dstIp);
        entries[row] := entries[row].(timer := Armed(entry.timer.since + entry.timer.period + late, period));
        entries[row] := entries[row].(tryCount := entries[row].tryCount + 1);
        assert entries[..] == Expire(old(Abs()), row, late).0.entries;
      } else {
        sent := ToAllLinks(entry.dstIp);
        ClearEntry(row);
      }
    }

    method Query(ip: nat) returns (row: Option<nat>)
      requires Valid()
      ensures row == if ip in index then Some(index[ip]) else None
      ensures row.Some? ==> row.value < entries.Length && entries[row.value].dstIp == ip
    {
      row := if ip in index then Some(index[ip]) else None;
    }
  }

  function Run(size: nat, events: seq<Event>): (r: (Table, seq<Note>))
    ensures Sound(r.0) && |r.1| == |events|
  {
    if events == [] then (Table(seq(size, _ => BLANK), map[]), [])
    else
      var (t, notes) := Run(size, events[..|events| - 1]);
      var (t', note) := Step(t, events[|events| - 1]);
      (t', notes + [note])
  }

  predicate StoredFor(note: Note, ip: nat) {
    note.Stored? && note.ip == ip
  }

  predicate FiredFor(note: Note, ip: nat) {
    note.Fired? && note.ip == ip
  }

  /** The last reply stored for this address. */
  function LastStored(notes: seq<Note>, ip: nat): (k: Option<nat>)
    ensures match k
            case Some(i) => i < |notes| && StoredFor(notes[i], ip) && forall j :: i < j < |notes| ==> !StoredFor(notes[j], ip)
            case None => forall j :: 0 <= j < |notes| ==> !StoredFor(notes[j], ip)
  {
    if notes == [] then None
    else if StoredFor(notes[|notes| - 1], ip) then Some(|notes| - 1)
    else LastStored(notes[..|notes| - 1], ip)
  }

  /** How many timers fired for this address from a place of the log on. */
  function Firings(notes: seq<Note>, from: nat, ip: nat): (n: nat)
    ensures |notes| <= from ==> n == 0
  {
    if |notes| <= from then 0
    else Firings(notes[..|notes| - 1], from, ip) + if FiredFor(notes[|notes| - 1], ip) then 1 else 0
  }

  /** By how many seconds in all those timers were served late. */
  function Lateness(notes: seq<Note>, from: nat, ip: nat): (n: nat)
    ensures |notes| <= from ==> n == 0
  {
    if |notes| <= from then 0
    else Lateness(notes[..|notes| - 1], from, ip) +
         if FiredFor(notes[|notes| - 1], ip) then notes[|notes| - 1].late else 0
  }

  /** The age of an unanswered entry at each firing: 5 and 10 seconds, and 20 when it is cleared. */
  function Age(firings: nat): nat {
    if firings == 0 then 0 else if firings == 1 then 5 else if firings == 2 then 10 else 20
  }

  /** The row of an address whose last stored reply is `reply`, after some firings. */
  function Cached(reply: Note, firings: nat, lateness: nat): Entry
    requires reply.Stored? && firings < 3
  {
    Entry(reply.ip, reply.srcIp, reply.mac, 0, firings,
          Armed(reply.at + Age(firings) + lateness, Age(firings + 1) - Age(firings)))
  }

  /** The address is cached exactly while fewer than three firings followed its last stored reply, and its row is
      that reply's, with the firings as try_count and no link. */
  ghost predicate Agrees(t: Table, notes: seq<Note>, ip: nat)
    requires Sound(t)
  {
    match LastStored(notes, ip)
    case None => ip !in t.index
    case Some(i) =>
      var n := Firings(notes, i + 1, ip);
      n <= 3 && (ip in t.index <==> n < 3) &&
      (n < 3 ==> t.entries[t.index[ip]] == Cached(notes[i], n, Lateness(notes, i + 1, ip)))
  }

  /** A timer fired when its entry was 5, 10 or 20 seconds old (and later by what it and its forerunners were
      late); the first two firings ask for the address again on link 0, the third on every link. */
  ghost predicate OnTime(notes: seq<Note>, j: nat)
    requires j < |notes|
  {
    notes[j].Fired? ==>
      var ip := notes[j].ip;
      match LastStored(notes[..j], ip)
      case None => false
      case Some(i) =>
        var n := Firings(notes[..j], i + 1, ip);
        n < 3 &&
        notes[j].at == notes[i].at + Age(n + 1) + Lateness(notes[..j], i + 1, ip) + notes[j].late &&
        notes[j].sent == if n < 2 then ToLink(0, notes[i].srcIp, ip) else ToAllLinks(ip)
  }

  lemma AppendNote(notes: seq<Note>, note: Note, ip: nat)
    ensures LastStored(notes + [note], ip) == if StoredFor(note, ip) then Some(|notes|) else LastStored(notes, ip)
    ensures forall from: nat :: from <= |notes| ==>
      Firings(notes + [note], from, ip) == Firings(notes, from, ip) + if FiredFor(note, ip) then 1 else 0
    ensures forall from: nat :: from <= |notes| ==>
      Lateness(notes + [note], from, ip) == Lateness(notes, from, ip) + if FiredFor(note, ip) then note.late else 0
  {
    assert (notes + [note])[..|notes|] == notes;
  }

  /** A step for one address leaves every other address and its row alone. */
  lemma StepFrames(t: Table, e: Event, ip: nat)
    requires InStep(t)
    requires var note := Step(t, e).1; !StoredFor(note, ip) && !FiredFor(note, ip)
    ensures var t' := Step(t, e).0;
            (ip in t'.index <==> ip in t.index) &&
            (ip in t.index ==> t'.index[ip] == t.index[ip] && t'.entries[t.index[ip]] == t.entries[t.index[ip]])
  {
    if ip in t.index {
      assert t.index[ip] in t.index.Values;
    }
  }

  lemma StepAgrees(t: Table, notes: seq<Note>, e: Event, ip: nat)
    requires InStep(t) && Agrees(t, notes, ip)
    requires forall row: nat :: row < |t.entries| ==> t.entries[row].linkId == 0
    ensures var (t', note) := Step(t, e);
            Agrees(t', notes + [note], ip)
  {
    var (t', note) := Step(t, e);
    AppendNote(notes, note, ip);
    if !StoredFor(note, ip) && !FiredFor(note, ip) {
      StepFrames(t, e, ip);
    }
  }

  lemma StepOnTime(t: Table, notes: seq<Note>, e: Event)
    requires InStep(t) && forall ip :: Agrees(t, notes, ip)
    ensures OnTime(notes + [Step(t, e).1], |notes|)
  {
    var note := Step(t, e).1;
    assert (notes + [note])[..|notes|] == notes;
    if note.Fired? {
      assert Agrees(t, notes, note.ip);
    }
  }

  lemma NoLinks(t: Table, e: Event)
    requires Sound(t) && forall row: nat :: row < |t.entries| ==> t.entries[row].linkId == 0
    ensures forall row: nat :: row < |Step(t, e).0.entries| ==> Step(t, e).0.entries[row].linkId == 0
  {}

  ghost predicate CacheAgrees(t: Table, notes: seq<Note>) {
    InStep(t) && (forall row: nat :: row < |t.entries| ==> t.entries[row].linkId == 0) &&
    forall ip :: Agrees(t, notes, ip)
  }

  lemma InStepIsSound(t: Table)
    requires InStep(t)
    ensures Sound(t)
  {}

  lemma StepCacheAgrees(t: Table, notes: seq<Note>, e: Event)
    requires CacheAgrees(t, notes)
    ensures CacheAgrees(Step(t, e).0, notes + [Step(t, e).1])
  {
    hide Agrees, InStep, Step;
    InStepIsSound(t);
    StepKeepsInStep(t, e);
    NoLinks(t, e);
    InStepIsSound(Step(t, e).0);
    forall ip
      ensures Agrees(Step(t, e).0, notes + [Step(t, e).1], ip)
    {
      StepAgrees(t, notes, e, ip);
    }
  }

  ghost predicate AllOnTime(notes: seq<Note>) {
    forall j: nat :: j < |notes| ==> OnTime(notes, j)
  }

  lemma StepAllOnTime(t: Table, notes: seq<Note>, e: Event)
    requires CacheAgrees(t, notes) && AllOnTime(notes)
    ensures AllOnTime(notes + [Step(t, e).1])
  {
    hide Agrees, Step, LastStored, Firings, Lateness;
    StepOnTime(t, notes, e);
    var longer := notes + [Step(t, e).1];
    forall j: nat | j < |notes|
      ensures OnTime(longer, j)
    {
      assert OnTime(notes, j);
      assert longer[..j] == notes[..j];
    }
  }

  /** Each entry of the log is what its event had to lead to. */
  ghost predicate LogsEvents(size: nat, events: seq<Event>) {
    var notes := Run(size, events).1;
    forall i: nat :: i < |events| ==>
      Answers(Run(size, events[..i]).0, events[i], Run(size, events[..i + 1]).0, notes[i])
  }

  lemma LogsOneMore(size: nat, events: seq<Event>)
    requires events != [] && InStep(Run(size, events[..|events| - 1]).0) && LogsEvents(size, events[..|events| - 1])
    ensures LogsEvents(size, events)
  {
    hide Answers, InStep, Step;
    var init, e := events[..|events| - 1], events[|events| - 1];
    var (t, notes) := Run(size, init);
    StepAnswers(t, e);
    forall i: nat | i < |events|
      ensures Answers(Run(size, events[..i]).0, events[i], Run(size, events[..i + 1]).0, Run(size, events).1[i])
    {
      if i < |init| {
        assert events[..i] == init[..i] && events[..i + 1] == init[..i + 1];
      } else {
        assert events[..i + 1] == events;
      }
    }
  }

  lemma NothingStored(size: nat)
    ensures CacheAgrees(Run(size, []).0, []) && AllOnTime([]) && LogsEvents(size, [])
  {}

  /** After any interleaving of replies and timers the log is that of the events, and the cache agrees with it at
      every address. */
  lemma {:induction false} CacheAgreesWithHistory(size: nat, events: seq<Event>)
    ensures var (t, notes) := Run(size, events);
            InStep(t) && (forall row: nat :: row < |t.entries| ==> t.entries[row].linkId == 0) &&
            (forall ip :: Agrees(t, notes, ip)) && AllOnTime(notes) && LogsEvents(size, events)
  {
    hide Agrees, OnTime, Step, LogsEvents;
    if events == [] {
      NothingStored(size);
    } else {
      var (t, notes) := Run(size, events[..|events| - 1]);
      CacheAgreesWithHistory(size, events[..|events| - 1]);
      assert CacheAgrees(t, notes);
      StepCacheAgrees(t, notes, events[|events| - 1]);
      StepAllOnTime(t, notes, events[|events| - 1]);
      LogsOneMore(size, events);
    }
  }
}
