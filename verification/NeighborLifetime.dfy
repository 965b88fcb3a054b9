/** From a sender's serialiser through a receiver's table: how long an announced neighbour is
    known, and what the table then says about it. */
module NeighborLifetime {
  import opened Bytes
  import opened Packets
  import opened PacketSerializing
  import opened NeighborTable
  import PacketParsing
  import RoundTrip

  /** The table after a frame from id arrived. */
  function Heard(t: Table, id: Identity, at: Timespec, frame: seq<Byte>): Table {
    Step(t, Event.Received(ARPHRD_ETHER, id, at, frame))
  }

  lemma HeardEntry(t: Table, id: Identity, at: Timespec, frame: seq<Byte>)
    requires Distinct(t.entries) && |frame| >= 4
    ensures var u := Heard(t, id, at, frame).entries;
            && Distinct(u) && Has(u, id) && Lookup(u, id) == Lookup(t.entries, id)
            && var e := u[Lookup(u, id)];
               e.receivedAt == at && e.frame == frame && e.capacity >= 4 && HoldTime(e) == frame[1]
  {
    ReceiveTouchesOne(t.entries, ARPHRD_ETHER, id, at, frame);
    ReceiveTouches(t.entries, ARPHRD_ETHER, id, at, frame);
    CapacityCoversFrame(t.entries, id, at, frame);
  }

  lemma CapacityCoversFrame(t: seq<Entry>, id: Identity, at: Timespec, frame: seq<Byte>)
    ensures frame != [] ==> Receive(t, ARPHRD_ETHER, id, at, frame)[Lookup(t, id)].capacity >= |frame|
  {
  }

  /** Expiry in whole seconds: one second before the hold time is over, wherever the 32-bit
      additions do not wrap around. */
  lemma ExpiredFrom(e: Entry, now: Timespec)
    requires -0x8000_0001 <= now.sec - e.receivedAt.sec <= 0x7FFF_FFFE
    ensures Expired(e, now) <==> now.sec >= e.receivedAt.sec + HoldTime(e) - 1
  {
  }

  /** One second later the sum wraps around and the neighbour counts as fresh again. */
  lemma FreshAgainWhenWrapped(e: Entry, now: Timespec)
    requires now.sec - e.receivedAt.sec == 0x7FFF_FFFF
    ensures !Expired(e, now)
  {
  }

  // ---------- Known as long as it announces itself in time ----------

  /** When id was last heard of in the events, and with which frame; at and frame before that. */
  function LastHeard(events: seq<Event>, id: Identity, at: Timespec, frame: seq<Byte>): (Timespec, seq<Byte>) {
    if events == [] then (at, frame)
    else if IsFrom(events[|events| - 1], id) then (events[|events| - 1].at, events[|events| - 1].frame)
    else LastHeard(events[..|events| - 1], id, at, frame)
  }

  /** All of id's frames have a header, as every serialised frame has, and every tick falls
      before the last second of the hold time of the last frame before it. A clock that was set
      back does no harm as long as the 32-bit age does not wrap around. */
  predicate AnnouncedInTime(events: seq<Event>, id: Identity, at: Timespec, frame: seq<Byte>) {
    && |frame| >= 4
    && (forall i | 0 <= i < |events| :: IsFrom(events[i], id) ==> |events[i].frame| >= 4)
    && (forall i | 0 <= i < |events| && events[i].Tick? ::
          var (since, last) := LastHeard(events[..i], id, at, frame);
          |last| >= 4 && since.sec - 0x8000_0001 <= events[i].at.sec < since.sec + last[1] - 1)
  }

  lemma {:induction false} LastHeardIsEntry(events: seq<Event>, id: Identity, e: Entry)
    requires |e.frame| >= 4 && e.capacity >= 4
    requires forall i | 0 <= i < |events| :: IsFrom(events[i], id) ==> |events[i].frame| >= 4
    ensures var (since, last) := LastHeard(events, id, e.receivedAt, e.frame);
            var f := EntryAfter(e, events, id);
            f.receivedAt == since && f.frame == last && |last| >= 4 && f.capacity >= 4 && HoldTime(f) == last[1]
  {
    if events == [] {
    } else {
      LastHeardIsEntry(events[..|events| - 1], id, e);
    }
  }

  lemma AnnouncedIsHeard(events: seq<Event>, id: Identity, e: Entry)
    requires e.capacity >= 4 && AnnouncedInTime(events, id, e.receivedAt, e.frame)
    ensures HeardInTime(events, id, e)
  {
    forall i | 0 <= i < |events| && events[i].Tick? ensures !Expired(EntryAfter(e, events[..i], id), events[i].at) {
      LastHeardIsEntry(events[..i], id, e);
      ExpiredFrom(EntryAfter(e, events[..i], id), events[i].at);
    }
  }

  /** A neighbour that announces itself again before the last second of each hold time is never
      lost, however ticks and other senders interleave, and the table holds its latest frame. */
  lemma KnownWhileAnnounced(t: Table, id: Identity, at: Timespec, frame: seq<Byte>, events: seq<Event>)
    requires Distinct(t.entries) && AnnouncedInTime(events, id, at, frame)
    ensures var u := Run(Heard(t, id, at, frame), events).entries;
            && Has(u, id) && Lookup(u, id) <= Lookup(t.entries, id)
            && var e := u[Lookup(u, id)];
               (e.receivedAt, e.frame) == LastHeard(events, id, at, frame)
               && |e.frame| >= 4 && HoldTime(e) == e.frame[1]
  {
    HeardEntry(t, id, at, frame);
    var h := Heard(t, id, at, frame);
    var e := h.entries[Lookup(h.entries, id)];
    AnnouncedIsHeard(events, id, e);
    RefreshedNeighborStays(h, events, id);
    LastHeardIsEntry(events, id, e);
  }

  /** Nothing more is heard of id, and every tick falls before the last second of the hold
      time. */
  predicate BeforeExpiry(events: seq<Event>, id: Identity, at: int, holdTime: Byte) {
    && SilentOn(events, id)
    && forall i | 0 <= i < |events| :: events[i].Tick? ==> at - 0x8000_0001 <= events[i].at.sec < at + holdTime - 1
  }

  /** A neighbour is in the table until the last second of its frame's hold time, whatever else
      is received and purged, and the table still has that frame. */
  lemma KnownUntilHoldTime(t: Table, id: Identity, at: Timespec, frame: seq<Byte>, events: seq<Event>)
    requires Distinct(t.entries) && |frame| >= 4 && BeforeExpiry(events, id, at.sec, frame[1])
    ensures var u := Run(Heard(t, id, at, frame), events).entries;
            && Has(u, id)
            && var e := u[Lookup(u, id)];
               e.receivedAt == at && e.frame == frame && HoldTime(e) == frame[1]
  {
    HeardEntry(t, id, at, frame);
    var h := Heard(t, id, at, frame);
    var e := h.entries[Lookup(h.entries, id)];
    forall i | 0 <= i < |events| && events[i].Tick? ensures !Expired(e, events[i].at) {
      ExpiredFrom(e, events[i].at);
    }
    FreshNeighborStays(h, events, id);
  }

  /** So for the hold time that a packet announces, the table has a frame that still parses to
      what was announced. */
  lemma AnnouncementIsKnown(t: Table, id: Identity, at: Timespec, p: Packet, header: Header, events: seq<Event>)
    requires Distinct(t.entries) && HasRequiredFields(p) && FrameSize(p) <= 0xFFFF && Heads(header, p)
    requires BeforeExpiry(events, id, at.sec, p.ttl)
    ensures var u := Run(Heard(t, id, at, Headed(header, p)), events).entries;
            && Has(u, id) && HoldTime(u[Lookup(u, id)]) == p.ttl
            && PacketParsing.Parse(u[Lookup(u, id)].frame, 0)
               == PacketParsing.Parsed(RoundTrip.Received(header, p))
  {
    KnownUntilHoldTime(t, id, at, Headed(header, p), events);
    RoundTrip.ShortFramesRoundTrip(header, p);
  }

  // ---------- Forgotten afterwards ----------

  /** The first second in which a neighbour heard of at that second counts as expired. */
  function Expiry(at: int, holdTime: Byte): int {
    if holdTime == 0 then at else at + holdTime - 1
  }

  /** The ticks from the expiry on, up to where the 32-bit age wraps around. */
  function LateTicks(events: seq<Event>, at: int, holdTime: Byte): nat {
    if events == [] then 0
    else
      var last := events[|events| - 1];
      LateTicks(events[..|events| - 1], at, holdTime)
      + (if last.Tick? && Expiry(at, holdTime) <= last.at.sec <= at + 0x7FFF_FFFE then 1 else 0)
  }

  lemma {:induction false} LateTicksExpire(events: seq<Event>, e: Entry)
    ensures LateTicks(events, e.receivedAt.sec, HoldTime(e)) <= ExpiredTicks(events, e)
  {
    if events == [] {
    } else {
      LateTicksExpire(events[..|events| - 1], e);
      var last := events[|events| - 1];
      if last.Tick? && Expiry(e.receivedAt.sec, HoldTime(e)) <= last.at.sec <= e.receivedAt.sec + 0x7FFF_FFFE {
        ExpiredFrom(e, last.at);
      }
    }
  }

  /** Of ticks before, during and after the hold time, in any order with other senders' frames
      and under any clock, only those from its last second on count: one more of them than there
      were neighbours before it and it is gone. */
  lemma ForgottenAfterHoldTime(t: Table, id: Identity, at: Timespec, frame: seq<Byte>, events: seq<Event>)
    requires Distinct(t.entries) && |frame| >= 4 && SilentOn(events, id)
    requires LateTicks(events, at.sec, frame[1]) > Lookup(t.entries, id)
    ensures !Has(Run(Heard(t, id, at, frame), events).entries, id)
  {
    HeardEntry(t, id, at, frame);
    var h := Heard(t, id, at, frame);
    LateTicksExpire(events, h.entries[Lookup(h.entries, id)]);
    ExpiredTicksRemove(h, events, id);
  }

  lemma {:induction false} LateTicksOfPhases(early: seq<Event>, late: seq<Event>, id: Identity, at: int, holdTime: Byte)
    requires Quiet(late, id, Expiry(at, holdTime), at)
    ensures LateTicks(early + late, at, holdTime) >= Ticks(late)
  {
    if late == [] {
    } else {
      assert (early + late)[..|early + late| - 1] == early + late[..|late| - 1];
      LateTicksOfPhases(early, late[..|late| - 1], id, at, holdTime);
    }
  }

  /** A whole life: through the hold time it is known, and p + 1 ticks after that it is gone. */
  lemma KnownThenForgotten(t: Table, id: Identity, at: Timespec, frame: seq<Byte>, early: seq<Event>, late: seq<Event>)
    requires Distinct(t.entries) && |frame| >= 4
    requires BeforeExpiry(early, id, at.sec, frame[1])
    requires Quiet(late, id, Expiry(at.sec, frame[1]), at.sec) && Ticks(late) > Lookup(t.entries, id)
    ensures Has(Run(Heard(t, id, at, frame), early).entries, id)
    ensures !Has(Run(Heard(t, id, at, frame), early + late).entries, id)
  {
    KnownUntilHoldTime(t, id, at, frame, early);
    LateTicksOfPhases(early, late, id, at.sec, frame[1]);
    ForgottenAfterHoldTime(t, id, at, frame, early + late);
  }

  // ---------- In seconds ----------

  /** The second of the last tick, or the given one. */
  function LastTick(events: seq<Event>, at: int): int {
    if events == [] then at
    else if events[|events| - 1].Tick? then events[|events| - 1].at.sec
    else LastTick(events[..|events| - 1], at)
  }

  /** No tick comes more than gap seconds after the one before it, the first one after at. */
  predicate TicksApart(events: seq<Event>, at: int, gap: nat) {
    forall i | 0 <= i < |events| && events[i].Tick? ::
      events[i].at.sec <= LastTick(events[..i], at) + gap && events[i].at.sec <= at + 0x7FFF_FFFE
  }

  lemma TicksApartBefore(events: seq<Event>, at: int, gap: nat)
    requires events != [] && TicksApart(events, at, gap)
    ensures TicksApart(events[..|events| - 1], at, gap)
  {
    var before := events[..|events| - 1];
    forall i | 0 <= i < |before| && before[i].Tick?
      ensures before[i].at.sec <= LastTick(before[..i], at) + gap && before[i].at.sec <= at + 0x7FFF_FFFE
    {
      assert before[..i] == events[..i] && before[i] == events[i];
    }
  }

  lemma OneMoreGap(n: nat, gap: nat)
    ensures (n + 1) * gap == n * gap + gap && n * gap >= 0
  {
  }

  lemma GapsGrow(m: nat, n: nat, gap: nat)
    requires m <= n
    ensures m * gap <= n * gap
  {
    assert n * gap == m * gap + (n - m) * gap;
  }

  lemma {:induction false} LateTicksReach(events: seq<Event>, at: int, holdTime: Byte, gap: nat)
    requires TicksApart(events, at, gap)
    ensures LastTick(events, at) <= Expiry(at, holdTime) + LateTicks(events, at, holdTime) * gap
  {
    if events == [] {
    } else {
      var before, last := events[..|events| - 1], events[|events| - 1];
      TicksApartBefore(events, at, gap);
      LateTicksReach(before, at, holdTime, gap);
      OneMoreGap(LateTicks(before, at, holdTime), gap);
      assert last.Tick? ==> last.at.sec <= LastTick(before, at) + gap;
    }
  }

  /** If ticks are at most gap seconds apart, a neighbour that arrived at position p is gone by
      the first tick more than p * gap seconds after its expiry, hence within (p + 1) * gap. */
  lemma ForgottenWithinSeconds(t: Table, id: Identity, at: Timespec, frame: seq<Byte>, events: seq<Event>, gap: nat)
    requires Distinct(t.entries) && |frame| >= 4 && SilentOn(events, id) && TicksApart(events, at.sec, gap)
    requires LastTick(events, at.sec) > Expiry(at.sec, frame[1]) + Lookup(t.entries, id) * gap
    ensures !Has(Run(Heard(t, id, at, frame), events).entries, id)
  {
    LateTicksReach(events, at.sec, frame[1], gap);
    if LateTicks(events, at.sec, frame[1]) <= Lookup(t.entries, id) {
      GapsGrow(LateTicks(events, at.sec, frame[1]), Lookup(t.entries, id), gap);
    }
    ForgottenAfterHoldTime(t, id, at, frame, events);
  }
}
