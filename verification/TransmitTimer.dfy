/** When the timer of module/cdp_module.c transmits, over runs of ticks. */
module TransmitTimer {
  import opened Bytes
  import opened NeighborTable

  const TRANSMIT_INTERVAL_MS := 5000

  /** Five seconds have passed since the last transmission, or the clock was set back behind it. */
  predicate Due(last: Timespec, now: Timespec) {
    now.sec - last.sec >= 5 || now.sec < last.sec
  }

  /** The milliseconds between the two fit a signed 64-bit long. */
  predicate NoOverflow(last: Timespec, now: Timespec) {
    -0x8000_0000_0000_0000 <= (now.sec - last.sec) * 1000 < 0x8000_0000_0000_0000
  }

  /** The comparison without sign: a negative difference is a huge one. */
  lemma UnsignedComparison(last: Timespec, now: Timespec)
    requires NoOverflow(last, now)
    ensures SizeT((now.sec - last.sec) * 1000) >= TRANSMIT_INTERVAL_MS <==> Due(last, now)
  {
    var ms := (now.sec - last.sec) * 1000;
    if ms < 0 {
      assert SizeT(ms) == ms + 0x1_0000_0000_0000_0000;
    }
  }

  /** The times of all transmissions, the one before the first tick included. */
  function Transmissions(start: Timespec, ticks: seq<Timespec>): (sent: seq<Timespec>)
    ensures sent != [] && sent[0] == start
  {
    if ticks == [] then [start]
    else
      var before, now := Transmissions(start, ticks[..|ticks| - 1]), ticks[|ticks| - 1];
      if Due(before[|before| - 1], now) then before + [now] else before
  }

  function LastTransmission(start: Timespec, ticks: seq<Timespec>): Timespec {
    var sent := Transmissions(start, ticks);
    sent[|sent| - 1]
  }

  /** After every tick, whatever the clock did before, the last transmission is not in the
      future and less than five seconds ago. */
  lemma NeverLate(start: Timespec, ticks: seq<Timespec>)
    requires ticks != []
    ensures 0 <= ticks[|ticks| - 1].sec - LastTransmission(start, ticks).sec < 5
  {
  }

  /** The clock never goes back. */
  predicate Monotone(start: Timespec, ticks: seq<Timespec>) {
    && (forall i | 0 <= i < |ticks| :: start.sec <= ticks[i].sec)
    && (forall i, j | 0 <= i < j < |ticks| :: ticks[i].sec <= ticks[j].sec)
  }

  lemma {:induction false} TransmittedBefore(start: Timespec, ticks: seq<Timespec>, now: Timespec)
    requires start.sec <= now.sec && forall i | 0 <= i < |ticks| :: ticks[i].sec <= now.sec
    ensures LastTransmission(start, ticks).sec <= now.sec
  {
    if ticks == [] {
    } else {
      TransmittedBefore(start, ticks[..|ticks| - 1], now);
    }
  }

  /** While the clock does not go back, transmissions are at least five seconds apart. */
  lemma {:induction false} TransmissionsAreSpaced(start: Timespec, ticks: seq<Timespec>, i: nat)
    requires Monotone(start, ticks) && 0 < i < |Transmissions(start, ticks)|
    ensures var sent := Transmissions(start, ticks); sent[i].sec - sent[i - 1].sec >= 5
  {
    var before, now := ticks[..|ticks| - 1], ticks[|ticks| - 1];
    TransmittedBefore(start, before, now);
    if i < |Transmissions(start, before)| {
      TransmissionsAreSpaced(start, before, i);
    }
  }

  /** Neither the first tick nor any later one is more than gap seconds behind the one before. */
  predicate AtMostApart(start: Timespec, ticks: seq<Timespec>, gap: nat) {
    && (ticks != [] ==> ticks[0].sec <= start.sec + gap)
    && (forall i, j | 0 <= i < |ticks| && 0 <= j < |ticks| && j == i + 1 :: ticks[j].sec <= ticks[i].sec + gap)
  }

  /** If ticks are at most gap seconds apart, transmissions are at most 4 + gap seconds apart:
      with the module's timer of one second, exactly five. */
  lemma {:induction false} TransmissionsAreRegular(start: Timespec, ticks: seq<Timespec>, gap: nat, i: nat)
    requires AtMostApart(start, ticks, gap) && 0 < i < |Transmissions(start, ticks)|
    ensures var sent := Transmissions(start, ticks); sent[i].sec - sent[i - 1].sec <= 4 + gap
  {
    var before, now := ticks[..|ticks| - 1], ticks[|ticks| - 1];
    if before == [] {
      assert Transmissions(start, before) == [start];
      assert ticks[0] == now;
    } else {
      assert now.sec <= ticks[|ticks| - 2].sec + gap;
      NeverLate(start, before);
      if i < |Transmissions(start, before)| {
        TransmissionsAreRegular(start, before, gap, i);
      }
    }
  }
}
