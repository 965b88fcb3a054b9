/** When the parsing loop terminates: the loop as a transition system, against the outcome
    that the recursion over TLVs computes. All but the last theorem hold however one TLV is
    read. */
module ParserProgress {
  import opened Bytes
  import opened StreamReading
  import opened Packets
  import opened PacketParsing

  datatype LoopState = Running(pos: nat, packet: Packet) | Finished(packet: Packet) | Aborted

  /** One evaluation of the loop's guard and, if it holds, one iteration. */
  function LoopStep(read: Reader<TlvValue>, d: seq<Byte>, s: LoopState): LoopState {
    match s
    case Running(pos, p) =>
      if pos >= |d| then Finished(p)
      else (match read(d, pos)
            case Failed => Aborted
            case Got(v, next) => Running(next, Apply(p, v)))
    case _ => s
  }

  function Iterate(read: Reader<TlvValue>, d: seq<Byte>, s: LoopState, n: nat): LoopState
    decreases n
  {
    if n == 0 then s else Iterate(read, d, LoopStep(read, d, s), n - 1)
  }

  /** Reads stay inside the buffer and never lead backwards. */
  ghost predicate Forward(read: Reader<TlvValue>, d: seq<Byte>) {
    forall q: nat :: read(d, q).Got? ==> q <= read(d, q).next <= |d|
  }

  lemma {:induction false} Halted(read: Reader<TlvValue>, d: seq<Byte>, s: LoopState, n: nat)
    requires !s.Running?
    ensures Iterate(read, d, s, n) == s
  {
    if n == 0 {
    } else {
      Halted(read, d, s, n - 1);
    }
  }

  predicate StuckAt(read: Reader<TlvValue>, d: seq<Byte>, pos: nat) {
    pos < |d| && read(d, pos).Got? && read(d, pos).next == pos
  }

  /** A TLV that leads back to its own start is decoded again by every later iteration. */
  lemma {:induction false} StuckForEver(read: Reader<TlvValue>, d: seq<Byte>, pos: nat, p: Packet, n: nat)
    requires StuckAt(read, d, pos)
    ensures Iterate(read, d, Running(pos, p), n).Running? && Iterate(read, d, Running(pos, p), n).pos == pos
    decreases n
  {
    if n == 0 {
    } else {
      StuckForEver(read, d, pos, Apply(p, read(d, pos).value), n - 1);
    }
  }

  /** After more iterations than there are bytes left, the loop has halted with the computed
      outcome, or it never halts: every iteration that does not hang consumes a byte. */
  lemma {:induction false} LoopComputesOutcome(read: Reader<TlvValue>, d: seq<Byte>, pos: nat, p: Packet, n: nat)
    requires Forward(read, d) && pos <= |d| && n > |d| - pos
    ensures match Loop(read, d, pos, p)
            case Parsed(q) => Iterate(read, d, Running(pos, p), n) == Finished(q)
            case Rejected => Iterate(read, d, Running(pos, p), n) == Aborted
            case Diverges => Iterate(read, d, Running(pos, p), n).Running?
    decreases n
  {
    var s := LoopStep(read, d, Running(pos, p));
    if s.Running? {
      if s.pos == pos {
        StuckForEver(read, d, pos, s.packet, n - 1);
      } else {
        LoopComputesOutcome(read, d, s.pos, s.packet, n - 1);
      }
    } else {
      Halted(read, d, s, n - 1);
    }
  }

  lemma {:induction false} StillRunning(read: Reader<TlvValue>, d: seq<Byte>, s: LoopState, m: nat, n: nat)
    requires m <= n && Iterate(read, d, s, n).Running?
    ensures Iterate(read, d, s, m).Running?
    decreases n
  {
    if m > 0 {
      StillRunning(read, d, LoopStep(read, d, s), m - 1, n - 1);
    } else if !s.Running? {
      Halted(read, d, s, n);
    }
  }

  /** The loop runs for ever exactly when the computed outcome says so. */
  lemma DivergesIffRunsForEver(read: Reader<TlvValue>, d: seq<Byte>, pos: nat, p: Packet)
    requires Forward(read, d) && pos <= |d|
    ensures Loop(read, d, pos, p).Diverges? <==> forall n: nat :: Iterate(read, d, Running(pos, p), n).Running?
  {
    var bound := |d| - pos + 1;
    LoopComputesOutcome(read, d, pos, p, bound);
    if Loop(read, d, pos, p).Diverges? {
      forall n: nat ensures Iterate(read, d, Running(pos, p), n).Running? {
        var m := if n < bound then bound else n;
        LoopComputesOutcome(read, d, pos, p, m);
        StillRunning(read, d, Running(pos, p), n, m);
      }
    }
  }

  ghost predicate ReachesStuck(read: Reader<TlvValue>, d: seq<Byte>, pos: nat, p: Packet) {
    exists n: nat ::
      Iterate(read, d, Running(pos, p), n).Running? && StuckAt(read, d, Iterate(read, d, Running(pos, p), n).pos)
  }

  lemma {:induction false} DivergenceIsStuck(read: Reader<TlvValue>, d: seq<Byte>, pos: nat, p: Packet)
    returns (n: nat)
    requires Forward(read, d) && Loop(read, d, pos, p).Diverges?
    ensures var s := Iterate(read, d, Running(pos, p), n); s.Running? && StuckAt(read, d, s.pos)
    decreases |d| - pos
  {
    var s := LoopStep(read, d, Running(pos, p));
    if s.pos == pos {
      n := 0;
    } else {
      var m := DivergenceIsStuck(read, d, s.pos, s.packet);
      n := m + 1;
    }
  }

  lemma {:induction false} StuckDiverges(read: Reader<TlvValue>, d: seq<Byte>, pos: nat, p: Packet, n: nat)
    requires var s := Iterate(read, d, Running(pos, p), n); s.Running? && StuckAt(read, d, s.pos)
    ensures Loop(read, d, pos, p).Diverges?
    decreases n
  {
    if n == 0 {
    } else {
      var s := LoopStep(read, d, Running(pos, p));
      if !s.Running? {
        Halted(read, d, s, n - 1);
      } else if s.pos > pos {
        StuckDiverges(read, d, s.pos, s.packet, n - 1);
      }
    }
  }

  lemma DivergesIffReachesStuck(read: Reader<TlvValue>, d: seq<Byte>, pos: nat, p: Packet)
    requires Forward(read, d)
    ensures Loop(read, d, pos, p).Diverges? <==> ReachesStuck(read, d, pos, p)
  {
    if Loop(read, d, pos, p).Diverges? {
      var n := DivergenceIsStuck(read, d, pos, p);
    }
    if ReachesStuck(read, d, pos, p) {
      var n: nat :| var s := Iterate(read, d, Running(pos, p), n); s.Running? && StuckAt(read, d, s.pos);
      StuckDiverges(read, d, pos, p, n);
    }
  }

  /** However one TLV is read, the loop runs for ever on exactly those buffers in which it
      reaches a TLV that leads back to its own start; on all others it halts within one
      iteration a byte. */
  lemma TerminatesIff(read: Reader<TlvValue>, d: seq<Byte>, pos: nat, p: Packet)
    requires Forward(read, d) && pos <= |d|
    ensures (forall n: nat :: Iterate(read, d, Running(pos, p), n).Running?) <==> ReachesStuck(read, d, pos, p)
    ensures !ReachesStuck(read, d, pos, p) ==> !Iterate(read, d, Running(pos, p), |d| - pos + 1).Running?
  {
    DivergesIffRunsForEver(read, d, pos, p);
    DivergesIffReachesStuck(read, d, pos, p);
    LoopComputesOutcome(read, d, pos, p, |d| - pos + 1);
  }

  /** A TLV that decodes although its length field is 0. */
  predicate ZeroLengthAt(d: seq<Byte>, pos: nat) {
    ReadTlv(d, pos).Got? && Word16(d[pos + 2], d[pos + 3]) == 0
  }

  ghost predicate ReachesZeroLength(d: seq<Byte>, pos: nat, p: Packet) {
    exists n: nat ::
      Iterate(ReadTlv, d, Running(pos, p), n).Running? && ZeroLengthAt(d, Iterate(ReadTlv, d, Running(pos, p), n).pos)
  }

  lemma StuckIffZeroLength(d: seq<Byte>)
    ensures Forward(ReadTlv, d)
    ensures forall q: nat :: StuckAt(ReadTlv, d, q) <==> ZeroLengthAt(d, q)
  {
  }

  lemma ReachesEither(d: seq<Byte>, pos: nat, p: Packet)
    requires forall q: nat :: StuckAt(ReadTlv, d, q) <==> ZeroLengthAt(d, q)
    ensures ReachesStuck(ReadTlv, d, pos, p) <==> ReachesZeroLength(d, pos, p)
  {
    var read: Reader<TlvValue> := ReadTlv;
    if ReachesStuck(read, d, pos, p) {
      var n: nat :| var s := Iterate(read, d, Running(pos, p), n); s.Running? && StuckAt(read, d, s.pos);
      assert ZeroLengthAt(d, Iterate(read, d, Running(pos, p), n).pos);
    }
    if ReachesZeroLength(d, pos, p) {
      var n: nat :| var s := Iterate(read, d, Running(pos, p), n); s.Running? && ZeroLengthAt(d, s.pos);
      assert StuckAt(read, d, Iterate(read, d, Running(pos, p), n).pos);
    }
  }

  /** The parser runs for ever on exactly those buffers in which it reaches a decodable TLV
      of length 0, and halts on all others within one iteration a byte. */
  lemma ParserTerminatesIff(d: seq<Byte>, pos: nat, p: Packet)
    requires pos <= |d|
    ensures (forall n: nat :: Iterate(ReadTlv, d, Running(pos, p), n).Running?) <==> ReachesZeroLength(d, pos, p)
    ensures !ReachesZeroLength(d, pos, p) ==> !Iterate(ReadTlv, d, Running(pos, p), |d| - pos + 1).Running?
    ensures ParseLoop(d, pos, p).Diverges? <==> ReachesZeroLength(d, pos, p)
  {
    StuckIffZeroLength(d);
    ReachesEither(d, pos, p);
    TerminatesIff(ReadTlv, d, pos, p);
    DivergesIffReachesStuck(ReadTlv, d, pos, p);
  }

  lemma StuckHere(read: Reader<TlvValue>, d: seq<Byte>, pos: nat, p: Packet)
    requires StuckAt(read, d, pos)
    ensures Loop(read, d, pos, p) == Diverges
  {
  }

  lemma UnknownTlvWithoutLength(d: seq<Byte>, pos: nat, tag: U16)
    requires Read16(d, pos) == Got(tag, pos + 2) && Read16(d, pos + 2) == Got(0, pos + 4)
    requires ReadPayload(d, pos + 4, tag, 0) == Got(Ignored, pos + 4)
    ensures StuckAt(ReadTlv, d, pos)
  {
  }

  /** Eight bytes suffice: a header, and a TLV of an unknown type with length 0. */
  lemma ShortestHang(d: seq<Byte>)
    requires d == [2, 180, 0, 0, 0, 99, 0, 0]
    ensures Parse(d, 0) == Diverges
  {
    assert ReadPayload(d, 8, 99, 0) == Got(Ignored, 8);
    UnknownTlvWithoutLength(d, 4, 99);
    StuckHere(ReadTlv, d, 4, NewPacket(d[0], d[1], Word16(d[2], d[3])));
  }
}
