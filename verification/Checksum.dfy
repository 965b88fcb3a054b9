/** The Internet checksum of libcdp/platform/checksum.h, and what its use at both ends of
    a CDP frame guarantees. */
module Checksum {
  import opened Bytes

  // ---------- The accumulator, the two folds and the byte flip ----------

  /** Which byte of an aligned pair is the more significant one. */
  datatype ByteOrder = Big | Little

  /** The contribution of a byte at index i to the sum of words. */
  function Weighted(order: ByteOrder, i: nat, v: int): int {
    if (i % 2 == 0) == order.Big? then 0x100 * v else v
  }

  /** The unbounded sum of the buffer's 16-bit words; an odd last byte is padded with zero. */
  function WordSum(b: seq<Byte>, order: ByteOrder): nat {
    if b == [] then 0
    else WordSum(b[..|b| - 1], order) + Weighted(order, |b| - 1, b[|b| - 1])
  }

  /** One deferred-carry step on the 32-bit accumulator. */
  function Fold(s: U32): (r: U32) {
    s % 0x1_0000 + s / 0x1_0000
  }

  function Flip16(v: U16): U16 {
    v / 0x100 + v % 0x100 * 0x100
  }

  /** The nonzero representative modulo 65535, and 0 only for 0. */
  function Rep(s: nat): U16 {
    if s == 0 then 0 else (s - 1) % 65535 + 1
  }

  /** The value the C function returns, its 32-bit accumulator included. */
  function Csum(b: seq<Byte>): U16 {
    Flip16(0xFFFF - Rep(WordSum(b, Big) % 0x1_0000_0000))
  }

  predicate Validates(b: seq<Byte>) {
    Csum(b) == 0
  }

  lemma FlipExchangesBytes(v: U16)
    ensures Flip16(v) / 0x100 == v % 0x100 && Flip16(v) % 0x100 == v / 0x100
    ensures Flip16(v) == 0 <==> v == 0
  {
  }

  lemma SumInRange(s: nat)
    requires s < 0x1_0000_0000
    ensures s % 0x1_0000_0000 == s
  {
  }

  /** The buffer validates exactly when its accumulator is a nonzero multiple of 65535. */
  lemma ValidatesIff(b: seq<Byte>, s: nat)
    requires s == WordSum(b, Big) % 0x1_0000_0000
    ensures Validates(b) <==> Rep(s) == 0xFFFF
    ensures Validates(b) <==> s > 0 && s % 65535 == 0
  {
    FlipExchangesBytes(0xFFFF - Rep(s));
    RepIsMultiple(s);
  }

  lemma RepIsMultiple(s: nat)
    ensures Rep(s) == 0xFFFF <==> s > 0 && s % 65535 == 0
  {
    if s > 0 {
      var k := RepQuotient(s);
      if s % 65535 == 0 {
        RepCharacterised(s, 65535, s / 65535 - 1);
      }
    }
  }

  lemma RepCharacterised(s: nat, r: nat, k: int)
    requires s == r + 65535 * k && 1 <= r <= 65535 && 0 < s
    ensures Rep(s) == r
  {
    assert s - 1 == (r - 1) + 65535 * k;
    assert (s - 1) % 65535 == r - 1;
  }

  lemma RepQuotient(s: nat) returns (k: nat)
    requires 0 < s
    ensures s == Rep(s) + 65535 * k && 1 <= Rep(s)
  {
    k := (s - 1) / 65535;
  }

  /** Two folds of any 32-bit accumulator leave 16 bits: the representative modulo 65535. */
  lemma TwoFoldsReachRep(s: U32)
    ensures Fold(Fold(s)) == Rep(s)
  {
    var t := Fold(s);
    assert s == t + 65535 * (s / 0x1_0000);
    assert t == Fold(t) + 65535 * (t / 0x1_0000);
    if s > 0 {
      RepCharacterised(s, Fold(t), s / 0x1_0000 + t / 0x1_0000);
    }
  }

  lemma AddModulo(x: nat, y: nat)
    ensures (x % 0x1_0000_0000 + y) % 0x1_0000_0000 == (x + y) % 0x1_0000_0000
  {
  }

  method IpComputeCsum(buffer: seq<Byte>) returns (csum: U16)
    ensures csum == Csum(buffer)
  {
    var checksum: U32 := 0;
    for i := 0 to |buffer|
      invariant checksum == WordSum(buffer[..i], Big) % 0x1_0000_0000
    {
      assert buffer[..i + 1][..i] == buffer[..i];
      AddModulo(WordSum(buffer[..i], Big), Weighted(Big, i, buffer[i]));
      if i % 2 == 1 {
        checksum := (checksum + buffer[i]) % 0x1_0000_0000;
      } else {
        checksum := (checksum + 0x100 * (buffer[i] as int)) % 0x1_0000_0000;
      }
    }
    assert buffer[..|buffer|] == buffer;
    TwoFoldsReachRep(checksum);
    checksum := Fold(checksum);
    checksum := Fold(checksum);
    csum := Flip16(0xFFFF - checksum);
  }

  // ---------- The accumulator's range ----------

  lemma {:induction false} WordSumBound(b: seq<Byte>, order: ByteOrder)
    ensures WordSum(b, order) <= 65535 * (|b| / 2) + (if |b| % 2 == 0 then 0 else 65280)
  {
    if |b| < 2 {
    } else {
      var c := b[..|b| - 1];
      assert c[..|c| - 1] == b[..|b| - 2];
      WordSumBound(b[..|b| - 2], order);
    }
  }

  /** The 32-bit accumulator is exact for every buffer of at most 131074 bytes. */
  lemma AccumulatorNeverWraps(b: seq<Byte>, order: ByteOrder)
    requires |b| <= 131074
    ensures WordSum(b, order) < 0x1_0000_0000
  {
    WordSumBound(b, order);
  }

  lemma {:induction false} WordSumOfOnes(n: nat)
    ensures WordSum(seq(n, _ => 0xFF), Big) == 65535 * (n / 2) + (if n % 2 == 0 then 0 else 65280)
  {
    if n == 0 {
    } else {
      assert seq(n, _ => 0xFF)[..n - 1] == seq(n - 1, _ => 0xFF);
      WordSumOfOnes(n - 1);
    }
  }

  /** The bound is tight: it is met with equality, and one byte more can wrap. */
  lemma AccumulatorBoundIsTight()
    ensures WordSum(seq(131074, _ => 0xFF), Big) == 0x1_0000_0000 - 1
    ensures WordSum(seq(131075, _ => 0xFF), Big) >= 0x1_0000_0000
  {
    WordSumOfOnes(131074);
    WordSumOfOnes(131075);
  }

  // ---------- Deferred carries against RFC 1071's one's complement sum ----------

  /** One's complement addition: the carry out of bit 15 is added back at once. */
  function AddEndAround(x: U16, y: U16): U16 {
    if x + y < 0x1_0000 then x + y else x + y - 65535
  }

  /** The 16-bit one's complement sum of section 1 of RFC 1071, word by word. */
  function OnesComplementSum(b: seq<Byte>): U16 {
    if b == [] then 0
    else if |b| % 2 == 1 then AddEndAround(OnesComplementSum(b[..|b| - 1]), Word16(b[|b| - 1], 0))
    else AddEndAround(OnesComplementSum(b[..|b| - 2]), Word16(b[|b| - 2], b[|b| - 1]))
  }

  lemma RepOfSum(x: nat, y: U16)
    ensures Rep(x + y) == AddEndAround(Rep(x), y)
  {
    if x > 0 {
      var k := RepQuotient(x);
      var r := AddEndAround(Rep(x), y);
      RepCharacterised(x + y, r, if Rep(x) + y < 0x1_0000 then k else k + 1);
    } else if y > 0 {
      RepCharacterised(y, y, 0);
    }
  }

  lemma WordSumOfLastPair(b: seq<Byte>)
    requires |b| >= 2 && |b| % 2 == 0
    ensures WordSum(b, Big) == WordSum(b[..|b| - 2], Big) + Word16(b[|b| - 2], b[|b| - 1])
  {
    var c := b[..|b| - 1];
    assert c[..|c| - 1] == b[..|b| - 2];
    assert WordSum(b, Big) == WordSum(c, Big) + b[|b| - 1];
    assert WordSum(c, Big) == WordSum(b[..|b| - 2], Big) + Word16(c[|c| - 1], 0);
  }

  lemma {:induction false} RepIsOnesComplementSum(b: seq<Byte>)
    ensures Rep(WordSum(b, Big)) == OnesComplementSum(b)
  {
    if b == [] {
    } else {
      if |b| % 2 == 1 {
        RepIsOnesComplementSum(b[..|b| - 1]);
        RepOfSum(WordSum(b[..|b| - 1], Big), Word16(b[|b| - 1], 0));
      } else {
        WordSumOfLastPair(b);
        RepIsOnesComplementSum(b[..|b| - 2]);
        RepOfSum(WordSum(b[..|b| - 2], Big), Word16(b[|b| - 2], b[|b| - 1]));
      }
    }
  }

  /** Within the accumulator's range, deferring the carries computes RFC 1071's checksum. */
  lemma DeferredCarriesAreExact(b: seq<Byte>, sum: U16)
    requires |b| <= 131074 && sum == OnesComplementSum(b)
    ensures Csum(b) == Flip16(0xFFFF - sum)
    ensures Validates(b) <==> sum == 0xFFFF
  {
    AccumulatorNeverWraps(b, Big);
    SumInRange(WordSum(b, Big));
    RepIsOnesComplementSum(b);
    ValidatesIff(b, WordSum(b, Big));
  }

  // ---------- Byte order independence ----------

  function OddSum(b: seq<Byte>): nat {
    if b == [] then 0
    else OddSum(b[..|b| - 1]) + (if |b| % 2 == 0 then b[|b| - 1] else 0)
  }

  lemma {:induction false} BigIsShiftedLittle(b: seq<Byte>)
    ensures 0x100 * WordSum(b, Little) == WordSum(b, Big) + 65535 * OddSum(b)
    ensures WordSum(b, Little) == 0 <==> WordSum(b, Big) == 0
  {
    if b == [] {
    } else {
      BigIsShiftedLittle(b[..|b| - 1]);
    }
  }

  lemma FlipIsShift(v: U16)
    ensures 0x100 * v == Flip16(v) + 65535 * (v / 0x100)
    ensures Flip16(Flip16(v)) == v
    ensures Flip16(0xFFFF - v) == 0xFFFF - Flip16(v)
    ensures v > 0 ==> Flip16(v) > 0
  {
  }

  lemma FlipOfRep(big: nat, little: nat, odd: nat)
    requires 0x100 * little == big + 65535 * odd
    requires little == 0 <==> big == 0
    ensures Flip16(Rep(little)) == Rep(big)
  {
    if little > 0 {
      var k := RepQuotient(little);
      FlipIsShift(Rep(little));
      RepCharacterised(big, Flip16(Rep(little)), Rep(little) / 0x100 + 0x100 * k - odd);
    }
  }

  /** Section 2 (B) of RFC 1071: summing little-endian words instead yields the same
      checksum bytes, without the flip. */
  lemma ByteOrderIndependence(b: seq<Byte>, folded: U16)
    requires |b| <= 131074 && folded == Rep(WordSum(b, Little))
    ensures Csum(b) == 0xFFFF - folded
  {
    AccumulatorNeverWraps(b, Big);
    SumInRange(WordSum(b, Big));
    BigIsShiftedLittle(b);
    FlipOfRep(WordSum(b, Big), WordSum(b, Little), OddSum(b));
    FlipIsShift(Rep(WordSum(b, Little)));
    FlipIsShift(0xFFFF - Rep(WordSum(b, Big)));
    FlipIsShift(Rep(WordSum(b, Big)));
  }

  // ---------- Validation ----------

  lemma {:induction false} WordSumUpdate(b: seq<Byte>, i: nat, v: Byte, order: ByteOrder)
    requires i < |b|
    ensures WordSum(b[i := v], order) == WordSum(b, order) + Weighted(order, i, v - b[i])
  {
    var n := |b| - 1;
    if i < n {
      assert b[i := v][..n] == b[..n][i := v];
      WordSumUpdate(b[..n], i, v, order);
    } else {
      assert b[i := v][..n] == b[..n];
    }
  }

  /** What stream_writer_inject_checksum leaves in the buffer. */
  function Inject(b: seq<Byte>, position: nat): seq<Byte>
    requires position + 2 <= |b|
  {
    b[position + 1 := Csum(b) / 0x100][position := Csum(b) % 0x100]
  }

  lemma WordSumOfReplacement(b: seq<Byte>, position: nat, hi: Byte, lo: Byte)
    requires position + 2 <= |b| && position % 2 == 0
    ensures WordSum(b[position + 1 := lo][position := hi], Big)
            == WordSum(b, Big) - Word16(b[position], b[position + 1]) + Word16(hi, lo)
  {
    WordSumUpdate(b, position + 1, lo, Big);
    WordSumUpdate(b[position + 1 := lo], position, hi, Big);
  }

  lemma BeforeFlip(b: seq<Byte>) returns (c: U16)
    ensures c == 0xFFFF - Rep(WordSum(b, Big) % 0x1_0000_0000)
    ensures Csum(b) / 0x100 == c % 0x100 && Csum(b) % 0x100 == c / 0x100
    ensures Word16(c / 0x100, c % 0x100) == c
  {
    c := 0xFFFF - Rep(WordSum(b, Big) % 0x1_0000_0000);
    FlipExchangesBytes(c);
  }

  lemma WordSumOfInject(b: seq<Byte>, position: nat)
    requires position + 2 <= |b| && position % 2 == 0
    ensures WordSum(Inject(b, position), Big)
            == WordSum(b, Big) - Word16(b[position], b[position + 1])
               + (0xFFFF - Rep(WordSum(b, Big) % 0x1_0000_0000))
  {
    var c := BeforeFlip(b);
    WordSumOfReplacement(b, position, c / 0x100, c % 0x100);
  }

  /** Completing an accumulator to a multiple of 65535 never carries out of 32 bits. */
  lemma ComplementNeverWraps(s: U32)
    ensures var t := s + (0xFFFF - Rep(s)); 0 < t < 0x1_0000_0000 && t % 65535 == 0
  {
    if s > 0 {
      var k := RepQuotient(s);
      assert s + (0xFFFF - Rep(s)) == 65535 * (k + 1);
      assert k <= 65536;
    }
  }

  lemma AddSmall(s: nat, d: int)
    requires 0 <= s + d && 0 <= s % 0x1_0000_0000 + d < 0x1_0000_0000
    ensures (s + d) % 0x1_0000_0000 == s % 0x1_0000_0000 + d
  {
  }

  lemma SealedSum(total: nat, after: nat)
    requires after == total + (0xFFFF - Rep(total % 0x1_0000_0000))
    ensures after % 0x1_0000_0000 > 0 && after % 0x1_0000_0000 % 65535 == 0
  {
    var s: nat := total % 0x1_0000_0000;
    ComplementNeverWraps(s);
    AddSmall(total, 0xFFFF - Rep(s));
  }

  /** Injection at an even position whose two bytes are zero makes the buffer validate,
      whatever its length: the injected word never carries out of the accumulator. */
  lemma InjectedChecksumValidates(b: seq<Byte>, position: nat)
    requires position + 2 <= |b| && position % 2 == 0
    requires b[position] == 0 && b[position + 1] == 0
    ensures Validates(Inject(b, position))
  {
    WordSumOfInject(b, position);
    var after := WordSum(Inject(b, position), Big);
    SealedSum(WordSum(b, Big), after);
    ValidatesIff(Inject(b, position), after % 0x1_0000_0000);
  }

  /** The 32-bit accumulator before the folds. */
  function Accumulator(b: seq<Byte>): U32 {
    WordSum(b, Big) % 0x1_0000_0000
  }

  lemma ResidueOfReplacement(s: U32, w: U16)
    requires 0 < w
    ensures var t := s + (0xFFFF - Rep(s)) - w;
            0 <= t < 0x1_0000_0000 && (t > 0 && t % 65535 == 0 <==> w == 0xFFFF && s > 0xFFFF)
  {
    if s > 0 {
      var k := RepQuotient(s);
      var t := s + (0xFFFF - Rep(s)) - w;
      assert t == 65535 * k + (65535 - w);
      ComplementNeverWraps(s);
      if w == 65535 {
        assert t == 65535 * k;
      } else {
        assert t % 65535 == 65535 - w;
      }
    }
  }

  lemma AccumulatorOfReplacement(total: nat, after: nat, w: U16)
    requires 0 < w && after == total - w + (0xFFFF - Rep(total % 0x1_0000_0000))
    ensures var t := after % 0x1_0000_0000;
            t > 0 && t % 65535 == 0 <==> w == 0xFFFF && total % 0x1_0000_0000 > 0xFFFF
  {
    var s: U32 := total % 0x1_0000_0000;
    ResidueOfReplacement(s, w);
    AddSmall(total, 0xFFFF - Rep(s) - w);
  }

  /** Over a placeholder that is not zero, injection works exactly when the placeholder was
      0xFFFF and the accumulator above 0xFFFF, whatever the buffer's length. */
  lemma InjectOverPlaceholder(b: seq<Byte>, position: nat)
    requires position + 2 <= |b| && position % 2 == 0
    ensures var was := Word16(b[position], b[position + 1]);
            Validates(Inject(b, position)) <==> was == 0 || (was == 0xFFFF && Accumulator(b) > 0xFFFF)
  {
    var was := Word16(b[position], b[position + 1]);
    if was == 0 {
      InjectedChecksumValidates(b, position);
    } else {
      WordSumOfInject(b, position);
      var after := WordSum(Inject(b, position), Big);
      AccumulatorOfReplacement(WordSum(b, Big), after, was);
      ValidatesIff(Inject(b, position), after % 0x1_0000_0000);
    }
  }

  /** The two buffers differ in the aligned word at position and nowhere else. */
  predicate DifferInWord(b: seq<Byte>, c: seq<Byte>, position: nat) {
    && |b| == |c| && position < |b| && position % 2 == 0
    && (forall i | 0 <= i < |b| && i != position && i != position + 1 :: b[i] == c[i])
  }

  function WordAt(b: seq<Byte>, position: nat): U16
    requires position < |b|
  {
    Word16(b[position], if position + 1 < |b| then b[position + 1] else 0)
  }

  lemma WordSumOfDifferInWord(b: seq<Byte>, c: seq<Byte>, position: nat)
    requires DifferInWord(b, c, position)
    ensures WordSum(c, Big) - WordSum(b, Big) == WordAt(c, position) - WordAt(b, position)
  {
    if position + 1 < |b| {
      assert b[position + 1 := c[position + 1]][position := c[position]] == c;
      WordSumOfReplacement(b, position, c[position], c[position + 1]);
    } else {
      assert b[position := c[position]] == c;
      WordSumUpdate(b, position, c[position], Big);
    }
  }

  lemma MultipleOf65535(s: nat) returns (k: nat)
    requires s % 65535 == 0
    ensures s == 65535 * k
  {
    k := s / 65535;
  }

  lemma Remainder65535(k: int, r: nat)
    requires r < 65535
    ensures (65535 * k + r) % 65535 == r
  {
  }

  /** Which shifts of a valid accumulator, wrapping around at 32 bits, are valid again. */
  lemma ResidueOfShift(s: U32, d: int, t: nat)
    requires s > 0 && s % 65535 == 0 && -65535 <= d <= 65535
    requires t == if s + d >= 0x1_0000_0000 then s + d - 0x1_0000_0000
                  else if s + d < 0 then s + d + 0x1_0000_0000 else s + d
    ensures t > 0 && t % 65535 == 0
            <==> d == 0 || (d == 65535 && s != 0xFFFF_FFFF) || (d == -65535 && s != 0xFFFF)
  {
    var k := MultipleOf65535(s);
    assert 1 <= k <= 65537;
    if d == 65535 {
      if k == 65537 {
        Remainder65535(0, 65534);
      } else {
        Remainder65535(k + 1, 0);
      }
    } else if d == -65535 {
      Remainder65535(k - 1, 0);
    } else if d < 0 {
      Remainder65535(k - 1, 65535 + d);
    } else if k < 65537 {
      Remainder65535(k, d);
    } else if d > 0 {
      Remainder65535(0, d - 1);
    }
  }

  lemma WrappingAdd(total: nat, d: int)
    requires -65535 <= d <= 65535 && 0 <= total + d
    ensures var s := total % 0x1_0000_0000;
            (total + d) % 0x1_0000_0000 == if s + d >= 0x1_0000_0000 then s + d - 0x1_0000_0000
                                           else if s + d < 0 then s + d + 0x1_0000_0000 else s + d
  {
    var q := total / 0x1_0000_0000;
    assert total == 0x1_0000_0000 * q + total % 0x1_0000_0000;
  }

  /** A change confined to one aligned word of a valid buffer of any length goes unnoticed
      exactly when it exchanges the two zeros of one's complement and neither wraps the
      accumulator around nor empties it. */
  lemma WordErrorDetection(b: seq<Byte>, c: seq<Byte>, position: nat)
    requires DifferInWord(b, c, position) && Validates(b)
    ensures var v := WordAt(b, position);
            var w := WordAt(c, position);
            Validates(c)
            <==> || v == w
                 || (v == 0 && w == 0xFFFF && Accumulator(b) != 0xFFFF_FFFF)
                 || (v == 0xFFFF && w == 0 && Accumulator(b) != 0xFFFF)
  {
    var d := WordAt(c, position) - WordAt(b, position);
    WordSumOfDifferInWord(b, c, position);
    ValidatesIff(b, Accumulator(b));
    ValidatesIff(c, Accumulator(c));
    WrappingAdd(WordSum(b, Big), d);
    ResidueOfShift(Accumulator(b), d, Accumulator(c));
  }

  /** Such a change: both zeros of one's complement validate beside 0xFFFF. */
  lemma ExchangedZerosValidate(b: seq<Byte>, c: seq<Byte>)
    requires b == [0xFF, 0xFF, 0, 0] && c == [0xFF, 0xFF, 0xFF, 0xFF]
    ensures Validates(b) && Validates(c)
  {
    assert b[..3][..2] == [0xFF, 0xFF] && [0xFF, 0xFF][..1] == [0xFF];
    var ff: seq<Byte> := [0xFF];
    assert ff[..0] == [] && WordSum(ff, Big) == 0xFF00;
    var ffff: seq<Byte> := [0xFF, 0xFF];
    assert ffff[..1] == ff && WordSum(ffff, Big) == 0xFFFF;
    assert WordSum(b[..3], Big) == 0xFFFF && WordSum(b, Big) == 0xFFFF;
    ValidatesIff(b, 0xFFFF);
    WordErrorDetection(b, c, 2);
  }

  /** Every change of a single byte of a valid buffer, of any length, is detected. */
  lemma ByteErrorDetected(b: seq<Byte>, i: nat, v: Byte)
    requires i < |b| && v != b[i] && Validates(b)
    ensures !Validates(b[i := v])
  {
    WordErrorDetection(b, b[i := v], i - i % 2);
  }
}
