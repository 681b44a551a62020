/** Which transmission errors the checksum always catches. */
module CrcErrors {
  import opened Bytes
  import opened Crc
  import opened CrcAlgebra
  import opened Gf2

  function Ones(bits: seq<bool>): nat {
    if bits == [] then 0 else Ones(bits[..|bits| - 1]) + if bits[|bits| - 1] then 1 else 0
  }

  /** A non-zero error pattern whose set bits all lie within 8 consecutive positions. */
  ghost predicate IsBurst(bits: seq<bool>) {
    && (exists k :: 0 <= k < |bits| && bits[k])
    && exists i :: InWindow(bits, i)
  }

  ghost predicate InWindow(bits: seq<bool>, i: int) {
    forall k :: 0 <= k < |bits| && bits[k] ==> i <= k < i + 8
  }

  // ---------------------------------------------------------------- odd numbers of flips

  function RegisterParity(v: bv8): bool {
    (((v & 0x80 != 0) != (v & 0x40 != 0)) != ((v & 0x20 != 0) != (v & 0x10 != 0))) !=
    (((v & 0x08 != 0) != (v & 0x04 != 0)) != ((v & 0x02 != 0) != (v & 0x01 != 0)))
  }

  /** x + 1 divides the generator, so a clock changes the register's parity by the bit shifted in. */
  lemma ParityStep(r: bv8, b: bool)
    ensures RegisterParity(ShiftIn(r, b)) == (RegisterParity(r) != b)
  {
    ShiftInBits(r, b);
  }

  lemma {:induction false} ParityOfRegister(bits: seq<bool>)
    ensures RegisterParity(Register(0, bits)) == (Ones(bits) % 2 == 1)
  {
    if bits != [] {
      var n := |bits| - 1;
      ParityOfRegister(bits[..n]);
      ParityStep(Register(0, bits[..n]), bits[n]);
    }
  }

  // ---------------------------------------------------------------- bursts

  lemma {:induction false} RegisterZeros(r: bv8, n: nat)
    ensures Register(r, Zeros(n)) == 0 <==> r == 0
  {
    if n != 0 {
      RegisterZeros(r, n - 1);
      assert Zeros(n)[..n - 1] == Zeros(n - 1);
      ShiftInZero(Register(r, Zeros(n - 1)));
    }
  }

  lemma ShiftInZero(r: bv8)
    ensures ShiftIn(r, false) == 0 <==> r == 0
  {}

  function Bit(b: bool, weight: bv8): bv8 {
    if b then weight else 0
  }

  function Pack(w: seq<bool>): bv8
    requires |w| == 8
  {
    Bit(w[0], 0x80) | Bit(w[1], 0x40) | Bit(w[2], 0x20) | Bit(w[3], 0x10)
    | Bit(w[4], 0x08) | Bit(w[5], 0x04) | Bit(w[6], 0x02) | Bit(w[7], 0x01)
  }

  lemma PackBits(w: seq<bool>)
    requires |w| == 8
    ensures TopBits(Pack(w), 8) == w
  {
    RegisterBits(Pack(w));
  }

  lemma RegisterWindow(w: seq<bool>)
    requires |w| == 8 && Register(0, w) == 0
    ensures w == Zeros(8)
  {
    PackBits(w);
    RegisterPacked(Pack(w), w);
  }

  lemma RegisterPacked(v: bv8, w: seq<bool>)
    requires TopBits(v, 8) == w && Register(0, w) == 0
    ensures w == Zeros(8)
  {
    RegisterTopBits(v, 0, v, 8);
    ClockEight(v);
    XorZero(Clock(v, 8), Register(0, w), ShiftLeft(v, 8));
    ClockZero(v, v, 0);
    assert v == 0;
    RegisterBits(0);
  }

  /** A burst in a string of at least 8 bits: zeros, a window of 8 that is not all zeros, zeros. */
  lemma BurstWindow(bits: seq<bool>) returns (i: nat)
    requires IsBurst(bits) && |bits| >= 8
    ensures i + 8 <= |bits| && bits[i..i + 8] != Zeros(8)
    ensures bits == Zeros(i) + bits[i..i + 8] + Zeros(|bits| - i - 8)
  {
    var i0 :| InWindow(bits, i0);
    var k :| 0 <= k < |bits| && bits[k];
    i := if i0 + 8 > |bits| then |bits| - 8 else if i0 < 0 then 0 else i0;
    assert i <= k < i + 8 <= |bits|;
    assert bits[i..i + 8][k - i];
  }

  lemma BurstLeavesTrace(bits: seq<bool>)
    requires IsBurst(bits) && |bits| >= 8
    ensures Register(0, bits) != 0
  {
    var i := BurstWindow(bits);
    var w, rest := bits[i..i + 8], |bits| - i - 8;
    RegisterConcat(0, Zeros(i) + w, Zeros(rest));
    RegisterConcat(0, Zeros(i), w);
    RegisterZeros(0, i);
    RegisterZeros(Register(0, w), rest);
    if Register(0, w) == 0 {
      RegisterWindow(w);
      assert false;
    }
  }

  // ---------------------------------------------------------------- two flips

  /** Exactly two bits are set. */
  ghost predicate TwoFlips(bits: seq<bool>, i: nat, j: nat) {
    i < j < |bits| && forall k :: 0 <= k < |bits| ==> (bits[k] <==> k == i || k == j)
  }

  /** So many clocks take the register that one set bit leaves back to itself. */
  ghost predicate Period(d: nat) {
    Register(7, Zeros(d)) == 7
  }

  lemma RegisterMoreZeros(r: bv8, m: nat, n: nat)
    ensures Register(r, Zeros(m + n)) == Register(Register(r, Zeros(m)), Zeros(n))
  {
    RegisterConcat(r, Zeros(m), Zeros(n));
    assert Zeros(m) + Zeros(n) == Zeros(m + n);
  }

  lemma OneMoreFlip(r: bv8)
    ensures ShiftIn(r, true) == 0 <==> ShiftIn(r, false) == 7
  {}

  /** Zeros, a one, zeros, a one, zeros. */
  lemma {:induction false} TwoFlipsShape(bits: seq<bool>, i: nat, j: nat)
    requires TwoFlips(bits, i, j)
    ensures bits == Zeros(i) + [true] + Zeros(j - i - 1) + [true] + Zeros(|bits| - j - 1)
  {}

  lemma {:induction false} TwoFlipsLeave(bits: seq<bool>, i: nat, j: nat)
    requires TwoFlips(bits, i, j)
    ensures Register(0, bits) == 0 <==> Period(j - i)
  {
    var front, gap, rest := Zeros(i), Zeros(j - i - 1), |bits| - j - 1;
    TwoFlipsShape(bits, i, j);
    RegisterConcat(0, front + [true] + gap + [true], Zeros(rest));
    RegisterZeros(Register(0, front + [true] + gap + [true]), rest);
    RegisterSnoc(0, front + [true] + gap, true);
    RegisterConcat(0, front + [true], gap);
    RegisterSnoc(0, front, true);
    RegisterZeros(0, i);
    FirstFlip();
    OneMoreFlip(Register(7, gap));
    RegisterSnoc(7, gap, false);
    assert gap + [false] == Zeros(j - i);
  }

  lemma FirstFlip()
    ensures ShiftIn(0, true) == 7
  {}

  /** Periods are closed under differences, 127 is one and 1 is none; 127 is prime. */
  lemma PeriodDifference(a: nat, b: nat)
    requires Period(a) && Period(b) && b <= a
    ensures Period(a - b)
  {
    RegisterMoreZeros(7, b, a - b);
  }

  lemma {:induction false} PeriodRemainder(a: nat, b: nat) returns (q: nat, r: nat)
    requires Period(a) && Period(b) && b > 0
    ensures a == q * b + r && r < b && Period(r)
    decreases a
  {
    if a < b {
      q, r := 0, a;
    } else {
      PeriodDifference(a, b);
      q, r := PeriodRemainder(a - b, b);
      assert (q + 1) * b == q * b + b;
      q := q + 1;
    }
  }

  lemma {:induction false} PeriodMultiple(q: nat)
    ensures Period(127 * q)
  {
    if q == 0 {
      assert Zeros(0) == [];
    } else {
      PeriodMultiple(q - 1);
      Period127();
      RegisterMoreZeros(7, 127 * (q - 1), 127);
      assert 127 * (q - 1) + 127 == 127 * q;
    }
  }

  lemma {:induction false} ZerosAreClocks(r: bv8, n: nat)
    ensures Register(r, Zeros(n)) == Clock(r, n)
    decreases n
  {
    if n == 0 {
      assert Zeros(0) == [];
    } else {
      assert Zeros(n) == [false] + Zeros(n - 1);
      RegisterCons(r, false, Zeros(n - 1));
      ZerosAreClocks(ShiftIn(r, false), n - 1);
    }
  }

  lemma EightZeros(n: nat, r: bv8, next: bv8)
    requires Register(7, Zeros(n)) == r && next == EightShifts(r)
    ensures Register(7, Zeros(n + 8)) == next
  {
    RegisterMoreZeros(7, n, 8);
    ZerosAreClocks(r, 8);
    ClockEight(r);
  }

  lemma OneZero(n: nat, r: bv8, next: bv8)
    requires Register(7, Zeros(n)) == r && next == ShiftIn(r, false)
    ensures Register(7, Zeros(n + 1)) == next
  {
    RegisterSnoc(7, Zeros(n), false);
    assert Zeros(n) + [false] == Zeros(n + 1);
  }

  lemma Period127()
    ensures Period(127) && !Period(1)
  {
    assert Zeros(0) == [] && Register(7, Zeros(0)) == 7;
    EightZeros(0, 0x07, 0x15);
    EightZeros(8, 0x15, 0x6B);
    EightZeros(16, 0x6B, 0x16);
    EightZeros(24, 0x16, 0x62);
    EightZeros(32, 0x62, 0x29);
    EightZeros(40, 0x29, 0xDF);
    EightZeros(48, 0xDF, 0x13);
    EightZeros(56, 0x13, 0x79);
    EightZeros(64, 0x79, 0x68);
    EightZeros(72, 0x68, 0x1F);
    EightZeros(80, 0x1F, 0x5D);
    EightZeros(88, 0x5D, 0x94);
    EightZeros(96, 0x94, 0xE5);
    EightZeros(104, 0xE5, 0xB5);
    EightZeros(112, 0xB5, 0x02);
    OneZero(120, 0x02, 0x04);
    OneZero(121, 0x04, 0x08);
    OneZero(122, 0x08, 0x10);
    OneZero(123, 0x10, 0x20);
    OneZero(124, 0x20, 0x40);
    OneZero(125, 0x40, 0x80);
    OneZero(126, 0x80, 0x07);
    OneZero(0, 0x07, 0x0E);
  }

  lemma DividesPrime(g: nat, q: nat)
    requires g * q == 127
    ensures g == 1 || g == 127
  {
    if g > 11 && q > 11 {
      Product(g, q);
      assert false;
    } else if g <= 11 {
      SmallFactor(g, q);
    } else {
      assert q * g == 127;
      SmallFactor(q, g);
    }
  }

  lemma Product(g: nat, q: nat)
    requires g >= 12 && q >= 12
    ensures g * q >= 144
  {
    assert g * q >= 12 * q;
  }

  lemma SmallFactor(g: nat, q: nat)
    requires g <= 11 && g * q == 127
    ensures g == 1 && q == 127
  {
    if
    case g == 0 => case g == 1 => case g == 2 => case g == 3 => case g == 4 => case g == 5 => case g == 6 =>
    case g == 7 => case g == 8 => case g == 9 => case g == 10 => case g == 11 =>
  }

  /** A period below 127 would, by Euclid's algorithm against 127, come down to 1. */
  lemma {:induction false} NoSmallPeriod(e: nat)
    requires 0 < e && Period(e)
    ensures e >= 127
    decreases e
  {
    if e < 127 {
      Period127();
      var q, r := PeriodRemainder(127, e);
      if r == 0 {
        assert e * q == 127;
        DividesPrime(e, q);
        assert false;
      } else {
        NoSmallPeriod(r);
        assert false;
      }
    }
  }

  lemma PeriodExactlyWhen(d: nat)
    ensures Period(d) <==> d % 127 == 0
  {
    if d % 127 == 0 {
      PeriodMultiple(d / 127);
    } else if Period(d) {
      Period127();
      var q, r := PeriodRemainder(d, 127);
      NoSmallPeriod(r);
      assert false;
    }
  }

  // ---------------------------------------------------------------- what a receiver notices

  /** An error the checksum is guaranteed to catch, over payload and checksum octet together. */
  ghost predicate Detectable(err: seq<byte>) {
    err != [] && (IsBurst(Bits(err)) || Ones(Bits(err)) % 2 == 1 || IsUnevenPair(Bits(err)))
  }

  /** Two flips whose distance is no multiple of 127. */
  ghost predicate IsUnevenPair(bits: seq<bool>) {
    exists i: nat, j: nat :: TwoFlips(bits, i, j) && (j - i) % 127 != 0
  }

  lemma PatternLeavesTrace(bits: seq<bool>)
    requires |bits| >= 8 && (IsBurst(bits) || Ones(bits) % 2 == 1 || IsUnevenPair(bits))
    ensures Register(0, bits) != 0
  {
    if IsBurst(bits) {
      BurstLeavesTrace(bits);
    } else if Ones(bits) % 2 == 1 {
      ParityOfRegister(bits);
      assert !RegisterParity(0);
    } else {
      UnevenPairLeavesTrace(bits);
    }
  }

  lemma UnevenPairLeavesTrace(bits: seq<bool>)
    requires IsUnevenPair(bits)
    ensures Register(0, bits) != 0
  {
    var i: nat, j: nat :| TwoFlips(bits, i, j) && (j - i) % 127 != 0;
    TwoFlipsLeave(bits, i, j);
    PeriodExactlyWhen(j - i);
  }

  lemma RegisterOfError(err: seq<byte>)
    requires Detectable(err)
    ensures Crc8(err) != 0
  {
    PatternLeavesTrace(Bits(err));
    SameByte(Register(0, Bits(err)), 0);
  }

  lemma XorWithZero(b: byte)
    ensures XorByte(0, b) == b
  {
    ByteBvRoundTrip(b);
    assert 0 ^ (b as bv8) == b as bv8;
  }

  /** A pass hit by one burst of at most 8 bits, by any odd number of flips, or by two flips whose distance is no
      multiple of 127, fails its checksum. */
  lemma ErrorDetected(payload: seq<byte>, err: seq<byte>, received: seq<byte>, c: byte)
    requires |err| == |payload| + 1 && Detectable(err)
    requires received + [c] == XorBytes(payload + [Crc8(payload)], err)
    ensures c != Crc8(received)
  {
    var code := payload + [Crc8(payload)];
    CrcResidue(payload, Crc8(payload));
    CrcLinear(code, err);
    XorWithZero(Crc8(err));
    RegisterOfError(err);
    CrcResidue(received, c);
  }

  /** Two flipped bits, anywhere in payload and checksum, go unnoticed exactly when their distance is a multiple
      of 127. */
  lemma TwoFlipsPassExactlyWhen(payload: seq<byte>, err: seq<byte>, received: seq<byte>, c: byte, i: nat, j: nat)
    requires |err| == |payload| + 1 && TwoFlips(Bits(err), i, j)
    requires received + [c] == XorBytes(payload + [Crc8(payload)], err)
    ensures c == Crc8(received) <==> (j - i) % 127 == 0
  {
    var code := payload + [Crc8(payload)];
    CrcResidue(payload, Crc8(payload));
    CrcLinear(code, err);
    XorWithZero(Crc8(err));
    TwoFlipsLeave(Bits(err), i, j);
    PeriodExactlyWhen(j - i);
    SameByte(Register(0, Bits(err)), 0);
    CrcResidue(received, c);
  }
}
