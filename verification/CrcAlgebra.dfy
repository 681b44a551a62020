/** The table-driven loop computes the bit-serial register, and the checksum is linear. */
module CrcAlgebra {
  import opened Bytes
  import opened Crc

  // ---------------------------------------------------------------- folding facts

  lemma RegisterSnoc(reg: bv8, bits: seq<bool>, b: bool)
    ensures Register(reg, bits + [b]) == ShiftIn(Register(reg, bits), b)
  {
    assert (bits + [b])[..|bits|] == bits;
  }

  lemma {:induction false} RegisterConcat(reg: bv8, a: seq<bool>, b: seq<bool>)
    ensures Register(reg, a + b) == Register(Register(reg, a), b)
  {
    if b == [] {
      assert a + b == a;
    } else {
      var n := |b| - 1;
      RegisterConcat(reg, a, b[..n]);
      RegisterSnoc(reg, a + b[..n], b[n]);
      assert a + b == (a + b[..n]) + [b[n]];
    }
  }

  lemma BitsSnoc(data: seq<byte>, b: byte)
    ensures Bits(data + [b]) == Bits(data) + ByteBits(b)
  {
    assert (data + [b])[..|data|] == data;
  }

  // ---------------------------------------------------------------- the table-driven loop

  ghost predicate IsXor(t: bv8, a: bv8, b: bv8) {
    t == a ^ b
  }

  lemma RegisterCons(reg: bv8, b: bool, bits: seq<bool>)
    ensures Register(reg, [b] + bits) == Register(ShiftIn(reg, b), bits)
  {
    RegisterConcat(reg, [b], bits);
    RegisterSnoc(reg, [], b);
  }

  /** The register clocked n times with nothing new coming in. */
  function Clock(reg: bv8, n: nat): bv8
    decreases n
  {
    if n == 0 then reg else Clock(ShiftIn(reg, false), n - 1)
  }

  function ShiftLeft(v: bv8, n: nat): bv8
    decreases n
  {
    if n == 0 then v else ShiftLeft(v << 1, n - 1)
  }

  /** Clocking in the top bit of v is the same as having v in the register already. */
  lemma ClockTopBit(t: bv8, r: bv8, v: bv8)
    requires IsXor(t, r, v)
    ensures IsXor(ShiftIn(t, false), ShiftIn(r, v & 0x80 != 0), v << 1)
  {}

  lemma {:induction false} RegisterTopBits(t: bv8, r: bv8, v: bv8, n: nat)
    requires IsXor(t, r, v)
    ensures IsXor(Clock(t, n), Register(r, TopBits(v, n)), ShiftLeft(v, n))
    decreases n
  {
    if n != 0 {
      ClockTopBit(t, r, v);
      RegisterTopBits(ShiftIn(t, false), ShiftIn(r, v & 0x80 != 0), v << 1, n - 1);
      RegisterCons(r, v & 0x80 != 0, TopBits(v << 1, n - 1));
    }
  }

  lemma ClockEight(r: bv8)
    ensures Clock(r, 8) == EightShifts(r) && ShiftLeft(r, 8) == 0
  {}

  lemma RegisterByte(t: bv8, reg: bv8, b: byte)
    requires IsXor(t, reg, b as bv8)
    ensures Register(reg, ByteBits(b)) == Clock(t, 8)
  {
    RegisterTopBits(t, reg, b as bv8, 8);
    ClockEight(b as bv8);
    XorZero(Clock(t, 8), Register(reg, ByteBits(b)), ShiftLeft(b as bv8, 8));
  }

  lemma XorZero(t: bv8, a: bv8, b: bv8)
    requires IsXor(t, a, b) && b == 0
    ensures t == a
  {}

  /** Each entry of the table is what eight clocks of the register make of its index. */
  lemma TableEntryIsEightClocks(x: bv8)
    ensures TableEntry(x) == Clock(x, 8)
  {
    TableEntryIsEightShifts(x);
    ClockEight(x);
  }

  lemma BvByteRoundTrip(v: bv8)
    ensures 0 <= v as int < 256 && (v as int) as bv8 == v
  {}

  lemma Increment(v: bv8)
    requires v as int < 255
    ensures (v + 1) as int == v as int + 1
  {}

  lemma {:induction false} ByteBvRoundTrip(b: byte)
    ensures (b as bv8) as int == b
  {
    if b > 0 {
      ByteBvRoundTrip(b - 1);
      var v := (b - 1) as bv8;
      Increment(v);
      BvByteRoundTrip(v + 1);
      assert (v + 1) as int == b;
    }
  }

  /** One more octet is one table lookup. */
  lemma CrcSnoc(data: seq<byte>, b: byte, t: bv8)
    requires IsXor(t, Crc8(data) as bv8, b as bv8)
    ensures Crc8(data + [b]) == TableEntry(t) as int
  {
    var r := Register(0, Bits(data));
    BitsSnoc(data, b);
    RegisterConcat(0, Bits(data), ByteBits(b));
    BvByteRoundTrip(r);
    RegisterByte(t, r, b);
    TableEntryIsEightClocks(t);
  }

  /** The loop of wfr_crc8: one table lookup per octet, over a prefix of a buffer. */
  method ComputeCrc8(data: array<byte>, len: nat) returns (crc: byte)
    requires len <= data.Length
    ensures crc == Crc8(data[..len])
  {
    crc := 0;
    assert Crc8([]) == 0;
    for i := 0 to len
      invariant crc == Crc8(data[..i])
    {
      var t := (crc as bv8) ^ (data[i] as bv8);
      CrcSnoc(data[..i], data[i], t);
      assert data[..i + 1] == data[..i] + [data[i]];
      crc := TableEntry(t) as int;
    }
  }

  // ---------------------------------------------------------------- linearity

  function XorByte(a: byte, b: byte): byte {
    ((a as bv8) ^ (b as bv8)) as int
  }

  function XorBytes(a: seq<byte>, b: seq<byte>): (r: seq<byte>)
    requires |a| == |b|
    ensures |r| == |a|
  {
    seq(|a|, i requires 0 <= i < |a| => XorByte(a[i], b[i]))
  }

  function XorBits(a: seq<bool>, b: seq<bool>): (r: seq<bool>)
    requires |a| == |b|
    ensures |r| == |a|
  {
    seq(|a|, i requires 0 <= i < |a| => a[i] != b[i])
  }

  lemma XorBitsConcat(a: seq<bool>, b: seq<bool>, c: seq<bool>, d: seq<bool>)
    requires |a| == |b| && |c| == |d|
    ensures XorBits(a + c, b + d) == XorBits(a, b) + XorBits(c, d)
  {}

  lemma FeedbackLinear(x: bool, y: bool)
    ensures Feedback(x != y) == Feedback(x) ^ Feedback(y)
  {}

  lemma TopBitLinear(a: bv8, b: bv8)
    ensures ((a ^ b) & 0x80 != 0) == ((a & 0x80 != 0) != (b & 0x80 != 0))
    ensures (a ^ b) << 1 == (a << 1) ^ (b << 1)
  {}

  lemma XorSwap(a: bv8, b: bv8, c: bv8, d: bv8)
    ensures (a ^ b) ^ (c ^ d) == (a ^ c) ^ (b ^ d)
  {}

  lemma ShiftInXor(a: bv8, b: bv8, x: bool, y: bool)
    ensures ShiftIn(a ^ b, x != y) == ShiftIn(a, x) ^ ShiftIn(b, y)
  {
    var p, q := (a & 0x80 != 0) != x, (b & 0x80 != 0) != y;
    calc {
      ShiftIn(a ^ b, x != y);
      ((a ^ b) << 1) ^ Feedback(((a ^ b) & 0x80 != 0) != (x != y));
      { TopBitLinear(a, b); }
      ((a << 1) ^ (b << 1)) ^ Feedback(p != q);
      { FeedbackLinear(p, q); }
      ((a << 1) ^ (b << 1)) ^ (Feedback(p) ^ Feedback(q));
      { XorSwap(a << 1, b << 1, Feedback(p), Feedback(q)); }
      ((a << 1) ^ Feedback(p)) ^ ((b << 1) ^ Feedback(q));
      ShiftIn(a, x) ^ ShiftIn(b, y);
    }
  }

  lemma ShiftInLinear(t: bv8, a: bv8, b: bv8, x: bool, y: bool)
    requires IsXor(t, a, b)
    ensures IsXor(ShiftIn(t, x != y), ShiftIn(a, x), ShiftIn(b, y))
  {
    ShiftInXor(a, b, x, y);
  }

  lemma {:induction false} RegisterLinear(t: bv8, r: bv8, s: bv8, a: seq<bool>, b: seq<bool>)
    requires |a| == |b| && IsXor(t, r, s)
    ensures IsXor(Register(t, XorBits(a, b)), Register(r, a), Register(s, b))
  {
    if a != [] {
      var n, c := |a| - 1, XorBits(a, b);
      RegisterLinear(t, r, s, a[..n], b[..n]);
      assert c[..n] == XorBits(a[..n], b[..n]);
      ShiftInLinear(Register(t, c[..n]), Register(r, a[..n]), Register(s, b[..n]), a[n], b[n]);
    }
  }

  lemma TopBitOfXor(t: bv8, v: bv8, w: bv8)
    requires IsXor(t, v, w)
    ensures [t & 0x80 != 0] == XorBits([v & 0x80 != 0], [w & 0x80 != 0])
    ensures IsXor(t << 1, v << 1, w << 1)
  {
    TopBitLinear(v, w);
  }

  lemma {:induction false} TopBitsXor(t: bv8, v: bv8, w: bv8, n: nat)
    requires IsXor(t, v, w)
    ensures TopBits(t, n) == XorBits(TopBits(v, n), TopBits(w, n))
    decreases n
  {
    if n != 0 {
      TopBitOfXor(t, v, w);
      TopBitsXor(t << 1, v << 1, w << 1, n - 1);
      XorBitsConcat([v & 0x80 != 0], [w & 0x80 != 0], TopBits(v << 1, n - 1), TopBits(w << 1, n - 1));
    }
  }

  lemma ByteBitsXor(a: byte, b: byte)
    ensures ByteBits(XorByte(a, b)) == XorBits(ByteBits(a), ByteBits(b))
  {
    BvByteRoundTrip((a as bv8) ^ (b as bv8));
    TopBitsXor(XorByte(a, b) as bv8, a as bv8, b as bv8, 8);
  }

  lemma {:induction false} BitsXor(a: seq<byte>, b: seq<byte>)
    requires |a| == |b|
    ensures Bits(XorBytes(a, b)) == XorBits(Bits(a), Bits(b))
  {
    if a != [] {
      var n := |a| - 1;
      BitsXor(a[..n], b[..n]);
      ByteBitsXor(a[n], b[n]);
      assert XorBytes(a, b)[..n] == XorBytes(a[..n], b[..n]);
      XorBitsConcat(Bits(a[..n]), Bits(b[..n]), ByteBits(a[n]), ByteBits(b[n]));
    }
  }

  /** The checksum of a bitwise difference is the bitwise difference of the checksums. */
  lemma CrcLinear(a: seq<byte>, b: seq<byte>)
    requires |a| == |b|
    ensures Crc8(XorBytes(a, b)) == XorByte(Crc8(a), Crc8(b))
  {
    BitsXor(a, b);
    RegisterLinear(0, 0, 0, Bits(a), Bits(b));
    BvByteRoundTrip(Register(0, Bits(a)));
    BvByteRoundTrip(Register(0, Bits(b)));
  }

  lemma ClockZero(t: bv8, v: bv8, w: bv8)
    requires IsXor(t, v, w)
    ensures Clock(t, 8) == 0 <==> v == w
  {
    ClockEight(t);
  }

  lemma SameByte(v: bv8, c: byte)
    ensures v == c as bv8 <==> c == v as int
  {
    if v == c as bv8 {
      ByteBvRoundTrip(c);
    } else {
      BvByteRoundTrip(v);
    }
  }

  /** Appending the checksum makes the register return to zero, and appending anything else does not. */
  lemma CrcResidue(data: seq<byte>, c: byte)
    ensures Crc8(data + [c]) == 0 <==> c == Crc8(data)
  {
    var r := Register(0, Bits(data));
    var t := r ^ (c as bv8);
    BitsSnoc(data, c);
    RegisterConcat(0, Bits(data), ByteBits(c));
    RegisterByte(t, r, c);
    ClockZero(t, r, c as bv8);
    SameByte(r, c);
    SameByte(Clock(t, 8), 0);
  }
}
