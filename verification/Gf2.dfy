/** Polynomials over GF(2), written as bit strings with the highest coefficient first, and the proof
    that the checksum register holds the unique remainder of message * x^8 by the generator. */
module Gf2 {
  import opened Bytes
  import opened Crc
  import opened CrcAlgebra

  function Zeros(n: nat): (z: seq<bool>)
    ensures |z| == n && forall i :: 0 <= i < n ==> !z[i]
  {
    seq(n, _ => false)
  }

  /** The product q * g, by Horner's rule on the coefficients of q. */
  function Times(q: seq<bool>, g: seq<bool>): (p: seq<bool>)
    requires |g| >= 1
    ensures |p| == |q| + |g| - 1
  {
    if q == [] then Zeros(|g| - 1) else
      var n := |q| - 1;
      XorBits(Times(q[..n], g) + [false], if q[n] then Zeros(n) + g else Zeros(n + |g|))
  }

  /** x^8 + x^2 + x + 1 */
  const GENERATOR: seq<bool> := [true, false, false, false, false, false, true, true, true]

  /** The coefficients of the quotient are the carries that fall out of the register. */
  function Quotient(bits: seq<bool>): (q: seq<bool>)
    ensures |q| == |bits|
  {
    if bits == [] then [] else
      var n := |bits| - 1;
      Quotient(bits[..n]) + [(Register(0, bits[..n]) & 0x80 != 0) != bits[n]]
  }

  /** message * x^8 == q * GENERATOR + r, with r of degree below 8. */
  ghost predicate DividesWith(message: seq<bool>, q: seq<bool>, r: seq<bool>) {
    && |q| == |message| && |r| == 8
    && message + Zeros(8) == XorBits(Times(q, GENERATOR), Zeros(|message|) + r)
  }

  /** v is the bit string s, most significant bit first. */
  ghost predicate IsBits(v: bv8, s: seq<bool>) {
    && |s| == 8
    && s[0] == (v & 0x80 != 0) && s[1] == (v & 0x40 != 0) && s[2] == (v & 0x20 != 0) && s[3] == (v & 0x10 != 0)
    && s[4] == (v & 0x08 != 0) && s[5] == (v & 0x04 != 0) && s[6] == (v & 0x02 != 0) && s[7] == (v & 0x01 != 0)
  }

  lemma RegisterBits(v: bv8)
    ensures IsBits(v, TopBits(v, 8))
  {
    NthTopBit(v, 8, 0);
    NthTopBit(v, 8, 1);
    NthTopBit(v, 8, 2);
    NthTopBit(v, 8, 3);
    NthTopBit(v, 8, 4);
    NthTopBit(v, 8, 5);
    NthTopBit(v, 8, 6);
    NthTopBit(v, 8, 7);
    ShiftedBits(v);
  }

  lemma {:induction false} NthTopBit(v: bv8, n: nat, k: nat)
    requires k < n
    ensures TopBits(v, n)[k] == (ShiftLeft(v, k) & 0x80 != 0)
    decreases n
  {
    if k != 0 {
      NthTopBit(v << 1, n - 1, k - 1);
    }
  }

  lemma ShiftedBits(v: bv8)
    ensures (ShiftLeft(v, 1) & 0x80 != 0) == (v & 0x40 != 0)
    ensures (ShiftLeft(v, 2) & 0x80 != 0) == (v & 0x20 != 0)
    ensures (ShiftLeft(v, 3) & 0x80 != 0) == (v & 0x10 != 0)
    ensures (ShiftLeft(v, 4) & 0x80 != 0) == (v & 0x08 != 0)
    ensures (ShiftLeft(v, 5) & 0x80 != 0) == (v & 0x04 != 0)
    ensures (ShiftLeft(v, 6) & 0x80 != 0) == (v & 0x02 != 0)
    ensures (ShiftLeft(v, 7) & 0x80 != 0) == (v & 0x01 != 0)
  {}

  /** One clock, read off bit by bit: everything moves up and the carry lands on the generator's taps. */
  ghost predicate Clocked(s: seq<bool>, f: bool, s': seq<bool>)
    requires |s| == |s'| == 8
  {
    forall j :: 0 <= j < 8 ==> s'[j] == ((j < 7 && s[j + 1]) != (f && GENERATOR[j + 1]))
  }

  lemma RegisterStep(r: bv8, b: bool, r': bv8)
    requires r' == ShiftIn(r, b)
    ensures TopBits(r, 8)[0] == (r & 0x80 != 0)
    ensures Clocked(TopBits(r, 8), (r & 0x80 != 0) != b, TopBits(r', 8))
  {
    RegisterBits(r);
    RegisterBits(r');
    StepBits(r, b, TopBits(r, 8), TopBits(ShiftIn(r, b), 8));
  }

  lemma StepBits(r: bv8, b: bool, s: seq<bool>, s': seq<bool>)
    requires IsBits(r, s) && IsBits(ShiftIn(r, b), s')
    ensures Clocked(s, (r & 0x80 != 0) != b, s')
  {
    ShiftInBits(r, b);
  }

  lemma ShiftInBits(r: bv8, b: bool)
    ensures var s, f := ShiftIn(r, b), (r & 0x80 != 0) != b;
            && (s & 0x80 != 0) == (r & 0x40 != 0)
            && (s & 0x40 != 0) == (r & 0x20 != 0)
            && (s & 0x20 != 0) == (r & 0x10 != 0)
            && (s & 0x10 != 0) == (r & 0x08 != 0)
            && (s & 0x08 != 0) == (r & 0x04 != 0)
            && (s & 0x04 != 0) == ((r & 0x02 != 0) != f)
            && (s & 0x02 != 0) == ((r & 0x01 != 0) != f)
            && (s & 0x01 != 0) == f
  {}

  lemma {:induction false} RegisterIsRemainder(bits: seq<bool>)
    ensures DividesWith(bits, Quotient(bits), TopBits(Register(0, bits), 8))
  {
    if bits == [] {
      RegisterBits(0);
    } else {
      var n := |bits| - 1;
      var front, b := bits[..n], bits[n];
      assert bits == front + [b];
      RegisterIsRemainder(front);
      RemainderStep(front, b, Quotient(front), Register(0, front), Register(0, bits));
    }
  }

  lemma RemainderStep(m: seq<bool>, b: bool, q: seq<bool>, r: bv8, r': bv8)
    requires DividesWith(m, q, TopBits(r, 8)) && r' == ShiftIn(r, b)
    ensures DividesWith(m + [b], q + [(r & 0x80 != 0) != b], TopBits(r', 8))
  {
    RegisterStep(r, b, r');
    DivisionStep(m, b, q, (r & 0x80 != 0) != b, TopBits(r, 8), TopBits(r', 8));
  }

  /** Long division, one more coefficient of the dividend. */
  lemma {:induction false} DivisionStep(m: seq<bool>, b: bool, q: seq<bool>, f: bool, r: seq<bool>, r': seq<bool>)
    requires DividesWith(m, q, r) && |r'| == 8 && f == (r[0] != b)
    requires Clocked(r, f, r')
    ensures DividesWith(m + [b], q + [f], r')
  {
    var t := Times(q, GENERATOR);
    assert (q + [f])[..|m|] == q;
    ProductAndRemainder(m, t, r);
    Recombine(m, b, t, f, r, r');
  }

  lemma {:induction false} ProductAndRemainder(m: seq<bool>, t: seq<bool>, r: seq<bool>)
    requires |t| == |m| + 8 && |r| == 8 && m + Zeros(8) == XorBits(t, Zeros(|m|) + r)
    ensures forall k :: 0 <= k < |t| ==> t[k] == if k < |m| then m[k] else r[k - |m|]
  {
    forall k | 0 <= k < |t|
      ensures t[k] == if k < |m| then m[k] else r[k - |m|]
    {
      assert (m + Zeros(8))[k] == (t[k] != (Zeros(|m|) + r)[k]);
    }
  }

  lemma {:induction false} Recombine(m: seq<bool>, b: bool, t: seq<bool>, f: bool, r: seq<bool>, r': seq<bool>)
    requires |t| == |m| + 8 && |r| == 8 && |r'| == 8 && f == (r[0] != b) && Clocked(r, f, r')
    requires forall k :: 0 <= k < |t| ==> t[k] == if k < |m| then m[k] else r[k - |m|]
    ensures m + [b] + Zeros(8) ==
            XorBits(XorBits(t + [false], if f then Zeros(|m|) + GENERATOR else Zeros(|m| + 9)), Zeros(|m| + 1) + r')
  {
    var n := |m|;
    var t' := XorBits(t + [false], if f then Zeros(n) + GENERATOR else Zeros(n + 9));
    var back := if f then Zeros(n) + GENERATOR else Zeros(n + 9);
    forall k | 0 <= k < n + 9
      ensures (m + [b] + Zeros(8))[k] == (t'[k] != (Zeros(n + 1) + r')[k])
    {
      assert back[k] == (k >= n && f && GENERATOR[k - n]);
      assert t'[k] == ((t + [false])[k] != back[k]);
    }
  }

  /** The leading coefficients of a product: one more coefficient of the factor decides one more. */
  lemma {:induction false} TimesFront(p: seq<bool>, front: seq<bool>)
    requires p != [] && front == Times(p[..|p| - 1], GENERATOR)
    ensures var n := |p| - 1;
            Times(p, GENERATOR)[..n] == front[..n] && Times(p, GENERATOR)[n] == (front[n] != p[n])
  {
    var n := |p| - 1;
    TopOfSum(front, p[n], n);
  }

  lemma TopOfSum(front: seq<bool>, b: bool, n: nat)
    requires |front| == n + 8
    ensures var s := XorBits(front + [false], if b then Zeros(n) + GENERATOR else Zeros(n + |GENERATOR|));
            s[..n] == front[..n] && s[n] == (front[n] != b)
  {}

  lemma SameFronts(s: seq<bool>, t: seq<bool>, n: nat)
    requires n < |s| && n < |t| && s[..n + 1] == t[..n + 1]
    ensures s[..n] == t[..n] && s[n] == t[n]
  {
    assert s[..n] == s[..n + 1][..n] && s[n] == s[..n + 1][n] && t[n] == t[..n + 1][n];
  }

  lemma {:induction false} LastCoefficient(p: seq<bool>, q: seq<bool>, n: nat)
    requires |p| == |q| == n + 1
    requires Times(p, GENERATOR)[..n + 1] == Times(q, GENERATOR)[..n + 1]
    ensures Times(p[..n], GENERATOR)[..n] == Times(q[..n], GENERATOR)[..n]
    ensures p[..n] == q[..n] ==> p[n] == q[n]
  {
    SameFronts(Times(p, GENERATOR), Times(q, GENERATOR), n);
    TimesFront(p, Times(p[..n], GENERATOR));
    TimesFront(q, Times(q[..n], GENERATOR));
  }

  /** Because the generator's leading coefficient is one, the top of a product determines the factor. */
  lemma {:induction false} TimesInjective(p: seq<bool>, q: seq<bool>)
    requires |p| == |q|
    requires Times(p, GENERATOR)[..|p|] == Times(q, GENERATOR)[..|q|]
    ensures p == q
  {
    if p != [] {
      var n := |p| - 1;
      LastCoefficient(p, q, n);
      TimesInjective(p[..n], q[..n]);
      assert p == p[..n] + [p[n]] && q == q[..n] + [q[n]];
    }
  }

  /** Division has one quotient and one remainder. */
  lemma DivisionUnique(m: seq<bool>, p: seq<bool>, r: seq<bool>, q: seq<bool>, s: seq<bool>)
    requires DividesWith(m, p, r) && DividesWith(m, q, s)
    ensures p == q && r == s
  {
    var n := |m|;
    DividendTop(m, p, r);
    DividendTop(m, q, s);
    TimesInjective(p, q);
    var t := Times(p, GENERATOR);
    forall j | 0 <= j < 8
      ensures r[j] == s[j]
    {
      assert XorBits(t, Zeros(n) + r)[n + j] == (m + Zeros(8))[n + j] == XorBits(t, Zeros(n) + s)[n + j];
    }
  }

  lemma DividendTop(m: seq<bool>, q: seq<bool>, r: seq<bool>)
    requires DividesWith(m, q, r)
    ensures Times(q, GENERATOR)[..|m|] == m
  {
    var t := Times(q, GENERATOR);
    forall k | 0 <= k < |m|
      ensures t[k] == m[k]
    {
      assert (m + Zeros(8))[k] == (t[k] != (Zeros(|m|) + r)[k]);
    }
  }

  /** The checksum is the remainder of message * x^8 by the generator: the only one there is. */
  lemma CrcIsRemainder(data: seq<byte>, q: seq<bool>, r: seq<bool>)
    ensures DividesWith(Bits(data), q, r)
            <==> q == Quotient(Bits(data)) && r == ByteBits(Crc8(data))
  {
    BvByteRoundTrip(Register(0, Bits(data)));
    RegisterIsRemainder(Bits(data));
    if DividesWith(Bits(data), q, r) {
      DivisionUnique(Bits(data), q, r, Quotient(Bits(data)), ByteBits(Crc8(data)));
    }
  }
}
