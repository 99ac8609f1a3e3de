/**
 * CRC32C (the Castagnoli polynomial 0x1EDC6F41, the CRC32C of section 12.1
 * of RFC 3720) as lib/alg/crc32c.c computes it: bit-reflected, table driven,
 * four bytes per table round, starting from the CRC of an implicit leading
 * 1 bit and with no final inversion; the state is emitted little-endian.
 *
 * 32-bit words are naturals below 2^32: `x >> 8` is `x / 256`, `x & 0xff`
 * is `x % 256`, a truncating `x << 1` is `(2 * x) % 2^32` and `^` is Xor32.
 * The table-driven code is proved against a bit-at-a-time reference
 * (BitStep), and the tables built most-significant-bit first are proved
 * equal to that reference by bit reflection.
 */
module CRC32C {
  import opened Bytes
  import opened Bits

  /** The Castagnoli polynomial, most significant bit first (x^32 implied). */
  const POLY: u32 := 0x1EDC6F41
  /** POLY with its bit order reversed. */
  const POLY_REFLECTED: u32 := 0x82F63B78
  /** The precomputed value of T[0][0x80], also the initial state. */
  const T_0_0x80: u32 := 0x82f63b78

  // ----- reverse -----

  /** A bit string read backwards. */
  function Rev(s: seq<bool>): (r: seq<bool>)
    ensures |r| == |s|
  {
    if s == [] then [] else Rev(s[1..]) + [s[0]]
  }

  lemma {:induction false} RevIndex(s: seq<bool>)
    ensures forall i :: 0 <= i < |s| ==> Rev(s)[i] == s[|s| - 1 - i]
  {
    if s != [] {
      RevIndex(s[1..]);
    }
  }

  /** Sequences with the same elements read backwards are each other's Rev. */
  lemma RevOf(s: seq<bool>, t: seq<bool>)
    requires |s| == |t| && forall i :: 0 <= i < |s| ==> t[i] == s[|s| - 1 - i]
    ensures Rev(s) == t
  {
    RevIndex(s);
  }

  /** One line of reverse(): ((x & hi) >> w) | ((x & lo) << w). */
  function SwapStep(x: u32, w: nat, hi: u32, lo: u32): u32
  {
    Or32(Shr32(And32(x, hi), w), Shl32(And32(x, lo), w))
  }

  /** x with its 32 bits read backwards: what reverse() computes. */
  function Reverse(x: u32): (r: u32)
    ensures ToBits(r, 32) == Rev(ToBits(x, 32))
  {
    Pow2Values();
    ToBitsVal(Rev(ToBits(x, 32)));
    Val(Rev(ToBits(x, 32)))
  }

  /** n blocks of 2w bits with the low w bits of each set: the lo masks of reverse(). */
  function LoMask(w: nat, n: nat): nat
  {
    if n == 0 then 0 else (Pow2(w) - 1) + Pow2(2 * w) * LoMask(w, n - 1)
  }

  lemma MaskValue16()
    ensures LoMask(16, 1) == 0x0000ffff && Pow2(16) * LoMask(16, 1) == 0xffff0000
  {
    Pow2Values();
    assert LoMask(16, 1) == 0xffff;
  }

  lemma MaskValue8()
    ensures LoMask(8, 2) == 0x00ff00ff && Pow2(8) * LoMask(8, 2) == 0xff00ff00
  {
    Pow2Values();
    assert LoMask(8, 1) == 0xff;
    assert LoMask(8, 2) == 0xff00ff;
  }

  lemma MaskValue4()
    ensures LoMask(4, 4) == 0x0f0f0f0f && Pow2(4) * LoMask(4, 4) == 0xf0f0f0f0
  {
    Pow2Values();
    assert Pow2(4) == 16;
    assert LoMask(4, 1) == 0xf;
    assert LoMask(4, 2) == 0xf0f;
    assert LoMask(4, 3) == 0xf0f0f;
    assert LoMask(4, 4) == 0xf0f0f0f;
  }

  lemma MaskValue2()
    ensures LoMask(2, 8) == 0x33333333 && Pow2(2) * LoMask(2, 8) == 0xcccccccc
  {
    Pow2Values();
    assert Pow2(2) == 4;
    assert Pow2(4) == 16;
    assert LoMask(2, 1) == 0x3;
    assert LoMask(2, 2) == 0x33;
    assert LoMask(2, 3) == 0x333;
    assert LoMask(2, 4) == 0x3333;
    assert LoMask(2, 5) == 0x33333;
    assert LoMask(2, 6) == 0x333333;
    assert LoMask(2, 7) == 0x3333333;
    assert LoMask(2, 8) == 0x33333333;
  }

  lemma MaskValue1()
    ensures LoMask(1, 16) == 0x55555555 && Pow2(1) * LoMask(1, 16) == 0xaaaaaaaa
  {
    Pow2Values();
    assert Pow2(1) == 2;
    assert Pow2(2) == 4;
    assert LoMask(1, 1) == 0x1;
    assert LoMask(1, 2) == 0x5;
    assert LoMask(1, 3) == 0x15;
    assert LoMask(1, 4) == 0x55;
    assert LoMask(1, 5) == 0x155;
    assert LoMask(1, 6) == 0x555;
    assert LoMask(1, 7) == 0x1555;
    assert LoMask(1, 8) == 0x5555;
    assert LoMask(1, 9) == 0x15555;
    assert LoMask(1, 10) == 0x55555;
    assert LoMask(1, 11) == 0x155555;
    assert LoMask(1, 12) == 0x555555;
    assert LoMask(1, 13) == 0x1555555;
    assert LoMask(1, 14) == 0x5555555;
    assert LoMask(1, 15) == 0x15555555;
    assert LoMask(1, 16) == 0x55555555;
  }

  /** Bit t of block q, for blocks of b bits: b * q + t, counted without multiplying. */
  function Block(b: nat, q: nat, t: nat): nat {
    if q == 0 then t else b + Block(b, q - 1, t)
  }

  lemma {:induction false} BlockIs(b: nat, q: nat, t: nat)
    ensures Block(b, q, t) == b * q + t
  {
    if q > 0 {
      BlockIs(b, q - 1, t);
    }
  }

  lemma {:induction false} BlockAdd(b: nat, q: nat, t: nat, d: nat)
    ensures Block(b, q, t + d) == Block(b, q, t) + d
  {
    if q > 0 {
      BlockAdd(b, q - 1, t, d);
    }
  }

  /** The lowest block of a lo mask has its lower w bits set; above it is the rest of the mask. */
  lemma LoMaskStep(w: nat, n: nat, i: nat)
    requires 0 < w && 0 < n
    ensures Bit(LoMask(w, n), i) == if i < 2 * w then i < w else Bit(LoMask(w, n - 1), i - 2 * w)
  {
    PowMonotone(w, 2 * w);
    BitConcat(Pow2(w) - 1, LoMask(w, n - 1), 2 * w, i);
    if i < 2 * w {
      BitOnes(w, i);
    }
  }

  /** Bit t of block q of a lo mask is set exactly when the block exists and t < w. */
  lemma {:induction false} LoMaskBit(w: nat, n: nat, q: nat, t: nat)
    requires 0 < w && t < 2 * w
    ensures Bit(LoMask(w, n), Block(2 * w, q, t)) == (q < n && t < w)
    decreases n
  {
    var i := Block(2 * w, q, t);
    if n == 0 {
      BitHigh(0, 0, i);
    } else {
      LoMaskStep(w, n, i);
      if q > 0 {
        BlockAdd(2 * w, q - 1, 0, t);
        LoMaskBit(w, n - 1, q - 1, t);
      }
    }
  }

  /** The hi mask, 2^w times the lo mask, has the upper w bits of each block set. */
  lemma {:induction false} HiMaskBit(w: nat, n: nat, q: nat, t: nat)
    requires 0 < w && t < 2 * w
    ensures Bit(Pow2(w) * LoMask(w, n), Block(2 * w, q, t)) == (q < n && w <= t)
  {
    var i := Block(2 * w, q, t);
    BitConcat(0, LoMask(w, n), w, i);
    assert 0 + Pow2(w) * LoMask(w, n) == Pow2(w) * LoMask(w, n);
    BlockAdd(2 * w, q, 0, t);
    if i < w {
      BitHigh(0, 0, i);
    } else if w <= t {
      BlockAdd(2 * w, q, t - w, w);
      LoMaskBit(w, n, q, t - w);
    } else {
      BlockAdd(2 * w, q - 1, t, w);
      LoMaskBit(w, n, q - 1, t + w);
    }
  }

  /** The set bits of 0x0000ffff: the low 16 of every 32. */
  lemma LoBits16(j: nat)
    requires j < 32
    ensures Bit(0x0000ffff, j) == (j % 32 < 16)
  {
    MaskValue16();
    BlockIs(32, j / 32, j % 32);
    LoMaskBit(16, 1, j / 32, j % 32);
  }

  /** The set bits of 0xffff0000: the high 16 of every 32. */
  lemma HiBits16(j: nat)
    requires j < 32
    ensures Bit(0xffff0000, j) == (16 <= j % 32)
  {
    MaskValue16();
    BlockIs(32, j / 32, j % 32);
    HiMaskBit(16, 1, j / 32, j % 32);
  }

  /** Which of the two masks of width 16 selects the partner of bit i. */
  lemma Halves16(i: nat)
    requires i < 32
    ensures i % 32 < 16 ==> i + 16 < 32 && Bit(0xffff0000, i + 16)
    ensures 16 <= i % 32 ==> 16 <= i && Bit(0x0000ffff, i - 16)
  {
    if i + 16 < 32 {
      HiBits16(i + 16);
    }
    if 16 <= i {
      LoBits16(i - 16);
    }
  }

  /** The swap line of width 16: bit i comes from bit i + 16 in the low half of its block, from i - 16 in the high half. */
  lemma {:induction false} SwapBit16(x: u32, i: nat)
    requires i < 32
    ensures i % 32 < 16 ==> Bit(SwapStep(x, 16, 0xffff0000, 0x0000ffff), i) == Bit(x, i + 16)
    ensures 16 <= i && 16 <= i % 32 ==> Bit(SwapStep(x, 16, 0xffff0000, 0x0000ffff), i) == Bit(x, i - 16)
  {
    SwapStepBit(x, 16, 0xffff0000, 0x0000ffff, i);
    Halves16(i);
  }

  /** The set bits of 0x00ff00ff: the low 8 of every 16. */
  lemma LoBits8(j: nat)
    requires j < 32
    ensures Bit(0x00ff00ff, j) == (j % 16 < 8)
  {
    MaskValue8();
    BlockIs(16, j / 16, j % 16);
    LoMaskBit(8, 2, j / 16, j % 16);
  }

  /** The set bits of 0xff00ff00: the high 8 of every 16. */
  lemma HiBits8(j: nat)
    requires j < 32
    ensures Bit(0xff00ff00, j) == (8 <= j % 16)
  {
    MaskValue8();
    BlockIs(16, j / 16, j % 16);
    HiMaskBit(8, 2, j / 16, j % 16);
  }

  /** Which of the two masks of width 8 selects the partner of bit i. */
  lemma Halves8(i: nat)
    requires i < 32
    ensures i % 16 < 8 ==> i + 8 < 32 && Bit(0xff00ff00, i + 8) && (8 <= i ==> !Bit(0x00ff00ff, i - 8))
    ensures 8 <= i % 16 ==> (i + 8 < 32 ==> !Bit(0xff00ff00, i + 8)) && 8 <= i && Bit(0x00ff00ff, i - 8)
  {
    if i + 8 < 32 {
      HiBits8(i + 8);
    }
    if 8 <= i {
      LoBits8(i - 8);
    }
  }

  /** The swap line of width 8: bit i comes from bit i + 8 in the low half of its block, from i - 8 in the high half. */
  lemma {:induction false} SwapBit8(x: u32, i: nat)
    requires i < 32
    ensures i % 16 < 8 ==> Bit(SwapStep(x, 8, 0xff00ff00, 0x00ff00ff), i) == Bit(x, i + 8)
    ensures 8 <= i && 8 <= i % 16 ==> Bit(SwapStep(x, 8, 0xff00ff00, 0x00ff00ff), i) == Bit(x, i - 8)
  {
    SwapStepBit(x, 8, 0xff00ff00, 0x00ff00ff, i);
    Halves8(i);
  }

  /** The set bits of 0x0f0f0f0f: the low 4 of every 8. */
  lemma LoBits4(j: nat)
    requires j < 32
    ensures Bit(0x0f0f0f0f, j) == (j % 8 < 4)
  {
    MaskValue4();
    BlockIs(8, j / 8, j % 8);
    LoMaskBit(4, 4, j / 8, j % 8);
  }

  /** The set bits of 0xf0f0f0f0: the high 4 of every 8. */
  lemma HiBits4(j: nat)
    requires j < 32
    ensures Bit(0xf0f0f0f0, j) == (4 <= j % 8)
  {
    MaskValue4();
    BlockIs(8, j / 8, j % 8);
    HiMaskBit(4, 4, j / 8, j % 8);
  }

  /** Which of the two masks of width 4 selects the partner of bit i. */
  lemma Halves4(i: nat)
    requires i < 32
    ensures i % 8 < 4 ==> i + 4 < 32 && Bit(0xf0f0f0f0, i + 4) && (4 <= i ==> !Bit(0x0f0f0f0f, i - 4))
    ensures 4 <= i % 8 ==> (i + 4 < 32 ==> !Bit(0xf0f0f0f0, i + 4)) && 4 <= i && Bit(0x0f0f0f0f, i - 4)
  {
    if i + 4 < 32 {
      HiBits4(i + 4);
    }
    if 4 <= i {
      LoBits4(i - 4);
    }
  }

  /** The swap line of width 4: bit i comes from bit i + 4 in the low half of its block, from i - 4 in the high half. */
  lemma {:induction false} SwapBit4(x: u32, i: nat)
    requires i < 32
    ensures i % 8 < 4 ==> Bit(SwapStep(x, 4, 0xf0f0f0f0, 0x0f0f0f0f), i) == Bit(x, i + 4)
    ensures 4 <= i && 4 <= i % 8 ==> Bit(SwapStep(x, 4, 0xf0f0f0f0, 0x0f0f0f0f), i) == Bit(x, i - 4)
  {
    SwapStepBit(x, 4, 0xf0f0f0f0, 0x0f0f0f0f, i);
    Halves4(i);
  }

  /** The set bits of 0x33333333: the low 2 of every 4. */
  lemma LoBits2(j: nat)
    requires j < 32
    ensures Bit(0x33333333, j) == (j % 4 < 2)
  {
    MaskValue2();
    BlockIs(4, j / 4, j % 4);
    LoMaskBit(2, 8, j / 4, j % 4);
  }

  /** The set bits of 0xcccccccc: the high 2 of every 4. */
  lemma HiBits2(j: nat)
    requires j < 32
    ensures Bit(0xcccccccc, j) == (2 <= j % 4)
  {
    MaskValue2();
    BlockIs(4, j / 4, j % 4);
    HiMaskBit(2, 8, j / 4, j % 4);
  }

  /** Which of the two masks of width 2 selects the partner of bit i. */
  lemma Halves2(i: nat)
    requires i < 32
    ensures i % 4 < 2 ==> i + 2 < 32 && Bit(0xcccccccc, i + 2) && (2 <= i ==> !Bit(0x33333333, i - 2))
    ensures 2 <= i % 4 ==> (i + 2 < 32 ==> !Bit(0xcccccccc, i + 2)) && 2 <= i && Bit(0x33333333, i - 2)
  {
    if i + 2 < 32 {
      HiBits2(i + 2);
    }
    if 2 <= i {
      LoBits2(i - 2);
    }
  }

  /** The swap line of width 2: bit i comes from bit i + 2 in the low half of its block, from i - 2 in the high half. */
  lemma {:induction false} SwapBit2(x: u32, i: nat)
    requires i < 32
    ensures i % 4 < 2 ==> Bit(SwapStep(x, 2, 0xcccccccc, 0x33333333), i) == Bit(x, i + 2)
    ensures 2 <= i && 2 <= i % 4 ==> Bit(SwapStep(x, 2, 0xcccccccc, 0x33333333), i) == Bit(x, i - 2)
  {
    SwapStepBit(x, 2, 0xcccccccc, 0x33333333, i);
    Halves2(i);
  }

  /** The set bits of 0x55555555: the low 1 of every 2. */
  lemma LoBits1(j: nat)
    requires j < 32
    ensures Bit(0x55555555, j) == (j % 2 < 1)
  {
    MaskValue1();
    BlockIs(2, j / 2, j % 2);
    LoMaskBit(1, 16, j / 2, j % 2);
  }

  /** The set bits of 0xaaaaaaaa: the high 1 of every 2. */
  lemma HiBits1(j: nat)
    requires j < 32
    ensures Bit(0xaaaaaaaa, j) == (1 <= j % 2)
  {
    MaskValue1();
    BlockIs(2, j / 2, j % 2);
    HiMaskBit(1, 16, j / 2, j % 2);
  }

  /** Which of the two masks of width 1 selects the partner of bit i. */
  lemma Halves1(i: nat)
    requires i < 32
    ensures i % 2 < 1 ==> i + 1 < 32 && Bit(0xaaaaaaaa, i + 1) && (1 <= i ==> !Bit(0x55555555, i - 1))
    ensures 1 <= i % 2 ==> (i + 1 < 32 ==> !Bit(0xaaaaaaaa, i + 1)) && 1 <= i && Bit(0x55555555, i - 1)
  {
    if i + 1 < 32 {
      HiBits1(i + 1);
    }
    if 1 <= i {
      LoBits1(i - 1);
    }
  }

  /** The swap line of width 1: bit i comes from bit i + 1 in the low half of its block, from i - 1 in the high half. */
  lemma {:induction false} SwapBit1(x: u32, i: nat)
    requires i < 32
    ensures i % 2 < 1 ==> Bit(SwapStep(x, 1, 0xaaaaaaaa, 0x55555555), i) == Bit(x, i + 1)
    ensures 1 <= i && 1 <= i % 2 ==> Bit(SwapStep(x, 1, 0xaaaaaaaa, 0x55555555), i) == Bit(x, i - 1)
  {
    SwapStepBit(x, 1, 0xaaaaaaaa, 0x55555555, i);
    Halves1(i);
  }

  /** Bit i of a swap line, in terms of the bits of x and of the two masks. */
  lemma {:induction false} SwapStepBit(x: u32, w: nat, hi: u32, lo: u32, i: nat)
    requires i < 32
    ensures Bit(SwapStep(x, w, hi, lo), i) ==
      ((i + w < 32 && Bit(x, i + w) && Bit(hi, i + w)) || (w <= i && Bit(x, i - w) && Bit(lo, i - w)))
  {
    var a, b := And32(x, hi), And32(x, lo);
    Or32Bit(Shr32(a, w), Shl32(b, w), i);
    Shr32Bit(a, w, i);
    Shl32Bit(b, w, i);
    And32Bit(x, hi, i + w);
    if w <= i {
      And32Bit(x, lo, i - w);
    }
  }

  /** The five swap lines of reverse() compose to reading the bits backwards. */
  lemma SwapNetwork(x: u32, x1: u32, x2: u32, x3: u32, x4: u32, x5: u32)
    requires x1 == SwapStep(x, 16, 0xffff0000, 0x0000ffff)
    requires x2 == SwapStep(x1, 8, 0xff00ff00, 0x00ff00ff)
    requires x3 == SwapStep(x2, 4, 0xf0f0f0f0, 0x0f0f0f0f)
    requires x4 == SwapStep(x3, 2, 0xcccccccc, 0x33333333)
    requires x5 == SwapStep(x4, 1, 0xaaaaaaaa, 0x55555555)
    ensures x5 == Reverse(x)
  {
    SwapBits16(x, x1);
    SwapBits8(x1, x2);
    SwapBits4(x2, x3);
    SwapBits2(x3, x4);
    SwapBits1(x4, x5);
    forall i | 0 <= i < 32 ensures ToBits(x5, 32)[i] == ToBits(x, 32)[31 - i] {
      NetworkBit(x, x1, x2, x3, x4, x5, i);
    }
    RevOf(ToBits(x, 32), ToBits(x5, 32));
    WordFromBits(x5, Reverse(x));
  }

  lemma SwapBits16(x: u32, y: u32)
    requires y == SwapStep(x, 16, 0xffff0000, 0x0000ffff)
    ensures forall i :: 0 <= i < 32 && i % 32 < 16 ==> Bit(y, i) == Bit(x, i + 16)
    ensures forall i :: 16 <= i < 32 && 16 <= i % 32 ==> Bit(y, i) == Bit(x, i - 16)
  {
    forall i | 0 <= i < 32
      ensures i % 32 < 16 ==> Bit(y, i) == Bit(x, i + 16)
      ensures 16 <= i && 16 <= i % 32 ==> Bit(y, i) == Bit(x, i - 16)
    {
      SwapBit16(x, i);
    }
  }

  lemma SwapBits8(x: u32, y: u32)
    requires y == SwapStep(x, 8, 0xff00ff00, 0x00ff00ff)
    ensures forall i :: 0 <= i < 32 && i % 16 < 8 ==> Bit(y, i) == Bit(x, i + 8)
    ensures forall i :: 8 <= i < 32 && 8 <= i % 16 ==> Bit(y, i) == Bit(x, i - 8)
  {
    forall i | 0 <= i < 32
      ensures i % 16 < 8 ==> Bit(y, i) == Bit(x, i + 8)
      ensures 8 <= i && 8 <= i % 16 ==> Bit(y, i) == Bit(x, i - 8)
    {
      SwapBit8(x, i);
    }
  }

  lemma SwapBits4(x: u32, y: u32)
    requires y == SwapStep(x, 4, 0xf0f0f0f0, 0x0f0f0f0f)
    ensures forall i :: 0 <= i < 32 && i % 8 < 4 ==> Bit(y, i) == Bit(x, i + 4)
    ensures forall i :: 4 <= i < 32 && 4 <= i % 8 ==> Bit(y, i) == Bit(x, i - 4)
  {
    forall i | 0 <= i < 32
      ensures i % 8 < 4 ==> Bit(y, i) == Bit(x, i + 4)
      ensures 4 <= i && 4 <= i % 8 ==> Bit(y, i) == Bit(x, i - 4)
    {
      SwapBit4(x, i);
    }
  }

  lemma SwapBits2(x: u32, y: u32)
    requires y == SwapStep(x, 2, 0xcccccccc, 0x33333333)
    ensures forall i :: 0 <= i < 32 && i % 4 < 2 ==> Bit(y, i) == Bit(x, i + 2)
    ensures forall i :: 2 <= i < 32 && 2 <= i % 4 ==> Bit(y, i) == Bit(x, i - 2)
  {
    forall i | 0 <= i < 32
      ensures i % 4 < 2 ==> Bit(y, i) == Bit(x, i + 2)
      ensures 2 <= i && 2 <= i % 4 ==> Bit(y, i) == Bit(x, i - 2)
    {
      SwapBit2(x, i);
    }
  }

  lemma SwapBits1(x: u32, y: u32)
    requires y == SwapStep(x, 1, 0xaaaaaaaa, 0x55555555)
    ensures forall i :: 0 <= i < 32 && i % 2 < 1 ==> Bit(y, i) == Bit(x, i + 1)
    ensures forall i :: 1 <= i < 32 && 1 <= i % 2 ==> Bit(y, i) == Bit(x, i - 1)
  {
    forall i | 0 <= i < 32
      ensures i % 2 < 1 ==> Bit(y, i) == Bit(x, i + 1)
      ensures 1 <= i && 1 <= i % 2 ==> Bit(y, i) == Bit(x, i - 1)
    {
      SwapBit1(x, i);
    }
  }

  /** Bit i after the five swap lines is bit 31 - i before them. */
  lemma {:induction false} NetworkBit(x: u32, x1: u32, x2: u32, x3: u32, x4: u32, x5: u32, i: nat)
    requires forall i :: 0 <= i < 32 && i % 32 < 16 ==> Bit(x1, i) == Bit(x, i + 16)
    requires forall i :: 16 <= i < 32 && 16 <= i % 32 ==> Bit(x1, i) == Bit(x, i - 16)
    requires forall i :: 0 <= i < 32 && i % 16 < 8 ==> Bit(x2, i) == Bit(x1, i + 8)
    requires forall i :: 8 <= i < 32 && 8 <= i % 16 ==> Bit(x2, i) == Bit(x1, i - 8)
    requires forall i :: 0 <= i < 32 && i % 8 < 4 ==> Bit(x3, i) == Bit(x2, i + 4)
    requires forall i :: 4 <= i < 32 && 4 <= i % 8 ==> Bit(x3, i) == Bit(x2, i - 4)
    requires forall i :: 0 <= i < 32 && i % 4 < 2 ==> Bit(x4, i) == Bit(x3, i + 2)
    requires forall i :: 2 <= i < 32 && 2 <= i % 4 ==> Bit(x4, i) == Bit(x3, i - 2)
    requires forall i :: 0 <= i < 32 && i % 2 < 1 ==> Bit(x5, i) == Bit(x4, i + 1)
    requires forall i :: 1 <= i < 32 && 1 <= i % 2 ==> Bit(x5, i) == Bit(x4, i - 1)
    requires i < 32
    ensures Bit(x5, i) == Bit(x, 31 - i)
  {
    var i4, i3, i2, i1 := IndexChain(i);
    assert Bit(x5, i) == Bit(x4, i4);
    assert Bit(x4, i4) == Bit(x3, i3);
    assert Bit(x3, i3) == Bit(x2, i2);
    assert Bit(x2, i2) == Bit(x1, i1);
  }

  /**
   * i4, i3, i2 and i1 are the positions bit i of the result is read from
   * before the last four swap lines, and the first line reads it from 31 - i.
   */
  predicate MirrorChain(i: nat, i4: nat, i3: nat, i2: nat, i1: nat) {
    && ((i % 2 < 1 && i4 == i + 1) || (1 <= i && 1 <= i % 2 && i4 == i - 1))
    && i4 < 32 && ((i4 % 4 < 2 && i3 == i4 + 2) || (2 <= i4 && 2 <= i4 % 4 && i3 == i4 - 2))
    && i3 < 32 && ((i3 % 8 < 4 && i2 == i3 + 4) || (4 <= i3 && 4 <= i3 % 8 && i2 == i3 - 4))
    && i2 < 32 && ((i2 % 16 < 8 && i1 == i2 + 8) || (8 <= i2 && 8 <= i2 % 16 && i1 == i2 - 8))
    && i1 < 32 && ((i1 % 32 < 16 && i1 + 16 == 31 - i) || (16 <= i1 && 16 <= i1 % 32 && i1 - 16 == 31 - i))
  }

  /** Following bit i back through the five swap lines lands on bit 31 - i. */
  lemma IndexChain(i: nat) returns (i4: nat, i3: nat, i2: nat, i1: nat)
    requires i < 32
    ensures MirrorChain(i, i4, i3, i2, i1)
  {
    if i < 8 {
      i4, i3, i2, i1 := IndexChainFrom0(i);
    } else if i < 16 {
      i4, i3, i2, i1 := IndexChainFrom8(i);
    } else if i < 24 {
      i4, i3, i2, i1 := IndexChainFrom16(i);
    } else {
      i4, i3, i2, i1 := IndexChainFrom24(i);
    }
  }

  lemma IndexChainFrom0(i: nat) returns (i4: nat, i3: nat, i2: nat, i1: nat)
    requires 0 <= i < 8
    ensures MirrorChain(i, i4, i3, i2, i1)
  {
    if i == 0 {
      i4, i3, i2, i1 := 1, 3, 7, 15;
    } else if i == 1 {
      i4, i3, i2, i1 := 0, 2, 6, 14;
    } else if i == 2 {
      i4, i3, i2, i1 := 3, 1, 5, 13;
    } else if i == 3 {
      i4, i3, i2, i1 := 2, 0, 4, 12;
    } else if i == 4 {
      i4, i3, i2, i1 := 5, 7, 3, 11;
    } else if i == 5 {
      i4, i3, i2, i1 := 4, 6, 2, 10;
    } else if i == 6 {
      i4, i3, i2, i1 := 7, 5, 1, 9;
    } else {
      i4, i3, i2, i1 := 6, 4, 0, 8;
    }
  }

  lemma IndexChainFrom8(i: nat) returns (i4: nat, i3: nat, i2: nat, i1: nat)
    requires 8 <= i < 16
    ensures MirrorChain(i, i4, i3, i2, i1)
  {
    if i == 8 {
      i4, i3, i2, i1 := 9, 11, 15, 7;
    } else if i == 9 {
      i4, i3, i2, i1 := 8, 10, 14, 6;
    } else if i == 10 {
      i4, i3, i2, i1 := 11, 9, 13, 5;
    } else if i == 11 {
      i4, i3, i2, i1 := 10, 8, 12, 4;
    } else if i == 12 {
      i4, i3, i2, i1 := 13, 15, 11, 3;
    } else if i == 13 {
      i4, i3, i2, i1 := 12, 14, 10, 2;
    } else if i == 14 {
      i4, i3, i2, i1 := 15, 13, 9, 1;
    } else {
      i4, i3, i2, i1 := 14, 12, 8, 0;
    }
  }

  lemma IndexChainFrom16(i: nat) returns (i4: nat, i3: nat, i2: nat, i1: nat)
    requires 16 <= i < 24
    ensures MirrorChain(i, i4, i3, i2, i1)
  {
    if i == 16 {
      i4, i3, i2, i1 := 17, 19, 23, 31;
    } else if i == 17 {
      i4, i3, i2, i1 := 16, 18, 22, 30;
    } else if i == 18 {
      i4, i3, i2, i1 := 19, 17, 21, 29;
    } else if i == 19 {
      i4, i3, i2, i1 := 18, 16, 20, 28;
    } else if i == 20 {
      i4, i3, i2, i1 := 21, 23, 19, 27;
    } else if i == 21 {
      i4, i3, i2, i1 := 20, 22, 18, 26;
    } else if i == 22 {
      i4, i3, i2, i1 := 23, 21, 17, 25;
    } else {
      i4, i3, i2, i1 := 22, 20, 16, 24;
    }
  }

  lemma IndexChainFrom24(i: nat) returns (i4: nat, i3: nat, i2: nat, i1: nat)
    requires 24 <= i < 32
    ensures MirrorChain(i, i4, i3, i2, i1)
  {
    if i == 24 {
      i4, i3, i2, i1 := 25, 27, 31, 23;
    } else if i == 25 {
      i4, i3, i2, i1 := 24, 26, 30, 22;
    } else if i == 26 {
      i4, i3, i2, i1 := 27, 25, 29, 21;
    } else if i == 27 {
      i4, i3, i2, i1 := 26, 24, 28, 20;
    } else if i == 28 {
      i4, i3, i2, i1 := 29, 31, 27, 19;
    } else if i == 29 {
      i4, i3, i2, i1 := 28, 30, 26, 18;
    } else if i == 30 {
      i4, i3, i2, i1 := 31, 29, 25, 17;
    } else {
      i4, i3, i2, i1 := 30, 28, 24, 16;
    }
  }

  lemma ReverseInvolution(x: u32)
    ensures Reverse(Reverse(x)) == x
  {
    var X := ToBits(x, 32);
    RevIndex(X);
    RevIndex(Rev(X));
    assert Rev(Rev(X)) == X;
    WordFromBits(Reverse(Reverse(x)), x);
  }

  // ----- The two step functions -----

  /** One step of init(): r << 1 in 32 bits, xor POLY when the top bit was set. */
  function ShiftStep(r: u32): u32
  {
    var t := (2 * r) % 0x1_0000_0000;
    if r >= 0x8000_0000 then Xor32(t, POLY) else t
  }

  /** n steps of init(), the last one outermost. */
  function ShiftSteps(r: u32, n: nat): u32
  {
    if n == 0 then r else ShiftStep(ShiftSteps(r, n - 1))
  }

  /** T[j][i] as init() computes it: 8 * (j + 1) steps from reverse(i), reversed. */
  function Entry(j: nat, i: u32): u32
  {
    Reverse(ShiftSteps(Reverse(i), 8 * (j + 1)))
  }

  /**
   * The reference: one bit of a reflected CRC, c >> 1, xor the reflected
   * polynomial when the low bit was set.
   */
  function BitStep(c: u32): u32
  {
    if c % 2 == 1 then Xor32(c / 2, POLY_REFLECTED) else c / 2
  }

  function BitSteps(c: u32, n: nat): u32
  {
    if n == 0 then c else BitStep(BitSteps(c, n - 1))
  }

  /** Feeding one byte into the state, one bit at a time. */
  function ByteStep(c: u32, b: byte): u32
  {
    BitSteps(Xor32(c, b), 8)
  }

  /** The state after feeding `data` into state c, first byte first. */
  function CrcState(c: u32, data: seq<byte>): u32
  {
    if data == [] then c else ByteStep(CrcState(c, data[..|data| - 1]), data[|data| - 1])
  }

  /** What T[j][i] must hold: i shifted through 8 * (j + 1) zero bits. */
  function TableValue(j: nat, i: u32): u32
  {
    BitSteps(i, 8 * (j + 1))
  }

  /** The four bytes of a word, least significant first. */
  function LeBytes(c: u32): (r: seq<byte>)
    ensures |r| == 4 && LeDec(r) == c
  {
    LeSplit(c);
    [c % 256, (c / 0x100) % 256, (c / 0x1_0000) % 256, (c / 0x100_0000) % 256]
  }

  lemma LeSplit(c: u32)
    ensures c % 256 + 0x100 * ((c / 0x100) % 256) + 0x1_0000 * ((c / 0x1_0000) % 256)
            + 0x100_0000 * ((c / 0x100_0000) % 256) == c
  {
    var c1 := c / 0x100;
    var c2 := c1 / 0x100;
    var c3 := c2 / 0x100;
    assert c / 0x1_0000 == c1 / 0x100;
    assert c / 0x100_0000 == c2 / 0x100;
    assert c == c % 256 + 0x100 * c1;
    assert c1 == c1 % 256 + 0x100 * c2;
    assert c2 == c2 % 256 + 0x100 * c3;
  }

  function LeDec(s: seq<byte>): (r: u32)
    requires |s| == 4
  {
    s[0] as int + 0x100 * (s[1] as int) + 0x1_0000 * (s[2] as int) + 0x100_0000 * (s[3] as int)
  }

  /** The CRC32C of data: the bytes CRC32C_Final stores after Init and Update(data). */
  function Crc32c(data: seq<byte>): (r: seq<byte>)
    ensures |r| == 4
  {
    LeBytes(CrcState(T_0_0x80, data))
  }

  // ----- Bit-string views of the steps -----

  /** ShiftStep on bit strings, for the polynomial with bits p. */
  function ShiftStepB(s: seq<bool>, p: seq<bool>): (r: seq<bool>)
    requires |s| == 32 && |p| == 32
    ensures |r| == 32
  {
    var t := [false] + s[..31];
    if s[31] then BXor(t, p) else t
  }

  /** BitStep on bit strings, for the reflected polynomial with bits q. */
  function BitStepB(s: seq<bool>, q: seq<bool>): (r: seq<bool>)
    requires |s| == 32 && |q| == 32
    ensures |r| == 32
  {
    var t := s[1..] + [false];
    if s[0] then BXor(t, q) else t
  }

  lemma ShiftStepBits(r: u32)
    ensures ToBits(ShiftStep(r), 32) == ShiftStepB(ToBits(r, 32), ToBits(POLY, 32))
  {
    Pow2Values();
    ToBitsDouble(r, 32);
    ToBitsTop(r, 32);
    Xor32Bits((2 * r) % 0x1_0000_0000, POLY);
  }

  lemma BitStepBits(c: u32)
    ensures ToBits(BitStep(c), 32) == BitStepB(ToBits(c, 32), ToBits(POLY_REFLECTED, 32))
  {
    Pow2Values();
    ToBitsHalf(c, 32);
    Xor32Bits(c / 2, POLY_REFLECTED);
  }

  /** The bits of a word given byte by byte, least significant byte first. */
  lemma WordBits(b0: nat, b1: nat, b2: nat, b3: nat)
    requires b0 < 256 && b1 < 256 && b2 < 256 && b3 < 256
    ensures ToBits(b0 + 256 * (b1 + 256 * (b2 + 256 * b3)), 32)
         == ToBits(b0, 8) + (ToBits(b1, 8) + (ToBits(b2, 8) + ToBits(b3, 8)))
  {
    assert Pow2(8) == 256;
    var h2 := b2 + 256 * b3;
    var h1 := b1 + 256 * h2;
    var h0 := b0 + 256 * h1;
    var B0, B1, B2, B3 := ToBits(b0, 8), ToBits(b1, 8), ToBits(b2, 8), ToBits(b3, 8);
    assert ToBits(h2, 16) == B2 + B3 by { ToBitsConcat(b2, b3, 8, 8); }
    assert ToBits(h1, 24) == B1 + ToBits(h2, 16) by { ToBitsConcat(b1, h2, 8, 16); }
    assert ToBits(h0, 32) == B0 + ToBits(h1, 24) by { ToBitsConcat(b0, h1, 8, 24); }
  }

  lemma RevConcat(a: seq<bool>, b: seq<bool>)
    ensures Rev(a + b) == Rev(b) + Rev(a)
  {
    RevIndex(a);
    RevIndex(b);
    RevOf(a + b, Rev(b) + Rev(a));
  }

  lemma RevConcat4(a: seq<bool>, b: seq<bool>, c: seq<bool>, d: seq<bool>)
    ensures Rev(a + (b + (c + d))) == Rev(d) + (Rev(c) + (Rev(b) + Rev(a)))
  {
    var A, B, C, D := Rev(a), Rev(b), Rev(c), Rev(d);
    RevConcat(c, d);
    RevConcat(b, c + d);
    RevConcat(a, b + (c + d));
    Assoc(D, C, B);
    Assoc(D, C + B, A);
    Assoc(C, B, A);
  }

  lemma Assoc(x: seq<bool>, y: seq<bool>, z: seq<bool>)
    ensures (x + y) + z == x + (y + z)
  {
  }

  /** Reversing a word reverses the order of its bytes and the bits in each. */
  lemma ReflectWord(b0: nat, b1: nat, b2: nat, b3: nat, c0: nat, c1: nat, c2: nat, c3: nat)
    requires b0 < 256 && b1 < 256 && b2 < 256 && b3 < 256
    requires c0 < 256 && c1 < 256 && c2 < 256 && c3 < 256
    requires Rev(ToBits(b3, 8)) == ToBits(c0, 8) && Rev(ToBits(b2, 8)) == ToBits(c1, 8)
    requires Rev(ToBits(b1, 8)) == ToBits(c2, 8) && Rev(ToBits(b0, 8)) == ToBits(c3, 8)
    ensures Rev(ToBits(b0 + 256 * (b1 + 256 * (b2 + 256 * b3)), 32))
         == ToBits(c0 + 256 * (c1 + 256 * (c2 + 256 * c3)), 32)
  {
    WordBits(b0, b1, b2, b3);
    WordBits(c0, c1, c2, c3);
    RevConcat4(ToBits(b0, 8), ToBits(b1, 8), ToBits(b2, 8), ToBits(b3, 8));
  }

  lemma PolyReflected(p: u32, q: u32)
    requires p == POLY && q == POLY_REFLECTED
    ensures Rev(ToBits(p, 32)) == ToBits(q, 32)
  {
    PolyBytesReflected();
    ReflectWord(0x41, 0x6F, 0xDC, 0x1E, 0x78, 0x3B, 0xF6, 0x82);
  }

  lemma Bits1E()
    ensures ToBits(0x1E, 8) == [false, true, true, true, true, false, false, false]
  {
    assert !Bit(0x1E, 0) && Bit(0x1E, 1) && Bit(0x1E, 2) && Bit(0x1E, 3) && Bit(0x1E, 4) && !Bit(0x1E, 5) && !Bit(0x1E, 6) && !Bit(0x1E, 7);
  }

  lemma BitsDC()
    ensures ToBits(0xDC, 8) == [false, false, true, true, true, false, true, true]
  {
    assert !Bit(0xDC, 0) && !Bit(0xDC, 1) && Bit(0xDC, 2) && Bit(0xDC, 3) && Bit(0xDC, 4) && !Bit(0xDC, 5) && Bit(0xDC, 6) && Bit(0xDC, 7);
  }

  lemma Bits6F()
    ensures ToBits(0x6F, 8) == [true, true, true, true, false, true, true, false]
  {
    assert Bit(0x6F, 0) && Bit(0x6F, 1) && Bit(0x6F, 2) && Bit(0x6F, 3) && !Bit(0x6F, 4) && Bit(0x6F, 5) && Bit(0x6F, 6) && !Bit(0x6F, 7);
  }

  lemma Bits41()
    ensures ToBits(0x41, 8) == [true, false, false, false, false, false, true, false]
  {
    assert Bit(0x41, 0) && !Bit(0x41, 1) && !Bit(0x41, 2) && !Bit(0x41, 3) && !Bit(0x41, 4) && !Bit(0x41, 5) && Bit(0x41, 6) && !Bit(0x41, 7);
  }

  lemma Bits78()
    ensures ToBits(0x78, 8) == [false, false, false, true, true, true, true, false]
  {
    assert !Bit(0x78, 0) && !Bit(0x78, 1) && !Bit(0x78, 2) && Bit(0x78, 3) && Bit(0x78, 4) && Bit(0x78, 5) && Bit(0x78, 6) && !Bit(0x78, 7);
  }

  lemma Bits3B()
    ensures ToBits(0x3B, 8) == [true, true, false, true, true, true, false, false]
  {
    assert Bit(0x3B, 0) && Bit(0x3B, 1) && !Bit(0x3B, 2) && Bit(0x3B, 3) && Bit(0x3B, 4) && Bit(0x3B, 5) && !Bit(0x3B, 6) && !Bit(0x3B, 7);
  }

  lemma BitsF6()
    ensures ToBits(0xF6, 8) == [false, true, true, false, true, true, true, true]
  {
    assert !Bit(0xF6, 0) && Bit(0xF6, 1) && Bit(0xF6, 2) && !Bit(0xF6, 3) && Bit(0xF6, 4) && Bit(0xF6, 5) && Bit(0xF6, 6) && Bit(0xF6, 7);
  }

  lemma Bits82()
    ensures ToBits(0x82, 8) == [false, true, false, false, false, false, false, true]
  {
    assert !Bit(0x82, 0) && Bit(0x82, 1) && !Bit(0x82, 2) && !Bit(0x82, 3) && !Bit(0x82, 4) && !Bit(0x82, 5) && !Bit(0x82, 6) && Bit(0x82, 7);
  }

  lemma RevBits1E()
    ensures Rev([false, true, true, true, true, false, false, false]) == [false, false, false, true, true, true, true, false]
  {
  }

  lemma RevBitsDC()
    ensures Rev([false, false, true, true, true, false, true, true]) == [true, true, false, true, true, true, false, false]
  {
  }

  lemma RevBits6F()
    ensures Rev([true, true, true, true, false, true, true, false]) == [false, true, true, false, true, true, true, true]
  {
  }

  lemma RevBits41()
    ensures Rev([true, false, false, false, false, false, true, false]) == [false, true, false, false, false, false, false, true]
  {
  }

  /** The bytes of POLY, bit-reversed, are those of POLY_REFLECTED in the opposite order. */
  lemma PolyBytesReflected()
    ensures Rev(ToBits(0x1E, 8)) == ToBits(0x78, 8) && Rev(ToBits(0xDC, 8)) == ToBits(0x3B, 8)
    ensures Rev(ToBits(0x6F, 8)) == ToBits(0xF6, 8) && Rev(ToBits(0x41, 8)) == ToBits(0x82, 8)
  {
    Reflected1E();
    ReflectedDC();
    Reflected6F();
    Reflected41();
  }

  lemma Reflected1E()
    ensures Rev(ToBits(0x1E, 8)) == ToBits(0x78, 8)
  {
    Bits1E(); Bits78(); RevBits1E();
  }

  lemma ReflectedDC()
    ensures Rev(ToBits(0xDC, 8)) == ToBits(0x3B, 8)
  {
    BitsDC(); Bits3B(); RevBitsDC();
  }

  lemma Reflected6F()
    ensures Rev(ToBits(0x6F, 8)) == ToBits(0xF6, 8)
  {
    Bits6F(); BitsF6(); RevBits6F();
  }

  lemma Reflected41()
    ensures Rev(ToBits(0x41, 8)) == ToBits(0x82, 8)
  {
    Bits41(); Bits82(); RevBits41();
  }

  /** Reflecting the MSB-first step gives the LSB-first step. */
  lemma ReflectB(s: seq<bool>, P: seq<bool>, Q: seq<bool>)
    requires |s| == 32 && |P| == 32 && Rev(P) == Q
    ensures Rev(ShiftStepB(Rev(s), P)) == BitStepB(s, Q)
  {
    RevIndex(s);
    var t := [false] + Rev(s)[..31];
    RevOf(t, s[1..] + [false]);
    if s[0] {
      RevIndex(P);
      RevIndex(t);
      RevOf(BXor(t, P), BXor(Rev(t), Rev(P)));
    }
  }

  lemma ReflectStep(c: u32)
    ensures Reverse(ShiftStep(Reverse(c))) == BitStep(c)
  {
    ShiftStepBits(Reverse(c));
    BitStepBits(c);
    PolyReflected(POLY, POLY_REFLECTED);
    ReflectB(ToBits(c, 32), ToBits(POLY, 32), ToBits(POLY_REFLECTED, 32));
    WordFromBits(Reverse(ShiftStep(Reverse(c))), BitStep(c));
  }

  lemma {:induction false} ReflectSteps(c: u32, n: nat)
    ensures Reverse(ShiftSteps(Reverse(c), n)) == BitSteps(c, n)
  {
    if n == 0 {
      ReverseInvolution(c);
    } else {
      var y := ShiftSteps(Reverse(c), n - 1);
      ReflectSteps(c, n - 1);
      ReverseInvolution(y);
      ReflectStep(BitSteps(c, n - 1));
    }
  }

  /** The tables init() builds hold the reflected reference values. */
  lemma EntryIsTableValue(j: nat, i: u32)
    ensures Entry(j, i) == TableValue(j, i)
  {
    ReflectSteps(i, 8 * (j + 1));
  }

  // ----- Algebra of the reference step -----

  lemma BitStepBXor(x: seq<bool>, y: seq<bool>, q: seq<bool>)
    requires |x| == 32 && |y| == 32 && |q| == 32
    ensures BitStepB(BXor(x, y), q) == BXor(BitStepB(x, q), BitStepB(y, q))
  {
    var l, r := BitStepB(BXor(x, y), q), BXor(BitStepB(x, q), BitStepB(y, q));
    forall i | 0 <= i < 32 ensures l[i] == r[i] {
      if i < 31 {
        assert BXor(x, y)[i + 1] == (x[i + 1] != y[i + 1]);
      }
    }
  }

  /** A bit step is linear over exclusive or. */
  lemma BitStepXor(x: u32, y: u32)
    ensures BitStep(Xor32(x, y)) == Xor32(BitStep(x), BitStep(y))
  {
    var q := ToBits(POLY_REFLECTED, 32);
    Xor32Bits(x, y);
    BitStepBits(Xor32(x, y));
    BitStepBits(x);
    BitStepBits(y);
    BitStepBXor(ToBits(x, 32), ToBits(y, 32), q);
    Xor32Bits(BitStep(x), BitStep(y));
    WordFromBits(BitStep(Xor32(x, y)), Xor32(BitStep(x), BitStep(y)));
  }

  lemma {:induction false} BitStepsXor(x: u32, y: u32, n: nat)
    ensures BitSteps(Xor32(x, y), n) == Xor32(BitSteps(x, n), BitSteps(y, n))
  {
    if n > 0 {
      BitStepsXor(x, y, n - 1);
      BitStepXor(BitSteps(x, n - 1), BitSteps(y, n - 1));
    }
  }

  lemma {:induction false} BitStepsAdd(x: u32, m: nat, n: nat)
    ensures BitSteps(BitSteps(x, m), n) == BitSteps(x, m + n)
  {
    if n > 0 {
      BitStepsAdd(x, m, n - 1);
    }
  }

  lemma BitStepEven(c: u32)
    requires c % 2 == 0
    ensures BitStep(c) == c / 2
  {
  }

  /** Stepping over n low zero bits shifts them out. */
  lemma {:induction false} BitStepsShifted(h: nat, n: nat)
    requires Pow2(n) * h < 0x1_0000_0000
    ensures BitSteps(Pow2(n) * h, n) == h
    decreases n
  {
    if n > 0 {
      var q := Pow2(n - 1);
      var h2 := 2 * h;
      var c: u32 := Pow2(n) * h;
      assert c == q * h2 && h2 < 0x1_0000_0000 by {
        if q > 1 { MulStep(h2, 1, q); }
      }
      assert BitSteps(c, n - 1) == h2 by {
        BitStepsShifted(h2, n - 1);
      }
      BitStepEven(h2);
    }
  }

  /** Eight steps of a word: its high 24 bits shifted down, xor the steps of its low byte. */
  lemma SplitSteps(c: u32)
    ensures BitSteps(c, 8) == Xor32(c / 256, BitSteps(c % 256, 8))
  {
    SplitWord(c);
    BitStepsXor(256 * (c / 256), c % 256, 8);
    assert Pow2(8) == 256;
    BitStepsShifted(c / 256, 8);
  }

  /** One byte by table lookup: (s >> 8) ^ T[0][(s & 0xff) ^ b]. */
  lemma ByteRound(s: u32, b: byte)
    ensures Xor32(s % 256, b) < 256
    ensures ByteStep(s, b) == Xor32(s / 256, TableValue(0, Xor32(s % 256, b)))
  {
    Xor32Byte(s % 256, b);
    var x := Xor32(s, b);
    SplitSteps(x);
    Xor32Shift(s, b);
    Xor32Zero(s / 256);
    Xor32Low(s, b);
  }

  /** A byte step on h ^ BitSteps(a, m): the part from a moves on by eight steps. */
  lemma StepAcc(h: u32, a: u32, m: nat, b: byte)
    ensures ByteStep(Xor32(h, BitSteps(a, m)), b) == Xor32(ByteStep(h, b), BitSteps(a, m + 8))
  {
    var e := BitSteps(a, m);
    calc {
      Xor32(Xor32(h, e), b);
      { Xor32Assoc(h, e, b); }
      Xor32(h, Xor32(e, b));
      { Xor32Comm(e, b); }
      Xor32(h, Xor32(b, e));
      { Xor32Assoc(h, b, e); }
      Xor32(Xor32(h, b), e);
    }
    BitStepsXor(Xor32(h, b), e, 8);
    BitStepsAdd(a, m, 8);
  }

  lemma CrcState4(s: u32, d: seq<byte>)
    requires |d| == 4
    ensures CrcState(s, d) == ByteStep(ByteStep(ByteStep(ByteStep(s, d[0]), d[1]), d[2]), d[3])
  {
    assert CrcState(s, d) == ByteStep(CrcState(s, d[..3]), d[3]);
    assert d[..3][..2] == d[..2] && d[..2][..1] == d[..1] && d[..1][..0] == [];
    assert CrcState(s, d[..3]) == ByteStep(CrcState(s, d[..2]), d[2]);
    assert CrcState(s, d[..2]) == ByteStep(CrcState(s, d[..1]), d[1]);
    assert CrcState(s, d[..1]) == ByteStep(s, d[0]);
  }

  /** Two single-byte steps, with the contribution of each byte kept apart. */
  lemma After2(s: u32, b0: byte, b1: byte)
    ensures ByteStep(ByteStep(s, b0), b1)
         == Xor32(Xor32(s / 0x1_0000, BitSteps(Xor32((s / 0x100) % 256, b1), 8)),
                  BitSteps(Xor32(s % 256, b0), 16))
  {
    var s1 := s / 0x100;
    assert s1 / 256 == s / 0x1_0000;
    ByteRound(s, b0);
    StepAcc(s1, Xor32(s % 256, b0), 8, b1);
    ByteRound(s1, b1);
  }

  lemma After3(s: u32, b0: byte, b1: byte, b2: byte)
    ensures ByteStep(ByteStep(ByteStep(s, b0), b1), b2)
         == Xor32(Xor32(Xor32(s / 0x100_0000, BitSteps(Xor32((s / 0x1_0000) % 256, b2), 8)),
                        BitSteps(Xor32((s / 0x100) % 256, b1), 16)),
                  BitSteps(Xor32(s % 256, b0), 24))
  {
    var s2 := s / 0x1_0000;
    var x0, x1 := Xor32(s % 256, b0), Xor32((s / 0x100) % 256, b1);
    assert s2 / 256 == s / 0x100_0000;
    After2(s, b0, b1);
    StepAcc(Xor32(s2, BitSteps(x1, 8)), x0, 16, b2);
    StepAcc(s2, x1, 8, b2);
    ByteRound(s2, b2);
  }

  lemma After4(s: u32, b0: byte, b1: byte, b2: byte, b3: byte)
    ensures ByteStep(ByteStep(ByteStep(ByteStep(s, b0), b1), b2), b3)
         == Xor32(Xor32(Xor32(BitSteps(Xor32((s / 0x100_0000) % 256, b3), 8),
                              BitSteps(Xor32((s / 0x1_0000) % 256, b2), 16)),
                        BitSteps(Xor32((s / 0x100) % 256, b1), 24)),
                  BitSteps(Xor32(s % 256, b0), 32))
  {
    var s3 := s / 0x100_0000;
    var x0, x1 := Xor32(s % 256, b0), Xor32((s / 0x100) % 256, b1);
    var x2 := Xor32((s / 0x1_0000) % 256, b2);
    assert s3 / 256 == 0 && s3 % 256 == s3;
    After3(s, b0, b1, b2);
    StepAcc(Xor32(Xor32(s3, BitSteps(x2, 8)), BitSteps(x1, 16)), x0, 24, b3);
    StepAcc(Xor32(s3, BitSteps(x2, 8)), x1, 16, b3);
    StepAcc(s3, x2, 8, b3);
    ByteRound(s3, b3);
    var e := BitSteps(Xor32(s3, b3), 8);
    assert ByteStep(s3, b3) == e by {
      Xor32Comm(0, e);
      Xor32Zero(e);
    }
  }

  /**
   * Four bytes by table lookup, as CRC32C_Update's block loop computes
   * them, give the state of four single-byte steps.
   */
  lemma BlockRound(s: u32, d: seq<byte>)
    requires |d| == 4
    ensures Xor32((s / 0x100_0000) % 256, d[3]) < 256 && Xor32((s / 0x1_0000) % 256, d[2]) < 256
    ensures Xor32((s / 0x100) % 256, d[1]) < 256 && Xor32(s % 256, d[0]) < 256
    ensures CrcState(s, d)
         == Xor32(Xor32(Xor32(TableValue(0, Xor32((s / 0x100_0000) % 256, d[3])),
                              TableValue(1, Xor32((s / 0x1_0000) % 256, d[2]))),
                        TableValue(2, Xor32((s / 0x100) % 256, d[1]))),
                  TableValue(3, Xor32(s % 256, d[0])))
  {
    Xor32Byte((s / 0x100_0000) % 256, d[3]);
    Xor32Byte((s / 0x1_0000) % 256, d[2]);
    Xor32Byte((s / 0x100) % 256, d[1]);
    Xor32Byte(s % 256, d[0]);
    CrcState4(s, d);
    After4(s, d[0], d[1], d[2], d[3]);
  }

  /** Feeding a + b equals feeding a, then b. */
  lemma {:induction false} CrcStateAppend(c: u32, a: seq<byte>, b: seq<byte>)
    ensures CrcState(c, a + b) == CrcState(CrcState(c, a), b)
    decreases |b|
  {
    if b == [] {
      assert a + b == a;
    } else {
      var b2 := b[..|b| - 1];
      assert (a + b)[..|a + b| - 1] == a + b2;
      CrcStateAppend(c, a, b2);
    }
  }

  /** The table entry init() checks: T[0][0x80] is the initial state. */
  lemma TableZeroEighty()
    ensures TableValue(0, 0x80) == T_0_0x80
  {
    assert BitSteps(0x80, 1) == 0x40;
    assert BitSteps(0x80, 2) == 0x20;
    assert BitSteps(0x80, 3) == 0x10;
    assert BitSteps(0x80, 4) == 0x08;
    assert BitSteps(0x80, 5) == 0x04;
    assert BitSteps(0x80, 6) == 0x02;
    assert BitSteps(0x80, 7) == 0x01;
    Xor32Comm(0, POLY_REFLECTED);
    Xor32Zero(POLY_REFLECTED);
  }

  /** The CRC32C of the empty string is 78 3b f6 82. */
  lemma EmptyInput()
    ensures Crc32c([]) == [0x78, 0x3b, 0xf6, 0x82]
  {
  }

  // ----- The tables, the context and the three entry points -----

  /**
   * The lazily built lookup tables T[0..3] and the initdone flag.  Once
   * built, T[j][i] is the state change for byte i followed by 8 * j zero
   * bits.
   */
  class Tables {
    var T: array2<u32>
    var initdone: bool

    ghost predicate Valid()
      reads this, T
    {
      initdone ==>
        T.Length0 == 4 && T.Length1 == 256 &&
        forall j, i :: 0 <= j < 4 && 0 <= i < 256 ==> T[j, i] == TableValue(j, i)
    }

    constructor ()
      ensures !initdone && Valid()
    {
      T := new u32[0, 0];
      initdone := false;
    }

    /** init(): build the tables unless that was done already. */
    method Init()
      requires Valid()
      modifies this
      ensures initdone && Valid()
      ensures old(initdone) ==> T == old(T)
    {
      if initdone {
        return;
      }
      var t := new u32[4, 256];
      var i := 0;
      while i < 256
        invariant 0 <= i <= 256
        invariant forall j, i2 :: 0 <= j < 4 && 0 <= i2 < i ==> t[j, i2] == TableValue(j, i2)
      {
        FillColumn(t, i);
        i := i + 1;
      }
      assert t[0, 0x80] == T_0_0x80 by {
        TableZeroEighty();
      }
      T := t;
      initdone := true;
    }
  }

  /** init()'s innermost loop: eight shifts of r by the polynomial. */
  method ShiftByte(r0: u32) returns (r: u32)
    ensures r == ShiftSteps(r0, 8)
  {
    r := r0;
    var k := 0;
    while k < 8
      invariant 0 <= k <= 8
      invariant r == ShiftSteps(r0, k)
    {
      if r >= 0x8000_0000 {
        r := Xor32((2 * r as int) % 0x1_0000_0000, POLY);
      } else {
        r := (2 * r as int) % 0x1_0000_0000;
      }
      k := k + 1;
    }
  }

  lemma {:induction false} ShiftStepsAdd(r: u32, m: nat, n: nat)
    ensures ShiftSteps(ShiftSteps(r, m), n) == ShiftSteps(r, m + n)
  {
    if n > 0 {
      ShiftStepsAdd(r, m, n - 1);
    }
  }

  /** reverse(): swap the halves, the bytes in each half, the nibbles, the bit pairs and the bits. */
  method ReverseWord(x0: u32) returns (x: u32)
    ensures x == Reverse(x0)
  {
    x := SwapStep(x0, 16, 0xffff0000, 0x0000ffff);
    ghost var x1 := x;
    x := SwapStep(x, 8, 0xff00ff00, 0x00ff00ff);
    ghost var x2 := x;
    x := SwapStep(x, 4, 0xf0f0f0f0, 0x0f0f0f0f);
    ghost var x3 := x;
    x := SwapStep(x, 2, 0xcccccccc, 0x33333333);
    ghost var x4 := x;
    x := SwapStep(x, 1, 0xaaaaaaaa, 0x55555555);
    SwapNetwork(x0, x1, x2, x3, x4, x);
  }


  /** A word produced by init()'s steps is the matching table entry. */
  lemma ColumnEntry(i: u32, j: nat, r0: u32, r: u32, v: u32)
    requires ToBits(r0, 32) == Rev(ToBits(i, 32))
    requires r == ShiftSteps(r0, 8 * (j + 1))
    requires v == Reverse(r)
    ensures v == TableValue(j, i)
  {
    WordFromBits(r0, Reverse(i));
    EntryIsTableValue(j, i);
  }

  /** One pass of init()'s inner loops: eight more shifts of r, then T[j][i] = reverse(r). */
  method FillEntry(t: array2<u32>, i: nat, j: nat, ghost r0: u32, r: u32) returns (r2: u32)
    requires t.Length0 == 4 && t.Length1 == 256 && i < 256 && j < 4
    requires ToBits(r0, 32) == Rev(ToBits(i, 32))
    requires r == ShiftSteps(r0, 8 * j)
    modifies t
    ensures r2 == ShiftSteps(r0, 8 * (j + 1))
    ensures t[j, i] == TableValue(j, i)
    ensures forall j2, i2 :: 0 <= j2 < 4 && 0 <= i2 < 256 && (j2, i2) != (j, i) ==> t[j2, i2] == old(t[j2, i2])
  {
    r2 := ShiftByte(r);
    ShiftStepsAdd(r0, 8 * j, 8);
    assert 8 * j + 8 == 8 * (j + 1);
    var v := ReverseWord(r2);
    ColumnEntry(i, j, r0, r2, v);
    t[j, i] := v;
  }

  /** One pass of init()'s outer loop: T[0..3][i] from reverse(i), eight shifts per table. */
  method FillColumn(t: array2<u32>, i: nat)
    requires t.Length0 == 4 && t.Length1 == 256 && i < 256
    modifies t
    ensures forall j :: 0 <= j < 4 ==> t[j, i] == TableValue(j, i)
    ensures forall j, i2 :: 0 <= j < 4 && 0 <= i2 < 256 && i2 != i ==> t[j, i2] == old(t[j, i2])
  {
    var r := ReverseWord(i);
    ghost var r0 := r;
    var j := 0;
    while j < 4
      invariant 0 <= j <= 4
      invariant r == ShiftSteps(r0, 8 * j)
      invariant forall j2 :: 0 <= j2 < j ==> t[j2, i] == TableValue(j2, i)
      invariant forall j2, i2 :: 0 <= j2 < 4 && 0 <= i2 < 256 && i2 != i ==> t[j2, i2] == old(t[j2, i2])
    {
      r := FillEntry(t, i, j, r0, r);
      j := j + 1;
    }
  }

  /** A CRC32C-computing context. */
  class Context {
    var state: u32

    constructor ()
      ensures state == 0
    {
      state := 0;
    }
  }

  /** CRC32C_Init: build the tables if need be and start from the implicit leading 1 bit. */
  method CtxInit(tables: Tables, ctx: Context) returns (r: int)
    requires tables.Valid()
    modifies tables, ctx
    ensures r == 0 && tables.initdone && tables.Valid()
    ensures ctx.state == T_0_0x80 == CrcState(T_0_0x80, [])
  {
    if !tables.initdone {
      tables.Init();
    }
    ctx.state := T_0_0x80;
    r := 0;
  }

  /** CRC32C_Update: feed buf into the context, four bytes per round, then byte by byte. */
  method Update(tables: Tables, ctx: Context, buf: seq<byte>)
    requires tables.initdone && tables.Valid()
    modifies ctx
    ensures ctx.state == CrcState(old(ctx.state), buf)
  {
    ghost var s0 := ctx.state;
    var T := tables.T;
    var pos := 0;
    while |buf| - pos >= 4
      invariant 0 <= pos <= |buf|
      invariant ctx.state == CrcState(s0, buf[..pos])
    {
      var s := ctx.state;
      BlockRound(s, buf[pos..pos + 4]);
      var t0 := T[0, Xor32((s / 0x100_0000) % 256, buf[pos + 3])];
      var t1 := T[1, Xor32((s / 0x1_0000) % 256, buf[pos + 2])];
      var t2 := T[2, Xor32((s / 0x100) % 256, buf[pos + 1])];
      var t3 := T[3, Xor32(s % 256, buf[pos])];
      ctx.state := Xor32(Xor32(Xor32(t0, t1), t2), t3);
      BlockAppend(s0, buf, pos);
      pos := pos + 4;
    }
    while pos < |buf|
      invariant 0 <= pos <= |buf|
      invariant ctx.state == CrcState(s0, buf[..pos])
    {
      var s := ctx.state;
      ByteRound(s, buf[pos]);
      var t := T[0, Xor32(s % 256, buf[pos])];
      ctx.state := Xor32(s / 256, t);
      ByteAppend(s0, buf, pos);
      pos := pos + 1;
    }
    assert buf[..pos] == buf;
  }

  /** The state after buf[..pos + 4] is the state after buf[..pos] fed the block buf[pos..pos + 4]. */
  lemma BlockAppend(s0: u32, buf: seq<byte>, pos: nat)
    requires pos + 4 <= |buf|
    ensures CrcState(s0, buf[..pos + 4]) == CrcState(CrcState(s0, buf[..pos]), buf[pos..pos + 4])
  {
    CrcStateAppend(s0, buf[..pos], buf[pos..pos + 4]);
    assert buf[..pos] + buf[pos..pos + 4] == buf[..pos + 4];
  }

  /** The state after buf[..pos + 1] is one byte step past the state after buf[..pos]. */
  lemma ByteAppend(s0: u32, buf: seq<byte>, pos: nat)
    requires pos < |buf|
    ensures CrcState(s0, buf[..pos + 1]) == ByteStep(CrcState(s0, buf[..pos]), buf[pos])
  {
    assert buf[..pos + 1][..pos] == buf[..pos];
  }

  /** CRC32C_Final: the state as four little-endian bytes. */
  method Final(cbuf: array<byte>, off: nat, ctx: Context)
    requires off + 4 <= cbuf.Length
    modifies cbuf
    ensures cbuf[off..off + 4] == LeBytes(ctx.state)
    ensures forall i :: 0 <= i < cbuf.Length && !(off <= i < off + 4) ==> cbuf[i] == old(cbuf[i])
  {
    var s := ctx.state;
    cbuf[off] := s % 256;
    cbuf[off + 1] := (s / 0x100) % 256;
    cbuf[off + 2] := (s / 0x1_0000) % 256;
    cbuf[off + 3] := (s / 0x100_0000) % 256;
    assert cbuf[off..off + 4] == [cbuf[off], cbuf[off + 1], cbuf[off + 2], cbuf[off + 3]];
  }
}
