/**
 * Bit strings (least significant bit first) as a proof device for the
 * unsigned-integer arithmetic the C code does with shifts, masks and
 * exclusive or: a natural below 2^k and its k bits determine each other.
 */
module Bits {
  import opened Bytes

  /** 2^k. */
  function Pow2(k: nat): (r: nat)
    ensures r >= 1
  {
    if k == 0 then 1 else 2 * Pow2(k - 1)
  }

  /** Bit i of x. */
  function Bit(x: nat, i: nat): bool
  {
    if i == 0 then x % 2 == 1 else Bit(x / 2, i - 1)
  }

  /** The number whose bits, least significant first, are s. */
  function Val(s: seq<bool>): (r: nat)
    ensures r < Pow2(|s|)
  {
    if s == [] then 0 else (if s[0] then 1 else 0) + 2 * Val(s[1..])
  }

  /** The low k bits of x, least significant first. */
  function ToBits(x: nat, k: nat): (r: seq<bool>)
    ensures |r| == k && forall i :: 0 <= i < k ==> r[i] == Bit(x, i)
  {
    seq(k, i requires 0 <= i < k => Bit(x, i))
  }

  function Zeros(n: nat): (r: seq<bool>)
    ensures |r| == n && forall i :: 0 <= i < n ==> !r[i]
  {
    seq(n, i => false)
  }

  /** Bit-wise exclusive or of two equally long bit strings. */
  function BXor(a: seq<bool>, b: seq<bool>): (r: seq<bool>)
    requires |a| == |b|
    ensures |r| == |a| && forall i :: 0 <= i < |a| ==> r[i] == (a[i] != b[i])
  {
    seq(|a|, i requires 0 <= i < |a| => a[i] != b[i])
  }

  /** The bits of x are its low bit followed by the bits of x / 2. */
  lemma ToBitsTail(x: nat, k: nat)
    requires k > 0
    ensures ToBits(x, k) == [x % 2 == 1] + ToBits(x / 2, k - 1)
  {
    var l, r := ToBits(x, k), [x % 2 == 1] + ToBits(x / 2, k - 1);
    forall i | 0 <= i < k ensures l[i] == r[i] {
      if i > 0 {
        assert r[i] == ToBits(x / 2, k - 1)[i - 1];
      }
    }
  }

  lemma {:induction false} ValToBits(x: nat, k: nat)
    requires x < Pow2(k)
    ensures Val(ToBits(x, k)) == x
  {
    if k > 0 {
      ToBitsTail(x, k);
      ValToBits(x / 2, k - 1);
      assert ToBits(x, k)[1..] == ToBits(x / 2, k - 1);
    }
  }

  lemma {:induction false} ToBitsVal(s: seq<bool>)
    ensures ToBits(Val(s), |s|) == s
  {
    if s != [] {
      ToBitsVal(s[1..]);
      var v := (if s[0] then 1 else 0) + 2 * Val(s[1..]);
      assert v / 2 == Val(s[1..]);
      ToBitsTail(v, |s|);
      assert s == [s[0]] + s[1..];
    }
  }

  /** Two numbers below 2^k with the same k bits are equal. */
  lemma ToBitsInjective(x: nat, y: nat, k: nat)
    requires x < Pow2(k) && y < Pow2(k)
    requires ToBits(x, k) == ToBits(y, k)
    ensures x == y
  {
    ValToBits(x, k);
    ValToBits(y, k);
  }

  /** A number below 2^k has no bit set at k or above. */
  lemma {:induction false} BitHigh(y: nat, k: nat, i: nat)
    requires y < Pow2(k) && k <= i
    ensures !Bit(y, i)
  {
    if k > 0 {
      BitHigh(y / 2, k - 1, i - 1);
    } else if i > 0 {
      assert y / 2 == 0;
      BitHigh(0, 0, i - 1);
    }
  }

  /** A number below 2^k has a zero bit k. */
  lemma ToBitsExtend(y: nat, k: nat)
    requires y < Pow2(k)
    ensures ToBits(y, k + 1) == ToBits(y, k) + [false]
  {
    BitHigh(y, k, k);
  }

  /** y below 2^k padded to k + m bits. */
  lemma ToBitsPad(y: nat, k: nat, m: nat)
    requires y < Pow2(k)
    ensures ToBits(y, k + m) == ToBits(y, k) + Zeros(m)
  {
    forall i | k <= i < k + m ensures !Bit(y, i) {
      BitHigh(y, k, i);
    }
  }

  lemma {:induction false} PowMonotone(k: nat, m: nat)
    requires k <= m
    ensures Pow2(k) <= Pow2(m)
    decreases m
  {
    if k < m { PowMonotone(k, m - 1); }
  }

  /** The first k of the low k + m bits are the low k bits. */
  lemma ToBitsPrefix(x: nat, k: nat, m: nat)
    ensures ToBits(x, k + m)[..k] == ToBits(x, k)
  {
  }

  lemma ModHalf(x: nat, q: nat)
    requires q >= 1
    ensures (x % (2 * q)) % 2 == x % 2
    ensures (x % (2 * q)) / 2 == (x / 2) % q
  {
    var d := x / (2 * q);
    var r := x % (2 * q);
    var qd := q * d;
    assert x == 2 * qd + r by {
      assert (2 * q) * d == 2 * qd;
    }
    assert x % 2 == r % 2 && x / 2 == qd + r / 2;
    ModOfMultiple(q, d, r / 2);
  }

  lemma ModOfMultiple(q: nat, d: nat, t: nat)
    requires t < q
    ensures (q * d + t) % q == t && (q * d + t) / q == d
  {
    var m := q * d + t;
    var e := m / q;
    assert m == q * e + m % q;
    if e < d {
      MulStep(q, e, d);
    } else if e > d {
      MulStep(q, d, e);
    }
  }

  lemma {:induction false} MulStep(q: nat, a: nat, b: nat)
    requires a < b
    ensures q * a + q <= q * b
    decreases b
  {
    assert q * b == q * (b - 1) + q;
    if a < b - 1 {
      MulStep(q, a, b - 1);
    }
  }

  lemma {:induction false} BitMod(x: nat, k: nat, i: nat)
    requires i < k
    ensures Bit(x % Pow2(k), i) == Bit(x, i)
  {
    ModHalf(x, Pow2(k - 1));
    if i > 0 {
      BitMod(x / 2, k - 1, i - 1);
    }
  }

  /** Bits above the k-th do not matter to the low k bits. */
  lemma ToBitsMod(x: nat, k: nat)
    ensures ToBits(x % Pow2(k), k) == ToBits(x, k)
  {
    forall i | 0 <= i < k ensures Bit(x % Pow2(k), i) == Bit(x, i) {
      BitMod(x, k, i);
    }
  }

  /** Halving shifts the bits down and brings a zero in at the top. */
  lemma ToBitsHalf(x: nat, k: nat)
    requires k > 0 && x < Pow2(k)
    ensures ToBits(x / 2, k) == ToBits(x, k)[1..] + [false]
  {
    BitHigh(x / 2, k - 1, k - 1);
    var l, r := ToBits(x / 2, k), ToBits(x, k)[1..] + [false];
    forall i | 0 <= i < k ensures l[i] == r[i] {
      if i < k - 1 {
        assert r[i] == ToBits(x, k)[i + 1];
      }
    }
  }

  /** Doubling modulo 2^k shifts the bits up and brings a zero in at the bottom. */
  lemma ToBitsDouble(x: nat, k: nat)
    requires k > 0
    ensures ToBits((2 * x) % Pow2(k), k) == [false] + ToBits(x, k)[..k - 1]
  {
    ToBitsMod(2 * x, k);
    var l, r := ToBits(2 * x, k), [false] + ToBits(x, k)[..k - 1];
    forall i | 0 <= i < k ensures l[i] == r[i] {
      if i > 0 {
        assert (2 * x) / 2 == x;
        assert r[i] == ToBits(x, k)[i - 1];
      }
    }
  }

  /** The top bit of a number below 2^k is set iff it is at least 2^(k-1). */
  lemma {:induction false} BitTop(x: nat, k: nat)
    requires k > 0 && x < Pow2(k)
    ensures Bit(x, k - 1) <==> x >= Pow2(k - 1)
  {
    if k > 1 {
      BitTop(x / 2, k - 1);
    }
  }

  lemma ToBitsTop(x: nat, k: nat)
    requires k > 0 && x < Pow2(k)
    ensures ToBits(x, k)[k - 1] <==> x >= Pow2(k - 1)
  {
    BitTop(x, k);
  }

  lemma {:induction false} BitConcat(l: nat, h: nat, k: nat, i: nat)
    requires l < Pow2(k)
    ensures Bit(l + Pow2(k) * h, i) == if i < k then Bit(l, i) else Bit(h, i - k)
  {
    if k > 0 {
      var q := Pow2(k - 1);
      assert l + Pow2(k) * h == l + 2 * (q * h);
      assert (l + Pow2(k) * h) / 2 == l / 2 + q * h;
      assert (l + Pow2(k) * h) % 2 == l % 2;
      if i > 0 {
        BitConcat(l / 2, h, k - 1, i - 1);
      }
    }
  }

  /** The bits of l + 2^k * h are those of l followed by those of h. */
  lemma ToBitsConcat(l: nat, h: nat, k: nat, m: nat)
    requires l < Pow2(k)
    ensures ToBits(l + Pow2(k) * h, k + m) == ToBits(l, k) + ToBits(h, m)
  {
    var a, b := ToBits(l + Pow2(k) * h, k + m), ToBits(l, k) + ToBits(h, m);
    forall i | 0 <= i < k + m ensures a[i] == b[i] {
      BitConcat(l, h, k, i);
    }
  }

  // ----- Bytes of a 32-bit word -----

  lemma Pow2Values()
    ensures Pow2(8) == 256 && Pow2(16) == 0x1_0000 && Pow2(24) == 0x100_0000
    ensures Pow2(31) == 0x8000_0000 && Pow2(32) == 0x1_0000_0000
  {
    assert Pow2(8) == 256;
    assert Pow2(16) == 256 * 256 by { Pow2Add(8, 8); }
    assert Pow2(24) == 0x100_0000 by { Pow2Add(16, 8); }
    assert Pow2(32) == 0x1_0000_0000 by { Pow2Add(24, 8); }
    assert Pow2(31) == 0x8000_0000 by { Pow2Add(24, 7); }
  }

  lemma {:induction false} Pow2Add(k: nat, m: nat)
    ensures Pow2(k + m) == Pow2(k) * Pow2(m)
  {
    if m > 0 {
      Pow2Add(k, m - 1);
      assert Pow2(k + m) == 2 * Pow2(k + m - 1);
    }
  }

  /** The low byte of x as the first 8 bits. */
  lemma LowByteBits(x: u32)
    ensures ToBits(x % 256, 32) == ToBits(x, 32)[..8] + Zeros(24)
  {
    assert Pow2(8) == 256;
    ToBitsPad(x % 256, 8, 24);
    ToBitsMod(x, 8);
    ToBitsPrefix(x, 8, 24);
  }

  /** x >> 8 as the bits of x shifted down by eight. */
  lemma ShiftByteBits(x: u32)
    ensures ToBits(x / 256, 32) == ToBits(x, 32)[8..] + Zeros(8)
  {
    Pow2Values();
    ToBitsConcat(x % 256, x / 256, 8, 24);
    assert x == x % 256 + Pow2(8) * (x / 256);
    ToBitsPad(x / 256, 24, 8);
  }

  /** 256 * h as the bits of h shifted up by eight. */
  lemma HighBytesBits(h: nat)
    requires h < 0x100_0000
    ensures ToBits(256 * h, 32) == Zeros(8) + ToBits(h, 24)
  {
    assert Pow2(8) == 256;
    ToBitsConcat(0, h, 8, 24);
    ToBitsPad(0, 0, 8);
  }

  // ----- Exclusive or -----

  /** The exclusive or of the low k bits of a and b. */
  function XorBits(a: nat, b: nat, k: nat): (r: nat)
    ensures r < Pow2(k)
  {
    Val(BXor(ToBits(a, k), ToBits(b, k)))
  }

  lemma XorBitsToBits(a: nat, b: nat, k: nat)
    ensures ToBits(XorBits(a, b, k), k) == BXor(ToBits(a, k), ToBits(b, k))
  {
    ToBitsVal(BXor(ToBits(a, k), ToBits(b, k)));
  }

  /** Xor-ing with b twice gives back a. */
  lemma XorBitsCancel(a: nat, b: nat, k: nat)
    requires a < Pow2(k)
    ensures XorBits(XorBits(a, b, k), b, k) == a
  {
    var A, B := ToBits(a, k), ToBits(b, k);
    XorBitsToBits(a, b, k);
    assert BXor(BXor(A, B), B) == A;
    ValToBits(a, k);
  }

  /** Exclusive or of two naturals, lowest bit first. */
  function XorNat(a: nat, b: nat): nat
    decreases a + b
  {
    if a == 0 && b == 0 then 0
    else (if a % 2 != b % 2 then 1 else 0) + 2 * XorNat(a / 2, b / 2)
  }

  lemma XorNatHalf(a: nat, b: nat)
    ensures XorNat(a, b) % 2 == (if a % 2 != b % 2 then 1 else 0)
    ensures XorNat(a, b) / 2 == XorNat(a / 2, b / 2)
  {
    if a != 0 || b != 0 {
      var t := if a % 2 != b % 2 then 1 else 0;
      ModOfMultiple(2, XorNat(a / 2, b / 2), t);
    }
  }

  lemma {:induction false} BitXorNat(a: nat, b: nat, i: nat)
    ensures Bit(XorNat(a, b), i) == (Bit(a, i) != Bit(b, i))
    decreases i
  {
    XorNatHalf(a, b);
    if i > 0 {
      BitXorNat(a / 2, b / 2, i - 1);
    }
  }

  lemma {:induction false} XorNatBound(a: nat, b: nat, k: nat)
    requires a < Pow2(k) && b < Pow2(k)
    ensures XorNat(a, b) < Pow2(k)
    decreases k
  {
    if k > 0 {
      XorNatBound(a / 2, b / 2, k - 1);
    }
  }

  /** The arithmetic and the bit-string exclusive or agree below 2^k. */
  lemma XorNatIsXorBits(a: nat, b: nat, k: nat)
    requires a < Pow2(k) && b < Pow2(k)
    ensures XorNat(a, b) == XorBits(a, b, k)
  {
    var x := XorNat(a, b);
    XorNatBound(a, b, k);
    forall i | 0 <= i < k
      ensures ToBits(x, k)[i] == BXor(ToBits(a, k), ToBits(b, k))[i]
    {
      BitXorNat(a, b, i);
    }
    XorBitsToBits(a, b, k);
    ToBitsInjective(x, XorBits(a, b, k), k);
  }

  /** x ^ y on bytes. */
  function Xor8(a: byte, b: byte): (r: byte)
  {
    assert Pow2(8) == 256;
    XorNatBound(a, b, 8);
    XorNat(a, b)
  }

  /** Element-wise exclusive or of two equally long byte strings. */
  function XorBytes(a: seq<byte>, b: seq<byte>): (r: seq<byte>)
    requires |a| == |b|
    ensures |r| == |a| && forall i :: 0 <= i < |a| ==> r[i] == Xor8(a[i], b[i])
  {
    seq(|a|, i requires 0 <= i < |a| => Xor8(a[i], b[i]))
  }

  lemma XorBytesCancel(a: seq<byte>, b: seq<byte>)
    requires |a| == |b|
    ensures XorBytes(XorBytes(a, b), b) == a
  {
    var c := XorBytes(XorBytes(a, b), b);
    forall i | 0 <= i < |a| ensures c[i] == a[i] {
      assert Pow2(8) == 256;
      XorNatIsXorBits(a[i], b[i], 8);
      XorNatIsXorBits(Xor8(a[i], b[i]), b[i], 8);
      XorBitsCancel(a[i], b[i], 8);
    }
  }

  /** Xor-ing b with a, then with a again, gives back b. */
  lemma Xor8Undo(a: byte, b: byte)
    ensures Xor8(a, Xor8(a, b)) == b
  {
    var c := Xor8(a, b);
    var x := Xor8(a, c);
    assert Pow2(8) == 256;
    forall i | 0 <= i < 8
      ensures ToBits(x, 8)[i] == ToBits(b, 8)[i]
    {
      BitXorNat(a, b, i);
      BitXorNat(a, c, i);
    }
    ToBitsInjective(x, b, 8);
  }

  lemma XorBytesUndo(a: seq<byte>, b: seq<byte>)
    requires |a| == |b|
    ensures XorBytes(a, XorBytes(a, b)) == b
  {
    var c := XorBytes(a, XorBytes(a, b));
    forall i | 0 <= i < |a| ensures c[i] == b[i] {
      Xor8Undo(a[i], b[i]);
    }
  }

  /** If c is a xor t, then t is a xor c. */
  lemma XorBytesSolve(a: seq<byte>, t: seq<byte>, c: seq<byte>)
    requires |a| == |t| == |c|
    ensures XorBytes(a, t) == c <==> t == XorBytes(a, c)
  {
    if XorBytes(a, t) == c {
      XorBytesUndo(a, t);
    }
    if t == XorBytes(a, c) {
      XorBytesUndo(a, c);
    }
  }

  /** x ^ y on 32-bit words. */
  function Xor32(a: u32, b: u32): (r: u32)
  {
    Pow2Values();
    XorNatBound(a, b, 32);
    XorNat(a, b)
  }

  lemma Xor32Bits(a: u32, b: u32)
    ensures ToBits(Xor32(a, b), 32) == BXor(ToBits(a, 32), ToBits(b, 32))
  {
    Pow2Values();
    XorNatIsXorBits(a, b, 32);
    XorBitsToBits(a, b, 32);
  }

  /** Two words with the same 32 bits are equal. */
  lemma WordFromBits(x: u32, y: u32)
    requires ToBits(x, 32) == ToBits(y, 32)
    ensures x == y
  {
    Pow2Values();
    ToBitsInjective(x, y, 32);
  }

  lemma Xor32Comm(a: u32, b: u32)
    ensures Xor32(a, b) == Xor32(b, a)
  {
    Xor32Bits(a, b);
    Xor32Bits(b, a);
    assert BXor(ToBits(a, 32), ToBits(b, 32)) == BXor(ToBits(b, 32), ToBits(a, 32));
    WordFromBits(Xor32(a, b), Xor32(b, a));
  }

  lemma Xor32Assoc(a: u32, b: u32, c: u32)
    ensures Xor32(Xor32(a, b), c) == Xor32(a, Xor32(b, c))
  {
    var A, B, C := ToBits(a, 32), ToBits(b, 32), ToBits(c, 32);
    Xor32Bits(a, b);
    Xor32Bits(Xor32(a, b), c);
    Xor32Bits(b, c);
    Xor32Bits(a, Xor32(b, c));
    assert BXor(BXor(A, B), C) == BXor(A, BXor(B, C));
    WordFromBits(Xor32(Xor32(a, b), c), Xor32(a, Xor32(b, c)));
  }

  lemma Xor32Zero(a: u32)
    ensures Xor32(a, 0) == a
  {
    ToBitsPad(0, 0, 32);
    Xor32Bits(a, 0);
    assert BXor(ToBits(a, 32), ToBits(0, 32)) == ToBits(a, 32);
    WordFromBits(Xor32(a, 0), a);
  }

  /** (a ^ b) >> 8 == (a >> 8) ^ (b >> 8). */
  lemma Xor32Shift(a: u32, b: u32)
    ensures Xor32(a, b) / 256 == Xor32(a / 256, b / 256)
  {
    var A, B := ToBits(a, 32), ToBits(b, 32);
    Xor32Bits(a, b);
    ShiftByteBits(Xor32(a, b));
    ShiftByteBits(a);
    ShiftByteBits(b);
    Xor32Bits(a / 256, b / 256);
    assert BXor(A, B)[8..] + Zeros(8) == BXor(A[8..] + Zeros(8), B[8..] + Zeros(8));
    WordFromBits(Xor32(a, b) / 256, Xor32(a / 256, b / 256));
  }

  /** (a ^ b) & 0xff == (a & 0xff) ^ (b & 0xff). */
  lemma Xor32Low(a: u32, b: u32)
    ensures Xor32(a, b) % 256 == Xor32(a % 256, b % 256)
  {
    var A, B := ToBits(a, 32), ToBits(b, 32);
    Xor32Bits(a, b);
    LowByteBits(Xor32(a, b));
    LowByteBits(a);
    LowByteBits(b);
    Xor32Bits(a % 256, b % 256);
    assert BXor(A, B)[..8] + Zeros(24) == BXor(A[..8] + Zeros(24), B[..8] + Zeros(24));
    WordFromBits(Xor32(a, b) % 256, Xor32(a % 256, b % 256));
  }

  /** The exclusive or of two bytes is a byte. */
  lemma Xor32Byte(a: u32, b: u32)
    requires a < 256 && b < 256
    ensures Xor32(a, b) < 256
  {
    Xor32Shift(a, b);
    Xor32Zero(0);
  }

  /** A word is its high 24 bits shifted up, xor its low byte. */
  lemma SplitWord(c: u32)
    ensures c == Xor32(256 * (c / 256), c % 256)
  {
    var h := c / 256;
    var C := ToBits(c, 32);
    var H := ToBits(h, 24);
    assert C == C[..8] + H by { WordBytesBits(c); }
    var hi := 256 * h;
    assert ToBits(hi, 32) == Zeros(8) + H by { HighBytesBits(h); }
    assert ToBits(c % 256, 32) == C[..8] + Zeros(24) by { LowByteBits(c); }
    Xor32Bits(hi, c % 256);
    var X := BXor(Zeros(8) + H, C[..8] + Zeros(24));
    forall i | 0 <= i < 32 ensures X[i] == C[i] {
      if i < 8 {
        assert (C[..8] + H)[i] == C[..8][i];
      } else {
        assert (C[..8] + H)[i] == H[i - 8];
      }
    }
    assert X == C;
    WordFromBits(c, Xor32(hi, c % 256));
  }

  lemma WordBytesBits(c: u32)
    ensures ToBits(c, 32) == ToBits(c, 32)[..8] + ToBits(c / 256, 24)
  {
    assert Pow2(8) == 256;
    ToBitsConcat(c % 256, c / 256, 8, 24);
    ToBitsMod(c, 8);
    ToBitsPrefix(c, 8, 24);
  }

  /** The big-endian bytes of a ^ b are the byte-wise exclusive or of those of a and b. */
  lemma {:induction false} BeEncXor(a: u32, b: u32, n: nat)
    ensures BeEnc(Xor32(a, b), n) == XorBytes(BeEnc(a, n), BeEnc(b, n))
    decreases n
  {
    if n > 0 {
      Xor32Shift(a, b);
      Xor32Low(a, b);
      BeEncXor(a / 256, b / 256, n - 1);
      var p := XorBytes(BeEnc(a / 256, n - 1), BeEnc(b / 256, n - 1));
      assert XorBytes(BeEnc(a, n), BeEnc(b, n)) == p + [Xor8(a % 256, b % 256)];
    }
  }

  // ----- And, or and shifts of 32-bit words -----

  /** And of two naturals, lowest bit first. */
  function AndNat(a: nat, b: nat): (r: nat)
    ensures r <= a
  {
    if a == 0 then 0
    else (if a % 2 == 1 && b % 2 == 1 then 1 else 0) + 2 * AndNat(a / 2, b / 2)
  }

  /** Inclusive or of two naturals, lowest bit first. */
  function OrNat(a: nat, b: nat): nat
    decreases a + b
  {
    if a == 0 && b == 0 then 0
    else (if a % 2 == 1 || b % 2 == 1 then 1 else 0) + 2 * OrNat(a / 2, b / 2)
  }

  lemma {:induction false} BitAndNat(a: nat, b: nat, i: nat)
    ensures Bit(AndNat(a, b), i) == (Bit(a, i) && Bit(b, i))
    decreases i
  {
    if a == 0 {
      BitHigh(0, 0, i);
    } else {
      var t := if a % 2 == 1 && b % 2 == 1 then 1 else 0;
      ModOfMultiple(2, AndNat(a / 2, b / 2), t);
      if i > 0 {
        BitAndNat(a / 2, b / 2, i - 1);
      }
    }
  }

  lemma {:induction false} BitOrNat(a: nat, b: nat, i: nat)
    ensures Bit(OrNat(a, b), i) == (Bit(a, i) || Bit(b, i))
    decreases i
  {
    if a == 0 && b == 0 {
      BitHigh(0, 0, i);
    } else {
      var t := if a % 2 == 1 || b % 2 == 1 then 1 else 0;
      ModOfMultiple(2, OrNat(a / 2, b / 2), t);
      if i > 0 {
        BitOrNat(a / 2, b / 2, i - 1);
      }
    }
  }

  lemma {:induction false} OrNatBound(a: nat, b: nat, k: nat)
    requires a < Pow2(k) && b < Pow2(k)
    ensures OrNat(a, b) < Pow2(k)
    decreases k
  {
    if k > 0 {
      OrNatBound(a / 2, b / 2, k - 1);
    }
  }

  /** x & y on 32-bit words. */
  function And32(a: u32, b: u32): u32
  {
    AndNat(a, b)
  }

  /** x | y on 32-bit words. */
  function Or32(a: u32, b: u32): u32
  {
    Pow2Values();
    OrNatBound(a, b, 32);
    OrNat(a, b)
  }

  /** x >> w on a 32-bit word, as w halvings. */
  function Shr32(x: u32, w: nat): u32
    decreases w
  {
    if w == 0 then x else Shr32(x / 2, w - 1)
  }

  /** x << w on a 32-bit word, as w doublings that drop the bit moved past bit 31. */
  function Shl32(x: u32, w: nat): u32
    decreases w
  {
    if w == 0 then x else Shl32((2 * x) % 0x1_0000_0000, w - 1)
  }

  lemma And32Bit(a: u32, b: u32, i: nat)
    ensures Bit(And32(a, b), i) == (Bit(a, i) && Bit(b, i))
  {
    BitAndNat(a, b, i);
  }

  lemma Or32Bit(a: u32, b: u32, i: nat)
    ensures Bit(Or32(a, b), i) == (Bit(a, i) || Bit(b, i))
  {
    BitOrNat(a, b, i);
  }

  /** Bit i of x >> w is bit i + w of x, and zero from the top. */
  lemma {:induction false} Shr32Bit(x: u32, w: nat, i: nat)
    requires i < 32
    ensures Bit(Shr32(x, w), i) == (i + w < 32 && Bit(x, i + w))
    decreases w
  {
    if w > 0 {
      Shr32Bit(x / 2, w - 1, i);
      WordHigh(x, 32);
    }
  }

  /** Bit i of x << w is bit i - w of x, and zero from the bottom. */
  lemma {:induction false} Shl32Bit(x: u32, w: nat, i: nat)
    requires i < 32
    ensures Bit(Shl32(x, w), i) == (w <= i && Bit(x, i - w))
    decreases w
  {
    if w > 0 {
      var y := (2 * x) % 0x1_0000_0000;
      Shl32Bit(y, w - 1, i);
      if w - 1 <= i {
        DoubleBit(x, i - w + 1);
      }
    }
  }

  /** A word has no bit set at 32 or above. */
  lemma WordHigh(x: u32, i: nat)
    requires 32 <= i
    ensures !Bit(x, i)
  {
    Pow2Values();
    BitHigh(x, 32, i);
  }

  /** Doubling in 32 bits moves every bit up by one. */
  lemma DoubleBit(x: u32, j: nat)
    requires j < 32
    ensures Bit((2 * x) % 0x1_0000_0000, j) == (0 < j && Bit(x, j - 1))
  {
    Pow2Values();
    BitMod(2 * x, 32, j);
  }

  /** 2^k - 1 has exactly its low k bits set. */
  lemma {:induction false} BitOnes(k: nat, j: nat)
    ensures Bit(Pow2(k) - 1, j) == (j < k)
  {
    if k == 0 {
      BitHigh(0, 0, j);
    } else {
      var m := Pow2(k - 1) - 1;
      assert Pow2(k) - 1 == 1 + 2 * m;
      if j > 0 {
        BitOnes(k - 1, j - 1);
      }
    }
  }
}
