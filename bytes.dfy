/**
 * Bytes and fixed-width unsigned integers, with the big-endian encodings
 * (be32enc/be64enc and their decoders) used by every packet layout.
 */
module Bytes {

  type byte = x: int | 0 <= x < 256
  type u32 = x: int | 0 <= x < 0x1_0000_0000
  type u64 = x: int | 0 <= x < 0x1_0000_0000_0000_0000

  const UINT32_MAX: u32 := 0xffff_ffff
  const UINT64_MAX: u64 := 0xffff_ffff_ffff_ffff

  /** 256^n. */
  function Pow256(n: nat): (r: nat)
    ensures r >= 1
  {
    if n == 0 then 1 else 256 * Pow256(n - 1)
  }

  /** Big-endian encoding of x into n bytes (most significant byte first). */
  function BeEnc(x: nat, n: nat): (r: seq<byte>)
    ensures |r| == n
  {
    if n == 0 then [] else BeEnc(x / 256, n - 1) + [x % 256]
  }

  /** Big-endian decoding of a byte string. */
  function BeDec(s: seq<byte>): (r: nat)
    ensures r < Pow256(|s|)
  {
    if s == [] then 0 else BeDec(s[..|s| - 1]) * 256 + s[|s| - 1]
  }

  lemma {:induction false} BeDecEnc(x: nat, n: nat)
    requires x < Pow256(n)
    ensures BeDec(BeEnc(x, n)) == x
  {
    if n > 0 {
      var e := BeEnc(x, n);
      assert e[..|e| - 1] == BeEnc(x / 256, n - 1);
      BeDecEnc(x / 256, n - 1);
    }
  }

  lemma {:induction false} BeEncDec(s: seq<byte>)
    ensures BeEnc(BeDec(s), |s|) == s
  {
    if s != [] {
      var p := s[..|s| - 1];
      BeEncDec(p);
      assert (BeDec(p) * 256 + s[|s| - 1]) / 256 == BeDec(p);
      assert s == p + [s[|s| - 1]];
    }
  }

  /** be32enc: four big-endian bytes. */
  function Be32(x: u32): (r: seq<byte>)
    ensures |r| == 4 && Be32Dec(r) == x
  {
    Be32Digits(x);
    [x / 0x100_0000, x / 0x1_0000 % 256, x / 0x100 % 256, x % 256]
  }

  /** The four big-endian digits of a 32-bit word, base 256. */
  lemma Be32Digits(x: u32)
    ensures x / 0x100_0000 < 256
    ensures x / 0x100_0000 * 0x100_0000 + x / 0x1_0000 % 256 * 0x1_0000 + x / 0x100 % 256 * 0x100 + x % 256 == x
  {
    var a := x / 256;
    var b := a / 256;
    assert x == a * 256 + x % 256;
    assert a == b * 256 + a % 256;
    assert b == b / 256 * 256 + b % 256;
    assert x / 0x1_0000 == b;
    assert x / 0x100_0000 == b / 256;
  }

  /** be32enc is the four-byte big-endian encoding. */
  lemma Be32IsBeEnc(x: u32)
    ensures Be32(x) == BeEnc(x, 4)
  {
    var x1, x2, x3 := x / 256, x / 256 / 256, x / 256 / 256 / 256;
    assert x2 == x / 0x1_0000;
    assert x3 == x / 0x100_0000;
    assert BeEnc(x3, 1) == [x3 % 256] by {
      assert BeEnc(x3 / 256, 0) == [];
    }
    assert BeEnc(x2, 2) == [x3 % 256, x2 % 256];
    assert BeEnc(x1, 3) == [x3 % 256, x2 % 256, x1 % 256];
    assert BeEnc(x, 4) == [x3 % 256, x2 % 256, x1 % 256, x % 256];
  }

  /** be32dec is the four-byte big-endian decoding. */
  lemma Be32DecIsBeDec(s: seq<byte>)
    requires |s| == 4
    ensures Be32Dec(s) == BeDec(s)
  {
    var s0: int, s1: int, s2: int, s3: int := s[0], s[1], s[2], s[3];
    assert BeDec(s[..1]) == s0 by {
      assert s[..1][..0] == [];
    }
    assert BeDec(s[..2]) == s0 * 256 + s1 by {
      assert s[..2][..1] == s[..1];
    }
    assert BeDec(s[..3]) == (s0 * 256 + s1) * 256 + s2 by {
      assert s[..3][..2] == s[..2];
    }
    assert BeDec(s) == ((s0 * 256 + s1) * 256 + s2) * 256 + s3 by {
      assert s[..3] == s[..|s| - 1];
    }
  }

  /** be64enc: eight big-endian bytes. */
  function Be64(x: u64): (r: seq<byte>)
    ensures |r| == 8 && Be64Dec(r) == x
  {
    BeDecEnc(x, 8);
    BeEnc(x, 8)
  }

  /** be32dec of four bytes. */
  function Be32Dec(s: seq<byte>): (r: u32)
    requires |s| == 4
  {
    s[0] as int * 0x100_0000 + s[1] as int * 0x1_0000 + s[2] as int * 0x100 + s[3] as int
  }

  /** be64dec of eight bytes. */
  function Be64Dec(s: seq<byte>): (r: u64)
    requires |s| == 8
  {
    assert Pow256(8) == 0x1_0000_0000_0000_0000;
    BeDec(s)
  }

  lemma Be32Inverse(s: seq<byte>)
    requires |s| == 4
    ensures Be32(Be32Dec(s)) == s
  {
    var x := Be32Dec(s);
    var s0: int, s1: int, s2: int, s3: int := s[0], s[1], s[2], s[3];
    assert x == ((s0 * 256 + s1) * 256 + s2) * 256 + s3;
    assert x % 256 == s3 && x / 256 == (s0 * 256 + s1) * 256 + s2;
    assert x / 0x100 % 256 == s2 && x / 256 / 256 == s0 * 256 + s1;
    assert x / 0x1_0000 == x / 256 / 256;
    assert x / 0x1_0000 % 256 == s1 && x / 256 / 256 / 256 == s0;
    assert x / 0x100_0000 == x / 256 / 256 / 256;
  }

  lemma Be64Inverse(s: seq<byte>)
    requires |s| == 8
    ensures Be64(Be64Dec(s)) == s
  {
    BeEncDec(s);
  }

  /** A non-empty sequence is its prefix followed by its last element. */
  lemma Snoc<T>(s: seq<T>)
    requires |s| > 0
    ensures s[..|s| - 1] + [s[|s| - 1]] == s
  {
  }

  /** A tag followed by three fields is the four concatenated left to right. */
  lemma Concat4<T>(a: seq<T>, b: seq<T>, c: seq<T>, d: seq<T>)
    ensures a + (b + c + d) == a + b + c + d
  {
  }

  /** A slice is the concatenation of its two halves at any point inside it. */
  lemma SliceConcat(s: seq<byte>, a: nat, b: nat, c: nat)
    requires a <= b <= c <= |s|
    ensures s[a..c] == s[a..b] + s[b..c]
  {
  }

  /**
   * memcpy(&buf[pos], s, |s|), and be32enc/be64enc into a buffer: s is
   * written at pos; the bytes before pos are left as they were.
   */
  method Put(buf: array<byte>, pos: nat, s: seq<byte>)
    requires pos + |s| <= buf.Length
    modifies buf
    ensures buf[..pos + |s|] == old(buf[..pos]) + s
    ensures buf[pos + |s|..] == old(buf[pos + |s|..])
  {
    forall i | 0 <= i < |s| {
      buf[pos + i] := s[i];
    }
    assert buf[..pos + |s|] == old(buf[..pos]) + s;
  }
}
