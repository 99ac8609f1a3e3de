/**
 * The reference client's framing (tests/python/kivaloo/wire.py): the
 * byte-swapped CRC32C, make_packet and split_packet, the Response cursor
 * and the Wire session with its message counter.
 */
module PyWire {
  import opened Wrappers
  import opened Bytes
  import opened Bits
  import opened CRC32C
  import opened PyStruct
  import Wire

  /** MAX_RESPONSE_BYTES: the most one recv call returns. */
  const MAX_RESPONSE_BYTES: nat := 16384

  /**
   * _CRC_FUNC: crcmod's reflected CRC with the Castagnoli polynomial,
   * initial register 0x82f63b78 and no final xor -- the register value
   * CRC32C_Update leaves behind.
   */
  function CrcMod(data: seq<byte>): u32
  {
    CrcState(T_0_0x80, data)
  }

  /** The 32-bit value with its four bytes in the opposite order. */
  function Swap32(c: u32): (r: u32)
  {
    Be32Dec(LeBytes(c))
  }

  /** The first k terms of the sum _checksum builds, for pos = 0, 8, ..., 8 * (k - 1). */
  function SwapPartial(c: u32, k: nat): nat
    requires k <= 4
  {
    if k == 0 then 0
    else SwapPartial(c, k - 1) + (c / Pow2(8 * (k - 1))) % 256 * Pow2(24 - 8 * (k - 1))
  }

  lemma SwapPartialFull(c: u32)
    ensures SwapPartial(c, 4) == Swap32(c)
  {
    Pow2Values();
    assert Pow2(0) == 1;
    var s := LeBytes(c);
    var s0: int, s1: int, s2: int, s3: int := s[0], s[1], s[2], s[3];
    assert SwapPartial(c, 1) == s0 * 0x100_0000;
    assert SwapPartial(c, 2) == s0 * 0x100_0000 + s1 * 0x1_0000;
    assert SwapPartial(c, 3) == s0 * 0x100_0000 + s1 * 0x1_0000 + s2 * 0x100;
    assert SwapPartial(c, 4) == s0 * 0x100_0000 + s1 * 0x1_0000 + s2 * 0x100 + s3;
    assert BeDec(s[..1]) == s[0] by {
      assert s[..1][..0] == [];
    }
    assert BeDec(s[..2]) == s0 * 256 + s1 by {
      assert s[..2][..1] == s[..1];
    }
    assert BeDec(s[..3]) == (s0 * 256 + s1) * 256 + s2 by {
      assert s[..3][..2] == s[..2];
    }
    assert BeDec(s) == ((s0 * 256 + s1) * 256 + s2) * 256 + s3 by {
      assert s[..3] == s[..|s| - 1];
    }
  }

  lemma SwapStep(c: u32, i: nat)
    requires i < 4
    ensures SwapPartial(c, i + 1) == SwapPartial(c, i) + (c / Pow2(8 * i)) % 256 * Pow2(24 - 8 * i)
  {
  }

  /** _checksum: the CRC register, its bytes swapped by the loop over pos = 8 * i = 0, 8, 16, 24. */
  method Checksum(data: seq<byte>) returns (out: nat)
    ensures out == Swap32(CrcMod(data))
  {
    var crc := CrcMod(data);
    out := 0;
    var i := 0;
    while i < 4
      invariant 0 <= i <= 4
      invariant out == SwapPartial(crc, i)
    {
      var pos := 8 * i;
      var hexit := (crc / Pow2(pos)) % 256;
      SwapStep(crc, i);
      out := out + hexit * Pow2(24 - pos);
      i := i + 1;
    }
    SwapDone(crc, i, out);
  }

  lemma SwapDone(c: u32, i: nat, out: nat)
    requires i == 4 && out == SwapPartial(c, i)
    ensures out == Swap32(c)
  {
    SwapPartialFull(c);
  }

  /** LeBytes and Be32 of a word are each other's reversal. */
  lemma LeIsReversedBe(x: u32)
    ensures var b := Be32(x); LeBytes(x) == [b[3], b[2], b[1], b[0]]
  {
    var x1, x2, x3 := x / 256, x / 256 / 256, x / 256 / 256 / 256;
    assert x2 == x / 0x1_0000;
    assert x3 == x / 0x100_0000;
    assert BeEnc(x3, 1) == [x3 % 256] by {
      assert BeEnc(x3 / 256, 0) == [];
    }
    assert BeEnc(x2, 2) == [x3 % 256, x2 % 256];
    assert BeEnc(x1, 3) == [x3 % 256, x2 % 256, x1 % 256];
    assert BeEnc(x, 4) == [x3 % 256, x2 % 256, x1 % 256, x % 256];
  }

  /** Swapping is its own inverse. */
  lemma SwapInvolution(c: u32)
    ensures Swap32(Swap32(c)) == c
  {
    var l := LeBytes(c);
    Be32Inverse(l);
    var b := Be32(c);
    LeIsReversedBe(Swap32(c));
    LeIsReversedBe(c);
    assert LeBytes(Swap32(c)) == b;
  }

  /** Sent big-endian, the swapped register is the CRC32C that CRC32C_Final writes. */
  lemma ChecksumBytes(data: seq<byte>)
    ensures Be32(Swap32(CrcMod(data))) == Crc32c(data)
  {
    Be32Inverse(LeBytes(CrcMod(data)));
  }

  /** struct.pack('>QI', idnum, record_length): the 12-byte header. */
  lemma PackHeader(id: u64, n: u32)
    ensures Pack([U64, U32], [Int(id), Int(n)]) == Ok(Wire.Header(id, n))
  {
    PackOne(U32, Int(n));
    assert PackField(U64, Int(id)) == Ok(Be64(id));
    PackFirst(U64, [U32], Int(id), [Int(n)]);
    assert [U64] + [U32] == [U64, U32] && [Int(id)] + [Int(n)] == [Int(id), Int(n)];
  }

  /** make_packet: the header, its checksum, the record and the xored record checksum. */
  function MakePacket(idnum: int, record: seq<byte>): Result<seq<byte>, PyError>
  {
    var h :- Pack([U64, U32], [Int(idnum), Int(|record|)]);
    var crcHeader := Swap32(CrcMod(h));
    var crcRecord := Xor32(Swap32(CrcMod(record)), crcHeader);
    Pack([U64, U32, U32, Str(|record|), U32],
         [Int(idnum), Int(|record|), Int(crcHeader), Bytes(record), Int(crcRecord)])
  }

  /** struct.pack('>I%dsI', crc_header, record, crc_record): the last three fields of a packet. */
  lemma PackTrailer(n: u32, a: u32, rec: seq<byte>, b: u32)
    requires |rec| == n
    ensures Pack([U32, Str(n), U32], [Int(a), Bytes(rec), Int(b)]) == Ok(Be32(a) + (rec + Be32(b)))
  {
    var t1 := Be32(b);
    assert Pack([U32], [Int(b)]) == Ok(t1) by {
      PackAt([U32], [Int(b)], t1, []);
      assert t1 + [] == t1;
    }
    var t2 := rec + t1;
    assert Pack([Str(n), U32], [Bytes(rec), Int(b)]) == Ok(t2) by {
      assert FitTo(rec, n) == rec by {
        assert rec[..n] == rec;
      }
      PackAt([Str(n), U32], [Bytes(rec), Int(b)], rec, t1);
    }
    assert [U32, Str(n), U32][1..] == [Str(n), U32];
    assert [Int(a), Bytes(rec), Int(b)][1..] == [Bytes(rec), Int(b)];
    PackAt([U32, Str(n), U32], [Int(a), Bytes(rec), Int(b)], Be32(a), t2);
  }

  /** struct.pack('>QII%dsI', ...): the whole packet make_packet builds. */
  lemma PackFrame(id: u64, n: u32, a: u32, rec: seq<byte>, b: u32)
    requires |rec| == n
    ensures Pack([U64, U32, U32, Str(n), U32], [Int(id), Int(n), Int(a), Bytes(rec), Int(b)])
      == Ok(Be64(id) + Be32(n) + Be32(a) + rec + Be32(b))
  {
    var t3 := Be32(a) + (rec + Be32(b));
    PackTrailer(n, a, rec, b);
    var t4 := Be32(n) + t3;
    assert Pack([U32, U32, Str(n), U32], [Int(n), Int(a), Bytes(rec), Int(b)]) == Ok(t4) by {
      assert [U32, U32, Str(n), U32][1..] == [U32, Str(n), U32];
      assert [Int(n), Int(a), Bytes(rec), Int(b)][1..] == [Int(a), Bytes(rec), Int(b)];
      PackAt([U32, U32, Str(n), U32], [Int(n), Int(a), Bytes(rec), Int(b)], Be32(n), t3);
    }
    assert [U64, U32, U32, Str(n), U32][1..] == [U32, U32, Str(n), U32];
    assert [Int(id), Int(n), Int(a), Bytes(rec), Int(b)][1..] == [Int(n), Int(a), Bytes(rec), Int(b)];
    PackAt([U64, U32, U32, Str(n), U32], [Int(id), Int(n), Int(a), Bytes(rec), Int(b)], Be64(id), t4);
    assert Be64(id) + t4 == Be64(id) + Be32(n) + Be32(a) + rec + Be32(b);
  }

  /** With an ID that fits in 64 bits and a record shorter than 2^32, make_packet builds the wire_writepacket packet. */
  lemma MakePacketIsFrame(id: u64, record: seq<byte>)
    requires |record| <= UINT32_MAX
    ensures MakePacket(id, record) == Ok(Wire.Frame(id, record))
  {
    var n := |record|;
    var h := Wire.Header(id, n);
    PackHeader(id, n);
    var ch := Swap32(CrcMod(h));
    var cr := Xor32(Swap32(CrcMod(record)), ch);
    PackFrame(id, n, ch, record, cr);
    ChecksumBytes(h);
    ChecksumBytes(record);
    BeEncXor(Swap32(CrcMod(record)), ch, 4);
    Be32IsBeEnc(cr);
    Be32IsBeEnc(ch);
    Be32IsBeEnc(Swap32(CrcMod(record)));
    assert Be32(cr) == XorBytes(Crc32c(record), Crc32c(h));
  }

  /** An ID outside 0..2^64 - 1 or a record of 2^32 bytes or more makes struct.pack raise. */
  lemma MakePacketRange(idnum: int, record: seq<byte>)
    ensures MakePacket(idnum, record).Err? <==> !(0 <= idnum <= UINT64_MAX && |record| <= UINT32_MAX)
    ensures MakePacket(idnum, record).Err? ==> MakePacket(idnum, record).error == StructError
  {
    if 0 <= idnum <= UINT64_MAX && |record| <= UINT32_MAX {
      MakePacketIsFrame(idnum, record);
    } else {
      PackError([U64, U32], [Int(idnum), Int(|record|)]);
      assert Pack([U64, U32], [Int(idnum), Int(|record|)]).Err? by {
        if !(0 <= idnum <= UINT64_MAX) {
          assert PackField(U64, Int(idnum)).Err?;
        } else {
          assert [U64, U32][1..] == [U32] && [Int(idnum), Int(|record|)][1..] == [Int(|record|)];
          assert PackField(U32, Int(|record|)).Err?;
        }
      }
    }
  }

  /** unpack_from('>QII', packet): ID, length and header CRC. */
  lemma UnpackHeader(p: seq<byte>, id: u64, n: u32, crc: u32)
    requires |p| >= 16 && id == Be64Dec(p[..8]) && n == Be32Dec(p[8..12]) && crc == Be32Dec(p[12..16])
    ensures Unpack([U64, U32, U32], p, 0) == Some([Int(id), Int(n), Int(crc)])
  {
    assert p[0..8] == p[..8];
    UnpackThree(U64, U32, U32, p, 0, 8, 12, Int(id), Int(n), Int(crc));
  }

  /** unpack_from('>%dsI' % n, packet, offset=16): the record and its xored checksum. */
  lemma UnpackBody(p: seq<byte>, n: nat, record: seq<byte>, crc: u32)
    requires |p| >= 20 + n && record == p[16..16 + n] && crc == Be32Dec(p[16 + n..20 + n])
    ensures Unpack([Str(n), U32], p, 16) == Some([Bytes(record), Int(crc)])
  {
    UnpackTwo(Str(n), U32, p, 16, 16 + n, Bytes(record), Int(crc));
  }

  /** split_packet: the ID and record, or the exception it raises. */
  function SplitPacket(packet: seq<byte>): Result<(u64, seq<byte>), PyError>
  {
    if |packet| < 16 then Err(StructError)
    else
      var idnum := Be64Dec(packet[..8]);
      var recordLength := Be32Dec(packet[8..12]);
      var crcRecv := Be32Dec(packet[12..16]);
      var crcFirst := Swap32(CrcMod(Wire.Header(idnum, recordLength)));
      if crcRecv != crcFirst then Err(HeaderMismatch)
      else
        if |packet| < 20 + recordLength then Err(StructError)
        else
          var record := packet[16..16 + recordLength];
          var crc := Be32Dec(packet[16 + recordLength..20 + recordLength]);
          if |packet| != |record| + 16 + 4 then Err(AssertionFailed)
          else if crc != Xor32(Swap32(CrcMod(record)), crcFirst) then Err(RecordMismatch)
          else Ok((idnum, record))
  }

  /** The header check of split_packet is the one wire_readpacket_peek makes. */
  lemma HeaderCheck(p: seq<byte>)
    requires |p| >= 16
    ensures (Be32Dec(p[12..16]) == Swap32(CrcMod(Wire.Header(Be64Dec(p[..8]), Be32Dec(p[8..12])))))
      <==> p[12..16] == Crc32c(p[..12])
  {
    Be64Inverse(p[..8]);
    Be32Inverse(p[8..12]);
    Be32Inverse(p[12..16]);
    assert p[..12] == p[..8] + p[8..12];
    ChecksumBytes(p[..12]);
  }

  /** The record check of split_packet is the one wire_readpacket_peek makes, once the header is sound. */
  lemma RecordCheck(p: seq<byte>) returns (n: nat, rec: seq<byte>, t: seq<byte>)
    requires |p| >= 16 && p[12..16] == Crc32c(p[..12]) && |p| >= Be32Dec(p[8..12]) + 20
    ensures n == Be32Dec(p[8..12]) && rec == p[16..16 + n] && t == p[16 + n..20 + n]
    ensures Be32Dec(t) == Xor32(Swap32(CrcMod(rec)), Swap32(CrcMod(Wire.Header(Be64Dec(p[..8]), n))))
      <==> t == XorBytes(Crc32c(rec), p[12..16])
  {
    n := Be32Dec(p[8..12]);
    var h := Wire.Header(Be64Dec(p[..8]), n);
    rec := p[16..16 + n];
    t := p[16 + n..20 + n];
    Be64Inverse(p[..8]);
    Be32Inverse(p[8..12]);
    assert h == p[..12] by {
      assert p[..12] == p[..8] + p[8..12];
    }
    TrailerCheck(h, rec, t, p[12..16]);
  }

  /** The trailer t checks against the record rec and the header h in the integer form exactly when it does in the byte form. */
  lemma TrailerCheck(h: seq<byte>, rec: seq<byte>, t: seq<byte>, c: seq<byte>)
    requires |t| == 4 && c == Crc32c(h)
    ensures Be32Dec(t) == Xor32(Swap32(CrcMod(rec)), Swap32(CrcMod(h))) <==> t == XorBytes(Crc32c(rec), c)
  {
    var cf := Swap32(CrcMod(h));
    var x := Xor32(Swap32(CrcMod(rec)), cf);
    assert Be32(x) == XorBytes(Crc32c(rec), c) by {
      ChecksumBytes(h);
      ChecksumBytes(rec);
      BeEncXor(Swap32(CrcMod(rec)), cf, 4);
      Be32IsBeEnc(x);
      Be32IsBeEnc(cf);
      Be32IsBeEnc(Swap32(CrcMod(rec)));
    }
    DecodeIff(t, x, XorBytes(Crc32c(rec), c));
  }

  /** Four bytes decode to x exactly when they are x's encoding. */
  lemma DecodeIff(t: seq<byte>, x: u32, y: seq<byte>)
    requires |t| == 4 && Be32(x) == y
    ensures Be32Dec(t) == x <==> t == y
  {
    Be32Inverse(t);
  }

  /**
   * On a buffer holding exactly one packet, split_packet and
   * wire_readpacket_peek agree: split_packet succeeds exactly when peek
   * finds a packet as long as the buffer, and both return the same ID and record.
   */
  lemma SplitAgreesWithDecode(p: seq<byte>, sizeMax: nat)
    requires |p| <= sizeMax
    ensures SplitPacket(p).Ok? <==> Wire.Decode(p, sizeMax).Packet? && |p| == |Wire.Decode(p, sizeMax).data| + 20
    ensures SplitPacket(p).Ok? ==> SplitPacket(p).value == (Wire.Decode(p, sizeMax).id, Wire.Decode(p, sizeMax).data)
  {
    if |p| < 16 {
      assert SplitPacket(p) == Err(StructError);
    } else {
      HeaderCheck(p);
      if p[12..16] != Crc32c(p[..12]) {
        assert SplitPacket(p) == Err(HeaderMismatch);
      } else {
        var n: int := Be32Dec(p[8..12]);
        if |p| < n + 20 {
          assert SplitPacket(p) == Err(StructError);
          assert !Wire.Decode(p, sizeMax).Packet?;
        } else {
          SplitAgreesRecord(p, sizeMax);
        }
      }
    }
  }

  /** SplitAgreesWithDecode once the header is sound and the buffer holds the whole record. */
  lemma SplitAgreesRecord(p: seq<byte>, sizeMax: nat)
    requires |p| <= sizeMax && |p| >= 16 && p[12..16] == Crc32c(p[..12]) && |p| >= Be32Dec(p[8..12]) + 20
    requires (Be32Dec(p[12..16]) == Swap32(CrcMod(Wire.Header(Be64Dec(p[..8]), Be32Dec(p[8..12])))))
    ensures SplitPacket(p).Ok? <==> Wire.Decode(p, sizeMax).Packet? && |p| == |Wire.Decode(p, sizeMax).data| + 20
    ensures SplitPacket(p).Ok? ==> SplitPacket(p).value == (Wire.Decode(p, sizeMax).id, Wire.Decode(p, sizeMax).data)
  {
    var n, rec, t := RecordCheck(p);
    XorBytesSolve(Crc32c(rec), t, p[12..16]);
    if |p| != n + 20 {
      assert SplitPacket(p) == Err(AssertionFailed);
      assert Wire.Decode(p, sizeMax).Packet? ==> Wire.Decode(p, sizeMax).data == rec;
    } else if t != XorBytes(Crc32c(rec), p[12..16]) {
      assert SplitPacket(p) == Err(RecordMismatch);
      assert Wire.Decode(p, sizeMax) == Wire.Corrupt;
    } else {
      assert SplitPacket(p) == Ok((Be64Dec(p[..8]), rec));
      assert Wire.Decode(p, sizeMax) == Wire.Packet(Be64Dec(p[..8]), rec);
    }
  }

  /** A header checksum mismatch raises "Mismatch in header checksums". */
  lemma SplitHeaderMismatch(p: seq<byte>)
    requires |p| >= 16 && p[12..16] != Crc32c(p[..12])
    ensures SplitPacket(p) == Err(HeaderMismatch)
  {
    HeaderCheck(p);
  }

  /**
   * A packet with a sound header, of exactly the announced length, whose
   * trailer is not the xored record checksum raises "Mismatch in record checksums".
   */
  lemma SplitRecordMismatch(p: seq<byte>)
    requires |p| >= 16 && p[12..16] == Crc32c(p[..12])
    requires var n := Be32Dec(p[8..12]);
      |p| == n + 20 && p[16 + n..20 + n] != XorBytes(Crc32c(p[16..16 + n]), p[12..16])
    ensures SplitPacket(p) == Err(RecordMismatch)
  {
    HeaderCheck(p);
    var _, _, _ := RecordCheck(p);
  }

  /** split_packet undoes make_packet. */
  lemma SplitMake(id: u64, record: seq<byte>)
    requires |record| <= UINT32_MAX
    ensures MakePacket(id, record).Ok? && SplitPacket(MakePacket(id, record).value) == Ok((id, record))
  {
    MakePacketIsFrame(id, record);
    SplitFrame(id, record);
  }

  /** split_packet accepts a wire_writepacket packet of exactly its own length. */
  lemma SplitFrame(id: u64, record: seq<byte>)
    requires |record| <= UINT32_MAX
    ensures SplitPacket(Wire.Frame(id, record)) == Ok((id, record))
  {
    var p := Wire.Frame(id, record);
    Wire.DecodeFrame(id, record, [], |p|);
    assert p + [] == p;
    SplitAgreesWithDecode(p, |p|);
  }

  /** split_packet accepts nothing but a wire_writepacket packet, with nothing after it. */
  lemma SplitIsFrame(p: seq<byte>, id: u64, record: seq<byte>)
    requires SplitPacket(p) == Ok((id, record))
    ensures |record| <= UINT32_MAX && p == Wire.Frame(id, record)
  {
    SplitAgreesWithDecode(p, |p|);
    Wire.DecodePacket(p, |p|, id, record);
    assert p[..|record| + 20] == p;
  }

  /** get_kvlds_data at off: the value (None for length 0) and the new offset, or struct.error. */
  function KvldsDataAt(data: seq<byte>, off: nat): (r: (Result<Option<seq<byte>>, PyError>, nat))
  {
    if off + 1 > |data| then (Err(StructError), off)
    else
      var length := data[off];
      if length == 0 then (Ok(None), off + 1)
      else if off + 1 + length > |data| then (Err(StructError), off + 1)
      else (Ok(Some(data[off + 1..off + 1 + length])), off + 1 + length)
  }

  /** A length byte and its data read back as the data, or None when empty; the cursor moves past them. */
  lemma KvldsDataRoundTrip(pre: seq<byte>, v: seq<byte>, rest: seq<byte>)
    requires |v| <= 255
    ensures KvldsDataAt(pre + [|v|] + v + rest, |pre|)
      == (Ok(if v == [] then None else Some(v)), |pre| + 1 + |v|)
  {
    var d := pre + [|v|] + v + rest;
    assert d[|pre|] == |v|;
    assert d[|pre| + 1..|pre| + 1 + |v|] == v;
  }

  /** get_kvlds_data takes at most 1 + 255 bytes, and never moves the cursor back. */
  lemma KvldsDataAdvance(data: seq<byte>, off: nat)
    ensures var (r, off2) := KvldsDataAt(data, off);
      off <= off2 <= off + 256 && (r.Ok? ==> off2 <= |data|)
      && (r.Ok? && r.value.Some? ==> off2 == off + 1 + |r.value.value| && 1 <= |r.value.value|)
  {
  }

  /** Response: the record of a reply and the read cursor into it. */
  class Response {
    const data: seq<byte>
    var offset: nat

    predicate Valid()
      reads this
    {
      offset <= |data|
    }

    constructor (d: seq<byte>)
      ensures data == d && offset == 0 && Valid()
    {
      data := d;
      offset := 0;
    }

    /** remaining: the bytes not yet read. */
    function Remaining(): (r: seq<byte>)
      requires Valid()
      reads this
      ensures |r| == |data| - offset && data == data[..offset] + r
    {
      data[offset..]
    }

    /** get(fmt): the values at the cursor, which moves by calcsize(fmt); unchanged on struct.error. */
    method Get(fmt: seq<Field>) returns (r: Result<seq<Value>, PyError>)
      requires Valid()
      modifies this
      ensures Valid()
      ensures Unpack(fmt, data, old(offset)).None? ==> r == Err(StructError) && offset == old(offset)
      ensures Unpack(fmt, data, old(offset)).Some? ==>
        r == Ok(Unpack(fmt, data, old(offset)).value) && offset == old(offset) + FmtSize(fmt)
    {
      UnpackDefined(fmt, data, offset);
      var values := Unpack(fmt, data, offset);
      if values.None? {
        return Err(StructError);
      }
      offset := offset + FmtSize(fmt);
      return Ok(values.value);
    }

    /** get_int: one big-endian 32-bit integer. */
    method GetInt() returns (r: Result<int, PyError>)
      requires Valid()
      modifies this
      ensures Valid()
      ensures old(offset) + 4 > |data| ==> r == Err(StructError) && offset == old(offset)
      ensures old(offset) + 4 <= |data| ==>
        r == Ok(Be32Dec(data[old(offset)..old(offset) + 4])) && offset == old(offset) + 4
    {
      assert FmtSize([U32]) == 4;
      UnpackDefined([U32], data, offset);
      var values := Unpack([U32], data, offset);
      if values.None? {
        return Err(StructError);
      }
      offset := offset + 4;
      return Ok(values.value[0].i);
    }

    /** get_kvlds_data: a length byte, then that many bytes; None for length 0. */
    method GetKvldsData() returns (r: Result<Option<seq<byte>>, PyError>)
      requires Valid()
      modifies this
      ensures Valid()
      ensures (r, offset) == KvldsDataAt(data, old(offset))
    {
      if offset + 1 > |data| {
        return Err(StructError);
      }
      var length := data[offset];
      offset := offset + 1;
      if length == 0 {
        return Ok(None);
      }
      if offset + length > |data| {
        return Err(StructError);
      }
      var value := data[offset..offset + length];
      offset := offset + length;
      return Ok(Some(value));
    }
  }

  /**
   * How many of the bytes avail the server has sent one recv(MAX_RESPONSE_BYTES)
   * returns: at most what was asked for, and at least one byte unless the
   * server has sent nothing.  The kernel chooses the count.
   */
  predicate RecvCount(avail: seq<byte>, n: nat)
  {
    n <= |avail| && n <= MAX_RESPONSE_BYTES && (|avail| > 0 ==> 0 < n)
  }

  /** The bytes one recv call returns when it hands back n of avail: the first n. */
  function Received(avail: seq<byte>, n: nat): (r: seq<byte>)
    requires RecvCount(avail, n)
    ensures |r| == n && avail == r + avail[n..]
  {
    avail[..n]
  }

  /**
   * The record send_recv hands back for request number msgnum when the
   * server has sent avail and recv returns n bytes of it.
   */
  function Exchange(msgnum: int, record: seq<byte>, avail: seq<byte>, n: nat): Result<seq<byte>, PyError>
    requires RecvCount(avail, n)
  {
    var _ :- MakePacket(msgnum, record);
    var reply :- SplitPacket(Received(avail, n));
    if reply.0 != msgnum then Err(AssertionFailed) else Ok(reply.1)
  }

  /** A reply framed with the request's ID, read by one recv that returns all of it, is handed back whole. */
  lemma ExchangeReply(msgnum: u64, record: seq<byte>, reply: seq<byte>, n: nat)
    requires |record| <= UINT32_MAX && |reply| <= UINT32_MAX
    requires RecvCount(Wire.Frame(msgnum, reply), n) && |reply| + 20 <= n
    ensures Exchange(msgnum, record, Wire.Frame(msgnum, reply), n) == Ok(reply)
  {
    MakePacketIsFrame(msgnum, record);
    assert Received(Wire.Frame(msgnum, reply), n) == Wire.Frame(msgnum, reply);
    SplitFrame(msgnum, reply);
  }

  /** A reply framed with any other ID fails the assert in send_recv. */
  lemma ExchangeWrongId(msgnum: u64, record: seq<byte>, id: u64, reply: seq<byte>, n: nat)
    requires |record| <= UINT32_MAX && |reply| <= UINT32_MAX && id != msgnum
    requires RecvCount(Wire.Frame(id, reply), n) && |reply| + 20 <= n
    ensures Exchange(msgnum, record, Wire.Frame(id, reply), n) == Err(AssertionFailed)
  {
    MakePacketIsFrame(msgnum, record);
    assert Received(Wire.Frame(id, reply), n) == Wire.Frame(id, reply);
    SplitFrame(id, reply);
  }

  /**
   * Whatever recv returns, send_recv hands back a record only when those
   * bytes are exactly one packet framing it with the request's ID.
   */
  lemma ExchangeIsFrame(msgnum: int, record: seq<byte>, avail: seq<byte>, n: nat, reply: seq<byte>)
    requires RecvCount(avail, n)
    requires Exchange(msgnum, record, avail, n) == Ok(reply)
    ensures 0 <= msgnum < 0x1_0000_0000_0000_0000 && |reply| <= UINT32_MAX
    ensures Received(avail, n) == Wire.Frame(msgnum, reply)
  {
    var got := Received(avail, n);
    var split := SplitPacket(got);
    assert split.Ok? && split.value.0 == msgnum && split.value.1 == reply;
    SplitIsFrame(got, split.value.0, reply);
  }

  /**
   * A recv that returns less than the whole reply packet makes split_packet
   * raise: send_recv never hands back a record, right or wrong, from a short read.
   */
  lemma ExchangeShortRead(msgnum: int, record: seq<byte>, id: u64, reply: seq<byte>, rest: seq<byte>, n: nat)
    requires |reply| <= UINT32_MAX
    requires RecvCount(Wire.Frame(id, reply) + rest, n) && n < |reply| + 20
    ensures Exchange(msgnum, record, Wire.Frame(id, reply) + rest, n).Err?
  {
    var f := Wire.Frame(id, reply);
    var got := Received(f + rest, n);
    assert got == f[..n];
    var split := SplitPacket(got);
    if split.Ok? {
      var (id2, reply2) := split.value;
      SplitIsFrame(got, id2, reply2);
      Wire.FrameParts(id, reply);
      Wire.FrameParts(id2, reply2);
      assert false;
    }
  }

  /** class Wire: the message counter and the bytes written to the socket so far. */
  class Session {
    var msgnum: nat
    var sent: seq<byte>

    constructor ()
      ensures msgnum == 0 && sent == []
    {
      msgnum := 0;
      sent := [];
    }

    /** send: frame the record with the next message number and write it. */
    method Send(record: seq<byte>) returns (r: Result<(), PyError>)
      modifies this
      ensures MakePacket(old(msgnum), record).Err? ==>
        r == Err(MakePacket(old(msgnum), record).error) && msgnum == old(msgnum) && sent == old(sent)
      ensures MakePacket(old(msgnum), record).Ok? ==>
        r == Ok(()) && msgnum == old(msgnum) + 1 && sent == old(sent) + MakePacket(old(msgnum), record).value
    {
      var data := MakePacket(msgnum, record);
      if data.Err? {
        return Err(data.error);
      }
      msgnum := msgnum + 1;
      sent := sent + data.value;
      return Ok(());
    }

    /**
     * send_recv: send the record, then read one reply from the n bytes one
     * recv returns of the bytes avail the server has sent; the reply must
     * carry the request's number.
     */
    method SendRecv(record: seq<byte>, avail: seq<byte>, n: nat) returns (r: Result<Response, PyError>)
      requires RecvCount(avail, n)
      modifies this
      ensures MakePacket(old(msgnum), record).Err? ==> msgnum == old(msgnum) && sent == old(sent)
      ensures MakePacket(old(msgnum), record).Ok? ==>
        msgnum == old(msgnum) + 1 && sent == old(sent) + MakePacket(old(msgnum), record).value
      ensures r.Err? <==> Exchange(old(msgnum), record, avail, n).Err?
      ensures r.Err? ==> r.error == Exchange(old(msgnum), record, avail, n).error
      ensures r.Ok? ==>
        fresh(r.value) && r.value.data == Exchange(old(msgnum), record, avail, n).value
        && r.value.offset == 0 && r.value.Valid()
    {
      var data := MakePacket(msgnum, record);
      if data.Err? {
        return Err(data.error);
      }
      msgnum := msgnum + 1;
      sent := sent + data.value;
      var reply := SplitPacket(Received(avail, n));
      if reply.Err? {
        return Err(reply.error);
      }
      if reply.value.0 != msgnum - 1 {
        return Err(AssertionFailed);
      }
      var resp := new Response(reply.value.1);
      return Ok(resp);
    }
  }

  /**
   * The message counter and the bytes written to the socket once send_recv
   * has framed record, from m0 and s0 before: one more message and its
   * packet, or nothing when make_packet raises.
   */
  predicate Sent(m0: nat, s0: seq<byte>, m: nat, s: seq<byte>, record: seq<byte>)
  {
    && (MakePacket(m0, record).Err? ==> m == m0 && s == s0)
    && (MakePacket(m0, record).Ok? ==> m == m0 + 1 && s == s0 + MakePacket(m0, record).value)
  }

  /** get_int on the reply record of send_recv: the status word of a status request. */
  function StatusOf(x: Result<seq<byte>, PyError>): (r: Result<int, PyError>)
  {
    var d :- x;
    if |d| < 4 then Err(StructError) else Ok(Be32Dec(d[0..4]))
  }
}
