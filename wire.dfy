/**
 * Packet framing on a kivaloo connection.
 *
 * A packet is the request ID (8 bytes, big-endian), the payload length
 * (4 bytes, big-endian), the CRC32C of those 12 bytes, the payload, and a
 * trailer: the CRC32C of the payload xor the header CRC, byte by byte.
 * wire_writepacket builds packets in a buffer reserved in the writer;
 * wire_readpacket_peek checks and parses the bytes buffered in a reader.
 */
module Wire {
  import opened Wrappers
  import opened Bytes
  import opened Bits
  import opened CRC32C

  /** The first 12 bytes of a packet. */
  function Header(id: u64, len: u32): (r: seq<byte>)
    ensures |r| == 12
  {
    Be64(id) + Be32(len)
  }

  /** The packet wire_writepacket emits for (id, data). */
  function Frame(id: u64, data: seq<byte>): (r: seq<byte>)
    requires |data| <= UINT32_MAX
    ensures |r| == |data| + 20
  {
    var h := Header(id, |data|);
    h + Crc32c(h) + data + XorBytes(Crc32c(data), Crc32c(h))
  }

  /** What wire_readpacket_peek finds in the buffered bytes. */
  datatype Peeked = NoPacket | Corrupt | Packet(id: u64, data: seq<byte>)

  /**
   * The decision wire_readpacket_peek takes on the buffered bytes buf, on a
   * platform whose size_t maximum is sizeMax.
   */
  function Decode(buf: seq<byte>, sizeMax: nat): Peeked
  {
    if |buf| < 20 then NoPacket
    else if buf[12..16] != Crc32c(buf[..12]) then Corrupt
    else
      var len := Be32Dec(buf[8..12]);
      if len > sizeMax - 20 then Corrupt
      else if |buf| < len + 20 then NoPacket
      else if XorBytes(Crc32c(buf[16..16 + len]), buf[16 + len..20 + len]) != buf[12..16] then Corrupt
      else Packet(Be64Dec(buf[..8]), buf[16..16 + len])
  }

  lemma FrameParts(id: u64, data: seq<byte>)
    requires |data| <= UINT32_MAX
    ensures var f, n := Frame(id, data), |data|;
      f[..8] == Be64(id) && f[8..12] == Be32(n) && f[..12] == Header(id, n)
      && f[12..16] == Crc32c(f[..12]) && f[16..16 + n] == data
      && f[16 + n..20 + n] == XorBytes(Crc32c(data), f[12..16])
  {
  }

  /** A written packet, followed by anything, is read back as the same ID and payload. */
  lemma DecodeFrame(id: u64, data: seq<byte>, rest: seq<byte>, sizeMax: nat)
    requires |data| <= UINT32_MAX && |data| + 20 <= sizeMax
    ensures Decode(Frame(id, data) + rest, sizeMax) == Packet(id, data)
  {
    var f := Frame(id, data);
    var buf := f + rest;
    var n := |data|;
    FrameParts(id, data);
    assert buf[..|f|] == f;
    assert buf[..12] == f[..12] && buf[12..16] == f[12..16] && buf[8..12] == f[8..12];
    assert buf[..8] == f[..8] && buf[16..16 + n] == data;
    assert buf[16 + n..20 + n] == f[16 + n..20 + n];
    XorBytesUndo(Crc32c(data), f[12..16]);
  }

  /** Only a well-formed packet is accepted, and it is the one at the head of the buffer. */
  lemma DecodePacket(buf: seq<byte>, sizeMax: nat, id: u64, data: seq<byte>)
    requires Decode(buf, sizeMax) == Packet(id, data)
    ensures |data| <= UINT32_MAX && |data| + 20 <= sizeMax
    ensures |data| + 20 <= |buf| && buf[..|data| + 20] == Frame(id, data)
  {
    var n := |data|;
    assert n == Be32Dec(buf[8..12]);
    Be64Inverse(buf[..8]);
    Be32Inverse(buf[8..12]);
    var f := Frame(id, data);
    FrameParts(id, data);
    var t := buf[16 + n..20 + n];
    XorBytesSolve(Crc32c(data), t, buf[12..16]);
    var h := buf[..12];
    assert h == buf[..8] + buf[8..12];
    assert h == Header(id, n);
    assert buf[..n + 20] == h + buf[12..16] + buf[16..16 + n] + t;
  }

  /** Any proper prefix of a packet is not yet a packet, and not an error either. */
  lemma DecodePrefix(id: u64, data: seq<byte>, k: nat, sizeMax: nat)
    requires |data| <= UINT32_MAX && |data| + 20 <= sizeMax && k < |data| + 20
    ensures Decode(Frame(id, data)[..k], sizeMax) == NoPacket
  {
    var f := Frame(id, data);
    var buf := f[..k];
    if k >= 20 {
      FrameParts(id, data);
      assert buf[..12] == f[..12] && buf[12..16] == f[12..16] && buf[8..12] == f[8..12];
    }
  }

  /** The buffered writer: the bytes it has been handed to send. */
  class Writer {
    var out: seq<byte>

    constructor ()
      ensures out == []
    {
      out := [];
    }
  }

  /** The buffered reader: the bytes it holds that have not been consumed. */
  class Reader {
    var data: seq<byte>

    constructor (d: seq<byte>)
      ensures data == d
    {
      data := d;
    }
  }

  /** struct wire_packet; buf is None where the source leaves a NULL pointer. */
  class WirePacket {
    var ID: u64
    var len: nat
    var buf: Option<seq<byte>>

    constructor ()
      ensures buf == None
    {
      ID := 0;
      len := 0;
      buf := None;
    }
  }

  /** CRC32C_Init, CRC32C_Update(data) and CRC32C_Final into cbuf[off..off + 4]. */
  method CrcInto(tables: Tables, data: seq<byte>, cbuf: array<byte>, off: nat)
    requires tables.Valid() && off + 4 <= cbuf.Length
    modifies tables, cbuf
    ensures tables.initdone && tables.Valid()
    ensures cbuf[off..off + 4] == Crc32c(data)
    ensures forall i :: 0 <= i < cbuf.Length && !(off <= i < off + 4) ==> cbuf[i] == old(cbuf[i])
  {
    var ctx := new Context();
    var _ := CtxInit(tables, ctx);
    Update(tables, ctx, data);
    Final(cbuf, off, ctx);
  }

  /**
   * wire_writepacket_getbuf: reserve len + 20 bytes and write the header and
   * its CRC; the payload goes at offset 16.
   */
  method GetBuf(tables: Tables, id: u64, len: nat, sizeMax: nat) returns (wbuf: array<byte>)
    requires len <= UINT32_MAX && len <= sizeMax - 20
    requires tables.Valid()
    modifies tables
    ensures tables.initdone && tables.Valid()
    ensures fresh(wbuf) && wbuf.Length == len + 20
    ensures wbuf[..12] == Header(id, len) && wbuf[12..16] == Crc32c(Header(id, len))
  {
    wbuf := new byte[len + 20];
    var h := Be64(id) + Be32(len);
    forall i | 0 <= i < 12 {
      wbuf[i] := h[i];
    }
    assert wbuf[..12] == h;
    CrcInto(tables, wbuf[..12], wbuf, 12);
    assert wbuf[..12] == h;
  }

  /**
   * wire_writepacket_done: write the trailer, CRC32C(payload) xor the header
   * CRC, and hand the whole packet to the writer.
   */
  method Done(W: Writer, tables: Tables, wbuf: array<byte>, len: nat) returns (r: int)
    requires wbuf.Length == len + 20 && tables.Valid()
    modifies W, tables, wbuf
    ensures tables.initdone && tables.Valid()
    ensures wbuf[..] == old(wbuf[..16 + len]) + XorBytes(Crc32c(old(wbuf[16..16 + len])), old(wbuf[12..16]))
    ensures W.out == old(W.out) + wbuf[..] && r == 0
  {
    var cbuf := new byte[4];
    CrcInto(tables, wbuf[16..16 + len], cbuf, 0);
    assert cbuf[..] == cbuf[0..4];
    WriteTrailer(wbuf, len, cbuf);
    W.out := W.out + wbuf[..];
    r := 0;
  }

  /** The trailer loop of wire_writepacket_done: wbuf[16 + len + i] = cbuf[i] ^ wbuf[12 + i]. */
  method WriteTrailer(wbuf: array<byte>, len: nat, cbuf: array<byte>)
    requires wbuf.Length == len + 20 && cbuf.Length == 4 && cbuf != wbuf
    modifies wbuf
    ensures wbuf[..] == old(wbuf[..16 + len]) + XorBytes(cbuf[..], old(wbuf[12..16]))
  {
    ghost var hcrc := wbuf[12..16];
    var i := 0;
    while i < 4
      invariant 0 <= i <= 4
      invariant forall k :: 0 <= k < 16 + len ==> wbuf[k] == old(wbuf[k])
      invariant forall k :: 0 <= k < i ==> wbuf[16 + len + k] == Xor8(cbuf[k], hcrc[k])
    {
      wbuf[16 + len + i] := Xor8(cbuf[i], wbuf[12 + i]);
      i := i + 1;
    }
    assert wbuf[..] == wbuf[..16 + len] + XorBytes(cbuf[..], hcrc);
  }

  /** A buffer holding the header, its CRC and the payload, completed by the trailer, is the packet. */
  lemma FrameFromParts(id: u64, data: seq<byte>, pre: seq<byte>)
    requires |data| <= UINT32_MAX && |pre| == |data| + 20
    requires pre[..12] == Header(id, |data|) && pre[12..16] == Crc32c(Header(id, |data|))
    requires pre[16..16 + |data|] == data
    ensures pre[..16 + |data|] + XorBytes(Crc32c(pre[16..16 + |data|]), pre[12..16]) == Frame(id, data)
  {
    var h := Header(id, |data|);
    assert pre[..16 + |data|] == h + Crc32c(h) + data;
  }

  /** wire_writepacket: header, payload copied into place, trailer. */
  method WritePacket(W: Writer, tables: Tables, id: u64, data: seq<byte>, sizeMax: nat) returns (r: int)
    requires |data| <= UINT32_MAX && |data| <= sizeMax - 20
    requires tables.Valid()
    modifies W, tables
    ensures tables.initdone && tables.Valid()
    ensures r == 0 && W.out == old(W.out) + Frame(id, data)
  {
    var len := |data|;
    var wbuf := GetBuf(tables, id, len, sizeMax);
    forall i | 0 <= i < len {
      wbuf[16 + i] := data[i];
    }
    assert wbuf[16..16 + len] == data;
    FrameFromParts(id, data, wbuf[..]);
    r := Done(W, tables, wbuf, len);
  }

  /**
   * wire_readpacket_peek: 0 with P.buf unset when no whole packet is buffered,
   * -1 on a corrupt packet, and 0 with the packet in P otherwise.
   */
  method Peek(R: Reader, tables: Tables, P: WirePacket, sizeMax: nat) returns (r: int)
    requires tables.Valid()
    modifies P, tables
    ensures tables.Valid()
    ensures Decode(R.data, sizeMax) == NoPacket ==> r == 0 && P.buf == None
    ensures Decode(R.data, sizeMax) == Corrupt ==> r == -1 && P.buf == None
    ensures Decode(R.data, sizeMax).Packet? ==>
      r == 0 && P.ID == Decode(R.data, sizeMax).id && P.len == |Decode(R.data, sizeMax).data|
      && P.buf == Some(Decode(R.data, sizeMax).data)
  {
    P.buf := None;
    var data := R.data;
    if |data| < 20 {
      return 0;
    }
    var hok := HeaderCrcMatches(tables, data);
    if !hok {
      return -1;
    }
    P.ID := Be64Dec(data[..8]);
    P.len := Be32Dec(data[8..12]);
    if P.len > sizeMax - 20 {
      return -1;
    }
    if |data| < P.len + 20 {
      return 0;
    }
    var ok := DataCrcMatches(tables, data, P.len);
    if !ok {
      return -1;
    }
    P.buf := Some(data[16..16 + P.len]);
    return 0;
  }

  /** The header check of wire_readpacket_peek: bytes 12..16 are the CRC32C of bytes 0..12. */
  method HeaderCrcMatches(tables: Tables, data: seq<byte>) returns (ok: bool)
    requires tables.Valid() && 20 <= |data|
    modifies tables
    ensures tables.initdone && tables.Valid()
    ensures ok <==> data[12..16] == Crc32c(data[..12])
  {
    var cbuf := new byte[4];
    CrcInto(tables, data[..12], cbuf, 0);
    assert cbuf[..] == cbuf[0..4];
    ok := data[12..16] == cbuf[..];
  }

  /** The data check of wire_readpacket_peek: CRC32C of the payload xor the trailer is the header CRC. */
  method DataCrcMatches(tables: Tables, data: seq<byte>, len: nat) returns (ok: bool)
    requires tables.Valid() && 20 + len <= |data|
    modifies tables
    ensures tables.initdone && tables.Valid()
    ensures ok <==> XorBytes(Crc32c(data[16..16 + len]), data[16 + len..20 + len]) == data[12..16]
  {
    var cbuf := new byte[4];
    CrcInto(tables, data[16..16 + len], cbuf, 0);
    assert cbuf[..] == cbuf[0..4];
    XorInPlace(cbuf, data[16 + len..20 + len]);
    ok := data[12..16] == cbuf[..];
  }

  /** The loop of wire_readpacket_peek that xors the trailer t into the data CRC in cbuf. */
  method XorInPlace(cbuf: array<byte>, t: seq<byte>)
    requires cbuf.Length == 4 && |t| == 4
    modifies cbuf
    ensures cbuf[..] == XorBytes(old(cbuf[..]), t)
  {
    ghost var c := cbuf[..];
    var i := 0;
    while i < 4
      invariant 0 <= i <= 4
      invariant forall k :: 0 <= k < i ==> cbuf[k] == Xor8(c[k], t[k])
      invariant forall k :: i <= k < 4 ==> cbuf[k] == c[k]
    {
      cbuf[i] := Xor8(cbuf[i], t[i]);
      i := i + 1;
    }
  }

  /** wire_readpacket_consume: drop the packet P, which Peek returned, from the reader. */
  method Consume(R: Reader, P: WirePacket)
    requires P.len + 20 <= |R.data|
    modifies R
    ensures R.data == old(R.data)[P.len + 20..]
  {
    R.data := R.data[P.len + 20..];
  }
}
