/**
 * The reference client of the block-store service
 * (tests/python/kivaloo/proto_lbs.py): the record each request packs for
 * send_recv, the checks append makes before anything is sent, and the
 * reading of each reply through the Response cursor.  The records agree
 * byte for byte with the C request layouts, and the replies the C server
 * builds read back as what it put in them.
 */
module PyLbs {
  import opened Wrappers
  import opened Bytes
  import opened PyStruct
  import opened PyWire
  import ProtoLbs

  /* Packing the request records. */

  /** '>IQ': a type word and a 64-bit block number; struct.error when the number does not fit. */
  lemma PackBlockRecord(t: u32, b: int)
    ensures Pack([U32, U64], [Int(t), Int(b)])
      == if 0 <= b <= UINT64_MAX then Ok(Be32(t) + Be64(b)) else Err(StructError)
  {
    assert [U32, U64][1..] == [U64] && [Int(t), Int(b)][1..] == [Int(b)];
    if 0 <= b <= UINT64_MAX {
      PackOne(U64, Int(b));
    } else {
      assert [U64][1..] == [] && [Int(b)][1..] == [];
    }
  }

  /** The APPEND record: the 16-byte head, then the blocks fitted to n bytes. */
  function AppendRecord(nums: u32, start: u64, n: nat, blocks: seq<byte>): (r: seq<byte>)
    ensures |r| == 16 + n
  {
    Be32(ProtoLbs.APPEND) + Be32(nums) + Be64(start) + FitTo(blocks, n)
  }

  /**
   * '>IIQ%ds' with n bytes for the data: struct.error unless the count fits
   * in 32 bits and the first block in 64; the data is truncated or padded
   * with zero bytes to n.
   */
  lemma PackAppendRecord(nums: int, start: int, n: nat, blocks: seq<byte>)
    ensures Pack([U32, U32, U64, Str(n)], [Int(ProtoLbs.APPEND), Int(nums), Int(start), Bytes(blocks)])
      == if 0 <= nums <= UINT32_MAX && 0 <= start <= UINT64_MAX then Ok(AppendRecord(nums, start, n, blocks))
         else Err(StructError)
  {
    var fmt := [U32, U32, U64, Str(n)];
    var vs := [Int(ProtoLbs.APPEND), Int(nums), Int(start), Bytes(blocks)];
    var f1, v1 := fmt[1..], vs[1..];
    var f2, v2 := f1[1..], v1[1..];
    assert f1 == [U32, U64, Str(n)] && v1 == [Int(nums), Int(start), Bytes(blocks)];
    assert f2 == [U64, Str(n)] && v2 == [Int(start), Bytes(blocks)];
    assert f2[1..] == [Str(n)] && v2[1..] == [Bytes(blocks)];
    PackOne(Str(n), Bytes(blocks));
    if !(0 <= start <= UINT64_MAX) {
      assert Pack(f2, v2).Err?;
      assert Pack(f1, v1).Err?;
    } else if !(0 <= nums <= UINT32_MAX) {
      assert Pack(f1, v1).Err?;
    } else {
      PackAppendFields(nums, start, n, blocks);
    }
  }

  lemma PackAppendFields(nums: u32, start: u64, n: nat, blocks: seq<byte>)
    ensures Pack([U32, U32, U64, Str(n)], [Int(ProtoLbs.APPEND), Int(nums), Int(start), Bytes(blocks)])
      == Ok(AppendRecord(nums, start, n, blocks))
  {
    var t := FitTo(blocks, n);
    assert Pack([U64, Str(n)], [Int(start), Bytes(blocks)]) == Ok(Be64(start) + t) by {
      assert [U64, Str(n)][1..] == [Str(n)] && [Int(start), Bytes(blocks)][1..] == [Bytes(blocks)];
      PackOne(Str(n), Bytes(blocks));
      PackAt([U64, Str(n)], [Int(start), Bytes(blocks)], Be64(start), t);
    }
    var t3 := Be32(nums) + (Be64(start) + t);
    assert Pack([U32, U64, Str(n)], [Int(nums), Int(start), Bytes(blocks)]) == Ok(t3) by {
      assert [U32, U64, Str(n)][1..] == [U64, Str(n)];
      assert [Int(nums), Int(start), Bytes(blocks)][1..] == [Int(start), Bytes(blocks)];
      PackAt([U32, U64, Str(n)], [Int(nums), Int(start), Bytes(blocks)], Be32(nums), Be64(start) + t);
    }
    assert [U32, U32, U64, Str(n)][1..] == [U32, U64, Str(n)];
    assert [Int(ProtoLbs.APPEND), Int(nums), Int(start), Bytes(blocks)][1..] == [Int(nums), Int(start), Bytes(blocks)];
    PackAt([U32, U32, U64, Str(n)], [Int(ProtoLbs.APPEND), Int(nums), Int(start), Bytes(blocks)], Be32(ProtoLbs.APPEND), t3);
    assert Be32(ProtoLbs.APPEND) + t3 == AppendRecord(nums, start, n, blocks);
  }

  /** When the data is exactly nums blocks, the APPEND record is the request the C server parses. */
  lemma AppendRecordIsEncoding(nums: u32, start: u64, blklen: u32, blocks: seq<byte>)
    requires |blocks| == nums * blklen
    ensures AppendRecord(nums, start, |blocks|, blocks) == ProtoLbs.Encode(ProtoLbs.Append(nums, start, blklen, blocks))
  {
    assert blocks[..|blocks|] == blocks;
  }

  /* Reading the replies. */

  /** params: reply.get('>IQ'), the block size and the next free block. */
  function ParamsOf(x: Result<seq<byte>, PyError>): (r: Result<(int, int), PyError>)
  {
    var d :- x;
    if |d| < 12 then Err(StructError) else Ok((Be32Dec(d[0..4]), Be64Dec(d[4..12])))
  }

  /** params2: reply.get('>IQQ'), the block size, the next free block and the last block. */
  function Params2Of(x: Result<seq<byte>, PyError>): (r: Result<(int, int, int), PyError>)
  {
    var d :- x;
    if |d| < 20 then Err(StructError) else Ok((Be32Dec(d[0..4]), Be64Dec(d[4..12]), Be64Dec(d[12..20])))
  }

  /** get: (1, None) for status 1; otherwise the status and the next blockSize bytes. */
  function GetOf(x: Result<seq<byte>, PyError>, blockSize: nat): (r: Result<(int, Option<seq<byte>>), PyError>)
  {
    var d :- x;
    if |d| < 4 then Err(StructError)
    else if Be32Dec(d[0..4]) == 1 then Ok((1, None))
    else if |d| < 4 + blockSize then Err(StructError)
    else Ok((Be32Dec(d[0..4]), Some(d[4..4 + blockSize])))
  }

  /** append: (1, None) for status 1; otherwise the status and the next block as '>Q'. */
  function AppendOf(x: Result<seq<byte>, PyError>): (r: Result<(int, Option<int>), PyError>)
  {
    var d :- x;
    if |d| < 4 then Err(StructError)
    else if Be32Dec(d[0..4]) == 1 then Ok((1, None))
    else if |d| < 12 then Err(StructError)
    else Ok((Be32Dec(d[0..4]), Some(Be64Dec(d[4..12]))))
  }

  /** The replies the C server builds read back as what it put in them. */
  lemma ParamsRoundTrip(blklen: u32, blkno: u64)
    ensures ParamsOf(Ok(ProtoLbs.ParamsReply(blklen, blkno))) == Ok((blklen, blkno))
  {
    var b := ProtoLbs.ParamsReply(blklen, blkno);
    assert b[0..4] == Be32(blklen) && b[4..12] == Be64(blkno);
  }

  lemma Params2RoundTrip(blklen: u32, blkno: u64, lastblk: u64)
    ensures Params2Of(Ok(ProtoLbs.Params2Reply(blklen, blkno, lastblk))) == Ok((blklen, blkno, lastblk))
  {
    var p := Be32(blklen) + Be64(blkno);
    var b := ProtoLbs.Params2Reply(blklen, blkno, lastblk);
    assert b == p + Be64(lastblk);
    assert b[0..4] == p[0..4] == Be32(blklen);
    assert b[4..12] == p[4..12] == Be64(blkno);
    assert b[12..20] == Be64(lastblk);
  }

  /** A GET reply of status 0 reads back as its block when the block is blockSize bytes. */
  lemma GetRoundTrip(status: u32, blk: seq<byte>)
    requires status <= 1
    ensures GetOf(Ok(ProtoLbs.GetReply(status, blk)), |blk|)
      == if status == 0 then Ok((0, Some(blk))) else Ok((1, None))
  {
    var b := ProtoLbs.GetReply(status, blk);
    assert b[0..4] == Be32(status);
    if status == 0 {
      assert b == Be32(0) + blk;
      assert b[4..4 + |blk|] == blk;
    }
  }

  lemma AppendRoundTrip(status: u32, blkno: u64)
    requires status <= 1
    ensures AppendOf(Ok(ProtoLbs.AppendReply(status, blkno)))
      == if status == 0 then Ok((0, Some(blkno))) else Ok((1, None))
  {
    var b := ProtoLbs.AppendReply(status, blkno);
    assert b[0..4] == Be32(status);
    assert status == 0 ==> b[4..12] == Be64(blkno);
  }

  lemma FreeRoundTrip()
    ensures StatusOf(Ok(ProtoLbs.FreeReply())) == Ok(0)
  {
    assert ProtoLbs.FreeReply()[0..4] == Be32(0);
  }

  /** What params does with the reply: reply.get('>IQ'). */
  method ReadParams(resp: Response) returns (r: Result<(int, int), PyError>)
    requires resp.Valid() && resp.offset == 0
    modifies resp
    ensures r == ParamsOf(Ok(resp.data))
  {
    if |resp.data| >= 12 {
      UnpackTwo(U32, U64, resp.data, 0, 4, Int(Be32Dec(resp.data[0..4])), Int(Be64Dec(resp.data[4..12])));
    }
    var values := resp.Get([U32, U64]);
    if values.Err? {
      return Err(values.error);
    }
    return Ok((values.value[0].i, values.value[1].i));
  }

  /** What params2 does with the reply: reply.get('>IQQ'). */
  method ReadParams2(resp: Response) returns (r: Result<(int, int, int), PyError>)
    requires resp.Valid() && resp.offset == 0
    modifies resp
    ensures r == Params2Of(Ok(resp.data))
  {
    if |resp.data| >= 20 {
      UnpackThree(U32, U64, U64, resp.data, 0, 4, 12,
        Int(Be32Dec(resp.data[0..4])), Int(Be64Dec(resp.data[4..12])), Int(Be64Dec(resp.data[12..20])));
    }
    var values := resp.Get([U32, U64, U64]);
    if values.Err? {
      return Err(values.error);
    }
    return Ok((values.value[0].i, values.value[1].i, values.value[2].i));
  }

  /** What get does with the reply: get_int, then reply.get('>%ds' % block_size). */
  method ReadGet(resp: Response, blockSize: nat) returns (r: Result<(int, Option<seq<byte>>), PyError>)
    requires resp.Valid() && resp.offset == 0
    modifies resp
    ensures r == GetOf(Ok(resp.data), blockSize)
  {
    var status :- resp.GetInt();
    if status == 1 {
      return Ok((1, None));
    }
    if 4 + blockSize <= |resp.data| {
      UnpackOne(Str(blockSize), resp.data, 4);
    }
    assert FmtSize([Str(blockSize)]) == blockSize;
    var data :- resp.Get([Str(blockSize)]);
    return Ok((status, Some(data[0].b)));
  }

  /** What append does with the reply: get_int, then reply.get('>Q'). */
  method ReadAppend(resp: Response) returns (r: Result<(int, Option<int>), PyError>)
    requires resp.Valid() && resp.offset == 0
    modifies resp
    ensures r == AppendOf(Ok(resp.data))
  {
    var status :- resp.GetInt();
    if status == 1 {
      return Ok((1, None));
    }
    if 12 <= |resp.data| {
      UnpackOne(U64, resp.data, 4);
    }
    assert FmtSize([U64]) == 8;
    var next :- resp.Get([U64]);
    return Ok((status, Some(next[0].i)));
  }

  /** What free does with the reply: get_int. */
  method ReadStatus(resp: Response) returns (r: Result<int, PyError>)
    requires resp.Valid() && resp.offset == 0
    modifies resp
    ensures r == StatusOf(Ok(resp.data))
  {
    r := resp.GetInt();
  }

  /* The client object. */

  /** Proto_lbs: the connection and the block size params reported when it was made. */
  class Lbs {
    const wire: Session
    var blockSize: nat

    constructor ()
      ensures fresh(wire) && wire.msgnum == 0 && wire.sent == [] && blockSize == 0
    {
      wire := new Session();
      blockSize := 0;
    }

    /** params: the record '>I' 0x00 and the two values of the reply. */
    method Params(avail: seq<byte>, recvLen: nat) returns (r: Result<(int, int), PyError>)
      requires RecvCount(avail, recvLen)
      modifies wire
      ensures var record := ProtoLbs.Encode(ProtoLbs.Params);
        Sent(old(wire.msgnum), old(wire.sent), wire.msgnum, wire.sent, record)
        && r == ParamsOf(Exchange(old(wire.msgnum), record, avail, recvLen))
    {
      PackOne(U32, Int(ProtoLbs.PARAMS));
      var record := Pack([U32], [Int(ProtoLbs.PARAMS)]);
      var reply := wire.SendRecv(record.value, avail, recvLen);
      if reply.Err? {
        return Err(reply.error);
      }
      r := ReadParams(reply.value);
    }

    /** params2: the record '>I' 0x04 and the three values of the reply. */
    method Params2(avail: seq<byte>, recvLen: nat) returns (r: Result<(int, int, int), PyError>)
      requires RecvCount(avail, recvLen)
      modifies wire
      ensures var record := ProtoLbs.Encode(ProtoLbs.Params2);
        Sent(old(wire.msgnum), old(wire.sent), wire.msgnum, wire.sent, record)
        && r == Params2Of(Exchange(old(wire.msgnum), record, avail, recvLen))
    {
      PackOne(U32, Int(ProtoLbs.PARAMS2));
      var record := Pack([U32], [Int(ProtoLbs.PARAMS2)]);
      var reply := wire.SendRecv(record.value, avail, recvLen);
      if reply.Err? {
        return Err(reply.error);
      }
      r := ReadParams2(reply.value);
    }

    /** get(blocknum): the record '>IQ' 0x01; struct.error, before sending, for a number out of range. */
    method Get(blocknum: int, avail: seq<byte>, recvLen: nat) returns (r: Result<(int, Option<seq<byte>>), PyError>)
      requires RecvCount(avail, recvLen)
      modifies wire
      ensures !(0 <= blocknum <= UINT64_MAX) ==> r == Err(StructError) && unchanged(wire)
      ensures 0 <= blocknum <= UINT64_MAX ==>
        var record := ProtoLbs.Encode(ProtoLbs.Get(blocknum));
        Sent(old(wire.msgnum), old(wire.sent), wire.msgnum, wire.sent, record)
        && r == GetOf(Exchange(old(wire.msgnum), record, avail, recvLen), old(blockSize))
    {
      PackBlockRecord(ProtoLbs.GET, blocknum);
      var record :- Pack([U32, U64], [Int(ProtoLbs.GET), Int(blocknum)]);
      assert record == ProtoLbs.Encode(ProtoLbs.Get(blocknum));
      var reply := wire.SendRecv(record, avail, recvLen);
      if reply.Err? {
        return Err(reply.error);
      }
      r := ReadGet(reply.value, blockSize);
    }

    /**
     * append(nums, start, blocks): ZeroDivisionError for a block size of 0
     * and "Invalid blocksize" for data that is not whole blocks, before
     * anything is sent; then the record '>IIQ%ds' with block_size * nums
     * bytes of data.
     */
    method Append(nums: int, start: int, blocks: seq<byte>, avail: seq<byte>, recvLen: nat)
      returns (r: Result<(int, Option<int>), PyError>)
      requires RecvCount(avail, recvLen)
      modifies wire
      ensures blockSize == 0 ==> r == Err(ZeroDivision) && unchanged(wire)
      ensures blockSize > 0 && |blocks| % blockSize != 0 ==> r == Err(InvalidBlocksize) && unchanged(wire)
      ensures blockSize > 0 && |blocks| % blockSize == 0 && !(0 <= nums <= UINT32_MAX && 0 <= start <= UINT64_MAX) ==>
        r == Err(StructError) && unchanged(wire)
      ensures blockSize > 0 && |blocks| % blockSize == 0 && 0 <= nums <= UINT32_MAX && 0 <= start <= UINT64_MAX ==>
        var record := AppendRecord(nums, start, blockSize * nums, blocks);
        Sent(old(wire.msgnum), old(wire.sent), wire.msgnum, wire.sent, record)
        && r == AppendOf(Exchange(old(wire.msgnum), record, avail, recvLen))
    {
      if blockSize == 0 {
        return Err(ZeroDivision);
      }
      if |blocks| % blockSize != 0 {
        return Err(InvalidBlocksize);
      }
      if nums < 0 {
        // '%ds' with a negative count is not a struct format.
        return Err(StructError);
      }
      var numBytes := blockSize * nums;
      PackAppendRecord(nums, start, numBytes, blocks);
      var record :- Pack([U32, U32, U64, Str(numBytes)], [Int(ProtoLbs.APPEND), Int(nums), Int(start), Bytes(blocks)]);
      var reply := wire.SendRecv(record, avail, recvLen);
      if reply.Err? {
        return Err(reply.error);
      }
      r := ReadAppend(reply.value);
    }

    /** free(keep_num): the record '>IQ' 0x03 and the status word of the reply. */
    method Free(keepNum: int, avail: seq<byte>, recvLen: nat) returns (r: Result<int, PyError>)
      requires RecvCount(avail, recvLen)
      modifies wire
      ensures !(0 <= keepNum <= UINT64_MAX) ==> r == Err(StructError) && unchanged(wire)
      ensures 0 <= keepNum <= UINT64_MAX ==>
        var record := ProtoLbs.Encode(ProtoLbs.Free(keepNum));
        Sent(old(wire.msgnum), old(wire.sent), wire.msgnum, wire.sent, record)
        && r == StatusOf(Exchange(old(wire.msgnum), record, avail, recvLen))
    {
      PackBlockRecord(ProtoLbs.FREE, keepNum);
      var record :- Pack([U32, U64], [Int(ProtoLbs.FREE), Int(keepNum)]);
      assert record == ProtoLbs.Encode(ProtoLbs.Free(keepNum));
      var reply := wire.SendRecv(record, avail, recvLen);
      if reply.Err? {
        return Err(reply.error);
      }
      r := ReadStatus(reply.value);
    }
  }

  /** Proto_lbs(): a new connection, then params for the block size. */
  method Connect(avail: seq<byte>, recvLen: nat) returns (r: Result<Lbs, PyError>)
    requires RecvCount(avail, recvLen)
    ensures var expected := ParamsOf(Exchange(0, ProtoLbs.Encode(ProtoLbs.Params), avail, recvLen));
      && (r.Err? <==> expected.Err?)
      && (r.Err? ==> r.error == expected.error)
      && (r.Ok? ==> fresh(r.value) && fresh(r.value.wire) && r.value.blockSize == expected.value.0)
  {
    var k := new Lbs();
    var values :- k.Params(avail, recvLen);
    assert 0 <= values.0 <= UINT32_MAX;
    k.blockSize := values.0;
    return Ok(k);
  }
}
