/**
 * The block-store service's client side (lib/proto_lbs/proto_lbs_client.c):
 * the request builders and the parsers of the responses (a response buffer
 * of None is a request that failed without a response).
 */
module ProtoLbsClient {
  import opened Wrappers
  import opened Bytes
  import opened ProtoLbs

  /* Request builders. */

  /** proto_lbs_request_params: the type word alone. */
  method RequestParams() returns (buf: array<byte>)
    ensures fresh(buf) && buf[..] == Encode(Params)
  {
    buf := new byte[4];
    Put(buf, 0, Be32(PARAMS));
    assert buf[..] == buf[..4];
  }

  /** proto_lbs_request_params2: the type word alone. */
  method RequestParams2() returns (buf: array<byte>)
    ensures fresh(buf) && buf[..] == Encode(Params2)
  {
    buf := new byte[4];
    Put(buf, 0, Be32(PARAMS2));
    assert buf[..] == buf[..4];
  }

  /** The builders of the 12-byte requests (GET, FREE): the type word and a block number. */
  method RequestBlock(t: u32, blkno: u64) returns (buf: array<byte>)
    ensures fresh(buf) && buf[..] == Be32(t) + Be64(blkno)
  {
    buf := new byte[12];
    Put(buf, 0, Be32(t));
    assert buf[..4] == Be32(t);
    Put(buf, 4, Be64(blkno));
    assert buf[..] == buf[..12];
  }

  /** proto_lbs_request_get: the block to read. */
  method RequestGet(blkno: u64) returns (buf: array<byte>)
    ensures fresh(buf) && buf[..] == Encode(Get(blkno))
  {
    buf := RequestBlock(GET, blkno);
  }

  /** proto_lbs_request_free: the first block to keep. */
  method RequestFree(blkno: u64) returns (buf: array<byte>)
    ensures fresh(buf) && buf[..] == Encode(Free(blkno))
  {
    buf := RequestBlock(FREE, blkno);
  }

  /** The first blklen bytes of each block, one after the other. */
  function Blocks(bufv: seq<seq<byte>>, blklen: nat): (r: seq<byte>)
    requires forall i :: 0 <= i < |bufv| ==> blklen <= |bufv[i]|
    ensures |r| == |bufv| * blklen
  {
    if bufv == [] then []
    else
      var n := |bufv| - 1;
      Blocks(bufv[..n], blklen) + bufv[n][..blklen]
  }

  /** Block i of an APPEND lies at i * blklen in the data, and so at 16 + i * blklen in the request. */
  lemma {:induction false} BlockAt(bufv: seq<seq<byte>>, blklen: nat, i: nat)
    requires forall j :: 0 <= j < |bufv| ==> blklen <= |bufv[j]|
    requires i < |bufv|
    ensures i * blklen + blklen <= |Blocks(bufv, blklen)|
    ensures Blocks(bufv, blklen)[i * blklen..i * blklen + blklen] == bufv[i][..blklen]
  {
    var n := |bufv| - 1;
    var pre := Blocks(bufv[..n], blklen);
    assert |pre| == n * blklen;
    if i < n {
      BlockAt(bufv[..n], blklen, i);
      MulLess(i, n, blklen);
      assert Blocks(bufv, blklen)[i * blklen..i * blklen + blklen] == pre[i * blklen..i * blklen + blklen];
    } else {
      assert Blocks(bufv, blklen)[n * blklen..] == bufv[n][..blklen];
    }
  }

  /** i < n blocks of blklen end no later than n blocks. */
  lemma MulLess(i: nat, n: nat, blklen: nat)
    requires i < n
    ensures i * blklen + blklen <= n * blklen
  {
    assert n * blklen == i * blklen + (n - i) * blklen;
    assert (n - i) * blklen >= blklen by {
      assert (n - i) * blklen == (n - i - 1) * blklen + blklen;
    }
  }

  /** The APPEND head: type, block count, first block. */
  function AppendHead(nblks: u32, blkno: u64): (r: seq<byte>)
    ensures |r| == 16
  {
    Be32(APPEND) + Be32(nblks) + Be64(blkno)
  }

  /**
   * proto_lbs_request_append_blks: a request of 16 + nblks * blklen bytes,
   * the head followed by blklen bytes of each block in turn.
   */
  method RequestAppendBlks(nblks: u32, blkno: u64, blklen: nat, bufv: seq<seq<byte>>) returns (buf: array<byte>)
    requires |bufv| == nblks
    requires forall i :: 0 <= i < |bufv| ==> blklen <= |bufv[i]|
    ensures fresh(buf) && buf.Length == 16 + nblks * blklen
    ensures buf[..] == AppendHead(nblks, blkno) + Blocks(bufv, blklen)
  {
    var len := 16 + nblks * blklen;
    assert len == 16 + |Blocks(bufv, blklen)|;
    buf := new byte[len];
    Put(buf, 0, Be32(APPEND));
    assert buf[..4] == Be32(APPEND);
    Put(buf, 4, Be32(nblks));
    assert buf[..8] == Be32(APPEND) + Be32(nblks);
    Put(buf, 8, Be64(blkno));
    assert buf[..16] == AppendHead(nblks, blkno) + Blocks(bufv[..0], blklen);
    var pos: nat := 16;
    for i := 0 to nblks
      invariant pos == 16 + i * blklen <= len
      invariant buf[..pos] == AppendHead(nblks, blkno) + Blocks(bufv[..i], blklen)
    {
      MulLess(i, nblks, blklen);
      MulSucc(i, blklen);
      BlocksSnoc(bufv, blklen, i);
      pos := PutBlock(buf, pos, bufv[i][..blklen], AppendHead(nblks, blkno), Blocks(bufv[..i], blklen));
    }
    assert bufv[..nblks] == bufv;
    assert buf[..] == buf[..pos];
  }

  /** memcpy of one block at pos, just after the head and the blocks before it. */
  method PutBlock(buf: array<byte>, pos: nat, blk: seq<byte>, ghost head: seq<byte>, ghost before: seq<byte>)
    returns (next: nat)
    requires pos + |blk| <= buf.Length && buf[..pos] == head + before
    modifies buf
    ensures next == pos + |blk|
    ensures buf[..(next)] == head + (before + blk)
  {
    Put(buf, pos, blk);
    next := pos + |blk|;
  }

  /** One more block of blklen bytes. */
  lemma MulSucc(i: nat, blklen: nat)
    ensures (i + 1) * blklen == i * blklen + blklen && i * blklen >= 0
  {
  }

  /** The blocks of a prefix of bufv, extended by the next block. */
  lemma BlocksSnoc(bufv: seq<seq<byte>>, blklen: nat, i: nat)
    requires forall j :: 0 <= j < |bufv| ==> blklen <= |bufv[j]|
    requires i < |bufv|
    ensures Blocks(bufv[..i + 1], blklen) == Blocks(bufv[..i], blklen) + bufv[i][..blklen]
  {
    assert bufv[..i + 1][..i] == bufv[..i];
  }

  /** The blocks a flat buffer is cut into: block i starts at i * blklen and runs to the end. */
  function Cut(data: seq<byte>, blklen: nat, n: nat): (r: seq<seq<byte>>)
    requires n * blklen <= |data|
    ensures |r| == n
    ensures forall i :: 0 <= i < n ==> i * blklen <= |data| && r[i] == data[i * blklen..]
  {
    if n == 0 then []
    else
      MulLess(n - 1, n, blklen);
      Cut(data, blklen, n - 1) + [data[(n - 1) * blklen..]]
  }

  /** Each block cut from a flat buffer holds at least blklen bytes. */
  lemma CutLengths(data: seq<byte>, blklen: nat, n: nat)
    requires n * blklen <= |data|
    ensures forall i :: 0 <= i < n ==> blklen <= |Cut(data, blklen, n)[i]|
  {
    var c := Cut(data, blklen, n);
    forall i | 0 <= i < n
      ensures blklen <= |c[i]|
    {
      MulLess(i, n, blklen);
    }
  }

  /** The blocks cut from a flat buffer, taken blklen bytes each, are its first n * blklen bytes. */
  lemma {:induction false} BlocksOfCut(data: seq<byte>, blklen: nat, n: nat)
    requires n * blklen <= |data|
    ensures forall i :: 0 <= i < n ==> blklen <= |Cut(data, blklen, n)[i]|
    ensures Blocks(Cut(data, blklen, n), blklen) == data[..n * blklen]
  {
    CutLengths(data, blklen, n);
    if n > 0 {
      MulLess(n - 1, n, blklen);
      BlocksOfCut(data, blklen, n - 1);
      BlocksOfCutLast(data, blklen, n, n - 1);
    }
  }

  /** The step of BlocksOfCut: the last block adds the next blklen bytes. */
  lemma BlocksOfCutLast(data: seq<byte>, blklen: nat, n: nat, m: nat)
    requires m + 1 == n && n * blklen <= |data|
    requires forall i :: 0 <= i < n ==> blklen <= |Cut(data, blklen, n)[i]|
    requires forall i :: 0 <= i < m ==> blklen <= |Cut(data, blklen, m)[i]|
    requires Blocks(Cut(data, blklen, m), blklen) == data[..m * blklen]
    ensures Blocks(Cut(data, blklen, n), blklen) == data[..n * blklen]
  {
    var c := Cut(data, blklen, n);
    var k := m * blklen;
    MulSucc(m, blklen);
    assert c[..m] == Cut(data, blklen, m);
    assert c[m] == data[k..];
    assert n * blklen == k + blklen;
    assert data[k..][..blklen] == data[k..k + blklen];
    assert data[..k + blklen] == data[..k] + data[k..k + blklen];
  }

  /**
   * proto_lbs_request_append: the vector of pointers to the nblks blocks
   * of buf, then the request proto_lbs_request_append_blks builds from it.
   */
  method RequestAppend(nblks: u32, blkno: u64, blklen: nat, data: seq<byte>) returns (buf: array<byte>)
    requires nblks * blklen <= |data|
    ensures fresh(buf)
    ensures buf[..] == AppendHead(nblks, blkno) + data[..nblks * blklen]
    ensures nblks > 0 && blklen <= UINT32_MAX && 16 + nblks * blklen <= UINT32_MAX ==>
      buf[..] == Encode(Append(nblks, blkno, blklen, data[..nblks * blklen]))
  {
    var bufv: seq<seq<byte>> := [];
    for i := 0 to nblks
      invariant bufv == Cut(data, blklen, i)
    {
      MulLess(i, nblks, blklen);
      bufv := bufv + [data[i * blklen..]];
    }
    BlocksOfCut(data, blklen, nblks);
    buf := RequestAppendBlks(nblks, blkno, blklen, bufv);
  }

  /* Response parsers. */

  /** callback_params: (failed, blklen, blkno); the response must be exactly 12 bytes. */
  function CallbackParams(buf: Option<seq<byte>>): (r: (bool, nat, nat))
    ensures !r.0 <==> buf.Some? && |buf.value| == 12
    ensures !r.0 ==> r.1 <= UINT32_MAX && r.2 <= UINT64_MAX && buf.value == ParamsReply(r.1, r.2)
    ensures r.0 ==> r.1 == 0 && r.2 == 0
  {
    if buf.None? || |buf.value| != 12 then (true, 0, 0)
    else
      var b := buf.value;
      Be32Inverse(b[0..4]);
      Be64Inverse(b[4..12]);
      assert b == b[0..4] + b[4..12];
      (false, Be32Dec(b[0..4]), Be64Dec(b[4..12]))
  }

  /** The PARAMS response the server builds parses back into its values. */
  lemma ParamsRoundTrip(blklen: u32, blkno: u64)
    ensures CallbackParams(Some(ParamsReply(blklen, blkno))) == (false, blklen, blkno)
  {
    var b := ParamsReply(blklen, blkno);
    assert b[0..4] == Be32(blklen) && b[4..12] == Be64(blkno);
  }

  /**
   * callback_params2: (failed, blklen, blkno, lastblk); the response must
   * be exactly 20 bytes; lastblk is (uint64_t)(-1) on failure.
   */
  function CallbackParams2(buf: Option<seq<byte>>): (r: (bool, nat, nat, nat))
    ensures !r.0 <==> buf.Some? && |buf.value| == 20
    ensures !r.0 ==> r.1 <= UINT32_MAX && r.2 <= UINT64_MAX && r.3 <= UINT64_MAX
    ensures !r.0 ==> buf.value == Params2Reply(r.1, r.2, r.3)
    ensures r.0 ==> r.1 == 0 && r.2 == 0 && r.3 == UINT64_MAX
  {
    if buf.None? || |buf.value| != 20 then (true, 0, 0, UINT64_MAX)
    else
      var b := buf.value;
      Be32Inverse(b[0..4]);
      Be64Inverse(b[4..12]);
      Be64Inverse(b[12..20]);
      assert b == b[0..4] + b[4..12] + b[12..20];
      (false, Be32Dec(b[0..4]), Be64Dec(b[4..12]), Be64Dec(b[12..20]))
  }

  /** The PARAMS2 response the server builds parses back into its values. */
  lemma Params2RoundTrip(blklen: u32, blkno: u64, lastblk: u64)
    ensures CallbackParams2(Some(Params2Reply(blklen, blkno, lastblk))) == (false, blklen, blkno, lastblk)
  {
    var b := Params2Reply(blklen, blkno, lastblk);
    var head := Be32(blklen) + Be64(blkno);
    assert b == head + Be64(lastblk);
    assert b[0..4] == head[0..4] == Be32(blklen);
    assert b[4..12] == head[4..12] == Be64(blkno);
    assert b[12..20] == Be64(lastblk);
  }

  /**
   * callback_get: (failed, status, block).  The status must be 0 or 1; a
   * status 0 response is 4 + blklen bytes, a status 1 response 4 bytes.
   * The status is already decoded when a length check fails.
   */
  function CallbackGet(buf: Option<seq<byte>>, blklen: nat): (r: (bool, nat, Option<seq<byte>>))
    ensures !r.0 <==> (
      && buf.Some? && |buf.value| >= 4 && Be32Dec(buf.value[..4]) <= 1
      && |buf.value| == 4 + (if Be32Dec(buf.value[..4]) == 0 then blklen else 0))
    ensures !r.0 ==> (r.2.Some? <==> r.1 == 0)
    ensures !r.0 ==> r.1 <= 1 && buf.value == GetReply(r.1, if r.1 == 0 then r.2.value else [])
    ensures r.0 ==> r.2 == None
  {
    if buf.None? || |buf.value| < 4 || Be32Dec(buf.value[..4]) > 1 then (true, 0, None)
    else
      var b := buf.value;
      var status := Be32Dec(b[..4]);
      if status == 0 && |b| != 4 + blklen then (true, status, None)
      else if status == 1 && |b| != 4 then (true, status, None)
      else
        Be32Inverse(b[..4]);
        assert b == b[..4] + b[4..];
        (false, status, if status == 0 then Some(b[4..]) else None)
  }

  /** A GET response the server builds parses back into its status and block. */
  lemma GetRoundTrip(status: u32, blk: seq<byte>)
    requires status <= 1
    ensures CallbackGet(Some(GetReply(status, blk)), |blk|)
      == (false, status, if status == 0 then Some(blk) else None)
  {
    var b := GetReply(status, blk);
    assert b[..4] == Be32(status);
    assert status == 0 ==> b[4..] == blk;
  }

  /**
   * callback_append: (failed, status, blkno).  The status must be 0 or 1;
   * a status 0 response is 12 bytes holding the next block, a status 1
   * response 4 bytes.
   */
  function CallbackAppend(buf: Option<seq<byte>>): (r: (bool, nat, nat))
    ensures !r.0 <==> (
      && buf.Some? && |buf.value| >= 4 && Be32Dec(buf.value[..4]) <= 1
      && |buf.value| == (if Be32Dec(buf.value[..4]) == 0 then 12 else 4))
    ensures !r.0 ==> r.1 <= 1 && r.2 <= UINT64_MAX && buf.value == AppendReply(r.1, r.2)
    ensures r.1 != 0 || r.0 ==> r.2 == 0
  {
    if buf.None? || |buf.value| < 4 || Be32Dec(buf.value[..4]) > 1 then (true, 0, 0)
    else
      var b := buf.value;
      var status := Be32Dec(b[..4]);
      if status == 0 && |b| != 12 then (true, status, 0)
      else if status == 1 && |b| != 4 then (true, status, 0)
      else
        Be32Inverse(b[..4]);
        if status == 0 then
          Be64Inverse(b[4..12]);
          assert b == b[..4] + b[4..12];
          (false, 0, Be64Dec(b[4..12]))
        else
          assert b == b[..4];
          (false, 1, 0)
  }

  /** An APPEND response the server builds parses back into its status and next block. */
  lemma AppendRoundTrip(status: u32, blkno: u64)
    requires status <= 1
    ensures CallbackAppend(Some(AppendReply(status, blkno))) == (false, status, if status == 0 then blkno else 0)
  {
    var b := AppendReply(status, blkno);
    assert b[..4] == Be32(status);
    assert status == 0 ==> b[4..12] == Be64(blkno);
  }

  /** callback_free: failed unless the response has at least 4 bytes and status 0. */
  function CallbackFree(buf: Option<seq<byte>>): (failed: bool)
    ensures !failed <==> buf.Some? && |buf.value| >= 4 && buf.value[..4] == Be32(0)
  {
    if buf.None? || |buf.value| < 4 then true
    else
      Be32Inverse(buf.value[..4]);
      Be32Dec(buf.value[..4]) > 0
  }

  /** The FREE response the server builds succeeds. */
  lemma FreeRoundTrip()
    ensures !CallbackFree(Some(FreeReply()))
  {
    assert FreeReply()[..4] == Be32(0);
  }
}
