/**
 * The block-store service's server side (lib/proto_lbs/proto_lbs_server.c):
 * parsing a request packet into a request record, and building the
 * PARAMS, PARAMS2, GET, APPEND and FREE responses.
 */
module ProtoLbsServer {
  import opened Wrappers
  import opened Bytes
  import opened ProtoLbs
  import opened CRC32C
  import Wire

  /**
   * proto_lbs_request_parse: the request a packet holds, or None.  Every
   * type has an exact length, except APPEND, whose data after the 16-byte
   * head must split into nblks > 0 blocks of equal length.
   */
  function ParseRequest(buf: seq<byte>): (r: Option<Request>)
    requires |buf| <= UINT32_MAX
  {
    if |buf| < 4 then None
    else
      var t := Be32Dec(buf[..4]);
      if t == PARAMS || t == PARAMS2 then
        if |buf| != 4 then None else if t == PARAMS then Some(Params) else Some(Params2)
      else if t == GET || t == FREE then
        if |buf| != 12 then None
        else
          var b := Be64Dec(buf[4..12]);
          if t == GET then Some(Get(b)) else Some(Free(b))
      else if t == APPEND then
        if |buf| < 16 then None
        else
          var nblks := Be32Dec(buf[4..8]);
          if nblks == 0 || (|buf| - 16) % nblks != 0 then None
          else Some(Append(nblks, Be64Dec(buf[8..16]), (|buf| - 16) / nblks, buf[16..]))
      else None
  }

  /** The server takes back every well-formed request the client encodes. */
  lemma ParseEncode(req: Request)
    requires WellFormed(req)
    ensures ParseRequest(Encode(req)) == Some(req)
  {
    var e := Encode(req);
    assert e[..4] == Be32(TypeOf(req));
    match req
    case Params =>
    case Params2 =>
    case Get(b) =>
      assert e[4..12] == Be64(b);
    case Free(b) =>
      assert e[4..12] == Be64(b);
    case Append(n, b, l, d) =>
      assert e[4..8] == Be32(n) && e[8..16] == Be64(b) && e[16..] == d;
      assert |e| - 16 == n * l;
      DivExact(n, l);
  }

  /** n * l splits back into n parts of l. */
  lemma DivExact(n: nat, l: nat)
    requires n > 0
    ensures (n * l) % n == 0 && (n * l) / n == l
  {
    var q, r := (n * l) / n, (n * l) % n;
    assert n * l == n * q + r && 0 <= r < n;
    assert n * (l - q) == r by {
      assert n * (l - q) == n * l - n * q;
    }
    if l - q >= 1 {
      MulAtLeast(n, l - q);
    } else if l - q <= -1 {
      assert n * (q - l) == -(n * (l - q));
      MulAtLeast(n, q - l);
    }
  }

  /** A positive multiple of n is at least n. */
  lemma MulAtLeast(n: nat, k: int)
    requires k >= 1
    ensures n * k >= n
  {
    assert n * k == n * (k - 1) + n;
  }

  /** A packet the server accepts is exactly the encoding of the request it parses to. */
  lemma ParseIsEncoding(buf: seq<byte>)
    requires |buf| <= UINT32_MAX && ParseRequest(buf).Some?
    ensures WellFormed(ParseRequest(buf).value) && Encode(ParseRequest(buf).value) == buf
  {
    var req := ParseRequest(buf).value;
    Be32Inverse(buf[..4]);
    if req.Append? {
      AppendIsEncoding(buf);
    } else if req.Get? || req.Free? {
      Be64Inverse(buf[4..12]);
      assert buf == buf[..4] + buf[4..12];
    } else {
      assert buf == buf[..4];
    }
  }

  /** The APPEND case of ParseIsEncoding. */
  lemma AppendIsEncoding(buf: seq<byte>)
    requires 16 <= |buf| <= UINT32_MAX && Be32(Be32Dec(buf[..4])) == buf[..4]
    requires ParseRequest(buf).Some? && ParseRequest(buf).value.Append?
    ensures WellFormed(ParseRequest(buf).value) && Encode(ParseRequest(buf).value) == buf
  {
    var n := Be32Dec(buf[4..8]);
    Be32Inverse(buf[4..8]);
    Be64Inverse(buf[8..16]);
    DivMul(|buf| - 16, n);
    assert buf == buf[..4] + buf[4..8] + buf[8..16] + buf[16..];
  }

  /** A length divisible by n is n times its quotient. */
  lemma DivMul(len: nat, n: nat)
    requires n > 0 && len % n == 0
    ensures n * (len / n) == len
  {
  }

  /** A packet is accepted exactly when it is the encoding of a well-formed request. */
  lemma ParseIff(buf: seq<byte>, req: Request)
    requires |buf| <= UINT32_MAX
    ensures ParseRequest(buf) == Some(req) <==> WellFormed(req) && Encode(req) == buf
  {
    if ParseRequest(buf) == Some(req) {
      ParseIsEncoding(buf);
    }
    if WellFormed(req) && Encode(req) == buf {
      ParseEncode(req);
    }
  }

  /**
   * struct proto_lbs_request; the union members' block numbers share one
   * field, and buf is the copy of an APPEND's data.
   */
  class RequestRecord {
    var ID: u64
    var rtype: u32
    var blkno: u64
    var nblks: u32
    var blklen: u32
    var buf: array<byte>

    constructor ()
    {
      ID := 0;
      rtype := NONE;
      blkno, nblks, blklen := 0, 0, 0;
      buf := new byte[0];
    }

    /** The record holds req: its type and its fields. */
    predicate Holds(req: Request)
      reads this, buf
    {
      rtype == TypeOf(req) &&
      match req
      case Params => true
      case Params2 => true
      case Get(b) => blkno == b
      case Free(b) => blkno == b
      case Append(n, b, l, d) => nblks == n && blkno == b && blklen == l && buf[..] == d
    }
  }

  /**
   * proto_lbs_request_parse: 0 with the request stored in R when the packet
   * parses, -1 otherwise; the packet ID is stored either way.  An APPEND's
   * data is copied into a new buffer.
   */
  method RequestParse(id: u64, buf: seq<byte>, R: RequestRecord) returns (rc: int)
    requires |buf| <= UINT32_MAX
    modifies R
    ensures R.ID == id
    ensures rc == 0 || rc == -1
    ensures rc == 0 <==> ParseRequest(buf).Some?
    ensures rc == 0 ==> R.Holds(ParseRequest(buf).value)
    ensures rc == 0 && R.rtype == APPEND ==> fresh(R.buf)
  {
    R.ID := id;
    if |buf| < 4 {
      return -1;
    }
    R.rtype := Be32Dec(buf[..4]);
    if R.rtype == PARAMS || R.rtype == PARAMS2 {
      if |buf| != 4 {
        return -1;
      }
    } else if R.rtype == GET || R.rtype == FREE {
      if |buf| != 12 {
        return -1;
      }
      R.blkno := Be64Dec(buf[4..12]);
    } else if R.rtype == APPEND {
      rc := ParseAppend(buf, R);
      return;
    } else {
      return -1;
    }
    return 0;
  }

  /** The APPEND case of proto_lbs_request_parse. */
  method ParseAppend(buf: seq<byte>, R: RequestRecord) returns (rc: int)
    requires 4 <= |buf| <= UINT32_MAX && Be32Dec(buf[..4]) == APPEND && R.rtype == APPEND
    modifies R
    ensures R.ID == old(R.ID) && R.rtype == APPEND
    ensures rc == 0 || rc == -1
    ensures rc == 0 <==> ParseRequest(buf).Some?
    ensures rc == 0 ==> R.Holds(ParseRequest(buf).value) && fresh(R.buf)
  {
    if |buf| < 16 {
      return -1;
    }
    R.nblks := Be32Dec(buf[4..8]);
    R.blkno := Be64Dec(buf[8..16]);
    if R.nblks == 0 {
      return -1;
    }
    if (|buf| - 16) % R.nblks != 0 {
      return -1;
    }
    R.blklen := (|buf| - 16) / R.nblks;
    var copy := new byte[|buf| - 16];
    Put(copy, 0, buf[16..]);
    assert copy[..] == copy[..|buf| - 16];
    R.buf := copy;
    return 0;
  }

  /** proto_lbs_response_params: the block size and the next block, framed with the request ID. */
  method ResponseParams(Q: Wire.Writer, tables: Tables, id: u64, blklen: u32, blkno: u64, sizeMax: nat)
    returns (rc: int)
    requires tables.Valid() && 12 + 20 <= sizeMax
    modifies Q, tables
    ensures tables.Valid()
    ensures rc == 0 && Q.out == old(Q.out) + Wire.Frame(id, ParamsReply(blklen, blkno))
  {
    var wbuf := new byte[12];
    Put(wbuf, 0, Be32(blklen));
    assert wbuf[..4] == Be32(blklen);
    Put(wbuf, 4, Be64(blkno));
    assert wbuf[..] == wbuf[..12] == ParamsReply(blklen, blkno);
    rc := Wire.WritePacket(Q, tables, id, wbuf[..], sizeMax);
  }

  /** proto_lbs_response_params2: the block size, the next block and the last block written. */
  method ResponseParams2(Q: Wire.Writer, tables: Tables, id: u64, blklen: u32, blkno: u64, lastblk: u64, sizeMax: nat)
    returns (rc: int)
    requires tables.Valid() && 20 + 20 <= sizeMax
    modifies Q, tables
    ensures tables.Valid()
    ensures rc == 0 && Q.out == old(Q.out) + Wire.Frame(id, Params2Reply(blklen, blkno, lastblk))
  {
    var wbuf := new byte[20];
    Put(wbuf, 0, Be32(blklen));
    assert wbuf[..4] == Be32(blklen);
    Put(wbuf, 4, Be64(blkno));
    assert wbuf[..12] == Be32(blklen) + Be64(blkno);
    Put(wbuf, 12, Be64(lastblk));
    assert wbuf[..] == wbuf[..20] == Params2Reply(blklen, blkno, lastblk);
    rc := Wire.WritePacket(Q, tables, id, wbuf[..], sizeMax);
  }

  /**
   * proto_lbs_response_get: status 0 followed by the first blklen bytes of
   * buf, or status 1 alone; buf is read only when the status is 0.
   */
  method ResponseGet(Q: Wire.Writer, tables: Tables, id: u64, status: int, blklen: u32, buf: seq<byte>, sizeMax: nat)
    returns (rc: int)
    requires status == 0 || status == 1
    requires status == 0 ==> blklen <= |buf|
    requires tables.Valid() && 4 + blklen + 20 <= sizeMax && 4 + blklen <= UINT32_MAX
    modifies Q, tables
    ensures tables.Valid()
    ensures rc == 0 && Q.out == old(Q.out) + Wire.Frame(id, GetReply(status, if status == 0 then buf[..blklen] else []))
  {
    var len := 4 + (if status == 0 then blklen else 0);
    var wbuf := new byte[len];
    Put(wbuf, 0, Be32(status));
    assert wbuf[..4] == Be32(status);
    if status == 0 {
      Put(wbuf, 4, buf[..blklen]);
    }
    assert wbuf[..] == wbuf[..len] == GetReply(status, if status == 0 then buf[..blklen] else []);
    rc := Wire.WritePacket(Q, tables, id, wbuf[..], sizeMax);
  }

  /** proto_lbs_response_append: status 0 followed by the next block, or status 1 alone. */
  method ResponseAppend(Q: Wire.Writer, tables: Tables, id: u64, status: int, blkno: u64, sizeMax: nat)
    returns (rc: int)
    requires status == 0 || status == 1
    requires tables.Valid() && 12 + 20 <= sizeMax
    modifies Q, tables
    ensures tables.Valid()
    ensures rc == 0 && Q.out == old(Q.out) + Wire.Frame(id, AppendReply(status, blkno))
  {
    var len := if status == 0 then 12 else 4;
    var wbuf := new byte[len];
    Put(wbuf, 0, Be32(status));
    assert wbuf[..4] == Be32(status);
    if status == 0 {
      Put(wbuf, 4, Be64(blkno));
    }
    assert wbuf[..] == wbuf[..len] == AppendReply(status, blkno);
    rc := Wire.WritePacket(Q, tables, id, wbuf[..], sizeMax);
  }

  /** proto_lbs_response_free: status 0. */
  method ResponseFree(Q: Wire.Writer, tables: Tables, id: u64, sizeMax: nat)
    returns (rc: int)
    requires tables.Valid() && 4 + 20 <= sizeMax
    modifies Q, tables
    ensures tables.Valid()
    ensures rc == 0 && Q.out == old(Q.out) + Wire.Frame(id, FreeReply())
  {
    var wbuf := new byte[4];
    Put(wbuf, 0, Be32(0));
    assert wbuf[..] == wbuf[..4] == FreeReply();
    rc := Wire.WritePacket(Q, tables, id, wbuf[..], sizeMax);
  }
}
