/**
 * The S3 service's packet payloads and their server side
 * (lib/proto_s3/proto_s3.h, lib/proto_s3/proto_s3_server.c).  A request is
 * a type word, a bucket name and an object name, each a one-byte length
 * followed by that many bytes with no NUL among them, and then the fields
 * of its type.  A response is a status word, and for GET, RANGE and HEAD a
 * length word and possibly the data.
 */
module ProtoS3 {
  import opened Wrappers
  import opened Bytes
  import opened CRC32C
  import Wire

  const PUT: u32 := 0x0001_0000
  const GET: u32 := 0x0001_0010
  const RANGE: u32 := 0x0001_0011
  const HEAD: u32 := 0x0001_0020
  const DELETE: u32 := 0x0001_0030
  const NONE: u32 := 0xffff_ffff

  /** A request, by type: PUT carries the object data, GET a size limit, RANGE an offset and a length. */
  datatype Request =
    | Put(bucket: seq<byte>, obj: seq<byte>, data: seq<byte>)
    | Get(bucket: seq<byte>, obj: seq<byte>, maxlen: u32)
    | Range(bucket: seq<byte>, obj: seq<byte>, offset: u32, len: u32)
    | Head(bucket: seq<byte>, obj: seq<byte>)
    | Delete(bucket: seq<byte>, obj: seq<byte>)

  function TypeOf(req: Request): u32
  {
    match req
    case Put(_, _, _) => PUT
    case Get(_, _, _) => GET
    case Range(_, _, _, _) => RANGE
    case Head(_, _) => HEAD
    case Delete(_, _) => DELETE
  }

  /** A name a request can carry: at most 255 bytes, none of them NUL. */
  predicate ValidName(s: seq<byte>)
  {
    |s| <= 255 && 0 !in s
  }

  /** A request that has an encoding: valid names, and PUT data whose length fits in a word. */
  predicate WellFormed(req: Request)
  {
    ValidName(req.bucket) && ValidName(req.obj) && (req.Put? ==> |req.data| <= UINT32_MAX)
  }

  /** A length-prefixed name. */
  function Lp(s: seq<byte>): (r: seq<byte>)
    requires |s| <= 255
    ensures |r| == 1 + |s|
  {
    [|s| as byte] + s
  }

  /** The fields after the two names. */
  function Fields(req: Request): (r: seq<byte>)
    requires req.Put? ==> |req.data| <= UINT32_MAX
  {
    match req
    case Put(_, _, d) => Be32(|d|) + d
    case Get(_, _, m) => Be32(m)
    case Range(_, _, o, l) => Be32(o) + Be32(l)
    case Head(_, _) => []
    case Delete(_, _) => []
  }

  /** The payload of a request, in the layout the S3 client builds it. */
  function Encode(req: Request): (r: seq<byte>)
    requires WellFormed(req)
  {
    Be32(TypeOf(req)) + Lp(req.bucket) + Lp(req.obj) + Fields(req)
  }

  /**
   * mkstr: the name at pos and the position after it, or None when the
   * length byte or the name overruns the packet, or the name holds a NUL.
   */
  function Name(buf: seq<byte>, pos: nat): Option<(seq<byte>, nat)>
  {
    if |buf| < pos + 1 then None
    else
      var slen := buf[pos] as nat;
      if |buf| < pos + 1 + slen then None
      else
        var s := buf[pos + 1..pos + 1 + slen];
        if 0 in s then None else Some((s, pos + 1 + slen))
  }

  /** The fields of a request of type t after its names, which end at pos; None if the length is not exact. */
  function ParseFields(t: u32, b: seq<byte>, o: seq<byte>, buf: seq<byte>, pos: nat): Option<Request>
    requires pos <= |buf|
  {
    if t == PUT then
      if |buf| < pos + 4 then None
      else if |buf| != pos + 4 + Be32Dec(buf[pos..pos + 4]) then None
      else Some(Put(b, o, buf[pos + 4..]))
    else if t == GET then
      if |buf| != pos + 4 then None else Some(Get(b, o, Be32Dec(buf[pos..pos + 4])))
    else if t == RANGE then
      if |buf| != pos + 8 then None else Some(Range(b, o, Be32Dec(buf[pos..pos + 4]), Be32Dec(buf[pos + 4..pos + 8])))
    else if t == HEAD then
      if |buf| != pos then None else Some(Head(b, o))
    else if t == DELETE then
      if |buf| != pos then None else Some(Delete(b, o))
    else None
  }

  /** proto_s3_request_parse: the type word, the bucket, the object, then the fields of the type. */
  function ParseRequest(buf: seq<byte>): Option<Request>
  {
    if |buf| < 4 then None
    else
      match Name(buf, 4)
      case None => None
      case Some((b, p)) =>
        match Name(buf, p)
        case None => None
        case Some((o, q)) => ParseFields(Be32Dec(buf[..4]), b, o, buf, q)
  }

  /* mkstr reads back a length-prefixed name, and only that. */

  lemma NameOfLp(s: seq<byte>, pre: seq<byte>, rest: seq<byte>)
    requires ValidName(s)
    ensures Name(pre + Lp(s) + rest, |pre|) == Some((s, |pre| + 1 + |s|))
  {
    var buf := pre + Lp(s) + rest;
    assert buf[|pre|] == |s|;
    assert buf[|pre| + 1..|pre| + 1 + |s|] == s;
  }

  lemma NameIsLp(buf: seq<byte>, pos: nat)
    requires Name(buf, pos).Some?
    ensures var (s, p) := Name(buf, pos).value;
      ValidName(s) && p == pos + 1 + |s| <= |buf| && buf[pos..p] == Lp(s)
  {
    var (s, p) := Name(buf, pos).value;
    assert buf[pos..p] == [buf[pos]] + buf[pos + 1..p];
  }

  /** The server parses every well-formed request back from its encoding. */
  lemma ParseEncode(req: Request)
    requires WellFormed(req)
    ensures ParseRequest(Encode(req)) == Some(req)
  {
    var t, b, o, f := Be32(TypeOf(req)), req.bucket, req.obj, Fields(req);
    var e := Encode(req);
    assert e == t + Lp(b) + (Lp(o) + f);
    NameOfLp(b, t, Lp(o) + f);
    assert e == (t + Lp(b)) + Lp(o) + f;
    NameOfLp(o, t + Lp(b), f);
    var q := 6 + |b| + |o|;
    assert e[..4] == t;
    assert e[q..] == f;
    FieldsRoundTrip(req, e, q);
  }

  lemma FieldsRoundTrip(req: Request, e: seq<byte>, q: nat)
    requires WellFormed(req) && q <= |e| && e[q..] == Fields(req)
    ensures ParseFields(TypeOf(req), req.bucket, req.obj, e, q) == Some(req)
  {
    match req
    case Put(_, _, d) =>
      assert e[q..q + 4] == Be32(|d|) && e[q + 4..] == d;
    case Get(_, _, m) =>
      assert e[q..q + 4] == Be32(m);
    case Range(_, _, o, l) =>
      assert e[q..q + 4] == Be32(o) && e[q + 4..q + 8] == Be32(l);
    case Head(_, _) =>
    case Delete(_, _) =>
  }

  /** Whatever the server parses is well formed and is exactly the packet it came from. */
  lemma ParseIsEncoding(buf: seq<byte>)
    requires ParseRequest(buf).Some?
    ensures WellFormed(ParseRequest(buf).value) && Encode(ParseRequest(buf).value) == buf
  {
    var req := ParseRequest(buf).value;
    var (b, p) := Name(buf, 4).value;
    var (o, q) := Name(buf, p).value;
    NameIsLp(buf, 4);
    NameIsLp(buf, p);
    Be32Inverse(buf[..4]);
    FieldsAreEncoding(Be32Dec(buf[..4]), b, o, buf, q);
    assert buf == buf[..4] + buf[4..p] + buf[p..q] + buf[q..];
  }

  lemma FieldsAreEncoding(t: u32, b: seq<byte>, o: seq<byte>, buf: seq<byte>, q: nat)
    requires q <= |buf| && ParseFields(t, b, o, buf, q).Some?
    ensures var req := ParseFields(t, b, o, buf, q).value;
      req.bucket == b && req.obj == o && TypeOf(req) == t
      && (req.Put? ==> |req.data| <= UINT32_MAX) && Fields(req) == buf[q..]
  {
    if t == PUT {
      PutFieldsAreEncoding(b, o, buf, q);
    } else if t == GET {
      Be32Inverse(buf[q..q + 4]);
      assert buf[q..] == buf[q..q + 4];
    } else if t == RANGE {
      RangeFieldsAreEncoding(b, o, buf, q);
    }
  }

  lemma PutFieldsAreEncoding(b: seq<byte>, o: seq<byte>, buf: seq<byte>, q: nat)
    requires q + 4 <= |buf| == q + 4 + Be32Dec(buf[q..q + 4])
    ensures Fields(Put(b, o, buf[q + 4..])) == buf[q..]
  {
    Be32Inverse(buf[q..q + 4]);
    assert buf[q..] == buf[q..q + 4] + buf[q + 4..];
  }

  lemma RangeFieldsAreEncoding(b: seq<byte>, o: seq<byte>, buf: seq<byte>, q: nat)
    requires q + 8 == |buf|
    ensures Fields(Range(b, o, Be32Dec(buf[q..q + 4]), Be32Dec(buf[q + 4..q + 8]))) == buf[q..]
  {
    Be32Inverse(buf[q..q + 4]);
    Be32Inverse(buf[q + 4..q + 8]);
    assert buf[q..] == buf[q..q + 4] + buf[q + 4..q + 8];
  }

  /** A packet parses to req exactly when it is req's encoding. */
  lemma ParseIff(buf: seq<byte>, req: Request)
    ensures ParseRequest(buf) == Some(req) <==> WellFormed(req) && Encode(req) == buf
  {
    if ParseRequest(buf) == Some(req) {
      ParseIsEncoding(buf);
    }
    if WellFormed(req) && Encode(req) == buf {
      ParseEncode(req);
    }
  }

  /* The server's request parser. */

  /**
   * mkstr with *pos as an in-out position: the name at pos and the
   * position after it; on failure the position has moved past the length
   * byte if there was one.
   */
  method MkStr(buf: seq<byte>, pos: nat) returns (s: Option<seq<byte>>, newPos: nat)
    ensures s.None? <==> Name(buf, pos).None?
    ensures s.Some? ==> (s.value, newPos) == Name(buf, pos).value
    ensures s.None? ==> newPos == if |buf| < pos + 1 then pos else pos + 1
  {
    newPos := pos;
    if |buf| < newPos + 1 {
      return None, newPos;
    }
    var slen := buf[newPos] as nat;
    newPos := newPos + 1;
    if |buf| < newPos + slen {
      return None, newPos;
    }
    var name := buf[newPos..newPos + slen];
    for i := 0 to slen
      invariant 0 !in name[..i]
    {
      if name[i] == 0 {
        return None, newPos;
      }
      assert name[..i + 1] == name[..i] + [name[i]];
    }
    assert name[..slen] == name;
    s := Some(name);
    newPos := newPos + slen;
  }

  /**
   * struct proto_s3_request: the ID, the type, the two names and the
   * fields of the type; putBuf is the copy of a PUT's data.
   */
  class RequestRecord {
    var ID: u64
    var rtype: u32
    var bucket: seq<byte>
    var obj: seq<byte>
    var putLen: u32
    var putBuf: array<byte>
    var maxlen: u32
    var offset: u32
    var len: u32

    constructor ()
    {
      ID := 0;
      rtype := NONE;
      bucket, obj := [], [];
      putLen, maxlen, offset, len := 0, 0, 0, 0;
      putBuf := new byte[0];
    }

    /** The record holds req: its type, its names and its fields. */
    predicate Holds(req: Request)
      reads this, putBuf
    {
      && rtype == TypeOf(req) && bucket == req.bucket && obj == req.obj
      && match req
         case Put(_, _, d) => putLen == |d| && putBuf[..] == d
         case Get(_, _, m) => maxlen == m
         case Range(_, _, o, l) => offset == o && len == l
         case Head(_, _) => true
         case Delete(_, _) => true
    }
  }

  /**
   * proto_s3_request_parse: 0 with the request stored in R when the packet
   * parses, -1 otherwise; the packet ID is stored either way.  A PUT's data
   * is copied into a new buffer.
   */
  method RequestParse(id: u64, buf: seq<byte>, R: RequestRecord) returns (rc: int)
    modifies R
    ensures R.ID == id
    ensures rc == 0 || rc == -1
    ensures rc == 0 <==> ParseRequest(buf).Some?
    ensures rc == 0 ==> R.Holds(ParseRequest(buf).value)
    ensures rc == 0 && R.rtype == PUT ==> fresh(R.putBuf)
  {
    R.ID := id;
    if |buf| < 4 {
      return -1;
    }
    R.rtype := Be32Dec(buf[..4]);
    var b, p := MkStr(buf, 4);
    if b.None? {
      return -1;
    }
    R.bucket := b.value;
    var o, q := MkStr(buf, p);
    if o.None? {
      return -1;
    }
    R.obj := o.value;
    NameIsLp(buf, p);
    rc := RequestFields(buf, q, R);
  }

  /** The switch on the request type in proto_s3_request_parse, with the names already in R. */
  method RequestFields(buf: seq<byte>, pos: nat, R: RequestRecord) returns (rc: int)
    requires pos <= |buf|
    modifies R
    ensures R.ID == old(R.ID) && R.rtype == old(R.rtype) && R.bucket == old(R.bucket) && R.obj == old(R.obj)
    ensures rc == 0 || rc == -1
    ensures rc == 0 <==> ParseFields(R.rtype, R.bucket, R.obj, buf, pos).Some?
    ensures rc == 0 ==> R.Holds(ParseFields(R.rtype, R.bucket, R.obj, buf, pos).value)
    ensures rc == 0 && R.rtype == PUT ==> fresh(R.putBuf)
  {
    if R.rtype == PUT {
      if |buf| < pos + 4 {
        return -1;
      }
      R.putLen := Be32Dec(buf[pos..pos + 4]);
      if |buf| != pos + 4 + R.putLen {
        return -1;
      }
      var copy := new byte[R.putLen];
      Bytes.Put(copy, 0, buf[pos + 4..]);
      assert copy[..] == copy[..R.putLen];
      R.putBuf := copy;
    } else if R.rtype == GET {
      if |buf| != pos + 4 {
        return -1;
      }
      R.maxlen := Be32Dec(buf[pos..pos + 4]);
    } else if R.rtype == RANGE {
      if |buf| != pos + 8 {
        return -1;
      }
      R.offset := Be32Dec(buf[pos..pos + 4]);
      R.len := Be32Dec(buf[pos + 4..pos + 8]);
    } else if R.rtype == HEAD || R.rtype == DELETE {
      if |buf| != pos {
        return -1;
      }
    } else {
      return -1;
    }
    return 0;
  }

  /* Responses. */

  /** The status word: the C int status converted to 32 bits, modulo 2^32. */
  function StatusWord(status: int): u32
  {
    status % 0x1_0000_0000
  }

  /** The PUT and DELETE response: the status word alone. */
  function StatusReply(status: int): (r: seq<byte>)
    ensures |r| == 4
  {
    Be32(StatusWord(status))
  }

  /** Whether a GET, RANGE or HEAD response carries data: a buffer, and a length that is not -1. */
  predicate HasData(len: u32, buf: Option<seq<byte>>)
  {
    buf.Some? && len != NONE
  }

  /** The GET, RANGE and HEAD response: status, length, then len bytes of buf when it has data. */
  function DataReply(status: int, len: u32, buf: Option<seq<byte>>): (r: seq<byte>)
    requires HasData(len, buf) ==> len <= |buf.value|
    ensures |r| == 8 + (if HasData(len, buf) then len else 0)
  {
    Be32(StatusWord(status)) + Be32(len) + (if HasData(len, buf) then buf.value[..len] else [])
  }

  /** The S3 client's check of a PUT or DELETE response: exactly 4 bytes. */
  function ReadStatus(r: seq<byte>): Option<u32>
  {
    if |r| != 4 then None else Some(Be32Dec(r))
  }

  /** The S3 client's check of a GET or RANGE response: 8 bytes, then exactly len bytes unless len is -1. */
  function ReadData(r: seq<byte>): Option<(u32, u32, seq<byte>)>
  {
    if |r| < 8 then None
    else
      var len := Be32Dec(r[4..8]);
      if len != NONE && |r| != 8 + len then None
      else if len == NONE && |r| != 8 then None
      else Some((Be32Dec(r[..4]), len, r[8..]))
  }

  /** The S3 client's check of a HEAD response: exactly 8 bytes. */
  function ReadHead(r: seq<byte>): Option<(u32, u32)>
  {
    if |r| != 8 then None else Some((Be32Dec(r[..4]), Be32Dec(r[4..8])))
  }

  lemma StatusRoundTrip(status: int)
    ensures ReadStatus(StatusReply(status)) == Some(StatusWord(status))
  {
  }

  /** A data response made from a buffer, or with length -1, reads back as its status, length and data. */
  lemma DataRoundTrip(status: u32, len: u32, buf: Option<seq<byte>>)
    requires HasData(len, buf) ==> len <= |buf.value|
    requires buf.Some? || len == NONE
    ensures ReadData(DataReply(status, len, buf)) == Some((status, len, if HasData(len, buf) then buf.value[..len] else []))
  {
    var w := StatusWord(status);
    var head := Be32(w) + Be32(len);
    var tail := if HasData(len, buf) then buf.value[..len] else [];
    var r := DataReply(status, len, buf);
    assert r == head + tail;
    assert r[..4] == head[..4] == Be32(w);
    assert r[4..8] == head[4..8] == Be32(len);
    assert r[8..] == tail;
    assert Be32Dec(r[..4]) == status && Be32Dec(r[4..8]) == len;
  }

  /** The HEAD response, made without a buffer, reads back as its status and length. */
  lemma HeadRoundTrip(status: u32, len: u32)
    ensures ReadHead(DataReply(status, len, None)) == Some((status, len))
  {
    var r := DataReply(status, len, None);
    assert r[..4] == Be32(status) && r[4..8] == Be32(len);
  }

  /** proto_s3_response_status: the status word, framed with the request ID. */
  method ResponseStatus(Q: Wire.Writer, tables: Tables, id: u64, status: int, sizeMax: nat)
    returns (rc: int)
    requires tables.Valid() && 4 + 20 <= sizeMax
    modifies Q, tables
    ensures tables.Valid()
    ensures rc == 0 && Q.out == old(Q.out) + Wire.Frame(id, StatusReply(status))
  {
    var wbuf := new byte[4];
    Bytes.Put(wbuf, 0, Be32(StatusWord(status)));
    assert wbuf[..] == wbuf[..4] == StatusReply(status);
    rc := Wire.WritePacket(Q, tables, id, wbuf[..], sizeMax);
  }

  /**
   * proto_s3_response_data: the status word and the length, then len bytes
   * of buf when there is a buffer and the length is not -1; buf is read
   * only then.
   */
  method ResponseData(Q: Wire.Writer, tables: Tables, id: u64, status: int, len: u32, buf: Option<seq<byte>>, sizeMax: nat)
    returns (rc: int)
    requires HasData(len, buf) ==> len <= |buf.value|
    requires tables.Valid() && 8 + (if HasData(len, buf) then len else 0) + 20 <= sizeMax
    requires 8 + (if HasData(len, buf) then len else 0) <= UINT32_MAX
    modifies Q, tables
    ensures tables.Valid()
    ensures rc == 0 && Q.out == old(Q.out) + Wire.Frame(id, DataReply(status, len, buf))
  {
    var rlen := 8 + (if HasData(len, buf) then len else 0);
    var wbuf := new byte[rlen];
    Bytes.Put(wbuf, 0, Be32(StatusWord(status)));
    Bytes.Put(wbuf, 4, Be32(len));
    assert wbuf[..8] == Be32(StatusWord(status)) + Be32(len);
    if HasData(len, buf) {
      Bytes.Put(wbuf, 8, buf.value[..len]);
    }
    assert wbuf[..] == wbuf[..rlen] == DataReply(status, len, buf);
    rc := Wire.WritePacket(Q, tables, id, wbuf[..], sizeMax);
  }
}
