/**
 * The key-value service's server side (lib/proto_kvlds/proto_kvlds_server.c):
 * parsing a request packet into a request record, and building the
 * PARAMS, status, GET and RANGE responses.
 */
module ProtoKvldsServer {
  import opened Wrappers
  import opened Bytes
  import opened KvldsKey
  import opened ProtoKvlds
  import opened CRC32C
  import Wire

  /**
   * GRABKEY: the key serialized at pos and the position after it; None when
   * pos is at the end of the buffer or the key runs past it.
   */
  function GrabKey(buf: seq<byte>, pos: nat): (r: Option<(Key, nat)>)
    requires pos <= |buf|
    ensures r.None? <==> (pos == |buf| || |buf| < pos + buf[pos] as int + 1)
    ensures r.Some? ==> pos < r.value.1 <= |buf| && r.value.1 == pos + SerialSize(r.value.0)
    ensures r.Some? ==> buf[pos..(r.value.1)] == Serialize(r.value.0)
  {
    if pos == |buf| then None
    else
      var end := pos + buf[pos] as int + 1;
      if end > |buf| then None else Some((buf[pos + 1..end], end))
  }

  /** GRABKEY takes back a key serialized at pos, whatever surrounds it. */
  lemma GrabKeyAt(buf: seq<byte>, pos: nat, k: Key)
    requires pos + SerialSize(k) <= |buf| && buf[pos..pos + SerialSize(k)] == Serialize(k)
    ensures GrabKey(buf, pos) == Some((k, pos + SerialSize(k)))
  {
    assert buf[pos] == buf[pos..pos + SerialSize(k)][0];
    assert buf[pos + 1..pos + SerialSize(k)] == buf[pos..pos + SerialSize(k)][1..];
  }

  /** Two GRABKEYs in a row. */
  function GrabTwo(buf: seq<byte>, pos: nat): (r: Option<(Key, Key, nat)>)
    requires pos <= |buf|
    ensures r.Some? ==> pos < r.value.2 <= |buf| && buf[pos..(r.value.2)] == Serialize(r.value.0) + Serialize(r.value.1)
  {
    match GrabKey(buf, pos)
    case None => None
    case Some((a, p)) =>
      match GrabKey(buf, p)
      case None => None
      case Some((b, q)) =>
        assert buf[pos..q] == buf[pos..p] + buf[p..q];
        Some((a, b, q))
  }

  /** Three GRABKEYs in a row. */
  function GrabThree(buf: seq<byte>, pos: nat): (r: Option<(Key, Key, Key, nat)>)
    requires pos <= |buf|
    ensures r.Some? ==> pos < r.value.3 <= |buf|
    ensures r.Some? ==> buf[pos..(r.value.3)] == Serialize(r.value.0) + Serialize(r.value.1) + Serialize(r.value.2)
  {
    match GrabKey(buf, pos)
    case None => None
    case Some((a, p)) =>
      match GrabTwo(buf, p)
      case None => None
      case Some((b, c, q)) =>
        assert buf[pos..q] == buf[pos..p] + buf[p..q];
        Some((a, b, c, q))
  }

  lemma GrabTwoAt(buf: seq<byte>, pos: nat, a: Key, b: Key)
    requires pos + SerialSize(a) + SerialSize(b) <= |buf|
    requires buf[pos..pos + SerialSize(a) + SerialSize(b)] == Serialize(a) + Serialize(b)
    ensures GrabTwo(buf, pos) == Some((a, b, pos + SerialSize(a) + SerialSize(b)))
  {
    var p, q := pos + SerialSize(a), pos + SerialSize(a) + SerialSize(b);
    assert buf[pos..p] == buf[pos..q][..SerialSize(a)];
    assert buf[p..q] == buf[pos..q][SerialSize(a)..];
    GrabKeyAt(buf, pos, a);
    GrabKeyAt(buf, p, b);
  }

  lemma GrabThreeAt(buf: seq<byte>, pos: nat, a: Key, b: Key, c: Key)
    requires pos + SerialSize(a) + SerialSize(b) + SerialSize(c) <= |buf|
    requires buf[pos..pos + SerialSize(a) + SerialSize(b) + SerialSize(c)] == Serialize(a) + Serialize(b) + Serialize(c)
    ensures GrabThree(buf, pos) == Some((a, b, c, pos + SerialSize(a) + SerialSize(b) + SerialSize(c)))
  {
    var p, q := pos + SerialSize(a), pos + SerialSize(a) + SerialSize(b) + SerialSize(c);
    assert buf[pos..p] == buf[pos..q][..SerialSize(a)];
    assert buf[p..q] == buf[pos..q][SerialSize(a)..];
    GrabKeyAt(buf, pos, a);
    GrabTwoAt(buf, p, b, c);
  }

  /** DELETE and GET: one key. */
  function OneKey(buf: seq<byte>, t: u32): (r: Option<(Request, nat)>)
    requires 4 <= |buf| && (t == DELETE || t == GET)
    ensures r.Some? ==> 4 <= r.value.1 <= |buf| && TypeOf(r.value.0) == t
    ensures r.Some? ==> buf[4..(r.value.1)] == Fields(r.value.0)
  {
    var g := GrabKey(buf, 4);
    if g.None? then None
    else Some((if t == DELETE then Delete(g.value.0) else Get(g.value.0), g.value.1))
  }

  /** The two-key request of type t. */
  function TwoKeyRequest(t: u32, k: Key, v: Key): Request
  {
    if t == SET then Set(k, v) else if t == ADD then Add(k, v) else if t == MODIFY then Modify(k, v) else Cad(k, v)
  }

  /** SET, ADD and MODIFY: a key and a value; CAD: a key and the old value. */
  function TwoKeys(buf: seq<byte>, t: u32): (r: Option<(Request, nat)>)
    requires 4 <= |buf| && (t == SET || t == ADD || t == MODIFY || t == CAD)
    ensures r.Some? ==> 4 <= r.value.1 <= |buf| && TypeOf(r.value.0) == t
    ensures r.Some? ==> buf[4..(r.value.1)] == Fields(r.value.0)
  {
    var g := GrabTwo(buf, 4);
    if g.None? then None else Some((TwoKeyRequest(t, g.value.0, g.value.1), g.value.2))
  }

  /** CAS: a key, the old value and the new value. */
  function ThreeKeys(buf: seq<byte>): (r: Option<(Request, nat)>)
    requires 4 <= |buf|
    ensures r.Some? ==> 4 <= r.value.1 <= |buf| && TypeOf(r.value.0) == CAS
    ensures r.Some? ==> buf[4..(r.value.1)] == Fields(r.value.0)
  {
    var g := GrabThree(buf, 4);
    if g.None? then None else Some((Cas(g.value.0, g.value.1, g.value.2), g.value.3))
  }

  /** RANGE: the size limit, which must fit in the packet, then the start and end keys, and the position after them. */
  function RangeFields(buf: seq<byte>): (r: Option<(u32, Key, Key, nat)>)
    requires 4 <= |buf|
    ensures r.Some? ==> 8 < r.value.3 <= |buf|
    ensures r.Some? ==> buf[4..(r.value.3)] == Be32(r.value.0) + Serialize(r.value.1) + Serialize(r.value.2)
  {
    if |buf| - 4 < 4 then None
    else
      var g := GrabTwo(buf, 8);
      if g.None? then None
      else
        Be32Inverse(buf[4..8]);
        assert buf[4..g.value.2] == buf[4..8] + buf[8..g.value.2];
        Some((Be32Dec(buf[4..8]), g.value.0, g.value.1, g.value.2))
  }

  /** The fields after the type word, by type, and the position where they end. */
  function ParseFields(buf: seq<byte>, t: u32): (r: Option<(Request, nat)>)
    requires 4 <= |buf|
    ensures r.Some? ==> 4 <= r.value.1 <= |buf| && TypeOf(r.value.0) == t
    ensures r.Some? ==> buf[4..(r.value.1)] == Fields(r.value.0)
  {
    if t == PARAMS then Some((Params, 4))
    else if t == DELETE || t == GET then OneKey(buf, t)
    else if t == SET || t == ADD || t == MODIFY || t == CAD then TwoKeys(buf, t)
    else if t == CAS then ThreeKeys(buf)
    else if t == RANGE then
      match RangeFields(buf)
      case None => None
      case Some((max, start, end, p)) => Some((Range(max, start, end), p))
    else None
  }

  /**
   * What proto_kvlds_request_parse accepts: a packet of 4 to sizeof(blob)
   * bytes whose fields, for a known type, end exactly at the end of the
   * packet. A packet it accepts is the encoding of the request it yields.
   */
  function ParseRequest(buf: seq<byte>): (r: Option<Request>)
    ensures r.Some? ==> Encode(r.value) == buf
  {
    if |buf| < 4 || |buf| > BLOB_SIZE then None
    else
      match ParseFields(buf, Be32Dec(buf[..4]))
      case None => None
      case Some((req, end)) =>
        if end == |buf| then
          Be32Inverse(buf[..4]);
          assert buf == buf[..4] + buf[4..];
          Some(req)
        else None
  }

  /** The server parses every request the client encodes back into that request. */
  lemma ParseEncode(req: Request)
    ensures ParseRequest(Encode(req)) == Some(req)
  {
    var buf := Encode(req);
    assert buf[..4] == Be32(TypeOf(req));
    if req.Delete? || req.Get? {
      FieldsOneKey(req);
    } else if req.Set? || req.Add? || req.Modify? || req.Cad? {
      FieldsTwoKeys(req);
    } else if req.Cas? {
      FieldsThreeKeys(req);
    } else if req.Range? {
      FieldsRange(req);
    }
  }

  lemma FieldsOneKey(req: Request)
    requires req.Delete? || req.Get?
    ensures ParseFields(Encode(req), TypeOf(req)) == Some((req, |Encode(req)|))
  {
    var buf := Encode(req);
    assert buf[4..4 + SerialSize(req.key)] == Serialize(req.key);
    GrabKeyAt(buf, 4, req.key);
    assert OneKey(buf, TypeOf(req)) == Some((req, |buf|));
  }

  lemma FieldsTwoKeys(req: Request)
    requires req.Set? || req.Add? || req.Modify? || req.Cad?
    ensures ParseFields(Encode(req), TypeOf(req)) == Some((req, |Encode(req)|))
  {
    var buf := Encode(req);
    if req.Cad? {
      assert buf[4..] == Serialize(req.key) + Serialize(req.oval);
      TwoKeysAt(buf, CAD, req.key, req.oval, req);
    } else {
      assert buf[4..] == Serialize(req.key) + Serialize(req.value);
      TwoKeysAt(buf, TypeOf(req), req.key, req.value, req);
    }
  }

  lemma TwoKeysAt(buf: seq<byte>, t: u32, k: Key, v: Key, req: Request)
    requires 4 <= |buf| && buf[4..] == Serialize(k) + Serialize(v)
    requires t == SET || t == ADD || t == MODIFY || t == CAD
    requires req == TwoKeyRequest(t, k, v)
    ensures ParseFields(buf, t) == Some((req, |buf|))
  {
    assert buf[4..|buf|] == buf[4..];
    GrabTwoAt(buf, 4, k, v);
  }

  lemma FieldsThreeKeys(req: Request)
    requires req.Cas?
    ensures ParseFields(Encode(req), TypeOf(req)) == Some((req, |Encode(req)|))
  {
    var buf := Encode(req);
    assert buf[4..] == Serialize(req.key) + Serialize(req.oval) + Serialize(req.value);
    assert buf[4..|buf|] == buf[4..];
    GrabThreeAt(buf, 4, req.key, req.oval, req.value);
    assert ThreeKeys(buf) == Some((req, |buf|));
  }

  lemma FieldsRange(req: Request)
    requires req.Range?
    ensures ParseFields(Encode(req), TypeOf(req)) == Some((req, |Encode(req)|))
  {
    var buf := Encode(req);
    assert buf[4..] == Be32(req.max) + Serialize(req.start) + Serialize(req.end);
    assert buf[4..8] == buf[4..][..4] == Be32(req.max);
    assert Be32Dec(buf[4..8]) == req.max;
    assert buf[8..|buf|] == buf[4..][4..];
    GrabTwoAt(buf, 8, req.start, req.end);
    assert RangeFields(buf) == Some((req.max, req.start, req.end, |buf|));
  }

  /**
   * struct proto_kvlds_request, with the keys held by value; range_start
   * and range_end are the key and value fields, as in the source.
   */
  class RequestRecord {
    var ID: u64
    var rtype: u32
    var rangeMax: u32
    var key: Option<Key>
    var value: Option<Key>
    var oval: Option<Key>

    constructor ()
      ensures key == None && value == None && oval == None
    {
      ID := 0;
      rtype := NONE;
      rangeMax := 0;
      key, value, oval := None, None, None;
    }

    /** The record holds req: its type, its keys, and no key it does not carry. */
    predicate Holds(req: Request)
      reads this
    {
      rtype == TypeOf(req) &&
      match req
      case Params => key == None && value == None && oval == None
      case Set(k, v) => key == Some(k) && value == Some(v) && oval == None
      case Add(k, v) => key == Some(k) && value == Some(v) && oval == None
      case Modify(k, v) => key == Some(k) && value == Some(v) && oval == None
      case Delete(k) => key == Some(k) && value == None && oval == None
      case Get(k) => key == Some(k) && value == None && oval == None
      case Cad(k, o) => key == Some(k) && value == None && oval == Some(o)
      case Cas(k, o, v) => key == Some(k) && value == Some(v) && oval == Some(o)
      case Range(m, s, e) => rangeMax == m && key == Some(s) && value == Some(e) && oval == None
    }
  }

  /**
   * proto_kvlds_request_parse: 0 with the request stored in R when the
   * packet parses, -1 otherwise; the packet ID is stored either way.
   */
  method RequestParse(id: u64, buf: seq<byte>, R: RequestRecord) returns (rc: int)
    modifies R
    ensures R.ID == id
    ensures rc == 0 || rc == -1
    ensures rc == 0 <==> ParseRequest(buf).Some?
    ensures rc == 0 ==> R.Holds(ParseRequest(buf).value)
  {
    R.ID := id;
    R.key, R.oval, R.value := None, None, None;
    if |buf| < 4 {
      return -1;
    }
    if |buf| > BLOB_SIZE {
      return -1;
    }
    R.rtype := Be32Dec(buf[..4]);
    var t := R.rtype;
    var bufpos: nat := 4;
    ghost var f := ParseFields(buf, t);
    ParseRequestFields(buf);
    if t == PARAMS {
      rc := 0;
    } else if t == DELETE || t == GET {
      rc, bufpos := ParseOneKey(buf, t, R);
    } else if t == SET || t == ADD || t == MODIFY || t == CAD {
      rc, bufpos := ParseTwoKeys(buf, t, R);
    } else if t == CAS {
      rc, bufpos := ParseThreeKeys(buf, R);
    } else if t == RANGE {
      rc, bufpos := ParseRange(buf, R);
    } else {
      return -1;
    }
    if rc != 0 {
      return -1;
    }
    assert f.Some? && bufpos == f.value.1 && R.Holds(f.value.0);
    if bufpos != |buf| {
      return -1;
    }
    return 0;
  }

  /** ParseRequest, for a packet of acceptable length, in terms of ParseFields. */
  lemma ParseRequestFields(buf: seq<byte>)
    requires 4 <= |buf| <= BLOB_SIZE
    ensures var f := ParseFields(buf, Be32Dec(buf[..4]));
      ParseRequest(buf) == if f.Some? && f.value.1 == |buf| then Some(f.value.0) else None
  {
  }

  /** The DELETE and GET arm: one GRABKEY into the key. */
  method ParseOneKey(buf: seq<byte>, t: u32, R: RequestRecord) returns (rc: int, bufpos: nat)
    requires 4 <= |buf| && (t == DELETE || t == GET)
    requires R.rtype == t && R.key == None && R.value == None && R.oval == None
    modifies R
    ensures R.ID == old(R.ID) && R.rtype == t
    ensures rc == 0 <==> OneKey(buf, t).Some?
    ensures rc == 0 ==> bufpos == OneKey(buf, t).value.1 && R.Holds(OneKey(buf, t).value.0)
  {
    var g := GrabKey(buf, 4);
    if g.None? {
      return -1, 4;
    }
    R.key, bufpos := Some(g.value.0), g.value.1;
    rc := 0;
  }

  /** The SET, ADD and MODIFY arm (key, then value) and the CAD arm (key, then old value). */
  method ParseTwoKeys(buf: seq<byte>, t: u32, R: RequestRecord) returns (rc: int, bufpos: nat)
    requires 4 <= |buf| && (t == SET || t == ADD || t == MODIFY || t == CAD)
    requires R.rtype == t && R.key == None && R.value == None && R.oval == None
    modifies R
    ensures R.ID == old(R.ID) && R.rtype == t
    ensures rc == 0 <==> TwoKeys(buf, t).Some?
    ensures rc == 0 ==> bufpos == TwoKeys(buf, t).value.1 && R.Holds(TwoKeys(buf, t).value.0)
  {
    var g := GrabKey(buf, 4);
    if g.None? {
      return -1, 4;
    }
    R.key, bufpos := Some(g.value.0), g.value.1;
    g := GrabKey(buf, bufpos);
    if g.None? {
      return -1, bufpos;
    }
    if t == CAD {
      R.oval := Some(g.value.0);
    } else {
      R.value := Some(g.value.0);
    }
    bufpos := g.value.1;
    rc := 0;
  }

  /** The CAS arm: the key, the old value, then the new value. */
  method ParseThreeKeys(buf: seq<byte>, R: RequestRecord) returns (rc: int, bufpos: nat)
    requires 4 <= |buf|
    requires R.rtype == CAS && R.key == None && R.value == None && R.oval == None
    modifies R
    ensures R.ID == old(R.ID) && R.rtype == CAS
    ensures rc == 0 <==> ThreeKeys(buf).Some?
    ensures rc == 0 ==> bufpos == ThreeKeys(buf).value.1 && R.Holds(ThreeKeys(buf).value.0)
  {
    var g := GrabKey(buf, 4);
    if g.None? {
      return -1, 4;
    }
    R.key, bufpos := Some(g.value.0), g.value.1;
    g := GrabKey(buf, bufpos);
    if g.None? {
      return -1, bufpos;
    }
    R.oval, bufpos := Some(g.value.0), g.value.1;
    g := GrabKey(buf, bufpos);
    if g.None? {
      return -1, bufpos;
    }
    R.value, bufpos := Some(g.value.0), g.value.1;
    rc := 0;
  }

  /** The RANGE arm: the size limit, if four bytes remain, then the start and end keys. */
  method ParseRange(buf: seq<byte>, R: RequestRecord) returns (rc: int, bufpos: nat)
    requires 4 <= |buf|
    requires R.rtype == RANGE && R.key == None && R.value == None && R.oval == None
    modifies R
    ensures R.ID == old(R.ID) && R.rtype == RANGE
    ensures rc == 0 <==> RangeFields(buf).Some?
    ensures rc == 0 ==> var (max, start, end, p) := RangeFields(buf).value; bufpos == p && R.Holds(Range(max, start, end))
  {
    bufpos := 4;
    if |buf| - bufpos < 4 {
      return -1, bufpos;
    }
    R.rangeMax := Be32Dec(buf[bufpos..bufpos + 4]);
    bufpos := bufpos + 4;
    var g := GrabKey(buf, bufpos);
    if g.None? {
      return -1, bufpos;
    }
    R.key, bufpos := Some(g.value.0), g.value.1;
    g := GrabKey(buf, bufpos);
    if g.None? {
      return -1, bufpos;
    }
    R.value, bufpos := Some(g.value.0), g.value.1;
    rc := 0;
  }

  /**
   * proto_kvlds_response_params: the 8-byte PARAMS response, kmax then
   * vmax, framed with the request ID.
   */
  method ResponseParams(Q: Wire.Writer, tables: Tables, id: u64, kmax: u32, vmax: u32, sizeMax: nat)
    returns (rc: int)
    requires tables.Valid() && 28 <= sizeMax
    modifies Q, tables
    ensures tables.Valid()
    ensures rc == 0 && Q.out == old(Q.out) + Wire.Frame(id, ParamsReply(kmax, vmax))
  {
    var wbuf := new byte[8];
    Put(wbuf, 0, Be32(kmax));
    assert wbuf[..4] == Be32(kmax);
    Put(wbuf, 4, Be32(vmax));
    assert wbuf[..] == wbuf[..8] == ParamsReply(kmax, vmax);
    rc := Wire.WritePacket(Q, tables, id, wbuf[..], sizeMax);
  }

  /** proto_kvlds_response_status: the 4-byte status response; the status is 0 or 1. */
  method ResponseStatus(Q: Wire.Writer, tables: Tables, id: u64, status: int, sizeMax: nat)
    returns (rc: int)
    requires status == 0 || status == 1
    requires tables.Valid() && 24 <= sizeMax
    modifies Q, tables
    ensures tables.Valid()
    ensures rc == 0 && Q.out == old(Q.out) + Wire.Frame(id, StatusReply(status))
  {
    var wbuf := new byte[4];
    Put(wbuf, 0, Be32(status));
    assert wbuf[..] == wbuf[..4] == StatusReply(status);
    rc := Wire.WritePacket(Q, tables, id, wbuf[..], sizeMax);
  }

  /**
   * proto_kvlds_response_get: status 0 followed by the value, or status 1
   * alone; the value is read only when the status is 0.
   */
  method ResponseGet(Q: Wire.Writer, tables: Tables, id: u64, status: int, value: Option<Key>, sizeMax: nat)
    returns (rc: int)
    requires status == 0 || status == 1
    requires status == 0 ==> value.Some?
    requires tables.Valid() && 4 + 256 + 20 <= sizeMax
    modifies Q, tables
    ensures tables.Valid()
    ensures rc == 0 && Q.out == old(Q.out) + Wire.Frame(id, GetReply(if status == 0 then value else None))
  {
    var len := 4;
    if status == 0 {
      len := len + SerialSize(value.value);
    }
    var wbuf := new byte[len];
    Put(wbuf, 0, Be32(status));
    assert wbuf[..4] == Be32(status);
    if status == 0 {
      Put(wbuf, 4, Serialize(value.value));
    }
    assert wbuf[..] == wbuf[..len] == GetReply(if status == 0 then value else None);
    rc := Wire.WritePacket(Q, tables, id, wbuf[..], sizeMax);
  }

  /** The serialized pairs of a prefix, extended by one more pair. */
  lemma SerializePairsNext(keys: seq<Key>, values: seq<Key>, i: nat)
    requires |keys| == |values| && i < |keys|
    ensures SerializePairs(keys[..i + 1], values[..i + 1])
      == SerializePairs(keys[..i], values[..i]) + Serialize(keys[i]) + Serialize(values[i])
  {
    assert keys[..i + 1][..i] == keys[..i];
    assert values[..i + 1][..i] == values[..i];
  }

  /** The pairs of a prefix take no more room than the pairs of a longer prefix. */
  lemma {:induction false} SerializePairsGrow(keys: seq<Key>, values: seq<Key>, i: nat, j: nat)
    requires |keys| == |values| && i <= j <= |keys|
    ensures |SerializePairs(keys[..i], values[..i])| <= |SerializePairs(keys[..j], values[..j])|
    decreases j - i
  {
    if i < j {
      SerializePairsGrow(keys, values, i, j - 1);
      SerializePairsNext(keys, values, j - 1);
    }
  }

  /** The length loop of proto_kvlds_response_range: the serial sizes of the first nkeys pairs. */
  method PairsLength(keys: seq<Key>, values: seq<Key>, nkeys: nat) returns (len: nat)
    requires nkeys <= |keys| && nkeys <= |values|
    ensures len == |SerializePairs(keys[..nkeys], values[..nkeys])|
  {
    ghost var ks, vs := keys[..nkeys], values[..nkeys];
    assert ks[..0] == [] && vs[..0] == [];
    len := 0;
    var i := 0;
    while i < nkeys
      invariant i <= nkeys
      invariant len == |SerializePairs(ks[..i], vs[..i])|
    {
      SerializePairsNext(ks, vs, i);
      len := len + SerialSize(keys[i]);
      len := len + SerialSize(values[i]);
      i := i + 1;
    }
    assert ks[..nkeys] == ks && vs[..nkeys] == vs;
  }

  /** The room one more pair takes fits in the room all the pairs take. */
  lemma PairsRoom(keys: seq<Key>, values: seq<Key>, i: nat)
    requires |keys| == |values| && i < |keys|
    ensures |SerializePairs(keys[..i], values[..i])| + SerialSize(keys[i]) + SerialSize(values[i])
      <= |SerializePairs(keys, values)|
  {
    SerializePairsGrowAll(keys, values, i + 1);
    SerializePairsNext(keys, values, i);
  }

  /** The bytes written after one more iteration of the write loop. */
  lemma PairsStep(head: seq<byte>, keys: seq<Key>, values: seq<Key>, i: nat, before: seq<byte>, after: seq<byte>)
    requires |keys| == |values| && i < |keys|
    requires before == head + SerializePairs(keys[..i], values[..i])
    requires after == before + Serialize(keys[i]) + Serialize(values[i])
    ensures after == head + SerializePairs(keys[..i + 1], values[..i + 1])
  {
    SerializePairsNext(keys, values, i);
  }

  /** One iteration of the write loop: a key, then its value, at pos. */
  method PutPair(wbuf: array<byte>, pos: nat, k: Key, v: Key)
    requires pos + SerialSize(k) + SerialSize(v) <= wbuf.Length
    modifies wbuf
    ensures wbuf[..pos + SerialSize(k) + SerialSize(v)] == old(wbuf[..pos]) + Serialize(k) + Serialize(v)
  {
    Put(wbuf, pos, Serialize(k));
    Put(wbuf, pos + SerialSize(k), Serialize(v));
  }

  /** The write loop of proto_kvlds_response_range: the pairs, from bufpos on. */
  method PutPairs(wbuf: array<byte>, bufpos: nat, keys: seq<Key>, values: seq<Key>)
    requires |keys| == |values|
    requires bufpos + |SerializePairs(keys, values)| == wbuf.Length
    modifies wbuf
    ensures wbuf[..] == old(wbuf[..bufpos]) + SerializePairs(keys, values)
  {
    ghost var head := wbuf[..bufpos];
    assert keys[..0] == [] && values[..0] == [];
    assert wbuf[..bufpos] == head + SerializePairs(keys[..0], values[..0]);
    var pos := bufpos;
    var i := 0;
    while i < |keys|
      invariant i <= |keys|
      invariant pos <= wbuf.Length && wbuf[..pos] == head + SerializePairs(keys[..i], values[..i])
    {
      PairsRoom(keys, values, i);
      ghost var done := wbuf[..pos];
      PutPair(wbuf, pos, keys[i], values[i]);
      pos := pos + SerialSize(keys[i]) + SerialSize(values[i]);
      PairsStep(head, keys, values, i, done, wbuf[..pos]);
      i := i + 1;
    }
    assert wbuf[..] == head + SerializePairs(keys, values) by {
      assert keys[..|keys|] == keys && values[..|keys|] == values;
      assert wbuf[..] == wbuf[..pos];
    }
  }

  lemma SerializePairsGrowAll(keys: seq<Key>, values: seq<Key>, i: nat)
    requires |keys| == |values| && i <= |keys|
    ensures |SerializePairs(keys[..i], values[..i])| <= |SerializePairs(keys, values)|
  {
    SerializePairsGrow(keys, values, i, |keys|);
    assert keys[..|keys|] == keys && values[..|keys|] == values;
  }

  /**
   * proto_kvlds_response_range: status 0, the number of pairs, the next
   * key, then the first nkeys keys and values, interleaved.
   */
  method ResponseRange(Q: Wire.Writer, tables: Tables, id: u64, nkeys: nat, next: Key, keys: seq<Key>, values: seq<Key>, sizeMax: nat)
    returns (rc: int)
    requires nkeys <= UINT32_MAX && nkeys <= |keys| && nkeys <= |values|
    requires 8 + SerialSize(next) + |SerializePairs(keys[..nkeys], values[..nkeys])| <= UINT32_MAX
    requires 8 + SerialSize(next) + |SerializePairs(keys[..nkeys], values[..nkeys])| <= sizeMax - 20
    requires tables.Valid()
    modifies Q, tables
    ensures tables.Valid()
    ensures rc == 0 && Q.out == old(Q.out) + Wire.Frame(id, RangeReply(next, keys[..nkeys], values[..nkeys]))
  {
    var plen := PairsLength(keys, values, nkeys);
    var len := 8 + SerialSize(next) + plen;
    var wbuf := new byte[len];
    Put(wbuf, 0, Be32(0));
    assert wbuf[..4] == Be32(0);
    Put(wbuf, 4, Be32(nkeys));
    var bufpos := 8;
    Put(wbuf, bufpos, Serialize(next));
    bufpos := bufpos + SerialSize(next);
    assert wbuf[..bufpos] == Be32(0) + Be32(nkeys) + Serialize(next);
    PutPairs(wbuf, bufpos, keys[..nkeys], values[..nkeys]);
    assert wbuf[..] == RangeReply(next, keys[..nkeys], values[..nkeys]);
    rc := Wire.WritePacket(Q, tables, id, wbuf[..], sizeMax);
  }
}
