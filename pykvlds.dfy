/**
 * The reference client of the key-value service
 * (tests/python/kivaloo/proto_kvlds.py): the length-and-bytes encoding of
 * keys and values, the records each request packs for send_recv, and the
 * reading of each reply through the Response cursor.  The records agree
 * byte for byte with the C request layouts, and the replies the C server
 * builds read back as what it put in them.
 */
module PyKvlds {
  import opened Wrappers
  import opened Bytes
  import opened PyStruct
  import opened PyWire
  import opened KvldsKey
  import opened RangePairs
  import ProtoKvlds
  import Wire

  /* Packing the request records. */

  /** The fields '%ds%ds...' of a format, one per byte string, each at its own length. */
  function StrFields(fields: seq<seq<byte>>): (r: seq<Field>)
    ensures |r| == |fields|
  {
    if fields == [] then [] else [Str(|fields[0]|)] + StrFields(fields[1..])
  }

  /** The byte strings as the values packed into StrFields. */
  function StrValues(fields: seq<seq<byte>>): (r: seq<Value>)
    ensures |r| == |fields|
  {
    if fields == [] then [] else [Bytes(fields[0])] + StrValues(fields[1..])
  }

  /** The byte strings one after the other. */
  function Concat(fields: seq<seq<byte>>): seq<byte>
  {
    if fields == [] then [] else fields[0] + Concat(fields[1..])
  }

  /** Byte strings packed each at its own length come out unchanged, one after the other. */
  lemma {:induction false} PackStrs(fields: seq<seq<byte>>)
    ensures Pack(StrFields(fields), StrValues(fields)) == Ok(Concat(fields))
  {
    if fields != [] {
      PackStrs(fields[1..]);
      assert fields[0][..|fields[0]|] == fields[0];
      PackFirst(Str(|fields[0]|), StrFields(fields[1..]), Bytes(fields[0]), StrValues(fields[1..]));
    }
  }

  /**
   * A record '>I' followed by one '%ds' per field, as the requests pack
   * it: the type word, then the fields.
   */
  lemma PackRecord(t: u32, fields: seq<seq<byte>>)
    ensures Pack([U32] + StrFields(fields), [Int(t)] + StrValues(fields)) == Ok(Be32(t) + Concat(fields))
  {
    PackStrs(fields);
    PackFirst(U32, StrFields(fields), Int(t), StrValues(fields));
  }

  /** The RANGE record '>II%ds%ds': struct.error unless the size limit fits in 32 bits. */
  lemma PackRangeRecord(t: u32, m: int, fields: seq<seq<byte>>)
    ensures Pack([U32, U32] + StrFields(fields), [Int(t), Int(m)] + StrValues(fields))
      == if 0 <= m <= UINT32_MAX then Ok(Be32(t) + (Be32(m) + Concat(fields))) else Err(StructError)
  {
    var fmt := [U32, U32] + StrFields(fields);
    var vs := [Int(t), Int(m)] + StrValues(fields);
    assert fmt[1..] == [U32] + StrFields(fields);
    assert vs[1..] == [Int(m)] + StrValues(fields);
    if 0 <= m <= UINT32_MAX {
      PackRecord(m, fields);
      PackAt(fmt, vs, Be32(t), Be32(m) + Concat(fields));
    }
  }

  /** The RANGE record range packs: the request's encoding, or struct.error for a maxsize outside 32 bits. */
  lemma RangeRecord(maxsize: int, start: seq<byte>, end: seq<byte>)
    requires |start| <= 255 && |end| <= 255
    ensures Pack([U32, U32] + StrFields([Serialize(start), Serialize(end)]), [Int(ProtoKvlds.RANGE), Int(maxsize)] + StrValues([Serialize(start), Serialize(end)]))
      == if 0 <= maxsize <= UINT32_MAX then Ok(ProtoKvlds.Encode(ProtoKvlds.Range(maxsize, start, end))) else Err(StructError)
  {
    PackRangeRecord(ProtoKvlds.RANGE, maxsize, [Serialize(start), Serialize(end)]);
    Concat2(Serialize(start), Serialize(end));
    if 0 <= maxsize <= UINT32_MAX {
      assert Be32(maxsize) + (Serialize(start) + Serialize(end)) == Be32(maxsize) + Serialize(start) + Serialize(end);
    }
  }

  /** kvlds_length_and_bytes on a byte string of at most 255 bytes: the length byte, then the data. */
  lemma PackLengthAndBytes(data: seq<byte>)
    requires |data| <= 255
    ensures Pack([U8, Str(|data|)], [Int(|data|), Bytes(data)]) == Ok([|data|] + data)
  {
    assert data[..|data|] == data;
    PackOne(Str(|data|), Bytes(data));
    PackFirst(U8, [Str(|data|)], Int(|data|), [Bytes(data)]);
    assert [U8] + [Str(|data|)] == [U8, Str(|data|)];
    assert [Int(|data|)] + [Bytes(data)] == [Int(|data|), Bytes(data)];
  }

  /**
   * kvlds_length_and_bytes: KivalooTooMuchData for more than 255 bytes;
   * otherwise struct.pack('>B%ds'), which is the key serialization of the
   * C library.
   */
  function LengthAndBytes(data: seq<byte>): (r: Result<seq<byte>, PyError>)
    ensures r.Ok? <==> |data| <= 255
    ensures r.Err? ==> r.error == TooMuchData
    ensures r.Ok? ==> r.value == Serialize(data)
  {
    if |data| > 255 then Err(TooMuchData)
    else
      PackLengthAndBytes(data);
      Pack([U8, Str(|data|)], [Int(|data|), Bytes(data)])
  }

  lemma Concat1(a: seq<byte>)
    ensures Concat([a]) == a
  {
    assert [a][1..] == [];
  }

  lemma Concat2(a: seq<byte>, b: seq<byte>)
    ensures Concat([a, b]) == a + b
  {
    assert [a, b][1..] == [b];
    Concat1(b);
  }

  lemma Concat3(a: seq<byte>, b: seq<byte>, c: seq<byte>)
    ensures Concat([a, b, c]) == a + b + c
  {
    assert [a, b, c][1..] == [b, c];
    Concat2(b, c);
  }

  /* Reading the replies. */

  /** params: reply.get('>II'), the largest key length and the largest value length. */
  function ParamsOf(x: Result<seq<byte>, PyError>): (r: Result<(int, int), PyError>)
  {
    var d :- x;
    if |d| < 8 then Err(StructError) else Ok((Be32Dec(d[0..4]), Be32Dec(d[4..8])))
  }

  /** What get_kvlds_data returns for a key or value: None when it is empty. */
  function DataOf(k: seq<byte>): (r: Option<seq<byte>>)
    ensures r.None? <==> k == []
    ensures r.Some? ==> r.value == k
  {
    if k == [] then None else Some(k)
  }

  /** get: (1, None) for status 1; otherwise the status and the value read with get_kvlds_data. */
  function GetOf(x: Result<seq<byte>, PyError>): (r: Result<(int, Option<seq<byte>>), PyError>)
  {
    var d :- x;
    if |d| < 4 then Err(StructError)
    else if Be32Dec(d[0..4]) == 1 then Ok((1, None))
    else
      var value :- KvldsDataAt(d, 4).0;
      Ok((Be32Dec(d[0..4]), value))
  }

  /** The dict range fills: from a key read with get_kvlds_data to the value read after it. */
  type Dict = map<Option<seq<byte>>, Option<seq<byte>>>

  /** The loop of range: n pairs read from off, each stored in the dict over any earlier equal key. */
  function ReadDict(d: seq<byte>, off: nat, n: nat): (r: Result<(Dict, nat), PyError>)
  {
    if n == 0 then Ok((map[], off))
    else
      var prev :- ReadDict(d, off, n - 1);
      var key := KvldsDataAt(d, prev.1);
      var k :- key.0;
      var val := KvldsDataAt(d, key.1);
      var v :- val.0;
      Ok((prev.0[k := v], val.1))
  }

  /**
   * range: (1, None, None) for status 1; otherwise the status, the next
   * key and the dict of the pairs.
   */
  function RangeOf(x: Result<seq<byte>, PyError>): (r: Result<(int, Option<seq<byte>>, Option<Dict>), PyError>)
  {
    var d :- x;
    if |d| < 4 then Err(StructError)
    else if Be32Dec(d[0..4]) == 1 then Ok((1, None, None))
    else if |d| < 8 then Err(StructError)
    else
      var next := KvldsDataAt(d, 8);
      var nextkey :- next.0;
      var pairs :- ReadDict(d, next.1, Be32Dec(d[4..8]));
      Ok((Be32Dec(d[0..4]), nextkey, Some(pairs.0)))
  }

  /** The dict of pairs taken in order, a later equal key replacing an earlier one. */
  function PairsMap(keys: seq<Key>, values: seq<Key>): (r: Dict)
    requires |keys| == |values|
  {
    if keys == [] then map[]
    else
      var n := |keys| - 1;
      PairsMap(keys[..n], values[..n])[DataOf(keys[n]) := DataOf(values[n])]
  }

  /**
   * The replies the C server builds read back as what it put in them
   * (send_recv hands a correctly framed reply back whole: ExchangeReply).
   */
  lemma StatusRoundTrip(status: u32)
    ensures StatusOf(Ok(ProtoKvlds.StatusReply(status))) == Ok(status)
  {
    assert Be32(status)[0..4] == Be32(status);
  }

  lemma ParamsRoundTrip(kmax: u32, vmax: u32)
    ensures ParamsOf(Ok(ProtoKvlds.ParamsReply(kmax, vmax))) == Ok((kmax, vmax))
  {
    var b := ProtoKvlds.ParamsReply(kmax, vmax);
    assert b[0..4] == Be32(kmax) && b[4..8] == Be32(vmax);
  }

  /** A GET reply reads back as its value, an empty value as None; a missing key as (1, None). */
  lemma GetRoundTrip(value: Option<Key>)
    ensures GetOf(Ok(ProtoKvlds.GetReply(value)))
      == if value.Some? then Ok((0, DataOf(value.value))) else Ok((1, None))
  {
    var b := ProtoKvlds.GetReply(value);
    assert b[0..4] == Be32(if value.Some? then 0 else 1);
    if value.Some? {
      KvldsDataRoundTrip(Be32(0), value.value, []);
      assert b == Be32(0) + [|value.value|] + value.value + [];
    }
  }

  /** A serialized pair at p reads back with two get_kvlds_data calls. */
  lemma KvldsPairAt(d: seq<byte>, p: nat)
    requires p <= |d| && ReadPair(d, p).Some?
    ensures var (k, v, q) := ReadPair(d, p).value;
      && KvldsDataAt(d, p) == (Ok(DataOf(k)), p + SerialSize(k))
      && KvldsDataAt(d, p + SerialSize(k)) == (Ok(DataOf(v)), q)
  {
    var (k, v, q) := ReadPair(d, p).value;
    var m := p + SerialSize(k);
    assert d[p] == d[p..m][0] && d[p + 1..m] == d[p..m][1..];
    assert d[m] == d[m..q][0] && d[m + 1..q] == d[m..q][1..];
  }

  /** The loop of range reads the dict of the pairs the C client's loop reads. */
  lemma {:induction false} ReadDictParse(d: seq<byte>, off: nat, n: nat)
    requires off <= |d| && ParsePairs(d, off, n).Some?
    ensures var r := ParsePairs(d, off, n).value; ReadDict(d, off, n) == Ok((PairsMap(r.0, r.1), r.2))
  {
    if n > 0 {
      ReadDictParse(d, off, n - 1);
      ReadDictLast(d, off, n);
    }
  }

  /** The step of ReadDictParse: the last pair lands in the dict over the others. */
  lemma ReadDictLast(d: seq<byte>, off: nat, n: nat)
    requires off <= |d| && n > 0 && ParsePairs(d, off, n).Some?
    requires var prev := ParsePairs(d, off, n - 1).value; ReadDict(d, off, n - 1) == Ok((PairsMap(prev.0, prev.1), prev.2))
    ensures var r := ParsePairs(d, off, n).value; ReadDict(d, off, n) == Ok((PairsMap(r.0, r.1), r.2))
  {
    var m := n - 1;
    var prev := ParsePairs(d, off, m).value;
    var pair := ReadPair(d, prev.2).value;
    ParsePairsNext(d, off, m, prev.0, prev.1, prev.2, pair.0, pair.1, pair.2);
    ReadDictStep(d, off, m, PairsMap(prev.0, prev.1), prev.2, pair.0, pair.1, pair.2);
    PairsMapSnoc(prev.0, prev.1, pair.0, pair.1);
  }

  /** One more pair read by the loop of range is stored over the dict so far. */
  lemma ReadDictStep(d: seq<byte>, off: nat, n: nat, m: Dict, p: nat, k: Key, v: Key, q: nat)
    requires p <= |d| && ReadDict(d, off, n) == Ok((m, p)) && ReadPair(d, p) == Some((k, v, q))
    ensures ReadDict(d, off, n + 1) == Ok((m[DataOf(k) := DataOf(v)], q))
  {
    KvldsPairAt(d, p);
  }

  /** A pair at the end of the sequences lands in the dict over the others. */
  lemma PairsMapSnoc(ks: seq<Key>, vs: seq<Key>, k: Key, v: Key)
    requires |ks| == |vs|
    ensures PairsMap(ks + [k], vs + [v]) == PairsMap(ks, vs)[DataOf(k) := DataOf(v)]
  {
    assert (ks + [k])[..|ks|] == ks && (vs + [v])[..|vs|] == vs;
  }

  /** A RANGE reply reads back as its next key and the dict of its pairs. */
  lemma RangeRoundTrip(next: Key, keys: seq<Key>, values: seq<Key>)
    requires |keys| == |values| <= UINT32_MAX
    ensures RangeOf(Ok(ProtoKvlds.RangeReply(next, keys, values))) == Ok((0, DataOf(next), Some(PairsMap(keys, values))))
  {
    var b := ProtoKvlds.RangeReply(next, keys, values);
    var pos := 8 + SerialSize(next);
    RangeReplyParts(next, keys, values);
    ParsePairsAt(b, pos, keys, values);
    ReadDictParse(b, pos, |keys|);
    RangeOfParts(b, |keys|, DataOf(next), pos);
  }

  /** Where the parts of a RANGE reply lie: status, count, next key, pairs. */
  lemma RangeReplyParts(next: Key, keys: seq<Key>, values: seq<Key>)
    requires |keys| == |values| <= UINT32_MAX
    ensures var b := ProtoKvlds.RangeReply(next, keys, values); var pos := 8 + SerialSize(next);
      && |b| == pos + |ProtoKvlds.SerializePairs(keys, values)|
      && b[0..4] == Be32(0) && b[4..8] == Be32(|keys|)
      && KvldsDataAt(b, 8) == (Ok(DataOf(next)), pos)
      && b[pos..|b|] == ProtoKvlds.SerializePairs(keys, values)
  {
    var b := ProtoKvlds.RangeReply(next, keys, values);
    var pos := 8 + SerialSize(next);
    SliceSplit(b, 0, |b|, Be32(0) + Be32(|keys|) + Serialize(next), ProtoKvlds.SerializePairs(keys, values));
    SliceSplit(b, 0, pos, Be32(0) + Be32(|keys|), Serialize(next));
    SliceSplit(b, 0, 8, Be32(0), Be32(|keys|));
    KvldsDataRoundTrip(Be32(0) + Be32(|keys|), next, ProtoKvlds.SerializePairs(keys, values));
  }

  /** range reads status 0, the count n, the next key ending at pos, then the n pairs. */
  lemma RangeOfParts(b: seq<byte>, n: nat, next: Option<seq<byte>>, pos: nat)
    requires |b| >= 8 && b[0..4] == Be32(0) && n <= UINT32_MAX && b[4..8] == Be32(n)
    requires KvldsDataAt(b, 8) == (Ok(next), pos) && ReadDict(b, pos, n).Ok?
    ensures RangeOf(Ok(b)) == Ok((0, next, Some(ReadDict(b, pos, n).value.0)))
  {
  }

  /* The client object. */

  /** Proto_kvlds: the connection and the limits params reported when it was made. */
  class Kvlds {
    const wire: Session
    var maxLength: int
    var maxValue: int

    constructor ()
      ensures fresh(wire) && wire.msgnum == 0 && wire.sent == [] && maxLength == 0 && maxValue == 0
    {
      wire := new Session();
      maxLength, maxValue := 0, 0;
    }

    /** params: the record '>I' 0x100 and the two limits of the reply. */
    method Params(avail: seq<byte>, recvLen: nat) returns (r: Result<(int, int), PyError>)
      requires RecvCount(avail, recvLen)
      modifies wire
      ensures var record := ProtoKvlds.Encode(ProtoKvlds.Params);
        Sent(old(wire.msgnum), old(wire.sent), wire.msgnum, wire.sent, record)
        && r == ParamsOf(Exchange(old(wire.msgnum), record, avail, recvLen))
    {
      PackOne(U32, Int(ProtoKvlds.PARAMS));
      var record := Pack([U32], [Int(ProtoKvlds.PARAMS)]);
      var reply := wire.SendRecv(record.value, avail, recvLen);
      if reply.Err? {
        return Err(reply.error);
      }
      r := ReadParams(reply.value);
    }

    /** The shared tail of the status requests: send the record and read the status word. */
    method StatusCall(record: seq<byte>, avail: seq<byte>, recvLen: nat) returns (r: Result<int, PyError>)
      requires RecvCount(avail, recvLen)
      modifies wire
      ensures Sent(old(wire.msgnum), old(wire.sent), wire.msgnum, wire.sent, record)
      ensures r == StatusOf(Exchange(old(wire.msgnum), record, avail, recvLen))
    {
      var reply := wire.SendRecv(record, avail, recvLen);
      if reply.Err? {
        return Err(reply.error);
      }
      var status := reply.value.GetInt();
      return status;
    }

    /** A request with two keys (set, add, modify, cad): '>I%ds%ds'. */
    method TwoKeys(t: u32, a: seq<byte>, b: seq<byte>, avail: seq<byte>, recvLen: nat) returns (r: Result<int, PyError>)
      requires RecvCount(avail, recvLen)
      modifies wire
      ensures |a| > 255 || |b| > 255 ==> r == Err(TooMuchData) && unchanged(wire)
      ensures |a| <= 255 && |b| <= 255 ==>
        var record := Be32(t) + (Serialize(a) + Serialize(b));
        Sent(old(wire.msgnum), old(wire.sent), wire.msgnum, wire.sent, record)
        && r == StatusOf(Exchange(old(wire.msgnum), record, avail, recvLen))
    {
      var klA :- LengthAndBytes(a);
      var klB :- LengthAndBytes(b);
      PackRecord(t, [klA, klB]);
      Concat2(klA, klB);
      var record := Pack([U32] + StrFields([klA, klB]), [Int(t)] + StrValues([klA, klB]));
      r := StatusCall(record.value, avail, recvLen);
    }

    /** set(key, value): type 0x110. */
    method Set(key: seq<byte>, value: seq<byte>, avail: seq<byte>, recvLen: nat) returns (r: Result<int, PyError>)
      requires RecvCount(avail, recvLen)
      modifies wire
      ensures |key| > 255 || |value| > 255 ==> r == Err(TooMuchData) && unchanged(wire)
      ensures |key| <= 255 && |value| <= 255 ==>
        var record := ProtoKvlds.Encode(ProtoKvlds.Set(key, value));
        Sent(old(wire.msgnum), old(wire.sent), wire.msgnum, wire.sent, record)
        && r == StatusOf(Exchange(old(wire.msgnum), record, avail, recvLen))
    {
      if |key| <= 255 && |value| <= 255 {
        assert ProtoKvlds.Encode(ProtoKvlds.Set(key, value)) == Be32(ProtoKvlds.SET) + (Serialize(key) + Serialize(value));
      }
      r := TwoKeys(ProtoKvlds.SET, key, value, avail, recvLen);
    }

    /** add(key, value): type 0x112. */
    method Add(key: seq<byte>, value: seq<byte>, avail: seq<byte>, recvLen: nat) returns (r: Result<int, PyError>)
      requires RecvCount(avail, recvLen)
      modifies wire
      ensures |key| > 255 || |value| > 255 ==> r == Err(TooMuchData) && unchanged(wire)
      ensures |key| <= 255 && |value| <= 255 ==>
        var record := ProtoKvlds.Encode(ProtoKvlds.Add(key, value));
        Sent(old(wire.msgnum), old(wire.sent), wire.msgnum, wire.sent, record)
        && r == StatusOf(Exchange(old(wire.msgnum), record, avail, recvLen))
    {
      if |key| <= 255 && |value| <= 255 {
        assert ProtoKvlds.Encode(ProtoKvlds.Add(key, value)) == Be32(ProtoKvlds.ADD) + (Serialize(key) + Serialize(value));
      }
      r := TwoKeys(ProtoKvlds.ADD, key, value, avail, recvLen);
    }

    /** modify(key, value): type 0x113. */
    method Modify(key: seq<byte>, value: seq<byte>, avail: seq<byte>, recvLen: nat) returns (r: Result<int, PyError>)
      requires RecvCount(avail, recvLen)
      modifies wire
      ensures |key| > 255 || |value| > 255 ==> r == Err(TooMuchData) && unchanged(wire)
      ensures |key| <= 255 && |value| <= 255 ==>
        var record := ProtoKvlds.Encode(ProtoKvlds.Modify(key, value));
        Sent(old(wire.msgnum), old(wire.sent), wire.msgnum, wire.sent, record)
        && r == StatusOf(Exchange(old(wire.msgnum), record, avail, recvLen))
    {
      if |key| <= 255 && |value| <= 255 {
        assert ProtoKvlds.Encode(ProtoKvlds.Modify(key, value)) == Be32(ProtoKvlds.MODIFY) + (Serialize(key) + Serialize(value));
      }
      r := TwoKeys(ProtoKvlds.MODIFY, key, value, avail, recvLen);
    }

    /** cad(key, oval): type 0x121. */
    method Cad(key: seq<byte>, oval: seq<byte>, avail: seq<byte>, recvLen: nat) returns (r: Result<int, PyError>)
      requires RecvCount(avail, recvLen)
      modifies wire
      ensures |key| > 255 || |oval| > 255 ==> r == Err(TooMuchData) && unchanged(wire)
      ensures |key| <= 255 && |oval| <= 255 ==>
        var record := ProtoKvlds.Encode(ProtoKvlds.Cad(key, oval));
        Sent(old(wire.msgnum), old(wire.sent), wire.msgnum, wire.sent, record)
        && r == StatusOf(Exchange(old(wire.msgnum), record, avail, recvLen))
    {
      if |key| <= 255 && |oval| <= 255 {
        assert ProtoKvlds.Encode(ProtoKvlds.Cad(key, oval)) == Be32(ProtoKvlds.CAD) + (Serialize(key) + Serialize(oval));
      }
      r := TwoKeys(ProtoKvlds.CAD, key, oval, avail, recvLen);
    }

    /** cas(key, oval, value): type 0x111, '>I%ds%ds%ds'. */
    method Cas(key: seq<byte>, oval: seq<byte>, value: seq<byte>, avail: seq<byte>, recvLen: nat) returns (r: Result<int, PyError>)
      requires RecvCount(avail, recvLen)
      modifies wire
      ensures |key| > 255 || |oval| > 255 || |value| > 255 ==> r == Err(TooMuchData) && unchanged(wire)
      ensures |key| <= 255 && |oval| <= 255 && |value| <= 255 ==>
        var record := ProtoKvlds.Encode(ProtoKvlds.Cas(key, oval, value));
        Sent(old(wire.msgnum), old(wire.sent), wire.msgnum, wire.sent, record)
        && r == StatusOf(Exchange(old(wire.msgnum), record, avail, recvLen))
    {
      var klKey :- LengthAndBytes(key);
      var klOval :- LengthAndBytes(oval);
      var klValue :- LengthAndBytes(value);
      PackRecord(ProtoKvlds.CAS, [klKey, klOval, klValue]);
      Concat3(klKey, klOval, klValue);
      var record := Pack([U32] + StrFields([klKey, klOval, klValue]), [Int(ProtoKvlds.CAS)] + StrValues([klKey, klOval, klValue]));
      assert record.value == ProtoKvlds.Encode(ProtoKvlds.Cas(key, oval, value));
      r := StatusCall(record.value, avail, recvLen);
    }

    /** A request with one key (delete, get): '>I%ds'; the record it sends. */
    method OneKey(t: u32, key: seq<byte>, avail: seq<byte>, recvLen: nat) returns (r: Result<Response, PyError>)
      requires RecvCount(avail, recvLen)
      modifies wire
      ensures |key| > 255 ==> r == Err(TooMuchData) && unchanged(wire)
      ensures |key| <= 255 ==>
        var record := Be32(t) + Serialize(key);
        Sent(old(wire.msgnum), old(wire.sent), wire.msgnum, wire.sent, record)
        && (r.Err? <==> Exchange(old(wire.msgnum), record, avail, recvLen).Err?)
        && (r.Err? ==> r.error == Exchange(old(wire.msgnum), record, avail, recvLen).error)
        && (r.Ok? ==>
             && fresh(r.value) && r.value.data == Exchange(old(wire.msgnum), record, avail, recvLen).value
             && r.value.offset == 0 && r.value.Valid())
    {
      var klKey :- LengthAndBytes(key);
      PackRecord(t, [klKey]);
      Concat1(klKey);
      var record := Pack([U32] + StrFields([klKey]), [Int(t)] + StrValues([klKey]));
      r := wire.SendRecv(record.value, avail, recvLen);
    }

    /** delete(key): type 0x120. */
    method Delete(key: seq<byte>, avail: seq<byte>, recvLen: nat) returns (r: Result<int, PyError>)
      requires RecvCount(avail, recvLen)
      modifies wire
      ensures |key| > 255 ==> r == Err(TooMuchData) && unchanged(wire)
      ensures |key| <= 255 ==>
        var record := ProtoKvlds.Encode(ProtoKvlds.Delete(key));
        Sent(old(wire.msgnum), old(wire.sent), wire.msgnum, wire.sent, record)
        && r == StatusOf(Exchange(old(wire.msgnum), record, avail, recvLen))
    {
      if |key| <= 255 {
        assert ProtoKvlds.Encode(ProtoKvlds.Delete(key)) == Be32(ProtoKvlds.DELETE) + Serialize(key);
      }
      var reply :- OneKey(ProtoKvlds.DELETE, key, avail, recvLen);
      r := reply.GetInt();
    }

    /** get(key): type 0x130; (1, None) when the key is missing. */
    method Get(key: seq<byte>, avail: seq<byte>, recvLen: nat) returns (r: Result<(int, Option<seq<byte>>), PyError>)
      requires RecvCount(avail, recvLen)
      modifies wire
      ensures |key| > 255 ==> r == Err(TooMuchData) && unchanged(wire)
      ensures |key| <= 255 ==>
        var record := ProtoKvlds.Encode(ProtoKvlds.Get(key));
        Sent(old(wire.msgnum), old(wire.sent), wire.msgnum, wire.sent, record)
        && r == GetOf(Exchange(old(wire.msgnum), record, avail, recvLen))
    {
      if |key| <= 255 {
        assert ProtoKvlds.Encode(ProtoKvlds.Get(key)) == Be32(ProtoKvlds.GET) + Serialize(key);
      }
      var reply :- OneKey(ProtoKvlds.GET, key, avail, recvLen);
      var status :- reply.GetInt();
      if status == 1 {
        return Ok((1, None));
      }
      var value :- reply.GetKvldsData();
      return Ok((status, value));
    }

    /**
     * range(maxsize, start, end): type 0x131, '>II%ds%ds'; struct.error,
     * before anything is sent, when maxsize does not fit in 32 bits.
     */
    method Range(maxsize: int, start: seq<byte>, end: seq<byte>, avail: seq<byte>, recvLen: nat)
      returns (r: Result<(int, Option<seq<byte>>, Option<Dict>), PyError>)
      requires RecvCount(avail, recvLen)
      modifies wire
      ensures |start| > 255 || |end| > 255 ==> r == Err(TooMuchData) && unchanged(wire)
      ensures |start| <= 255 && |end| <= 255 && !(0 <= maxsize <= UINT32_MAX) ==>
        r == Err(StructError) && unchanged(wire)
      ensures |start| <= 255 && |end| <= 255 && 0 <= maxsize <= UINT32_MAX ==>
        var record := ProtoKvlds.Encode(ProtoKvlds.Range(maxsize, start, end));
        Sent(old(wire.msgnum), old(wire.sent), wire.msgnum, wire.sent, record)
        && r == RangeOf(Exchange(old(wire.msgnum), record, avail, recvLen))
    {
      var klStart :- LengthAndBytes(start);
      var klEnd :- LengthAndBytes(end);
      var record := Pack([U32, U32] + StrFields([klStart, klEnd]), [Int(ProtoKvlds.RANGE), Int(maxsize)] + StrValues([klStart, klEnd]));
      RangeRecord(maxsize, start, end);
      if record.Err? {
        return Err(record.error);
      }
      var reply := wire.SendRecv(record.value, avail, recvLen);
      if reply.Err? {
        return Err(reply.error);
      }
      r := ReadRange(reply.value);
    }
  }

  /** What params does with the reply: reply.get('>II'). */
  method ReadParams(resp: Response) returns (r: Result<(int, int), PyError>)
    requires resp.Valid() && resp.offset == 0
    modifies resp
    ensures r == ParamsOf(Ok(resp.data))
  {
    if |resp.data| >= 8 {
      UnpackTwo(U32, U32, resp.data, 0, 4, Int(Be32Dec(resp.data[0..4])), Int(Be32Dec(resp.data[4..8])));
    }
    var values := resp.Get([U32, U32]);
    if values.Err? {
      return Err(values.error);
    }
    return Ok((values.value[0].i, values.value[1].i));
  }

  /** What range does with the reply: status, then count, next key and pairs. */
  method ReadRange(resp: Response) returns (r: Result<(int, Option<seq<byte>>, Option<Dict>), PyError>)
    requires resp.Valid() && resp.offset == 0
    modifies resp
    ensures r == RangeOf(Ok(resp.data))
  {
    var status :- resp.GetInt();
    if status == 1 {
      return Ok((1, None, None));
    }
    var numPairs :- resp.GetInt();
    var nextkey :- resp.GetKvldsData();
    var pairs :- ReadDictFrom(resp, numPairs);
    return Ok((status, nextkey, Some(pairs)));
  }

  /** The loop of range: n pairs read through the cursor into a dict. */
  method ReadDictFrom(resp: Response, n: nat) returns (r: Result<Dict, PyError>)
    requires resp.Valid()
    modifies resp
    ensures resp.Valid()
    ensures ReadDict(resp.data, old(resp.offset), n).Err? ==> r == Err(ReadDict(resp.data, old(resp.offset), n).error)
    ensures ReadDict(resp.data, old(resp.offset), n).Ok? ==>
      r.Ok? && ReadDict(resp.data, old(resp.offset), n).value == (r.value, resp.offset)
  {
    ghost var off0 := resp.offset;
    var pairs: Dict := map[];
    var i := 0;
    while i < n
      invariant i <= n && resp.Valid()
      invariant ReadDict(resp.data, off0, i) == Ok((pairs, resp.offset))
    {
      var key := resp.GetKvldsData();
      if key.Err? {
        ReadDictStuck(resp.data, off0, i + 1, n);
        return Err(key.error);
      }
      var val := resp.GetKvldsData();
      if val.Err? {
        ReadDictStuck(resp.data, off0, i + 1, n);
        return Err(val.error);
      }
      pairs := pairs[key.value := val.value];
      i := i + 1;
    }
    return Ok(pairs);
  }

  /** Once the loop of range raises, reading more pairs raises the same exception. */
  lemma {:induction false} ReadDictStuck(d: seq<byte>, off: nat, i: nat, n: nat)
    requires i <= n && ReadDict(d, off, i).Err?
    ensures ReadDict(d, off, n) == Err(ReadDict(d, off, i).error)
    decreases n - i
  {
    if i < n {
      ReadDictStuck(d, off, i, n - 1);
    }
  }

  /** Proto_kvlds(): a new connection, then params for the limits. */
  method Connect(avail: seq<byte>, recvLen: nat) returns (r: Result<Kvlds, PyError>)
    requires RecvCount(avail, recvLen)
    ensures var expected := ParamsOf(Exchange(0, ProtoKvlds.Encode(ProtoKvlds.Params), avail, recvLen));
      && (r.Err? <==> expected.Err?)
      && (r.Err? ==> r.error == expected.error)
      && (r.Ok? ==>
           && fresh(r.value) && fresh(r.value.wire)
           && (r.value.maxLength, r.value.maxValue) == expected.value)
  {
    var k := new Kvlds();
    var limits :- k.Params(avail, recvLen);
    k.maxLength, k.maxValue := limits.0, limits.1;
    return Ok(k);
  }
}
