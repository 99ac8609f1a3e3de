/**
 * The key-value service's packet payloads (lib/proto_kvlds/proto_kvlds.h):
 * the request types, the request layouts the client builds and the server
 * parses, and the response layouts the server builds and the client parses.
 * Every payload starts with a big-endian 32-bit word: the request type in a
 * request, the status in a response.
 */
module ProtoKvlds {
  import opened Wrappers
  import opened Bytes
  import opened KvldsKey

  const PARAMS: u32 := 0x0000_0100
  const SET: u32 := 0x0000_0110
  const CAS: u32 := 0x0000_0111
  const ADD: u32 := 0x0000_0112
  const MODIFY: u32 := 0x0000_0113
  const DELETE: u32 := 0x0000_0120
  const CAD: u32 := 0x0000_0121
  const GET: u32 := 0x0000_0130
  const RANGE: u32 := 0x0000_0131
  const NONE: u32 := 0xffff_ffff

  /** sizeof(R->blob): a request type and up to three serialized keys. */
  const BLOB_SIZE: nat := 4 + 3 * 256

  /** A request, by type, with the keys it carries. */
  datatype Request =
    | Params
    | Set(key: Key, value: Key)
    | Cas(key: Key, oval: Key, value: Key)
    | Add(key: Key, value: Key)
    | Modify(key: Key, value: Key)
    | Delete(key: Key)
    | Cad(key: Key, oval: Key)
    | Get(key: Key)
    | Range(max: u32, start: Key, end: Key)

  function TypeOf(req: Request): u32
  {
    match req
    case Params => PARAMS
    case Set(_, _) => SET
    case Cas(_, _, _) => CAS
    case Add(_, _) => ADD
    case Modify(_, _) => MODIFY
    case Delete(_) => DELETE
    case Cad(_, _) => CAD
    case Get(_) => GET
    case Range(_, _, _) => RANGE
  }

  /** What follows the type word in a request: the keys in order (RANGE: the size limit first). */
  function Fields(req: Request): (r: seq<byte>)
    ensures |r| <= 3 * 256
  {
    match req
    case Params => []
    case Set(k, v) => Serialize(k) + Serialize(v)
    case Cas(k, o, v) => Serialize(k) + Serialize(o) + Serialize(v)
    case Add(k, v) => Serialize(k) + Serialize(v)
    case Modify(k, v) => Serialize(k) + Serialize(v)
    case Delete(k) => Serialize(k)
    case Cad(k, o) => Serialize(k) + Serialize(o)
    case Get(k) => Serialize(k)
    case Range(m, s, e) => Be32(m) + Serialize(s) + Serialize(e)
  }

  /** The payload of a request: the type word, then the fields. */
  function Encode(req: Request): (r: seq<byte>)
    ensures 4 <= |r| <= BLOB_SIZE && r[..4] == Be32(TypeOf(req)) && r[4..] == Fields(req)
  {
    Be32(TypeOf(req)) + Fields(req)
  }

  /** The serialized pairs of a RANGE response, key then value, in order. */
  function SerializePairs(keys: seq<Key>, values: seq<Key>): (r: seq<byte>)
    requires |keys| == |values|
    ensures |r| >= 2 * |keys|
  {
    if keys == [] then []
    else
      var n := |keys| - 1;
      SerializePairs(keys[..n], values[..n]) + Serialize(keys[n]) + Serialize(values[n])
  }

  /** One more pair at the end adds its serialization at the end. */
  lemma SerializePairsSnoc(keys: seq<Key>, values: seq<Key>, k: Key, v: Key)
    requires |keys| == |values|
    ensures SerializePairs(keys + [k], values + [v]) == SerializePairs(keys, values) + Serialize(k) + Serialize(v)
  {
    assert (keys + [k])[..|keys|] == keys;
    assert (values + [v])[..|keys|] == values;
  }

  /** The PARAMS response: the largest key and the largest value. */
  function ParamsReply(kmax: u32, vmax: u32): (r: seq<byte>)
    ensures |r| == 8
  {
    Be32(kmax) + Be32(vmax)
  }

  /** The SET/CAS/ADD/MODIFY/DELETE/CAD response: the status only. */
  function StatusReply(status: u32): (r: seq<byte>)
    ensures |r| == 4
  {
    Be32(status)
  }

  /** The GET response: status 0 and the value, or status 1 alone. */
  function GetReply(value: Option<Key>): (r: seq<byte>)
    ensures |r| == 4 + (if value.Some? then SerialSize(value.value) else 0)
  {
    match value
    case Some(v) => Be32(0) + Serialize(v)
    case None => Be32(1)
  }

  /** The RANGE response: status 0, the number of pairs, the next key, then the pairs. */
  function RangeReply(next: Key, keys: seq<Key>, values: seq<Key>): (r: seq<byte>)
    requires |keys| == |values| <= UINT32_MAX
    ensures |r| >= 9 + 2 * |keys|
  {
    Be32(0) + Be32(|keys|) + Serialize(next) + SerializePairs(keys, values)
  }
}
