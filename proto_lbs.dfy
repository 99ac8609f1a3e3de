/**
 * The block-store service's packet payloads (lib/proto_lbs/proto_lbs.h):
 * the request types, the request layouts the client builds and the server
 * parses, and the response layouts the server builds and the client
 * parses.  Each payload starts with a big-endian 32-bit word: the request
 * type in a request, the status in a response.
 */
module ProtoLbs {
  import opened Bytes

  const PARAMS: u32 := 0
  const GET: u32 := 1
  const APPEND: u32 := 2
  const FREE: u32 := 3
  const PARAMS2: u32 := 4
  const NONE: u32 := 0xffff_ffff

  /**
   * A request, by type.  An APPEND carries nblks blocks of blklen bytes
   * each, one after the other in data, to be written from block blkno on.
   */
  datatype Request =
    | Params
    | Params2
    | Get(blkno: u64)
    | Append(nblks: u32, blkno: u64, blklen: u32, data: seq<byte>)
    | Free(blkno: u64)

  /** The type word of a request. */
  function TypeOf(req: Request): u32
  {
    match req
    case Params => PARAMS
    case Params2 => PARAMS2
    case Get(_) => GET
    case Append(_, _, _, _) => APPEND
    case Free(_) => FREE
  }

  /** A request the server accepts: an APPEND of at least one block, its data nblks * blklen bytes. */
  predicate WellFormed(req: Request)
  {
    req.Append? ==> req.nblks > 0 && |req.data| == req.nblks * req.blklen && 16 + |req.data| <= UINT32_MAX
  }

  /** The payload of a request: the type word, then its fields; an APPEND's data after a 16-byte head. */
  function Encode(req: Request): (r: seq<byte>)
    ensures |r| >= 4 && r[..4] == Be32(TypeOf(req))
    ensures |r| == match req
      case Params => 4
      case Params2 => 4
      case Get(_) => 12
      case Append(_, _, _, d) => 16 + |d|
      case Free(_) => 12
  {
    match req
    case Params => Be32(PARAMS)
    case Params2 => Be32(PARAMS2)
    case Get(b) => Be32(GET) + Be64(b)
    case Append(n, b, _, d) => Be32(APPEND) + Be32(n) + Be64(b) + d
    case Free(b) => Be32(FREE) + Be64(b)
  }

  /** The PARAMS response: the block size and the next free block. */
  function ParamsReply(blklen: u32, blkno: u64): (r: seq<byte>)
    ensures |r| == 12
  {
    Be32(blklen) + Be64(blkno)
  }

  /** The PARAMS2 response: the block size, the next free block and the last block written. */
  function Params2Reply(blklen: u32, blkno: u64, lastblk: u64): (r: seq<byte>)
    ensures |r| == 20
  {
    Be32(blklen) + Be64(blkno) + Be64(lastblk)
  }

  /** The GET response: status 0 and the block, or status 1 alone. */
  function GetReply(status: u32, blk: seq<byte>): (r: seq<byte>)
    ensures |r| == 4 + (if status == 0 then |blk| else 0)
  {
    Be32(status) + (if status == 0 then blk else [])
  }

  /** The APPEND response: status 0 and the next free block, or status 1 alone. */
  function AppendReply(status: u32, blkno: u64): (r: seq<byte>)
    ensures |r| == if status == 0 then 12 else 4
  {
    Be32(status) + (if status == 0 then Be64(blkno) else [])
  }

  /** The FREE response: status 0. */
  function FreeReply(): (r: seq<byte>)
    ensures |r| == 4
  {
    Be32(0)
  }
}
