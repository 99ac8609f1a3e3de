# kivaloo's wire-protocol layer, modelled in Dafny

kivaloo is a key-value store built from cooperating daemons. *lbs* is a
log-structured block store. *kvlds* is a B+tree key-value store kept on
top of lbs. An *s3* daemon forwards object requests. The daemons speak
one framing protocol over local sockets:
- Every packet is a 64-bit request ID, a 32-bit length and a CRC32C of
  those 12 bytes.
- Then come the payload and a trailer: the CRC32C of the payload,
  exclusive-or the header CRC.

Each service has its own request and response layouts inside the
payload. This project models that layer, with the small data
structures that serve it:

| file | models |
|---|---|
| `crc32c.dfy` | `lib/alg/crc32c.c`: the table-driven, bit-reflected CRC32C (Castagnoli polynomial), its tables and `CRC32C_Init`/`Update`/`Final` |
| `wire.dfy` | `lib/wire/wire_writepacket.c` and `lib/wire/wire_readpacket.c`: writing a packet into a reserved buffer, and peeking at / consuming a packet in the read buffer |
| `pystruct.dfy`, `pywire.dfy` | the Python test client's framing (`tests/python/kivaloo/wire.py`): `_checksum`, `make_packet`, `split_packet`, the `Response` cursor and the `Wire` session, over a model of the parts of Python's `struct` module it uses |
| `kvldskey.dfy` | `trunk/lib/datastruct/kvldskey.c`: length-prefixed keys, their order, their common prefix |
| `proto_kvlds.dfy`, `proto_kvlds_server.dfy`, `proto_kvlds_client.dfy`, `range_pairs.dfy` | the kvlds protocol: request and response layouts, the server's parser and response builders, the client's request builders and response callbacks, `poke_range2` |
| `pykvlds.dfy` | `tests/python/kivaloo/proto_kvlds.py` |
| `proto_lbs.dfy`, `proto_lbs_server.dfy`, `proto_lbs_client.dfy`, `pylbs.dfy` | the lbs protocol, on the server, the C client and the Python client |
| `proto_s3.dfy` | `lib/proto_s3/proto_s3_server.c`: `mkstr`, the request parser, the response builders |
| `elasticqueue.dfy`, `seqptrmap.dfy` | the FIFO of records and the map from consecutive integers to pointers built on it |
| `kvhash.dfy` | `lib/datastruct/kvhash.c`: the open-addressing hash table of keys with linear probing and rehashing |
| `btree_find.dfy` | `kvlds/btree_find.c`: the binary searches in a B+tree node |
| `json.dfy`, `json_grammar.dfy` | `libcperciva/util/json.c`: the scanner that finds a member of a JSON object without building it; what it does on the text of JSON values (RFC 8259, section 2) |
| `bytes.dfy`, `bits.dfy`, `wrappers.dfy` | bytes and big-endian words, exclusive-or and bit strings, `Option` and `Result` |

**How the model is built.**
- The C model keeps the C code's form:
  - loops stay loops with their invariants;
  - buffers the code fills in place are arrays;
  - structures whose fields change are classes.
- Each parser and each builder is specified by a pure function of the bytes: the request a packet holds, the bytes a response is.
- The properties promised by the source are lemmas about those functions:
  - round trips between client and server;
  - "accepted exactly when it is an encoding";
  - the error paths.
- Python exceptions become the `Err` values of a `Result`.
- The socket is replaced by three things:
  - the bytes the peer has sent, passed in;
  - how many of them the one `recv` call returns, also passed in, since the kernel chooses it;
  - a `sent` log of the bytes written.

## Model

| member | source | states |
|---|---|---|
| CRC32C.Reverse | lib/alg/crc32c.c:22-25 | the reference definition of "x with reversed bit-order": the result's 32 bits are the argument's read backwards |
| CRC32C.SwapStepBit | lib/alg/crc32c.c:30-34 | bit i of `((x & hi) >> w) \| ((x & lo) << w)` on 32-bit words is set exactly when bit i + w of x is set and selected by hi, or bit i - w of x is set and selected by lo |
| CRC32C.NetworkBit | lib/alg/crc32c.c:30-34 | after the five swap lines (halves, bytes, nibbles, bit pairs, bits) bit i of the word is bit 31 - i of the original |
| CRC32C.SwapNetwork | lib/alg/crc32c.c:30-34 | the composition of the five swap lines is exactly the reference bit reversal |
| CRC32C.ReverseWord | lib/alg/crc32c.c:26-37 | `reverse` applies the five swap lines in order and returns x with its bit order reversed |
| CRC32C.ReverseInvolution | lib/alg/crc32c.c:27-37 | reversing the bits twice gives back the word |
| CRC32C.ReflectSteps | lib/alg/crc32c.c:58-116 | n most-significant-first polynomial steps, seen through `reverse`, are n steps of the reflected (least-significant-first) CRC |
| CRC32C.EntryIsTableValue | lib/alg/crc32c.c:58-116 | the entry `init` computes for T[j][i] (8(j+1) shifts of reverse(i), reversed) is i run through 8(j+1) zero bits of the reflected CRC |
| CRC32C.ShiftByte | lib/alg/crc32c.c:81-86 | the innermost loop of `init` performs exactly eight polynomial shifts |
| CRC32C.FillEntry | lib/alg/crc32c.c:80-87 | one pass of the inner loop stores the reference table value in T[j][i] and touches no other entry |
| CRC32C.FillColumn | lib/alg/crc32c.c:78-89 | one pass of the outer loop fills T[0..3][i] with their reference values and leaves the other columns alone |
| CRC32C.Tables.Init | lib/alg/crc32c.c:58-116 | after `init` every entry of the four tables holds its reference value; a second call changes nothing |
| CRC32C.TableZeroEighty | lib/alg/crc32c.c:18 | the table entry `init` checks, T[0][0x80], is the initial state 0x82f63b78 |
| CRC32C.CtxInit | lib/alg/crc32c.c:124-138 | `CRC32C_Init` builds the tables if need be and starts the state at T[0][0x80], the state of no input |
| CRC32C.BlockRound | lib/alg/crc32c.c:150-156 | one round of the four-byte loop, by four table lookups, gives the state of four single-byte steps |
| CRC32C.ByteRound | lib/alg/crc32c.c:158-162 | one byte by table lookup is one byte of the reference CRC |
| CRC32C.CrcStateAppend | lib/alg/crc32c.c:146-163 | feeding a + b is feeding a, then b, so updates can be split anywhere |
| CRC32C.Update | lib/alg/crc32c.c:146-163 | `CRC32C_Update` leaves the state the reference CRC reaches from the old state over buf |
| CRC32C.Final | lib/alg/crc32c.c:173-181 | `CRC32C_Final` writes the state as four little-endian bytes and nothing else |
| CRC32C.EmptyInput | tags/1.2.0/tests/crc32/main.c:12 | the CRC32C of the empty string is 78 3b f6 82 |
| Wire.FrameParts | lib/wire/wire_writepacket.c:32-36 | a packet holds the BE64 ID at 0, the BE32 length at 8, the CRC of bytes 0..12 at 12, the payload at 16 and CRC(payload) xor header CRC at 16 + len |
| Wire.GetBuf | lib/wire/wire_writepacket.c:18-44 | `wire_writepacket_getbuf`, given a length its asserts allow (<= UINT32_MAX and <= SIZE_MAX - 20), returns len + 20 bytes that start with the header and its CRC |
| Wire.WriteTrailer | lib/wire/wire_writepacket.c:73-75 | the trailer loop stores CRC(payload)[i] xor headerCRC[i] after the payload and leaves the rest |
| Wire.Done | lib/wire/wire_writepacket.c:53-87 | `wire_writepacket_done` completes the packet with the trailer and hands all len + 20 bytes to the writer |
| Wire.FrameFromParts | lib/wire/wire_writepacket.c:94-116 | a buffer holding header, header CRC and payload, completed by the trailer, is the packet of (ID, payload) |
| Wire.WritePacket | lib/wire/wire_writepacket.c:94-116 | `wire_writepacket` appends exactly the packet of (ID, payload) to the writer |
| Wire.HeaderCrcMatches | lib/wire/wire_readpacket.c:63-70 | the header check passes exactly when bytes 12..16 are the CRC of bytes 0..12 |
| Wire.XorInPlace | lib/wire/wire_readpacket.c:87-88 | the loop xors the trailer into the data CRC byte by byte |
| Wire.DataCrcMatches | lib/wire/wire_readpacket.c:84-92 | the data check passes exactly when CRC(payload) xor trailer is the header CRC |
| Wire.Peek | lib/wire/wire_readpacket.c:44-104 | `wire_readpacket_peek` returns 0 and no packet while no whole packet is buffered, -1 on a corrupt packet (a CRC mismatch or a length over SIZE_MAX - 20), and otherwise 0 with the ID, length and payload of the packet at the head |
| Wire.DecodeFrame | lib/wire/wire_readpacket.c:72-95 | peek on a buffer starting with a written packet returns that packet's ID and payload, whatever follows it |
| Wire.DecodePacket | lib/wire/wire_readpacket.c:44-104 | peek returns a packet only when the buffer starts with the written packet of that ID and payload |
| Wire.DecodePrefix | lib/wire/wire_readpacket.c:59-81 | any proper prefix of a packet is "no packet yet", not an error |
| Wire.Consume | lib/wire/wire_readpacket.c:225-230 | `wire_readpacket_consume` drops exactly len + 20 bytes from the reader |
| PyWire.Checksum | tests/python/kivaloo/wire.py:21-30 | `_checksum`'s loop swaps the four bytes of the crcmod register |
| PyWire.SwapInvolution | tests/python/kivaloo/wire.py:24-29 | swapping the bytes twice gives back the value |
| PyWire.ChecksumBytes | tests/python/kivaloo/wire.py:15-30 | `_checksum`, sent big-endian, is the CRC32C the C library writes |
| PyWire.PackHeader | tests/python/kivaloo/wire.py:38 | `struct.pack('>QI', id, n)` is the 12-byte packet header |
| PyWire.MakePacketIsFrame | tests/python/kivaloo/wire.py:33-46 | `make_packet` builds the packet `wire_writepacket` writes |
| PyWire.MakePacketRange | tests/python/kivaloo/wire.py:44-45 | `make_packet` raises `struct.error` exactly for an ID outside 64 bits or a record of 2^32 bytes or more |
| PyWire.HeaderCheck | tests/python/kivaloo/wire.py:51-56 | the header check of `split_packet` is the one peek makes |
| PyWire.RecordCheck | tests/python/kivaloo/wire.py:59-66 | once the header is sound, the record check of `split_packet` is the one peek makes |
| PyWire.SplitAgreesWithDecode | tests/python/kivaloo/wire.py:49-68 | on a buffer holding one packet, `split_packet` succeeds exactly when peek finds a packet as long as the buffer, and both give the same ID and record |
| PyWire.SplitHeaderMismatch | tests/python/kivaloo/wire.py:55-56 | a header checksum mismatch raises "Mismatch in header checksums" |
| PyWire.SplitRecordMismatch | tests/python/kivaloo/wire.py:65-66 | a sound header, the announced length and a wrong trailer raise "Mismatch in record checksums" |
| PyWire.SplitMake | tests/python/kivaloo/wire.py:33-68 | `split_packet(make_packet(id, r)) == (id, r)` |
| PyWire.SplitFrame | tests/python/kivaloo/wire.py:49-68 | `split_packet` accepts a written packet of exactly its own length |
| PyWire.SplitIsFrame | tests/python/kivaloo/wire.py:49-68 | `split_packet` accepts nothing but a written packet with nothing after it |
| PyWire.KvldsDataRoundTrip | tests/python/kivaloo/wire.py:105-118 | a length byte and its data read back as the data, or None for length 0, and the cursor moves past them |
| PyWire.KvldsDataAdvance | tests/python/kivaloo/wire.py:111-117 | `get_kvlds_data` never moves the cursor back, moves it at most 256 bytes, and returns exactly `length` bytes when it returns data |
| PyWire.Response.constructor | tests/python/kivaloo/wire.py:73-75 | a new cursor is at offset 0 |
| PyWire.Response.Remaining | tests/python/kivaloo/wire.py:77-79 | `remaining` is what follows the bytes already read |
| PyWire.Response.Get | tests/python/kivaloo/wire.py:81-97 | `get(fmt)` returns what `unpack_from` decodes at the cursor and moves it by calcsize(fmt); on `struct.error` the cursor stays |
| PyWire.Response.GetInt | tests/python/kivaloo/wire.py:99-103 | `get_int` reads the big-endian word at the cursor and moves it by 4, or raises when fewer than 4 bytes remain |
| PyWire.Response.GetKvldsData | tests/python/kivaloo/wire.py:105-118 | `get_kvlds_data` reads a length byte and that many bytes, None for 0 |
| PyWire.Received | tests/python/kivaloo/wire.py:159 | one `recv(MAX_RESPONSE_BYTES)` returns the first n bytes of what was sent, where n is any count up to 16384, and at least 1 when anything was sent |
| PyWire.ExchangeReply | tests/python/kivaloo/wire.py:154-162 | a reply framed with the request's number, when one `recv` returns all of it, is handed back whole |
| PyWire.ExchangeWrongId | tests/python/kivaloo/wire.py:159-160 | a reply framed with another number, read whole, fails the assertion |
| PyWire.ExchangeShortRead | tests/python/kivaloo/wire.py:159 | when `recv` returns fewer bytes than the reply packet, `split_packet` raises, so no record is handed back, right or wrong |
| PyWire.ExchangeIsFrame | tests/python/kivaloo/wire.py:154-162 | whatever `recv` returns, a record comes back only when those bytes are exactly one packet framing it with the request's number |
| PyWire.Session.constructor | tests/python/kivaloo/wire.py:123-127 | `msgnum` starts at 0 and nothing is sent |
| PyWire.Session.Send | tests/python/kivaloo/wire.py:138-142 | `send` writes the packet of the record under the current number and counts one message, or raises and changes nothing |
| PyWire.Session.SendRecv | tests/python/kivaloo/wire.py:144-162 | `send_recv` sends one packet, counts one message, and returns a fresh cursor over the reply, or the exception the exchange raises |
| PyStruct.PackSize | tests/python/kivaloo/wire.py:44-45 | a successful `struct.pack` is calcsize(fmt) bytes long |
| PyStruct.UnpackDefined | tests/python/kivaloo/wire.py:95 | `unpack_from` succeeds exactly when calcsize(fmt) bytes remain after the offset |
| PyStruct.UnpackPack | tests/python/kivaloo/wire.py:44-60 | unpacking what was packed, wherever it sits in a buffer, gives back the values |
| PyStruct.PackDefined | tests/python/kivaloo/wire.py:44-45 | `struct.pack` fails exactly on a wrong count, a wrong type or an out-of-range integer |
| PyStruct.PackError | tests/python/kivaloo/wire.py:44-45 | the only exception `struct.pack` raises is `struct.error` |
| KvldsKey.Serialize | lib/datastruct/kvldskey.h:37 | a serialization is the length byte, then the key's bytes |
| KvldsKey.Create | trunk/lib/datastruct/kvldskey.c:14-32 | the key keeps the first len mod 256 bytes, because the length is a uint8_t; all of them when len <= 255 |
| KvldsKey.Unserialize | trunk/lib/datastruct/kvldskey.c:42-65 | `kvldskey_unserialize` consumes 0 bytes exactly when buflen < 1 or buflen < buf[0] + 1, and otherwise buf[0] + 1 bytes that are the serialization of the key it returns |
| KvldsKey.UnserializeSerialize | trunk/lib/datastruct/kvldskey.c:55 | unserializing a serialization gives back the key, whatever follows it |
| KvldsKey.SerializeInjective | lib/datastruct/kvldskey.h:37 | two keys with the same serialization are the same key |
| KvldsKey.Cmp2 | trunk/lib/datastruct/kvldskey.c:86-97 | `kvldskey_cmp2` returns the difference of the first differing bytes from mlen on, else the difference of the lengths |
| KvldsKey.Cmp | trunk/lib/datastruct/kvldskey.c:73-77 | `kvldskey_cmp` is `cmp2` from position 0 |
| KvldsKey.CmpOrder | trunk/lib/datastruct/kvldskey.c:73-97 | the sign of `kvldskey_cmp` is lexicographic order, a proper prefix first: negative, zero, positive exactly as x < y, x == y, x > y |
| KvldsKey.LexTrans | trunk/lib/datastruct/kvldskey.c:73-97 | that order is transitive |
| KvldsKey.Cmp2Agrees | trunk/lib/datastruct/kvldskey.c:86-97 | for keys that match up to mlen, `cmp2` returns what `cmp` does |
| KvldsKey.Mlen | trunk/lib/datastruct/kvldskey.c:104-132 | for x < y, `kvldskey_mlen` is the length of their common prefix: the keys agree before it and differ or x ends at it |
| KvldsKey.MatchBelowLonger | trunk/lib/datastruct/kvldskey.c:104-132 | when x < y agree on k bytes, y is longer than k, so `mlen` never reads past y |
| ProtoKvlds.SerializePairsSnoc | lib/proto_kvlds/proto_kvlds_server.c:334-342 | one more pair at the end adds its key and value serializations at the end |
| ProtoKvldsServer.GrabKey | lib/proto_kvlds/proto_kvlds_server.c:48-55 | GRABKEY fails exactly at the end of the buffer or when the key overruns it, and otherwise takes the serialized key at pos |
| ProtoKvldsServer.GrabKeyAt | lib/proto_kvlds/proto_kvlds_server.c:48-55 | GRABKEY takes back a key serialized at pos, whatever surrounds it |
| ProtoKvldsServer.ParseRequest | lib/proto_kvlds/proto_kvlds_server.c:23-124 | what the parser accepts is the encoding of the request it returns |
| ProtoKvldsServer.ParseEncode | lib/proto_kvlds/proto_kvlds_server.c:23-124 | the server parses every request the client encodes back into that request |
| ProtoKvldsServer.ParseRequestFields | lib/proto_kvlds/proto_kvlds_server.c:35-38 | packets shorter than 4 bytes or longer than the blob are rejected; otherwise a packet is accepted when its fields end exactly at its end |
| ProtoKvldsServer.RequestParse | lib/proto_kvlds/proto_kvlds_server.c:23-124 | `proto_kvlds_request_parse` returns 0 exactly when the packet parses, and then R holds that request's type and keys; the ID is stored either way |
| ProtoKvldsServer.ParseOneKey | lib/proto_kvlds/proto_kvlds_server.c:62-66 | the DELETE/GET arm succeeds exactly when one key parses, and R then holds it |
| ProtoKvldsServer.ParseTwoKeys | lib/proto_kvlds/proto_kvlds_server.c:67-82 | the SET/ADD/MODIFY/CAD arm succeeds exactly when two keys parse, and R then holds them |
| ProtoKvldsServer.ParseThreeKeys | lib/proto_kvlds/proto_kvlds_server.c:83-92 | the CAS arm succeeds exactly when three keys parse, and R then holds them |
| ProtoKvldsServer.ParseRange | lib/proto_kvlds/proto_kvlds_server.c:93-107 | the RANGE arm needs four bytes for the size limit and then two keys, and R then holds them |
| ProtoKvldsServer.ResponseParams | lib/proto_kvlds/proto_kvlds_server.c:199-222 | the PARAMS response, kmax then vmax, is written framed with the request ID |
| ProtoKvldsServer.ResponseStatus | lib/proto_kvlds/proto_kvlds_server.c:231-256 | the status response is written framed with the request ID |
| ProtoKvldsServer.ResponseGet | lib/proto_kvlds/proto_kvlds_server.c:265-298 | the GET response is the status, followed by the serialized value only when the status is 0 |
| ProtoKvldsServer.PairsLength | lib/proto_kvlds/proto_kvlds_server.c:315-319 | the length loop sums the serial sizes of exactly the pairs that are written |
| ProtoKvldsServer.PutPairs | lib/proto_kvlds/proto_kvlds_server.c:334-342 | the write loop writes key, value, key, value... in order after the head |
| ProtoKvldsServer.ResponseRange | lib/proto_kvlds/proto_kvlds_server.c:307-354 | the RANGE response is 0, nkeys, the next key, then the first nkeys pairs |
| RangePairs.ReadPairUnserialize | lib/proto_kvlds/proto_kvlds_client.c:283-292 | the two `kvldskey_unserialize` calls of an iteration read what one pair's serialization holds, and fail where it fails |
| RangePairs.ReadPairs | lib/proto_kvlds/proto_kvlds_client.c:278-295 | the pairs loop succeeds exactly when n pairs parse, and returns their keys, values and end |
| RangePairs.ParsePairsBytes | lib/proto_kvlds/proto_kvlds_client.c:278-295 | what the pairs loop reads is the serialization of the pairs it returns |
| RangePairs.ParsePairsAt | lib/proto_kvlds/proto_kvlds_client.c:278-295 | serialized pairs, whatever surrounds them, parse back into the same pairs |
| RangePairs.ParsePairsStuck | lib/proto_kvlds/proto_kvlds_client.c:283-292 | once the loop fails, reading more pairs fails too |
| ProtoKvldsClient.PutKey | lib/proto_kvlds/proto_kvlds_client.c:461-464 | `kvldskey_serialize` at bufpos appends the key's serialization and moves bufpos past it |
| ProtoKvldsClient.RequestParams | lib/proto_kvlds/proto_kvlds_client.c:390-422 | the PARAMS request is the type word alone |
| ProtoKvldsClient.RequestSet | lib/proto_kvlds/proto_kvlds_client.c:432-481 | the SET request is 4 plus the serial sizes of key and value long and is its encoding, the fill position ending at its length |
| ProtoKvldsClient.RequestCas | lib/proto_kvlds/proto_kvlds_client.c:492-545 | the CAS request is the encoding of (key, oval, value) |
| ProtoKvldsClient.RequestAdd | lib/proto_kvlds/proto_kvlds_client.c:556-605 | the ADD request is the encoding of (key, value) |
| ProtoKvldsClient.RequestModify | lib/proto_kvlds/proto_kvlds_client.c:616-665 | the MODIFY request is the encoding of (key, value) |
| ProtoKvldsClient.RequestDelete | lib/proto_kvlds/proto_kvlds_client.c:675-715 | the DELETE request is the encoding of the key |
| ProtoKvldsClient.RequestCad | lib/proto_kvlds/proto_kvlds_client.c:726-775 | the CAD request is the encoding of (key, oval) |
| ProtoKvldsClient.RequestGet | lib/proto_kvlds/proto_kvlds_client.c:788-827 | the GET request is the encoding of the key |
| ProtoKvldsClient.ClipMax | lib/proto_kvlds/proto_kvlds_client.c:852-853 | the size limit sent is the smaller of max and UINT32_MAX |
| ProtoKvldsClient.RequestRange | lib/proto_kvlds/proto_kvlds_client.c:840-896 | the RANGE request is the encoding of (clipped max, start, end), and the clipped max is what the response is checked against |
| ProtoKvldsClient.CallbackParams | lib/proto_kvlds/proto_kvlds_client.c:77-108 | `callback_params` succeeds exactly on an 8-byte response, and then returns the two words it holds |
| ProtoKvldsClient.ParamsRoundTrip | lib/proto_kvlds/proto_kvlds_client.c:77-108 | the PARAMS response the server builds parses back into its values |
| ProtoKvldsClient.CallbackDone | lib/proto_kvlds/proto_kvlds_client.c:121-124 | `callback_done` fails exactly when the response is shorter than 4 bytes or its status is not 0 |
| ProtoKvldsClient.DoneStatus | lib/proto_kvlds/proto_kvlds_client.c:112-139 | a status response succeeds exactly when its status is 0 |
| ProtoKvldsClient.CallbackDonep | lib/proto_kvlds/proto_kvlds_client.c:143-172 | `callback_donep` fails exactly on a short response or a status above 1, and otherwise returns the status |
| ProtoKvldsClient.DonepStatus | lib/proto_kvlds/proto_kvlds_client.c:155-157 | a status response of 0 or 1 parses back into that status |
| ProtoKvldsClient.CallbackGet | lib/proto_kvlds/proto_kvlds_client.c:177-216 | `callback_get` succeeds only on a GET response: status 0 with a value ending the response exactly, or status 1 alone, which means no value; a failure hands up a value only when status 0's value parsed and more bytes follow it |
| ProtoKvldsClient.GetTrailingBytes | lib/proto_kvlds/proto_kvlds_client.c:195-211 | a status-0 response whose value is followed by stray bytes fails the length check and still passes the parsed value to the upstream callback |
| ProtoKvldsClient.GetFailureNoValue | lib/proto_kvlds/proto_kvlds_client.c:177-211 | a failed response that is missing, shorter than 4 bytes or not status 0 reaches the upstream callback with no value |
| ProtoKvldsClient.GetRoundTrip | lib/proto_kvlds/proto_kvlds_client.c:176-223 | the GET response the server builds parses back into its value or its absence |
| ProtoKvldsClient.RangeHead | lib/proto_kvlds/proto_kvlds_client.c:245-276 | the head of a RANGE response is status 0, a number of pairs at most 1 or at most max / 2, and the next key |
| ProtoKvldsClient.RangeResponse | lib/proto_kvlds/proto_kvlds_client.c:245-296 | what `callback_range` accepts is exactly the server's RANGE response for what it returns: a nonzero status, an oversized count or trailing bytes fail |
| ProtoKvldsClient.RangeRoundTrip | lib/proto_kvlds/proto_kvlds_client.c:227-331 | the RANGE response the server builds parses back into its next key and pairs when their number fits max |
| ProtoKvldsClient.RangeTooMany | lib/proto_kvlds/proto_kvlds_client.c:257-262 | a RANGE response with more pairs than max allows fails |
| ProtoKvldsClient.CallbackRange | lib/proto_kvlds/proto_kvlds_client.c:227-331 | `callback_range` fails exactly when the response does not parse, with no keys and no next key, and otherwise fills the arrays with the pairs in order |
| ProtoKvldsClient.Range2.constructor | lib/proto_kvlds/proto_kvlds_client.c:908-948 | `proto_kvlds_request_range2` starts a walk from start to end with nothing done |
| ProtoKvldsClient.Range2.Poke | lib/proto_kvlds/proto_kvlds_client.c:959-980 | `poke_range2` requests again exactly when the walk has not failed and start < end, or, for the empty end key, unless the request is done and start is empty |
| ProtoKvldsClient.Range2.CallbackRange2 | lib/proto_kvlds/proto_kvlds_client.c:335-379 | a failed response marks the walk failed; a good one hands its pairs on in order and moves start to the next key; either way `poke_range2`'s choice follows |
| ProtoKvldsClient.Deliver | lib/proto_kvlds/proto_kvlds_client.c:357-360 | the loop hands each pair to the callback, in order |
| PyKvlds.LengthAndBytes | tests/python/kivaloo/proto_kvlds.py:20-29 | `kvlds_length_and_bytes` raises `KivalooTooMuchData` exactly over 255 bytes, and otherwise is the C key serialization |
| PyKvlds.PackRecord | tests/python/kivaloo/proto_kvlds.py:57-58 | a record '>I' plus one '%ds' per field is the type word, then the fields |
| PyKvlds.RangeRecord | tests/python/kivaloo/proto_kvlds.py:123-124 | the RANGE record is the C request's encoding, or `struct.error` for a maxsize outside 32 bits |
| PyKvlds.StatusRoundTrip | tests/python/kivaloo/proto_kvlds.py:59-60 | the status reply the C server builds reads back as its status |
| PyKvlds.ParamsRoundTrip | tests/python/kivaloo/proto_kvlds.py:47-51 | the PARAMS reply reads back as its two limits |
| PyKvlds.GetRoundTrip | tests/python/kivaloo/proto_kvlds.py:113-117 | a GET reply reads back as its value, an empty value as None, and status 1 as (1, None) |
| PyKvlds.ReadDictParse | tests/python/kivaloo/proto_kvlds.py:132-136 | the dict loop of `range` reads the pairs the C client's loop reads, a later equal key replacing an earlier one |
| PyKvlds.PairsMapSnoc | tests/python/kivaloo/proto_kvlds.py:136 | a pair read last lands in the dict over the others |
| PyKvlds.RangeRoundTrip | tests/python/kivaloo/proto_kvlds.py:125-138 | a RANGE reply reads back as status 0, its next key and the dict of its pairs |
| PyKvlds.ReadDictStuck | tests/python/kivaloo/proto_kvlds.py:133-136 | once the loop raises, reading more pairs raises the same exception |
| PyKvlds.ReadDictFrom | tests/python/kivaloo/proto_kvlds.py:132-136 | the loop through the cursor builds the dict `ReadDict` describes and leaves the cursor after the pairs |
| PyKvlds.ReadParams | tests/python/kivaloo/proto_kvlds.py:50 | reading the PARAMS reply through the cursor gives what `ParamsOf` describes |
| PyKvlds.ReadRange | tests/python/kivaloo/proto_kvlds.py:125-138 | reading the RANGE reply through the cursor gives what `RangeOf` describes |
| PyKvlds.Kvlds.Params | tests/python/kivaloo/proto_kvlds.py:47-51 | `params` sends the PARAMS request as one message and returns the two limits of the reply |
| PyKvlds.Kvlds.Set | tests/python/kivaloo/proto_kvlds.py:53-60 | `set` raises before sending for a key or value over 255 bytes, and otherwise sends the C SET encoding and returns the reply's status |
| PyKvlds.Kvlds.Cas | tests/python/kivaloo/proto_kvlds.py:62-72 | `cas` likewise, for the CAS encoding |
| PyKvlds.Kvlds.Add | tests/python/kivaloo/proto_kvlds.py:74-81 | `add` likewise, for the ADD encoding |
| PyKvlds.Kvlds.Modify | tests/python/kivaloo/proto_kvlds.py:83-90 | `modify` likewise, for the MODIFY encoding |
| PyKvlds.Kvlds.Delete | tests/python/kivaloo/proto_kvlds.py:92-98 | `delete` likewise, for the DELETE encoding |
| PyKvlds.Kvlds.Cad | tests/python/kivaloo/proto_kvlds.py:100-107 | `cad` likewise, for the CAD encoding |
| PyKvlds.Kvlds.Get | tests/python/kivaloo/proto_kvlds.py:109-117 | `get` raises before sending for a long key, and otherwise sends the GET encoding and returns (1, None) or the status and the value |
| PyKvlds.Kvlds.Range | tests/python/kivaloo/proto_kvlds.py:119-138 | `range` raises before sending for a long bound or a maxsize outside 32 bits, and otherwise sends the RANGE encoding and returns status, next key and dict |
| PyKvlds.Connect | tests/python/kivaloo/proto_kvlds.py:37-40 | a new connection sends PARAMS as message 0 and keeps the two limits |
| ProtoLbsServer.ParseEncode | lib/proto_lbs/proto_lbs_server.c:15-75 | the server takes back every well-formed request the client encodes |
| ProtoLbsServer.ParseIsEncoding | lib/proto_lbs/proto_lbs_server.c:34-63 | a packet the server accepts is well formed and exactly the encoding of the request it parses to: PARAMS/PARAMS2 4 bytes, GET/FREE 12, APPEND 16 + nblks * blklen with nblks != 0 |
| ProtoLbsServer.AppendIsEncoding | lib/proto_lbs/proto_lbs_server.c:46-58 | an accepted APPEND has blklen = (len - 16) / nblks and carries the data bytes unchanged |
| ProtoLbsServer.ParseIff | lib/proto_lbs/proto_lbs_server.c:15-75 | a packet is accepted as req exactly when it is the encoding of the well-formed req |
| ProtoLbsServer.RequestParse | lib/proto_lbs/proto_lbs_server.c:15-75 | `proto_lbs_request_parse` returns 0 exactly when the packet parses, and R then holds the request, with an APPEND's data copied to a fresh buffer |
| ProtoLbsServer.ParseAppend | lib/proto_lbs/proto_lbs_server.c:46-58 | the APPEND arm succeeds exactly when the packet parses as an APPEND |
| ProtoLbsServer.ResponseParams | lib/proto_lbs/proto_lbs_server.c:125-148 | the PARAMS response, blklen then blkno, is written framed with the request ID |
| ProtoLbsServer.ResponseParams2 | lib/proto_lbs/proto_lbs_server.c:157-181 | the PARAMS2 response, blklen, blkno, lastblk, is written framed |
| ProtoLbsServer.ResponseGet | lib/proto_lbs/proto_lbs_server.c:189-220 | the GET response is 4 + blklen bytes with the block exactly when the status is 0, else 4 |
| ProtoLbsServer.ResponseAppend | lib/proto_lbs/proto_lbs_server.c:228-259 | the APPEND response is 12 bytes with the next block for status 0, else 4 |
| ProtoLbsServer.ResponseFree | lib/proto_lbs/proto_lbs_server.c:266-287 | the FREE response is status 0 |
| ProtoLbsClient.RequestParams | lib/proto_lbs/proto_lbs_client.c:58-85 | the PARAMS request is the type word alone |
| ProtoLbsClient.RequestParams2 | lib/proto_lbs/proto_lbs_client.c:131-158 | the PARAMS2 request is the type word alone |
| ProtoLbsClient.RequestGet | lib/proto_lbs/proto_lbs_client.c:207-242 | the GET request is the encoding of the block number |
| ProtoLbsClient.RequestFree | lib/proto_lbs/proto_lbs_client.c:438-471 | the FREE request is the encoding of the block number |
| ProtoLbsClient.BlockAt | lib/proto_lbs/proto_lbs_client.c:322-326 | block i of an APPEND lies at i * blklen in the data |
| ProtoLbsClient.RequestAppendBlks | lib/proto_lbs/proto_lbs_client.c:300-340 | the APPEND request is 16 + nblks * blklen bytes: the head, then blklen bytes of each block in turn |
| ProtoLbsClient.BlocksOfCut | lib/proto_lbs/proto_lbs_client.c:364-366 | the block pointers `proto_lbs_request_append` cuts from a flat buffer, taken blklen bytes each, are its first nblks * blklen bytes |
| ProtoLbsClient.RequestAppend | lib/proto_lbs/proto_lbs_client.c:353-384 | `proto_lbs_request_append` sends the head and the first nblks * blklen bytes of the buffer, the encoding the server parses |
| ProtoLbsClient.CallbackParams | lib/proto_lbs/proto_lbs_client.c:89-120 | `callback_params` succeeds exactly on a 12-byte response and returns its block size and next block |
| ProtoLbsClient.ParamsRoundTrip | lib/proto_lbs/proto_lbs_client.c:89-120 | the PARAMS response the server builds parses back into its values |
| ProtoLbsClient.CallbackParams2 | lib/proto_lbs/proto_lbs_client.c:162-195 | `callback_params2` succeeds exactly on a 20-byte response; on failure lastblk is (uint64_t)(-1) |
| ProtoLbsClient.Params2RoundTrip | lib/proto_lbs/proto_lbs_client.c:162-195 | the PARAMS2 response parses back into its values |
| ProtoLbsClient.CallbackGet | lib/proto_lbs/proto_lbs_client.c:259-268 | `callback_get` succeeds exactly on status 0 with 4 + blklen bytes or status 1 with 4 bytes; status > 1 fails |
| ProtoLbsClient.GetRoundTrip | lib/proto_lbs/proto_lbs_client.c:246-286 | the GET response parses back into its status and block |
| ProtoLbsClient.CallbackAppend | lib/proto_lbs/proto_lbs_client.c:401-413 | `callback_append` succeeds exactly on status 0 with 12 bytes or status 1 with 4 bytes |
| ProtoLbsClient.AppendRoundTrip | lib/proto_lbs/proto_lbs_client.c:388-428 | the APPEND response parses back into its status and next block |
| ProtoLbsClient.CallbackFree | lib/proto_lbs/proto_lbs_client.c:475-502 | `callback_free` fails exactly on a short response or a nonzero status |
| ProtoLbsClient.FreeRoundTrip | lib/proto_lbs/proto_lbs_client.c:475-502 | the FREE response the server builds succeeds |
| PyLbs.PackBlockRecord | tests/python/kivaloo/proto_lbs.py:45 | '>IQ' is the type word and the block number, or `struct.error` for a number outside 64 bits |
| PyLbs.PackAppendRecord | tests/python/kivaloo/proto_lbs.py:58-60 | '>IIQ%ds' raises unless the count fits in 32 bits and the start in 64, and otherwise truncates or pads the data to block_size * nums bytes |
| PyLbs.AppendRecordIsEncoding | tests/python/kivaloo/proto_lbs.py:58-60 | when the data is exactly nums blocks, the APPEND record is the request the C server parses |
| PyLbs.ParamsRoundTrip | tests/python/kivaloo/proto_lbs.py:31-35 | the PARAMS reply reads back as block size and next block |
| PyLbs.Params2RoundTrip | tests/python/kivaloo/proto_lbs.py:37-41 | the PARAMS2 reply reads back as u32, u64, u64 |
| PyLbs.GetRoundTrip | tests/python/kivaloo/proto_lbs.py:45-50 | a GET reply reads back as (1, None) for status 1 and as its block_size bytes otherwise |
| PyLbs.AppendRoundTrip | tests/python/kivaloo/proto_lbs.py:61-65 | an APPEND reply reads back as (1, None) for status 1 and its next block, read as u64, otherwise |
| PyLbs.FreeRoundTrip | tests/python/kivaloo/proto_lbs.py:71-73 | the FREE reply reads back as status 0 |
| PyLbs.ReadParams | tests/python/kivaloo/proto_lbs.py:34 | reading the PARAMS reply through the cursor gives what `ParamsOf` describes |
| PyLbs.ReadParams2 | tests/python/kivaloo/proto_lbs.py:40 | reading the PARAMS2 reply through the cursor gives what `Params2Of` describes |
| PyLbs.ReadGet | tests/python/kivaloo/proto_lbs.py:46-50 | reading the GET reply through the cursor gives what `GetOf` describes |
| PyLbs.ReadAppend | tests/python/kivaloo/proto_lbs.py:61-65 | reading the APPEND reply through the cursor gives what `AppendOf` describes |
| PyLbs.ReadStatus | tests/python/kivaloo/proto_lbs.py:72 | reading the FREE reply through the cursor gives its status word |
| PyLbs.Lbs.Params | tests/python/kivaloo/proto_lbs.py:31-35 | `params` sends PARAMS as one message and returns the reply's two values |
| PyLbs.Lbs.Params2 | tests/python/kivaloo/proto_lbs.py:37-41 | `params2` sends PARAMS2 (type 4) and returns the reply's three values |
| PyLbs.Lbs.Get | tests/python/kivaloo/proto_lbs.py:43-50 | `get` raises before sending for a number outside 64 bits, and otherwise sends the GET encoding and reads the block |
| PyLbs.Lbs.Append | tests/python/kivaloo/proto_lbs.py:52-65 | `append` raises before sending for block size 0, for data that is not whole blocks, or for a count or start out of range; otherwise it sends the APPEND record |
| PyLbs.Lbs.Free | tests/python/kivaloo/proto_lbs.py:67-73 | `free` sends the FREE encoding and returns the status, or raises before sending for a number out of range |
| PyLbs.Connect | tests/python/kivaloo/proto_lbs.py:19-24 | a new connection sends PARAMS as message 0 and keeps the block size |
| ProtoS3.MkStr | lib/proto_s3/proto_s3_server.c:12-46 | `mkstr` reads a length byte, checks bounds, rejects embedded NULs, and on success moves pos by 1 + slen |
| ProtoS3.NameIsLp | lib/proto_s3/proto_s3_server.c:19-37 | a name `mkstr` accepts is at most 255 NUL-free bytes, stored length-prefixed |
| ProtoS3.RequestFields | lib/proto_s3/proto_s3_server.c:78-103 | the type switch succeeds exactly when the fields parse: PUT is pos + 4 + len bytes, GET pos + 4, RANGE pos + 8, HEAD and DELETE pos |
| ProtoS3.RequestParse | lib/proto_s3/proto_s3_server.c:53-118 | `proto_s3_request_parse` returns 0 exactly when the packet parses, and R then holds the request |
| ProtoS3.ParseEncode | lib/proto_s3/proto_s3_server.c:53-118 | the server parses every well-formed request back from its encoding |
| ProtoS3.ParseIsEncoding | lib/proto_s3/proto_s3_server.c:53-118 | whatever the server parses is well formed and exactly the packet it came from |
| ProtoS3.ParseIff | lib/proto_s3/proto_s3_server.c:53-118 | a packet parses to req exactly when it is req's encoding |
| ProtoS3.ResponseStatus | lib/proto_s3/proto_s3_server.c:184-205 | the status response is the status word, framed with the request ID |
| ProtoS3.ResponseData | lib/proto_s3/proto_s3_server.c:216-245 | the data response is 8 bytes, plus len bytes only when there is a buffer and len != -1 |
| ProtoS3.DataRoundTrip | lib/proto_s3/proto_s3_server.c:223-233 | a data response reads back as its status, length and data |
| ProtoS3.HeadRoundTrip | lib/proto_s3/proto_s3_server.c:216-245 | a HEAD response, made without a buffer, reads back as its status and length |
| ProtoS3.StatusRoundTrip | lib/proto_s3/proto_s3_server.c:184-205 | a status response reads back as the status word |
| ElasticQueue.Queue.constructor | libcperciva/datastruct/elasticqueue.c:20-44 | a new queue is empty |
| ElasticQueue.Queue.Add | libcperciva/datastruct/elasticqueue.c:51-67 | `elasticqueue_add` puts the record at the tail and adds one to the length |
| ElasticQueue.Queue.Delete | libcperciva/datastruct/elasticqueue.c:79-109 | `elasticqueue_delete` does nothing to an empty queue and otherwise removes the head, compacting as needed without changing the contents |
| ElasticQueue.Compact | libcperciva/datastruct/elasticqueue.c:94-108 | the move to the front keeps the records and their order |
| ElasticQueue.Queue.GetLen | libcperciva/datastruct/elasticqueue.c:116-120 | `elasticqueue_getlen` is the number of records |
| ElasticQueue.Queue.Get | libcperciva/datastruct/elasticqueue.c:130-139 | `elasticqueue_get` is NULL when pos >= len, and otherwise record pos from the head |
| ElasticQueue.Queue.Set | libcperciva/datastruct/elasticqueue.c:130-139 | a store through the returned pointer replaces record pos and nothing else |
| SeqPtrMap.PtrMap.constructor | libcperciva/datastruct/seqptrmap.c:20-44 | a new map is empty and hands out 0 first |
| SeqPtrMap.AssocSnoc | libcperciva/datastruct/seqptrmap.c:52-70 | a pointer added at the tail is associated with the integer after the queue |
| SeqPtrMap.PtrMap.Add | libcperciva/datastruct/seqptrmap.c:52-70 | `seqptrmap_add` associates ptr with the next integer, returns it, and the integers handed out are consecutive from 0 |
| SeqPtrMap.PtrMap.Get | libcperciva/datastruct/seqptrmap.c:80-99 | `seqptrmap_get` returns the pointer associated with i, NULL outside [offset, offset + len) |
| SeqPtrMap.PtrMap.GetMin | libcperciva/datastruct/seqptrmap.c:107-119 | `seqptrmap_getmin` is -1 for an empty map, and otherwise the least integer with a pointer |
| SeqPtrMap.AssocClear | libcperciva/datastruct/seqptrmap.c:141 | clearing a slot removes that integer's association and no other |
| SeqPtrMap.AssocDropNone | libcperciva/datastruct/seqptrmap.c:144-149 | dropping a NULL head keeps every association |
| SeqPtrMap.PtrMap.Delete | libcperciva/datastruct/seqptrmap.c:126-150 | `seqptrmap_delete` removes i's association, is a no-op out of range, trims leading NULLs and keeps the next integer |
| KvHash.KvHash.constructor | lib/datastruct/kvhash.c:95-124 | `kvhash_init` makes 4 empty slots and no keys |
| KvHash.Probe | lib/datastruct/kvhash.c:142-155 | the probe loop stops at the slot holding k, or at the first empty slot on k's probe sequence, passing only slots with other keys |
| KvHash.AbsentFromWalk | lib/datastruct/kvhash.c:142-155 | a probe that meets an empty slot proves k is not in the table |
| KvHash.KvHash.Search | lib/datastruct/kvhash.c:133-166 | `kvhash_search` returns the slot holding k, or the empty slot where k goes, and then no slot holds k; it records k's hash there |
| KvHash.KvHash.Store | lib/datastruct/kvhash.c:133-166 | storing at the slot search returned keeps every key reachable and no key twice |
| KvHash.FillReachable | lib/datastruct/kvhash.c:142-155 | a pair put in the empty slot its probe reached keeps every pair reachable from its home slot |
| KvHash.ReplaceOk | lib/datastruct/kvhash.c:142-155 | a new value for a present key keeps the table's invariants |
| KvHash.KvHash.PostAdd | lib/datastruct/kvhash.c:174-192 | `kvhash_postadd` counts one more key and rehashes into twice the slots exactly when nkeys + nslots / 4 > nslots |
| KvHash.FindEmpty | lib/datastruct/kvhash.c:40-46 | the placement loop of `rehash` finds the first empty slot on the probe sequence |
| KvHash.Move | lib/datastruct/kvhash.c:36-52 | one step of the rehash scan moves a pair and its hash to the new table and keeps its invariants |
| KvHash.Rebuild | lib/datastruct/kvhash.c:27-53 | the new table holds every pair of the old, with its hash, each reachable and none twice |
| KvHash.KvHash.Rehash | lib/datastruct/kvhash.c:16-72 | `rehash` doubles nslots and keeps every pair and its hash |
| BtreeFind.Cmp2Order | kvlds/btree_find.c:57 | over keys sharing the first mlen bytes the sign of `cmp2` is the key order |
| BtreeFind.Bisect | kvlds/btree_find.c:47-70 | the interval [min, max) shrinks until it is empty or its middle key is k; keys before it are below k and, when k is not found, keys from it on are above |
| BtreeFind.FindKvpair | kvlds/btree_find.c:35-71 | over sorted keys, `btree_find_kvpair` returns the pair holding k when one does, and NULL exactly when none does |
| BtreeFind.FindChild | kvlds/btree_find.c:79-112 | `btree_find_child` returns an index in [0, nkeys]: keys before it are not above k, keys from it on are above, and a key equal to k at i gives i + 1 |
| Json.WsEndSpec | libcperciva/util/json.c:10-23 | `skip_ws` skips only tab, LF, CR and space, all of them, and never passes the end |
| Json.SkipWs | libcperciva/util/json.c:10-23 | the loop of `skip_ws` stops where `WsEnd` says |
| Json.NumberEndSpec | libcperciva/util/json.c:75-89 | `skip_number` skips only the characters of numbers, all of them, and stops at the end |
| Json.SkipNumber | libcperciva/util/json.c:75-89 | the loop of `skip_number` stops where `NumberEnd` says |
| Json.LiteralEndSpec | libcperciva/util/json.c:27-40 | `skip_literal` consumes exactly "false", "null" or "true", and otherwise returns the end |
| Json.StringAt | libcperciva/util/json.c:44-70 | `skip_string`, as corrected here, never passes the end and moves past a byte that is there |
| Json.SkipString | libcperciva/util/json.c:44-70 | the loop of `skip_string` stops where `StringAt` says |
| Json.SkipValue | libcperciva/util/json.c:176-207 | `skip_value` chooses by the first byte and stops where `ValueEnd` says |
| Json.SkipArray | libcperciva/util/json.c:93-126 | the loop of `skip_array` stops where `ArrayEnd` says |
| Json.SkipObject | libcperciva/util/json.c:130-172 | the loop of `skip_object` stops where `ObjectEnd` says |
| Json.ObjectMember | libcperciva/util/json.c:144-169 | one pass of the loop either ends the object or moves forward to the next member |
| Json.MatchStr | libcperciva/util/json.c:211-284 | `match_str`'s loop ends where `MatchScan` says, with the same foundit |
| Json.JsonFind | libcperciva/util/json.c:302-343 | the loop of `json_find` returns what `FindAt` says |
| Json.FindMember | libcperciva/util/json.c:310-340 | one pass either returns the answer or moves forward to the next name |
| Json.StringAtAsWritten | libcperciva/util/json.c:44-70 | `skip_string` as written returns one past the end when called at the end |
| Json.TrailingCommaOverrun | libcperciva/util/json.c:144-169 | for the text `{"a":1,` `skip_object` calls `skip_string` at the end, which as written points past the buffer |
| JsonGrammar.FirstNamedSpec | libcperciva/util/json.c:302-343 | the member `json_find` should find is the first whose name is s |
| JsonGrammar.NumberRun | libcperciva/util/json.c:75-89 | a number's text is skipped up to the first byte that cannot continue it |
| JsonGrammar.StrValue | libcperciva/util/json.c:44-70 | `skip_string` goes exactly past a string's text, escapes and \u included |
| JsonGrammar.ValueText | libcperciva/util/json.c:176-207 | `skip_value` goes exactly past the text of any value not followed by more of a number |
| JsonGrammar.ArrayValue | libcperciva/util/json.c:93-126 | `skip_array` goes exactly past an array's text |
| JsonGrammar.ObjectValue | libcperciva/util/json.c:130-172 | `skip_object` goes exactly past an object's text |
| JsonGrammar.MatchText | libcperciva/util/json.c:211-284 | `match_str` ends past the closing quote, and matches exactly when the decoded name is the rest of the target and holds no \u |
| JsonGrammar.NameAt | libcperciva/util/json.c:261-266 | `match_str` matches a name exactly when it spells s without a \u escape, so a \u escape means no match |
| JsonGrammar.FindText | libcperciva/util/json.c:302-343 | on an object's text `json_find` returns the position of the value of the first member named s, and the end when none is |
| JsonGrammar.FindPresent | libcperciva/util/json.c:310-340 | the loop stops at the value of the first member named s |
| JsonGrammar.FindMissing | libcperciva/util/json.c:310-340 | the loop over members none of which is named s reaches the end |

## Left out

- Sockets, the event loop, cookies and callbacks. These are `netbuf_*`, `wire_requestqueue`, the `wire_readpacket_wait` / `wire_readpacket` callbacks and the asynchronous `btree_find_leaf` / `btree_find_range`.
  - The bytes a peer has sent are a parameter.
  - The bytes written go to a log (`Wire.Writer.out`, `Session.sent`).
  - C client callbacks are modelled by what they compute from the response bytes; the failure flag is a result.
- `proto_kvlds_request_read`, `proto_lbs_request_read` and `proto_s3_request_read`: these only glue peek, parse and consume together, and peek, parse and consume are modelled.
- The S3 client (`lib/proto_s3/proto_s3_client.c`): it is a separate protocol client of the same shape. `ProtoS3.ReadStatus`, `ReadData` and `ReadHead` only state the layouts of the server's responses.
- Allocation failures (`malloc`, `mpool`, `elasticqueue` resizing). They only produce an error return, which the model drops.
  - Array growth in the elastic queue is not modelled: the records are a sequence, and `ElasticQueue.Compact` models the move to the front.
- The `*_free` functions (`seqptrmap_free`, `elasticqueue_free`, `kvhash_free`, `kvldskey` free). There is no deallocation in Dafny.
- `Session.close` and the connection setup of the Python client. They are socket calls.
- `NotBinaryData`: every input in the model is a byte string, so a non-bytes argument cannot occur.
- The hardware CRC paths and the crcmod library. `PyWire.CrcMod` is defined as the reflected CRC state that the C code leaves behind; crcmod's code is not part of this model.
- Host byte order. `KvHash.Hash` reads the CRC32C bytes as a little-endian word, which assumes a little-endian host.
- KvHash.KvHash.PostAdd: the 2^30 slot limit is not modelled; sizes are unbounded.
- `size_t` overflow: it appears only as the parameter `sizeMax` of peek and of the response builders.
- ProtoKvldsServer.RequestParse: GRABKEY points `dest` at the key before the bounds check. The model stores a key only once it is known to fit, because callers never read R after a -1.
- ProtoS3.RequestParse: on failure R->type and the names stay set. The model promises nothing about R after a -1 beyond its ID.
- The union of request IDs in the lbs client cookies: one ID per request is all that is modelled.
- SeqPtrMap.PtrMap: the source's NULL is `None`, so callers' non-NULL pointers are not checked separately.
- JsonGrammar: the lemmas about JSON text cover text without whitespace between tokens.
  - The routines themselves (`Json.*`) are modelled on all bytes, whitespace included.
  - `Json.IsNumChar` includes the NUL byte, because `strchr` finds the terminator.
- Json.SkipString: it models the corrected `skip_string` (see Findings); `Json.StringAtAsWritten` is the code as written.

## Findings

| source | as written | input that shows it | evidently intended | confidence | as-written member | corrected member |
|---|---|---|---|---|---|---|
| libcperciva/util/json.c:44-70 | `skip_string` steps over the opening quote before it looks at the end. When `skip_object`'s loop comes back after a trailing comma with nothing left, `skip_string` returns end + 1. `skip_ws` passes that on, and `*buf++` then reads one byte past the buffer | the 7 bytes `{"a":1,` | `skip_string` called at the end returns the end, and every routine stays within [buf, end] | not executed | Json.StringAtAsWritten, Json.TrailingCommaOverrun | Json.StringAt, Json.SkipString |
