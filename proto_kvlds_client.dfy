/**
 * The key-value service's client side (lib/proto_kvlds/proto_kvlds_client.c):
 * the request builders, the parsers of the responses (a response buffer of
 * None is a request that failed without a response), and the decision
 * logic of the repeated RANGE requests that walk a key range.
 */
module ProtoKvldsClient {
  import opened Wrappers
  import opened Bytes
  import opened KvldsKey
  import opened ProtoKvlds
  import opened RangePairs

  /* Request builders. */

  /** kvldskey_serialize at bufpos, then bufpos advanced past the key. */
  method PutKey(buf: array<byte>, bufpos: nat, k: Key, ghost written: seq<byte>) returns (next: nat)
    requires bufpos + SerialSize(k) <= buf.Length && buf[..bufpos] == written
    modifies buf
    ensures next == bufpos + SerialSize(k)
    ensures buf[..(next)] == written + Serialize(k)
  {
    Put(buf, bufpos, Serialize(k));
    next := bufpos + SerialSize(k);
  }

  /** proto_kvlds_request_params: the type word alone. */
  method RequestParams() returns (buf: array<byte>)
    ensures fresh(buf) && buf[..] == Encode(Params)
  {
    buf := new byte[4];
    Put(buf, 0, Be32(PARAMS));
    assert buf[..] == buf[..4];
  }

  /** The builders of requests with one key (DELETE, GET). */
  method RequestOneKey(t: u32, key: Key) returns (buf: array<byte>)
    ensures fresh(buf) && buf[..] == Be32(t) + Serialize(key)
  {
    var buflen := 4 + SerialSize(key);
    buf := new byte[buflen];
    Put(buf, 0, Be32(t));
    var bufpos := PutKey(buf, 4, key, Be32(t));
    assert bufpos == buflen;
    assert buf[..] == buf[..bufpos];
  }

  /** The builders of requests with two keys (SET, ADD, MODIFY, CAD). */
  method RequestTwoKeys(t: u32, a: Key, b: Key) returns (buf: array<byte>)
    ensures fresh(buf) && buf[..] == Be32(t) + Serialize(a) + Serialize(b)
  {
    var buflen := 4 + SerialSize(a) + SerialSize(b);
    buf := new byte[buflen];
    Put(buf, 0, Be32(t));
    var bufpos := 4;
    bufpos := PutKey(buf, bufpos, a, Be32(t));
    bufpos := PutKey(buf, bufpos, b, Be32(t) + Serialize(a));
    assert bufpos == buflen;
    assert buf[..] == buf[..bufpos];
  }

  /** proto_kvlds_request_set: the key, then the value. */
  method RequestSet(key: Key, value: Key) returns (buf: array<byte>)
    ensures fresh(buf) && buf[..] == Encode(Set(key, value))
  {
    buf := RequestTwoKeys(SET, key, value);
  }

  /** proto_kvlds_request_cas: the key, the old value, then the new value. */
  method RequestCas(key: Key, oval: Key, value: Key) returns (buf: array<byte>)
    ensures fresh(buf) && buf[..] == Encode(Cas(key, oval, value))
  {
    var buflen := 4 + SerialSize(key) + SerialSize(oval) + SerialSize(value);
    buf := new byte[buflen];
    Put(buf, 0, Be32(CAS));
    var bufpos := 4;
    bufpos := PutKey(buf, bufpos, key, Be32(CAS));
    bufpos := PutKey(buf, bufpos, oval, Be32(CAS) + Serialize(key));
    bufpos := PutKey(buf, bufpos, value, Be32(CAS) + Serialize(key) + Serialize(oval));
    assert bufpos == buflen;
    assert buf[..] == buf[..bufpos];
    Concat4(Be32(CAS), Serialize(key), Serialize(oval), Serialize(value));
  }

  /** proto_kvlds_request_add: the key, then the value. */
  method RequestAdd(key: Key, value: Key) returns (buf: array<byte>)
    ensures fresh(buf) && buf[..] == Encode(Add(key, value))
  {
    buf := RequestTwoKeys(ADD, key, value);
  }

  /** proto_kvlds_request_modify: the key, then the value. */
  method RequestModify(key: Key, value: Key) returns (buf: array<byte>)
    ensures fresh(buf) && buf[..] == Encode(Modify(key, value))
  {
    buf := RequestTwoKeys(MODIFY, key, value);
  }

  /** proto_kvlds_request_delete: the key. */
  method RequestDelete(key: Key) returns (buf: array<byte>)
    ensures fresh(buf) && buf[..] == Encode(Delete(key))
  {
    buf := RequestOneKey(DELETE, key);
  }

  /** proto_kvlds_request_cad: the key, then the old value. */
  method RequestCad(key: Key, oval: Key) returns (buf: array<byte>)
    ensures fresh(buf) && buf[..] == Encode(Cad(key, oval))
  {
    buf := RequestTwoKeys(CAD, key, oval);
  }

  /** proto_kvlds_request_get: the key. */
  method RequestGet(key: Key) returns (buf: array<byte>)
    ensures fresh(buf) && buf[..] == Encode(Get(key))
  {
    buf := RequestOneKey(GET, key);
  }

  /** The size limit proto_kvlds_request_range sends: max, clipped to UINT32_MAX. */
  function ClipMax(max: nat): (r: u32)
    ensures r <= max && (max <= UINT32_MAX ==> r == max)
    ensures max > UINT32_MAX ==> r == UINT32_MAX
  {
    if max >= UINT32_MAX then UINT32_MAX else max
  }

  /**
   * proto_kvlds_request_range: the clipped size limit, the start key and
   * the end key; the clipped limit is also what the response is checked
   * against.
   */
  method RequestRange(start: Key, end: Key, max: nat) returns (buf: array<byte>, cmax: nat)
    ensures cmax == ClipMax(max)
    ensures fresh(buf) && buf[..] == Encode(Range(ClipMax(max), start, end))
  {
    var m := max;
    if m >= UINT32_MAX {
      m := UINT32_MAX;
    }
    cmax := m;
    var buflen := 8 + SerialSize(start) + SerialSize(end);
    buf := new byte[buflen];
    assert m == ClipMax(max);
    Put(buf, 0, Be32(RANGE));
    assert buf[..4] == Be32(RANGE);
    Put(buf, 4, Be32(m));
    assert buf[..8] == Be32(RANGE) + Be32(m);
    var bufpos := 8;
    bufpos := PutKey(buf, bufpos, start, Be32(RANGE) + Be32(m));
    bufpos := PutKey(buf, bufpos, end, Be32(RANGE) + Be32(m) + Serialize(start));
    assert bufpos == buflen;
    assert buf[..] == buf[..bufpos];
    Concat4(Be32(RANGE), Be32(m), Serialize(start), Serialize(end));
  }

  /* Response parsers. */

  /** callback_params: (failed, kmax, vmax); the response must be exactly 8 bytes. */
  function CallbackParams(buf: Option<seq<byte>>): (r: (bool, nat, nat))
    ensures !r.0 <==> buf.Some? && |buf.value| == 8
    ensures !r.0 ==> r.1 <= UINT32_MAX && r.2 <= UINT32_MAX && buf.value == ParamsReply(r.1, r.2)
    ensures r.0 ==> r.1 == 0 && r.2 == 0
  {
    if buf.None? || |buf.value| != 8 then (true, 0, 0)
    else
      var b := buf.value;
      Be32Inverse(b[0..4]);
      Be32Inverse(b[4..8]);
      assert b == b[0..4] + b[4..8];
      (false, Be32Dec(b[0..4]), Be32Dec(b[4..8]))
  }

  /** The PARAMS response the server builds parses back into its values. */
  lemma ParamsRoundTrip(kmax: u32, vmax: u32)
    ensures CallbackParams(Some(ParamsReply(kmax, vmax))) == (false, kmax, vmax)
  {
    var b := ParamsReply(kmax, vmax);
    assert b[0..4] == Be32(kmax) && b[4..8] == Be32(vmax);
  }

  /**
   * callback_done (SET, DELETE): failed unless the response has at least
   * four bytes and status 0; further bytes are not examined.
   */
  function CallbackDone(buf: Option<seq<byte>>): (failed: bool)
    ensures !failed <==> buf.Some? && |buf.value| >= 4 && buf.value[..4] == Be32(0)
  {
    if buf.None? then true
    else if |buf.value| < 4 then true
    else
      Be32Inverse(buf.value[..4]);
      Be32Dec(buf.value[..4]) > 0
  }

  /** A status response the server builds succeeds exactly when its status is 0. */
  lemma DoneStatus(status: u32)
    ensures !CallbackDone(Some(StatusReply(status))) <==> status == 0
  {
    assert StatusReply(status)[..4] == Be32(status);
  }

  /**
   * callback_donep (CAS, ADD, MODIFY, CAD): (failed, status); failed
   * unless the response has at least four bytes and status 0 or 1.
   */
  function CallbackDonep(buf: Option<seq<byte>>): (r: (bool, nat))
    ensures !r.0 <==> buf.Some? && |buf.value| >= 4 && Be32Dec(buf.value[..4]) <= 1
    ensures !r.0 ==> r.1 <= 1 && buf.value[..4] == Be32(r.1)
    ensures r.0 ==> r.1 == 0
  {
    if buf.None? then (true, 0)
    else if |buf.value| < 4 then (true, 0)
    else if Be32Dec(buf.value[..4]) > 1 then (true, 0)
    else
      Be32Inverse(buf.value[..4]);
      (false, Be32Dec(buf.value[..4]))
  }

  /** A status response of 0 or 1 parses back into that status. */
  lemma DonepStatus(status: u32)
    requires status <= 1
    ensures CallbackDonep(Some(StatusReply(status))) == (false, status)
  {
    assert StatusReply(status)[..4] == Be32(status);
  }

  /**
   * callback_get: (failed, value); status 0 carries a value that must end
   * the response, status 1 carries none and the response is 4 bytes.  A
   * value that parses but is followed by more bytes is still handed up,
   * together with the failure.
   */
  function CallbackGet(buf: Option<seq<byte>>): (r: (bool, Option<Key>))
    ensures !r.0 ==> buf.Some? && buf.value == GetReply(r.1)
    ensures r.0 && r.1.Some? ==>
      && buf.Some? && |buf.value| > 4 + SerialSize(r.1.value)
      && buf.value[..4 + SerialSize(r.1.value)] == GetReply(r.1)
  {
    if buf.None? || |buf.value| < 4 || Be32Dec(buf.value[..4]) > 1 then (true, None)
    else
      var b := buf.value;
      var status := Be32Dec(b[..4]);
      Be32Inverse(b[..4]);
      assert b == b[..4] + b[4..];
      if status == 0 then
        var (value, valuelen) := Unserialize(b[4..]);
        if value.None? then (true, None)
        else if |b| != 4 + valuelen then
          assert b[..4 + valuelen] == b[..4] + b[4..][..valuelen];
          (true, value)
        else
          assert b[4..] == b[4..][..valuelen];
          (false, value)
      else if |b| != 4 then (true, None)
      else (false, None)
  }

  /** The GET response the server builds parses back into its value, whether there is one or not. */
  lemma GetRoundTrip(value: Option<Key>)
    ensures CallbackGet(Some(GetReply(value))) == (false, value)
  {
    var b := GetReply(value);
    assert b[..4] == Be32(if value.Some? then 0 else 1);
    if value.Some? {
      assert b[4..] == Serialize(value.value) + [];
      UnserializeSerialize(value.value, []);
    }
  }

  /** A GET response whose value is followed by stray bytes fails, and the parsed value goes up with the failure. */
  lemma GetTrailingBytes(value: Key, rest: seq<byte>)
    requires rest != []
    ensures CallbackGet(Some(GetReply(Some(value)) + rest)) == (true, Some(value))
  {
    var b := GetReply(Some(value)) + rest;
    assert b[..4] == Be32(0);
    assert b[4..] == Serialize(value) + rest;
    UnserializeSerialize(value, rest);
  }

  /** Any other failed response carries no value. */
  lemma GetFailureNoValue(buf: Option<seq<byte>>)
    requires buf.None? || |buf.value| < 4 || buf.value[..4] != Be32(0)
    ensures CallbackGet(buf).0 ==> CallbackGet(buf).1 == None
  {
    if buf.Some? && |buf.value| >= 4 && Be32Dec(buf.value[..4]) == 0 {
      Be32Inverse(buf.value[..4]);
    }
  }

  /** The pairs a RANGE response may carry: at most one pair, or at most max / 2 pairs. */
  predicate CountFits(nkeys: nat, max: nat)
  {
    !(nkeys > 1 && nkeys > max / 2)
  }

  /**
   * The head of a RANGE response as callback_range reads it: status 0,
   * the number of pairs (at most one, or at most max / 2), then the next
   * key; the number of pairs, the next key and the position after it.
   */
  function RangeHead(b: seq<byte>, max: nat): (r: Option<(nat, Key, nat)>)
    ensures r.Some? ==> r.value.0 <= UINT32_MAX && CountFits(r.value.0, max)
    ensures r.Some? ==> 8 < r.value.2 <= |b| && b[0..4] == Be32(0) && b[4..8] == Be32(r.value.0)
    ensures r.Some? ==> r.value.2 == 8 + SerialSize(r.value.1) && b[8..(r.value.2)] == Serialize(r.value.1)
  {
    if |b| < 4 || Be32Dec(b[0..4]) != 0 then None
    else if |b| - 4 < 4 then None
    else
      var nkeys := Be32Dec(b[4..8]);
      if !CountFits(nkeys, max) then None
      else
        var (next, klen) := Unserialize(b[8..]);
        if next.None? then None
        else
          Be32Inverse(b[0..4]);
          Be32Inverse(b[4..8]);
          assert b[8..][..klen] == b[8..8 + klen];
          Some((nkeys, next.value, 8 + klen))
  }

  /**
   * callback_range: the head, then exactly as many pairs as it says,
   * ending the response; the next key, the keys and the values, or None
   * on failure.
   */
  function RangeResponse(buf: Option<seq<byte>>, max: nat): (r: Option<(Key, seq<Key>, seq<Key>)>)
    ensures r.Some? ==> |r.value.1| == |r.value.2| <= UINT32_MAX && CountFits(|r.value.1|, max)
    ensures r.Some? ==> buf == Some(RangeReply(r.value.0, r.value.1, r.value.2))
  {
    if buf.None? then None
    else
      var b := buf.value;
      var h := RangeHead(b, max);
      if h.None? then None
      else
        var (nkeys, next, pos) := h.value;
        var pairs := ParsePairs(b, pos, nkeys);
        if pairs.None? || pairs.value.2 != |b| then None
        else
          var (ks, vs, _) := pairs.value;
          ParsePairsBytes(b, pos, nkeys);
          RangeResponseExact(b, next, pos, ks, vs);
          Some((next, ks, vs))
  }

  /** The bytes a RANGE response is parsed from are the response the server builds for what was parsed. */
  lemma RangeResponseExact(b: seq<byte>, next: Key, pos: nat, ks: seq<Key>, vs: seq<Key>)
    requires pos == 8 + SerialSize(next) <= |b| && |ks| == |vs| <= UINT32_MAX
    requires b[0..4] == Be32(0) && b[4..8] == Be32(|ks|) && b[8..pos] == Serialize(next)
    requires b[pos..|b|] == SerializePairs(ks, vs)
    ensures b == RangeReply(next, ks, vs)
  {
    SliceConcat(b, 0, 4, 8);
    SliceConcat(b, 0, 8, pos);
    SliceConcat(b, 0, pos, |b|);
    assert b == b[0..|b|];
  }

  /** The RANGE response the server builds parses back into its pairs when their number fits max. */
  lemma RangeRoundTrip(next: Key, keys: seq<Key>, values: seq<Key>, max: nat)
    requires |keys| == |values| <= UINT32_MAX && CountFits(|keys|, max)
    ensures RangeResponse(Some(RangeReply(next, keys, values)), max) == Some((next, keys, values))
  {
    var b := RangeReply(next, keys, values);
    var pos := 8 + SerialSize(next);
    SliceSplit(b, 0, |b|, Be32(0) + Be32(|keys|) + Serialize(next), SerializePairs(keys, values));
    SliceSplit(b, 0, pos, Be32(0) + Be32(|keys|), Serialize(next));
    SliceSplit(b, 0, 8, Be32(0), Be32(|keys|));
    assert b[8..] == b[8..pos] + b[pos..];
    UnserializeAt(b, 8, next);
    assert RangeHead(b, max) == Some((|keys|, next, pos));
    ParsePairsAt(b, pos, keys, values);
  }

  /** A RANGE response with more pairs than max allows fails, whatever else it holds. */
  lemma RangeTooMany(next: Key, keys: seq<Key>, values: seq<Key>, max: nat)
    requires |keys| == |values| <= UINT32_MAX && !CountFits(|keys|, max)
    ensures RangeResponse(Some(RangeReply(next, keys, values)), max) == None
  {
    var b := RangeReply(next, keys, values);
    assert b[4..8] == Be32(|keys|);
  }

  /**
   * callback_range: the parse, the keys and values read into arrays of
   * nkeys entries; on failure nkeys is 0 and there is no next key.
   */
  method CallbackRange(buf: Option<seq<byte>>, max: nat)
    returns (failed: bool, nkeys: nat, next: Option<Key>, keys: seq<Key>, values: seq<Key>)
    ensures failed <==> RangeResponse(buf, max).None?
    ensures failed ==> nkeys == 0 && next == None && keys == [] && values == []
    ensures !failed ==> next == Some(RangeResponse(buf, max).value.0) && nkeys == |keys|
    ensures !failed ==> keys == RangeResponse(buf, max).value.1 && values == RangeResponse(buf, max).value.2
  {
    failed, nkeys, next, keys, values := true, 0, None, [], [];
    if buf.None? {
      return;
    }
    var b := buf.value;
    var bufpos := 0;
    if |b| - bufpos < 4 {
      return;
    }
    if Be32Dec(b[bufpos..bufpos + 4]) != 0 {
      return;
    }
    bufpos := bufpos + 4;
    if |b| - bufpos < 4 {
      return;
    }
    var n := Be32Dec(b[bufpos..bufpos + 4]);
    if n > 1 && n > max / 2 {
      return;
    }
    bufpos := bufpos + 4;
    var (nx, klen) := Unserialize(b[bufpos..]);
    if klen == 0 {
      return;
    }
    bufpos := bufpos + klen;
    assert RangeHead(b, max) == Some((n, nx.value, bufpos));
    var ok, ks, vs, end := ReadPairs(b, bufpos, n);
    if !ok {
      return;
    }
    if |b| != end {
      return;
    }
    failed, nkeys, next, keys, values := false, n, nx, ks, vs;
  }

  /* RANGE requests repeated over a key range (proto_kvlds_request_range2). */

  /** The size limit poke_range2 asks for in each RANGE request. */
  const RANGE2_MAX: nat := 0x100000

  /**
   * The state of a walk over [start, end): whether a request has failed,
   * whether a request has completed, the key the next request starts from,
   * the end key (the empty key meaning the end of the key space), and the
   * pairs handed to the per-item callback so far.
   */
  class Range2 {
    var failed: bool
    var reqdone: bool
    var start: Key
    var end: Key
    var items: seq<(Key, Key)>

    /** proto_kvlds_request_range2: a walk from start to end, nothing done yet. */
    constructor (s: Key, e: Key)
      ensures !failed && !reqdone && start == s && end == e && items == []
    {
      failed, reqdone, start, end, items := false, false, s, e, [];
    }

    /**
     * poke_range2's choice: another request exactly when the walk has not
     * failed and start < end, or, for the empty end key, unless start is
     * empty after a request has completed.
     */
    method Poke() returns (doreq: bool)
      ensures doreq <==> !failed && (if end == [] then !(reqdone && start == []) else LexLess(start, end))
    {
      var c := Cmp(start, end);
      CmpOrder(start, end);
      if c < 0 {
        doreq := true;
      } else {
        doreq := false;
      }
      if |end| == 0 {
        if reqdone && |start| == 0 {
          doreq := false;
        } else {
          doreq := true;
        }
      }
      if failed {
        doreq := false;
      }
    }

    /**
     * callback_range2 on the response to a RANGE request: the request is
     * done; on failure the walk is marked failed, otherwise it restarts at
     * the next key and the pairs go to the per-item callback, in order.
     * Then poke_range2 decides whether to send another request.
     */
    method CallbackRange2(buf: Option<seq<byte>>) returns (doreq: bool)
      modifies this
      ensures reqdone && end == old(end)
      ensures RangeResponse(buf, RANGE2_MAX).None? ==>
        failed && start == old(start) && items == old(items)
      ensures RangeResponse(buf, RANGE2_MAX).Some? ==>
        var (next, ks, vs) := RangeResponse(buf, RANGE2_MAX).value;
        failed == old(failed) && start == next && items == old(items) + Zip(ks, vs)
      ensures doreq <==> !failed && (if end == [] then !(reqdone && start == []) else LexLess(start, end))
    {
      var f, nkeys, next, keys, values := CallbackRange(buf, RANGE2_MAX);
      reqdone := true;
      if f {
        failed := true;
      } else {
        start := next.value;
        items := Deliver(items, keys, values);
      }
      doreq := Poke();
    }
  }

  /** The loop of callback_range2 over the pairs: each handed to the per-item callback, in order. */
  method Deliver(items: seq<(Key, Key)>, keys: seq<Key>, values: seq<Key>) returns (delivered: seq<(Key, Key)>)
    requires |keys| == |values|
    ensures delivered == items + Zip(keys, values)
  {
    delivered := items;
    var i := 0;
    while i < |keys|
      invariant i <= |keys| && delivered == items + Zip(keys[..i], values[..i])
    {
      assert keys[..i + 1][..i] == keys[..i] && values[..i + 1][..i] == values[..i];
      delivered := delivered + [(keys[i], values[i])];
      i := i + 1;
    }
    assert keys[..|keys|] == keys && values[..|keys|] == values;
  }

  /** Keys and values paired up in order. */
  function Zip(ks: seq<Key>, vs: seq<Key>): (r: seq<(Key, Key)>)
    requires |ks| == |vs|
    ensures |r| == |ks|
  {
    if ks == [] then [] else Zip(ks[..|ks| - 1], vs[..|vs| - 1]) + [(ks[|ks| - 1], vs[|vs| - 1])]
  }
}
