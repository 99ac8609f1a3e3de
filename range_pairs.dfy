/**
 * The pairs of a RANGE response as the client reads them
 * (lib/proto_kvlds/proto_kvlds_client.c, callback_range): a count of
 * key-value pairs, each key and each value a length byte and that many
 * bytes, read one after the other; and the proof that reading them back
 * from their serialization gives the pairs that were serialized.
 */
module RangePairs {
  import opened Wrappers
  import opened Bytes
  import opened KvldsKey
  import opened ProtoKvlds

  /**
   * One iteration of the pairs loop of callback_range: a key, then its
   * value, each a length byte and that many bytes, at p; the position
   * after them.
   */
  function ReadPair(buf: seq<byte>, p: nat): (r: Option<(Key, Key, nat)>)
    requires p <= |buf|
    ensures r.Some? ==> r.value.2 == p + SerialSize(r.value.0) + SerialSize(r.value.1) <= |buf|
    ensures r.Some? ==> buf[p..p + SerialSize(r.value.0)] == Serialize(r.value.0)
    ensures r.Some? ==> buf[p + SerialSize(r.value.0)..(r.value.2)] == Serialize(r.value.1)
  {
    if p == |buf| || p + buf[p] + 1 >= |buf| then None
    else
      var kend := p + buf[p] + 1;
      var vend := kend + buf[kend] + 1;
      if vend > |buf| then None
      else
        var k: Key := buf[p + 1..kend];
        var v: Key := buf[kend + 1..vend];
        assert buf[p..kend] == [buf[p]] + k;
        assert buf[kend..vend] == [buf[kend]] + v;
        Some((k, v, vend))
  }

  /** The two kvldskey_unserialize calls of an iteration read what ReadPair does, and fail where it does. */
  lemma ReadPairUnserialize(buf: seq<byte>, p: nat)
    requires p <= |buf|
    ensures var (k, kl) := Unserialize(buf[p..]);
      && (k.None? ==> ReadPair(buf, p).None?)
      && (k.Some? ==>
           && p + kl <= |buf|
           && var (v, vl) := Unserialize(buf[p + kl..]);
              && (v.None? ==> ReadPair(buf, p).None?)
              && (v.Some? ==> ReadPair(buf, p) == Some((k.value, v.value, p + kl + vl))))
  {
    var (k, kl) := Unserialize(buf[p..]);
    if k.Some? {
      assert buf[p..][0] == buf[p];
      var (v, vl) := Unserialize(buf[p + kl..]);
      if v.Some? {
        assert buf[p + kl..][0] == buf[p + kl];
        assert buf[p..][1..kl] == buf[p + 1..p + kl];
        assert buf[p + kl..][1..vl] == buf[p + kl + 1..p + kl + vl];
      }
    }
  }

  /** A key and a value serialized at p are what the next iteration reads. */
  lemma ReadPairAt(buf: seq<byte>, p: nat, k: Key, v: Key)
    requires p + SerialSize(k) + SerialSize(v) <= |buf|
    requires buf[p..p + SerialSize(k)] == Serialize(k)
    requires buf[p + SerialSize(k)..p + SerialSize(k) + SerialSize(v)] == Serialize(v)
    ensures ReadPair(buf, p) == Some((k, v, p + SerialSize(k) + SerialSize(v)))
  {
    assert buf[p] == Serialize(k)[0];
    assert buf[p + SerialSize(k)] == Serialize(v)[0];
    assert buf[p + 1..p + SerialSize(k)] == Serialize(k)[1..];
    assert buf[p + SerialSize(k) + 1..p + SerialSize(k) + SerialSize(v)] == Serialize(v)[1..];
  }

  /**
   * The pairs loop of callback_range: n iterations starting at pos; the
   * keys, the values and the position after them.
   */
  function ParsePairs(buf: seq<byte>, pos: nat, n: nat): (r: Option<(seq<Key>, seq<Key>, nat)>)
    requires pos <= |buf|
    ensures r.Some? ==> |r.value.0| == n && |r.value.1| == n && pos <= r.value.2 <= |buf|
  {
    if n == 0 then Some(([], [], pos))
    else
      var prev := ParsePairs(buf, pos, n - 1);
      if prev.None? then None
      else
        var pair := ReadPair(buf, prev.value.2);
        if pair.None? then None
        else Some((prev.value.0 + [pair.value.0], prev.value.1 + [pair.value.1], pair.value.2))
  }

  /** What the pairs loop reads is the serialization of the pairs it returns. */
  lemma {:induction false} ParsePairsBytes(buf: seq<byte>, pos: nat, n: nat)
    requires pos <= |buf| && ParsePairs(buf, pos, n).Some?
    ensures var (ks, vs, end) := ParsePairs(buf, pos, n).value; buf[pos..end] == SerializePairs(ks, vs)
  {
    if n > 0 {
      ParsePairsBytes(buf, pos, n - 1);
      ParsePairsBytesLast(buf, pos, n);
    }
  }

  /** The step of ParsePairsBytes: the pair read last is serialized right after the others. */
  lemma ParsePairsBytesLast(buf: seq<byte>, pos: nat, n: nat)
    requires pos <= |buf| && n > 0 && ParsePairs(buf, pos, n).Some?
    requires var prev := ParsePairs(buf, pos, n - 1).value; buf[pos..prev.2] == SerializePairs(prev.0, prev.1)
    ensures var r := ParsePairs(buf, pos, n).value; buf[pos..r.2] == SerializePairs(r.0, r.1)
  {
    var prev := ParsePairs(buf, pos, n - 1).value;
    var pair := ReadPair(buf, prev.2).value;
    assert ParsePairs(buf, pos, n).value == (prev.0 + [pair.0], prev.1 + [pair.1], pair.2);
    PairsAppend(buf, pos, prev.2, pair.2, prev.0, prev.1, pair.0, pair.1);
  }

  /** One more iteration of the pairs loop, from the position it has reached. */
  lemma ParsePairsNext(buf: seq<byte>, pos: nat, n: nat, ks: seq<Key>, vs: seq<Key>, p: nat, k: Key, v: Key, q: nat)
    requires pos <= |buf| && ParsePairs(buf, pos, n) == Some((ks, vs, p)) && ReadPair(buf, p) == Some((k, v, q))
    ensures ParsePairs(buf, pos, n + 1) == Some((ks + [k], vs + [v], q))
  {
  }

  /** The pairs loop fails when its next iteration does. */
  lemma ParsePairsFail(buf: seq<byte>, pos: nat, n: nat, ks: seq<Key>, vs: seq<Key>, p: nat)
    requires pos <= |buf| && ParsePairs(buf, pos, n) == Some((ks, vs, p)) && ReadPair(buf, p).None?
    ensures ParsePairs(buf, pos, n + 1).None?
  {
  }

  /** The serialized pairs so far, followed by one more pair, are the serialized extended pairs. */
  lemma PairsAppend(buf: seq<byte>, pos: nat, p: nat, q: nat, ks: seq<Key>, vs: seq<Key>, k: Key, v: Key)
    requires pos <= p && p + SerialSize(k) + SerialSize(v) == q <= |buf| && |ks| == |vs|
    requires buf[pos..p] == SerializePairs(ks, vs)
    requires buf[p..p + SerialSize(k)] == Serialize(k)
    requires buf[p + SerialSize(k)..q] == Serialize(v)
    ensures buf[pos..q] == SerializePairs(ks + [k], vs + [v])
  {
    SliceConcat(buf, pos, p, q);
    SliceConcat(buf, p, p + SerialSize(k), q);
    SerializePairsSnoc(ks, vs, k, v);
  }

  /** A key serialized at p unserializes there, whatever follows it. */
  lemma UnserializeAt(buf: seq<byte>, p: nat, k: Key)
    requires p + SerialSize(k) <= |buf| && buf[p..p + SerialSize(k)] == Serialize(k)
    ensures Unserialize(buf[p..]) == (Some(k), SerialSize(k))
  {
    assert buf[p..] == Serialize(k) + buf[p + SerialSize(k)..];
    UnserializeSerialize(k, buf[p + SerialSize(k)..]);
  }

  /** A slice holding x then y holds x at its start and y after it. */
  lemma SliceSplit(buf: seq<byte>, a: nat, c: nat, x: seq<byte>, y: seq<byte>)
    requires a <= c <= |buf| && buf[a..c] == x + y
    ensures buf[a..a + |x|] == x && buf[a + |x|..c] == y
  {
    assert buf[a..a + |x|] == buf[a..c][..|x|];
    assert buf[a + |x|..c] == buf[a..c][|x|..];
  }

  /** Where the pairs serialized from pos end. */
  function PairsEnd(pos: nat, keys: seq<Key>, values: seq<Key>): (r: nat)
    requires |keys| == |values|
    ensures r >= pos
  {
    if keys == [] then pos
    else
      var n := |keys| - 1;
      PairsEnd(pos, keys[..n], values[..n]) + SerialSize(keys[n]) + SerialSize(values[n])
  }

  /** The pairs serialized from pos end after as many bytes as their serialization has. */
  lemma {:induction false} PairsEndLength(pos: nat, keys: seq<Key>, values: seq<Key>)
    requires |keys| == |values|
    ensures PairsEnd(pos, keys, values) == pos + |SerializePairs(keys, values)|
  {
    if keys != [] {
      var n := |keys| - 1;
      PairsEndLength(pos, keys[..n], values[..n]);
    }
  }

  /** The pairs, key then value, are serialized one after the other from pos. */
  predicate PairsIn(buf: seq<byte>, pos: nat, keys: seq<Key>, values: seq<Key>)
    requires |keys| == |values|
  {
    if keys == [] then pos <= |buf|
    else
      var n := |keys| - 1;
      var p := PairsEnd(pos, keys[..n], values[..n]);
      && PairsIn(buf, pos, keys[..n], values[..n])
      && p + SerialSize(keys[n]) + SerialSize(values[n]) <= |buf|
      && buf[p..p + SerialSize(keys[n])] == Serialize(keys[n])
      && buf[p + SerialSize(keys[n])..p + SerialSize(keys[n]) + SerialSize(values[n])] == Serialize(values[n])
  }

  /** Serialized pairs at pos are serialized one after the other from pos. */
  lemma {:induction false} SerializedPairsIn(buf: seq<byte>, pos: nat, keys: seq<Key>, values: seq<Key>)
    requires |keys| == |values| && pos + |SerializePairs(keys, values)| <= |buf|
    requires buf[pos..pos + |SerializePairs(keys, values)|] == SerializePairs(keys, values)
    ensures PairsIn(buf, pos, keys, values)
    decreases |keys|
  {
    if keys != [] {
      var n := |keys| - 1;
      PairsSplit(buf, pos, keys, values);
      SerializedPairsIn(buf, pos, keys[..n], values[..n]);
      SerializedLastIn(buf, pos, keys, values);
    }
  }

  /** The inductive step of SerializedPairsIn: the last pair follows the others. */
  lemma SerializedLastIn(buf: seq<byte>, pos: nat, keys: seq<Key>, values: seq<Key>)
    requires |keys| == |values| > 0 && pos + |SerializePairs(keys, values)| <= |buf|
    requires buf[pos..pos + |SerializePairs(keys, values)|] == SerializePairs(keys, values)
    requires PairsIn(buf, pos, keys[..|keys| - 1], values[..|keys| - 1])
    ensures PairsIn(buf, pos, keys, values)
  {
    PairsSplit(buf, pos, keys, values);
    PairsEndLength(pos, keys[..|keys| - 1], values[..|keys| - 1]);
  }

  /** Pairs serialized one after the other from pos parse back into the same pairs. */
  lemma {:induction false} ParsePairsIn(buf: seq<byte>, pos: nat, keys: seq<Key>, values: seq<Key>)
    requires |keys| == |values| && PairsIn(buf, pos, keys, values)
    ensures ParsePairs(buf, pos, |keys|) == Some((keys, values, PairsEnd(pos, keys, values)))
    decreases |keys|
  {
    if keys != [] {
      var n := |keys| - 1;
      ParsePairsIn(buf, pos, keys[..n], values[..n]);
      ParsePairsInLast(buf, pos, keys, values);
    }
  }

  /** The inductive step of ParsePairsIn: once the pairs but the last parse back, all of them do. */
  lemma ParsePairsInLast(buf: seq<byte>, pos: nat, keys: seq<Key>, values: seq<Key>)
    requires |keys| == |values| > 0 && PairsIn(buf, pos, keys, values)
    requires var n := |keys| - 1;
      ParsePairs(buf, pos, n) == Some((keys[..n], values[..n], PairsEnd(pos, keys[..n], values[..n])))
    ensures ParsePairs(buf, pos, |keys|) == Some((keys, values, PairsEnd(pos, keys, values)))
  {
    var n := |keys| - 1;
    PairAtLast(buf, pos, keys, values, PairsEnd(pos, keys[..n], values[..n]));
  }

  /** The step of ParsePairsIn without its hypothesis: the last pair, serialized after the others, is read last. */
  lemma PairAtLast(buf: seq<byte>, pos: nat, keys: seq<Key>, values: seq<Key>, p: nat)
    requires |keys| == |values| > 0 && pos <= |buf|
    requires var n := |keys| - 1; ParsePairs(buf, pos, n) == Some((keys[..n], values[..n], p))
    requires var n := |keys| - 1; p + SerialSize(keys[n]) + SerialSize(values[n]) <= |buf|
    requires var n := |keys| - 1; buf[p..p + SerialSize(keys[n])] == Serialize(keys[n])
    requires var n := |keys| - 1;
      buf[p + SerialSize(keys[n])..p + SerialSize(keys[n]) + SerialSize(values[n])] == Serialize(values[n])
    ensures var n := |keys| - 1;
      ParsePairs(buf, pos, |keys|) == Some((keys, values, p + SerialSize(keys[n]) + SerialSize(values[n])))
  {
    var n := |keys| - 1;
    Snoc(keys);
    Snoc(values);
    PairAt(buf, pos, n, keys[..n], values[..n], p, keys[n], values[n]);
  }

  /** Serialized pairs at pos, whatever surrounds them, parse back into the same pairs. */
  lemma ParsePairsAt(buf: seq<byte>, pos: nat, keys: seq<Key>, values: seq<Key>)
    requires |keys| == |values| && pos + |SerializePairs(keys, values)| <= |buf|
    requires buf[pos..pos + |SerializePairs(keys, values)|] == SerializePairs(keys, values)
    ensures ParsePairs(buf, pos, |keys|) == Some((keys, values, pos + |SerializePairs(keys, values)|))
  {
    SerializedPairsIn(buf, pos, keys, values);
    ParsePairsIn(buf, pos, keys, values);
    PairsEndLength(pos, keys, values);
  }

  /** Serialized pairs at pos: the pairs but the last, then the last key, then the last value. */
  lemma PairsSplit(buf: seq<byte>, pos: nat, keys: seq<Key>, values: seq<Key>)
    requires |keys| == |values| > 0 && pos + |SerializePairs(keys, values)| <= |buf|
    requires buf[pos..pos + |SerializePairs(keys, values)|] == SerializePairs(keys, values)
    ensures var n := |keys| - 1; var p := pos + |SerializePairs(keys[..n], values[..n])|;
      && p + SerialSize(keys[n]) + SerialSize(values[n]) == pos + |SerializePairs(keys, values)|
      && buf[pos..p] == SerializePairs(keys[..n], values[..n])
      && buf[p..p + SerialSize(keys[n])] == Serialize(keys[n])
      && buf[p + SerialSize(keys[n])..p + SerialSize(keys[n]) + SerialSize(values[n])] == Serialize(values[n])
  {
    var n := |keys| - 1;
    var end := pos + |SerializePairs(keys, values)|;
    var p := pos + |SerializePairs(keys[..n], values[..n])|;
    SliceSplit(buf, pos, end, SerializePairs(keys[..n], values[..n]), Serialize(keys[n]) + Serialize(values[n]));
    SliceSplit(buf, p, end, Serialize(keys[n]), Serialize(values[n]));
  }

  /** One more pair serialized where the pairs loop has reached is read by its next iteration. */
  lemma PairAt(buf: seq<byte>, pos: nat, n: nat, ks: seq<Key>, vs: seq<Key>, p: nat, k: Key, v: Key)
    requires pos <= |buf| && ParsePairs(buf, pos, n) == Some((ks, vs, p))
    requires p + SerialSize(k) + SerialSize(v) <= |buf|
    requires buf[p..p + SerialSize(k)] == Serialize(k)
    requires buf[p + SerialSize(k)..p + SerialSize(k) + SerialSize(v)] == Serialize(v)
    ensures ParsePairs(buf, pos, n + 1) == Some((ks + [k], vs + [v], p + SerialSize(k) + SerialSize(v)))
  {
    ReadPairAt(buf, p, k, v);
    ParsePairsNext(buf, pos, n, ks, vs, p, k, v, p + SerialSize(k) + SerialSize(v));
  }

  /** Once the pairs loop fails, reading more pairs fails too. */
  lemma {:induction false} ParsePairsStuck(buf: seq<byte>, pos: nat, i: nat, n: nat)
    requires pos <= |buf| && i <= n && ParsePairs(buf, pos, i).None?
    ensures ParsePairs(buf, pos, n).None?
    decreases n - i
  {
    if i < n {
      ParsePairsStuck(buf, pos, i, n - 1);
    }
  }

  /**
   * The pairs loop of callback_range: n keys and values read one pair at a
   * time starting at pos0, each key then its value with
   * kvldskey_unserialize; the position after them.
   */
  method ReadPairs(b: seq<byte>, pos0: nat, n: nat) returns (ok: bool, keys: seq<Key>, values: seq<Key>, bufpos: nat)
    requires pos0 <= |b|
    ensures ok <==> ParsePairs(b, pos0, n).Some?
    ensures ok ==> ParsePairs(b, pos0, n) == Some((keys, values, bufpos))
  {
    keys, values, bufpos := [], [], pos0;
    var i := 0;
    while i < n
      invariant i <= n && pos0 <= bufpos <= |b|
      invariant ParsePairs(b, pos0, i) == Some((keys, values, bufpos))
    {
      ReadPairUnserialize(b, bufpos);
      var (k, kl) := Unserialize(b[bufpos..]);
      if kl == 0 {
        ParsePairsFail(b, pos0, i, keys, values, bufpos);
        ParsePairsStuck(b, pos0, i + 1, n);
        return false, [], [], 0;
      }
      var (v, vl) := Unserialize(b[bufpos + kl..]);
      if vl == 0 {
        ParsePairsFail(b, pos0, i, keys, values, bufpos);
        ParsePairsStuck(b, pos0, i + 1, n);
        return false, [], [], 0;
      }
      ParsePairsNext(b, pos0, i, keys, values, bufpos, k.value, v.value, bufpos + kl + vl);
      keys, values, bufpos := keys + [k.value], values + [v.value], bufpos + kl + vl;
      i := i + 1;
    }
    ok := true;
  }
}
