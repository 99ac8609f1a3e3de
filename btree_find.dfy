/**
 * Searching one B+tree node (kvlds/btree_find.c): the keys of a node are
 * strictly increasing, so a binary search over [min, max) finds the pair
 * holding a key in a leaf, or the child of a parent responsible for it.
 * Every key of the node and the key sought agree on their first mlen
 * bytes, the prefix all keys of the subtree share, so each comparison
 * skips that prefix.
 */
module BtreeFind {
  import opened Wrappers
  import opened KvldsKey

  /** struct kvpair: a key and its value. */
  datatype KvPair = KvPair(k: Key, v: Key)

  /** The keys are strictly increasing. */
  predicate Sorted(keys: seq<Key>)
  {
    forall i, j :: 0 <= i < j < |keys| ==> LexLess(keys[i], keys[j])
  }

  /** The keys of a leaf's pairs. */
  function KeysOf(pairs: seq<KvPair>): (r: seq<Key>)
    ensures |r| == |pairs| && forall i :: 0 <= i < |pairs| ==> r[i] == pairs[i].k
  {
    seq(|pairs|, i requires 0 <= i < |pairs| => pairs[i].k)
  }

  /** k and every key agree on their first mlen bytes. */
  predicate SharePrefix(keys: seq<Key>, k: Key, mlen: nat)
  {
    mlen <= |k| && forall i :: 0 <= i < |keys| ==> mlen <= |keys[i]| && keys[i][..mlen] == k[..mlen]
  }

  /** Over keys that share the first mlen bytes, the sign of kvldskey_cmp2 is the key order. */
  lemma Cmp2Order(x: Key, y: Key, mlen: nat)
    requires mlen <= |x| && mlen <= |y| && x[..mlen] == y[..mlen]
    ensures Cmp2Value(x, y, mlen) < 0 <==> LexLess(x, y)
    ensures Cmp2Value(x, y, mlen) == 0 <==> x == y
    ensures Cmp2Value(x, y, mlen) > 0 <==> LexLess(y, x)
  {
    Cmp2Agrees(x, y, mlen);
    CmpOrder(x, y);
  }

  /** Every key from one above k on is above k. */
  lemma AboveFrom(keys: seq<Key>, k: Key, m: nat)
    requires Sorted(keys) && m < |keys| && LexLess(k, keys[m])
    ensures forall i :: m <= i < |keys| ==> LexLess(k, keys[i])
  {
    forall i | m < i < |keys|
      ensures LexLess(k, keys[i])
    {
      LexTrans(k, keys[m], keys[i]);
    }
  }

  /** Every key before one not below k is below k. */
  lemma BelowUpTo(keys: seq<Key>, k: Key, m: nat)
    requires Sorted(keys) && m < |keys| && (LexLess(keys[m], k) || keys[m] == k)
    ensures forall i :: 0 <= i < m ==> LexLess(keys[i], k)
    ensures LexLess(keys[m], k) ==> forall i :: 0 <= i <= m ==> LexLess(keys[i], k)
  {
    forall i | 0 <= i < m
      ensures LexLess(keys[i], k)
    {
      if keys[m] != k {
        LexTrans(keys[i], keys[m], k);
      }
    }
  }

  /**
   * The binary search both functions run: [lo, hi) narrows until it is
   * empty or keys[mid] is k.  On return, every key before lo is below k,
   * every key from hi on is above it, and found says keys[lo] is k.
   */
  method Bisect(keys: seq<Key>, mlen: nat, k: Key) returns (lo: nat, found: bool)
    requires Sorted(keys) && SharePrefix(keys, k, mlen)
    ensures lo <= |keys|
    ensures found ==> lo < |keys| && keys[lo] == k
    ensures forall i :: 0 <= i < lo ==> LexLess(keys[i], k)
    ensures !found ==> forall i :: lo <= i < |keys| ==> LexLess(k, keys[i])
  {
    var hi := |keys|;
    lo := 0;
    while lo != hi
      invariant lo <= hi <= |keys|
      invariant forall i :: 0 <= i < lo ==> LexLess(keys[i], k)
      invariant forall i :: hi <= i < |keys| ==> LexLess(k, keys[i])
      decreases hi - lo
    {
      var mid := lo + (hi - lo) / 2;
      var rc := Cmp2(k, keys[mid], mlen);
      Cmp2Order(k, keys[mid], mlen);
      if rc < 0 {
        AboveFrom(keys, k, mid);
        hi := mid;
      } else if rc > 0 {
        BelowUpTo(keys, k, mid);
        lo := mid + 1;
      } else {
        BelowUpTo(keys, k, mid);
        return mid, true;
      }
    }
    found := false;
  }

  /** btree_find_kvpair: the position of the pair holding k in a leaf, or None when no pair holds it. */
  method FindKvpair(pairs: seq<KvPair>, mlen: nat, k: Key) returns (r: Option<nat>)
    requires Sorted(KeysOf(pairs)) && SharePrefix(KeysOf(pairs), k, mlen)
    ensures r.Some? ==> r.value < |pairs| && pairs[r.value].k == k
    ensures r.None? ==> forall i :: 0 <= i < |pairs| ==> pairs[i].k != k
  {
    var keys := KeysOf(pairs);
    var lo, found := Bisect(keys, mlen, k);
    if found {
      return Some(lo);
    }
    forall i | 0 <= i < |pairs|
      ensures pairs[i].k != k
    {
      assert keys[i] == pairs[i].k;
    }
    return None;
  }

  /**
   * btree_find_child: the child of a parent with these keys responsible
   * for k, the one between the last key not above k and the first key
   * above it; a k equal to keys[mid] goes to child mid + 1.
   */
  method FindChild(keys: seq<Key>, mlen: nat, k: Key) returns (c: nat)
    requires Sorted(keys) && SharePrefix(keys, k, mlen)
    ensures c <= |keys|
    ensures forall i :: 0 <= i < c ==> !LexLess(k, keys[i])
    ensures forall i :: c <= i < |keys| ==> LexLess(k, keys[i])
    ensures forall i :: 0 <= i < |keys| && keys[i] == k ==> c == i + 1
  {
    var lo, found := Bisect(keys, mlen, k);
    if found {
      forall i | lo < i < |keys|
        ensures LexLess(k, keys[i])
      {
        assert LexLess(keys[lo], keys[i]);
      }
      return lo + 1;
    }
    return lo;
  }
}
