/**
 * Keys of the key-value service (lib/datastruct/kvldskey.h): at most 255
 * bytes, serialized as a length byte followed by the bytes, and ordered
 * lexicographically with a proper prefix first.
 */
module KvldsKey {
  import opened Wrappers
  import opened Bytes

  /** struct kvldskey: the length is a uint8_t, so a key holds at most 255 bytes. */
  type Key = s: seq<byte> | |s| <= 255

  /** kvldskey_serial_size: the length byte and the bytes. */
  function SerialSize(k: Key): (r: nat)
    ensures 1 <= r <= 256
  {
    |k| + 1
  }

  /** kvldskey_serialize: the length byte, then the bytes. */
  function Serialize(k: Key): (r: seq<byte>)
    ensures |r| == SerialSize(k) && r[0] == |k| && r[1..] == k
  {
    [|k|] + k
  }

  /**
   * kvldskey_create: the length field is stored in a uint8_t, so of a
   * buffer of len bytes the key keeps the first len mod 256.
   */
  function Create(buf: seq<byte>): (r: Key)
    ensures |r| == |buf| % 256 && r == buf[..|r|]
    ensures |buf| <= 255 ==> r == buf
  {
    buf[..|buf| % 256]
  }

  /**
   * kvldskey_unserialize: the key at the start of buf and the number of
   * bytes consumed, or (None, 0) when buf is empty or shorter than the
   * length byte says.
   */
  function Unserialize(buf: seq<byte>): (r: (Option<Key>, nat))
    ensures r.1 <= |buf|
    ensures r.0.None? <==> r.1 == 0
    ensures r.0.None? <==> (|buf| < 1 || |buf| < buf[0] as int + 1)
    ensures r.0.Some? ==> r.1 == SerialSize(r.0.value) && buf[..(r.1)] == Serialize(r.0.value)
  {
    if |buf| < 1 then (None, 0)
    else
      var len := buf[0] as int + 1;
      if |buf| < len then (None, 0)
      else (Some(buf[1..len]), len)
  }

  /** Unserializing a serialization gives back the key, whatever follows it. */
  lemma UnserializeSerialize(k: Key, rest: seq<byte>)
    ensures Unserialize(Serialize(k) + rest) == (Some(k), SerialSize(k))
  {
    var b := Serialize(k) + rest;
    assert b[0] == |k|;
    assert b[1..|k| + 1] == k;
  }

  /** A serialization is determined by its key: two keys with the same encoding are the same key. */
  lemma SerializeInjective(x: Key, y: Key)
    requires Serialize(x) == Serialize(y)
    ensures x == y
  {
    assert x == Serialize(x)[1..];
  }

  /** Lexicographic order: a proper prefix first, otherwise the smaller byte at the first difference. */
  predicate LexLess(x: seq<byte>, y: seq<byte>)
  {
    (|x| < |y| && x == y[..|x|])
    || exists i :: 0 <= i < |x| && i < |y| && x[..i] == y[..i] && x[i] < y[i]
  }

  function Min(a: nat, b: nat): nat
  {
    if a < b then a else b
  }

  /** The first position at or after from where x and y differ, or where the shorter one ends. */
  function FirstDiff(x: seq<byte>, y: seq<byte>, from: nat): (r: nat)
    requires from <= Min(|x|, |y|)
    ensures from <= r <= Min(|x|, |y|)
    ensures forall i :: from <= i < r ==> x[i] == y[i]
    ensures r < Min(|x|, |y|) ==> x[r] != y[r]
    decreases Min(|x|, |y|) - from
  {
    if from == Min(|x|, |y|) || x[from] != y[from] then from else FirstDiff(x, y, from + 1)
  }

  /**
   * The value kvldskey_cmp2 returns: the difference of the first differing
   * bytes at or after mlen, or else the difference of the lengths.
   */
  function Cmp2Value(x: Key, y: Key, mlen: nat): (r: int)
    ensures -255 <= r <= 255
  {
    if mlen >= Min(|x|, |y|) then |x| - |y|
    else
      var i := FirstDiff(x, y, mlen);
      if i < Min(|x|, |y|) then x[i] as int - y[i] as int else |x| - |y|
  }

  /** kvldskey_cmp2: compare from position mlen, up to which the keys are known to match. */
  method Cmp2(x: Key, y: Key, mlen: nat) returns (rc: int)
    ensures rc == Cmp2Value(x, y, mlen)
  {
    var minlen := if |x| < |y| then |x| else |y|;
    var m := mlen;
    while m < minlen
      invariant mlen <= m
      invariant mlen < minlen ==> m <= minlen && FirstDiff(x, y, mlen) == FirstDiff(x, y, m)
      decreases minlen - m
    {
      rc := x[m] as int - y[m] as int;
      if rc != 0 {
        return;
      }
      m := m + 1;
    }
    rc := |x| - |y|;
  }

  /** kvldskey_cmp: cmp2 with nothing known to match. */
  method Cmp(x: Key, y: Key) returns (rc: int)
    ensures rc == Cmp2Value(x, y, 0)
  {
    rc := Cmp2(x, y, 0);
  }

  /** The sign of kvldskey_cmp is the lexicographic order: negative, zero or positive as x < y, x == y, x > y. */
  lemma CmpOrder(x: Key, y: Key)
    ensures Cmp2Value(x, y, 0) < 0 <==> LexLess(x, y)
    ensures Cmp2Value(x, y, 0) == 0 <==> x == y
    ensures Cmp2Value(x, y, 0) > 0 <==> LexLess(y, x)
  {
    var m := Min(|x|, |y|);
    var i := FirstDiff(x, y, 0);
    assert x[..i] == y[..i];
    if i < m {
      assert x != y;
      if x[i] < y[i] {
        assert LexLess(x, y);
        NotLexLess(y, x, i);
      } else {
        assert LexLess(y, x);
        NotLexLess(x, y, i);
      }
    } else if |x| < |y| {
      assert x == y[..|x|];
      PrefixNotGreater(x, y);
    } else if |y| < |x| {
      assert y == x[..|y|];
      PrefixNotGreater(y, x);
    } else {
      assert x == y;
      PrefixNotGreater(x, y);
    }
  }

  /** Where x and y first differ at i with x[i] > y[i], x is not below y. */
  lemma NotLexLess(x: seq<byte>, y: seq<byte>, i: nat)
    requires i < |x| && i < |y| && x[..i] == y[..i] && x[i] > y[i]
    ensures !LexLess(x, y)
  {
    assert |x| < |y| ==> y[..|x|][i] == y[i];
    forall j | i < j <= |x| && j <= |y|
      ensures x[..j] != y[..j]
    {
      assert x[..j][i] == x[i] && y[..j][i] == y[i];
    }
    forall j | 0 <= j < i
      ensures x[j] == y[j]
    {
      assert x[j] == x[..i][j] && y[j] == y[..i][j];
    }
  }

  /** No key is below a prefix of itself. */
  lemma PrefixNotGreater(x: seq<byte>, y: seq<byte>)
    requires |x| <= |y| && x == y[..|x|]
    ensures !LexLess(y, x)
  {
    forall j | 0 <= j < |y| && j < |x| && y[..j] == x[..j]
      ensures !(y[j] < x[j])
    {
      assert x[j] == y[j];
    }
  }

  /** The key order is transitive. */
  lemma LexTrans(x: seq<byte>, y: seq<byte>, z: seq<byte>)
    requires LexLess(x, y) && LexLess(y, z)
    ensures LexLess(x, z)
  {
    if |x| < |y| && x == y[..|x|] {
      if |y| < |z| && y == z[..|y|] {
        assert x == z[..|x|];
      } else {
        var j :| 0 <= j < |y| && j < |z| && y[..j] == z[..j] && y[j] < z[j];
        if j < |x| {
          assert x[..j] == y[..j] && x[j] == y[j];
          assert x[..j] == z[..j] && x[j] < z[j];
        } else {
          assert x == y[..j][..|x|] == z[..j][..|x|];
          assert x == z[..|x|];
        }
      }
    } else {
      var i :| 0 <= i < |x| && i < |y| && x[..i] == y[..i] && x[i] < y[i];
      if |y| < |z| && y == z[..|y|] {
        assert y[..i] == z[..i] && y[i] == z[i];
        assert x[..i] == z[..i] && x[i] < z[i];
      } else {
        var j :| 0 <= j < |y| && j < |z| && y[..j] == z[..j] && y[j] < z[j];
        if i < j {
          assert y[..i] == z[..i] && y[i] == z[i] by {
            assert y[..i] == y[..j][..i] && z[..i] == z[..j][..i];
          }
          assert x[..i] == z[..i] && x[i] < z[i];
        } else if j < i {
          assert x[..j] == y[..j] && x[j] == y[j] by {
            assert x[..j] == x[..i][..j] && y[..j] == y[..i][..j];
          }
          assert x[..j] == z[..j] && x[j] < z[j];
        } else {
          assert x[..i] == z[..i] && x[i] < z[i];
        }
      }
    }
  }

  /** Given keys that match up to mlen, kvldskey_cmp2 returns what kvldskey_cmp does. */
  lemma {:induction false} Cmp2Agrees(x: Key, y: Key, mlen: nat)
    requires mlen <= Min(|x|, |y|) && x[..mlen] == y[..mlen]
    ensures Cmp2Value(x, y, mlen) == Cmp2Value(x, y, 0)
  {
    if mlen > 0 {
      assert x[..mlen - 1] == y[..mlen - 1] by {
        assert x[..mlen - 1] == x[..mlen][..mlen - 1];
        assert y[..mlen - 1] == y[..mlen][..mlen - 1];
      }
      assert x[mlen - 1] == y[mlen - 1] by {
        assert x[mlen - 1] == x[..mlen][mlen - 1];
      }
      Cmp2Agrees(x, y, mlen - 1);
      if mlen - 1 < Min(|x|, |y|) {
        assert FirstDiff(x, y, mlen - 1) == FirstDiff(x, y, mlen);
      }
    }
  }

  /** The common-prefix length: it fits both keys, the keys agree before it, and not at it. */
  predicate IsMatchLength(x: seq<byte>, y: seq<byte>, r: nat)
  {
    r <= |x| && r <= |y| && x[..r] == y[..r] && (r == |x| || r == |y| || x[r] != y[r])
  }

  /** kvldskey_mlen: for keys x < y, the length of their matching prefix. */
  method Mlen(x: Key, y: Key) returns (mlen: nat)
    requires LexLess(x, y)
    ensures IsMatchLength(x, y, mlen) && mlen < |y|
    ensures Cmp2Value(x, y, mlen) == Cmp2Value(x, y, 0)
  {
    mlen := 0;
    while true
      invariant mlen <= |x| && mlen < |y| && x[..mlen] == y[..mlen]
      decreases |x| - mlen
    {
      if |x| == mlen {
        break;
      }
      if x[mlen] != y[mlen] {
        break;
      }
      assert x[..mlen + 1] == x[..mlen] + [x[mlen]];
      assert y[..mlen + 1] == y[..mlen] + [y[mlen]];
      mlen := mlen + 1;
      MatchBelowLonger(x, y, mlen);
    }
    Cmp2Agrees(x, y, mlen);
  }

  /** Where x < y and the keys agree on their first k bytes, y is longer than k. */
  lemma MatchBelowLonger(x: Key, y: Key, k: nat)
    requires LexLess(x, y) && k <= |x| && k <= |y| && x[..k] == y[..k]
    ensures k < |y|
  {
    if !(|x| < |y| && x == y[..|x|]) {
      var i :| 0 <= i < |x| && i < |y| && x[..i] == y[..i] && x[i] < y[i];
      assert i < k ==> x[i] == x[..k][i] && y[i] == y[..k][i];
    }
  }
}
