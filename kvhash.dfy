/**
 * The key-value hash table (lib/datastruct/kvhash.c): open
 * addressing with linear probing over nslots slots, nslots a power of two
 * starting at 4, each slot holding a key and its value (or NULL) or
 * nothing, beside the array of the keys' hashes.  Keys are only added, and
 * the table doubles when it is more than three quarters full.
 *
 * Slot positions wrap around the table: hash & (nslots - 1) is hash %
 * nslots, and a step (pos + 1) & (nslots - 1) goes back to 0 after the
 * last slot.  The probe sequence of a key starts at its home slot, so the
 * property every full slot keeps is that the slots from its key's home up
 * to it are all full.
 */
module KvHash {
  import opened Wrappers
  import opened Bytes
  import CRC32C

  /** A key and its value, which may be NULL. */
  datatype Pair = Pair(k: seq<byte>, v: Option<seq<byte>>)

  /** hash(): the CRC32C of the key's bytes, read back as a word in the (little-endian) host's order. */
  function Hash(k: seq<byte>): u32
  {
    CRC32C.LeDec(CRC32C.Crc32c(k))
  }

  /** The slot a key's probe sequence starts at. */
  function Home(k: seq<byte>, n: nat): nat
    requires n > 0
  {
    Hash(k) % n
  }

  /** A position past the end of the table, wrapped around to the front. */
  function Wrap(p: nat, n: nat): nat
    requires p < 2 * n
  {
    if p < n then p else p - n
  }

  /** The slot e steps along the probe sequence that starts at h. */
  function At(s: seq<Option<Pair>>, h: nat, e: nat): Option<Pair>
    requires h < |s| && e < |s|
  {
    s[Wrap(h + e, |s|)]
  }

  /** How many steps along the probe sequence from h slot i is. */
  function Dist(h: nat, i: nat, n: nat): nat
    requires h < n && i < n
  {
    if i >= h then i - h else i + n - h
  }

  /** The first d slots of the probe sequence from h are full. */
  predicate PathFull(s: seq<Option<Pair>>, h: nat, d: nat)
    requires h < |s| && d <= |s|
  {
    forall e :: 0 <= e < d ==> At(s, h, e).Some?
  }

  /** The first d slots of the probe sequence from h are full, with keys other than k. */
  predicate PathMisses(s: seq<Option<Pair>>, h: nat, d: nat, k: seq<byte>)
    requires h < |s| && d <= |s|
  {
    forall e :: 0 <= e < d ==> At(s, h, e).Some? && At(s, h, e).value.k != k
  }

  /** A probe from the key's home slot walks over full slots only until it reaches slot i. */
  predicate Reachable(s: seq<Option<Pair>>, i: nat)
    requires i < |s| && s[i].Some?
  {
    var h := Home(s[i].value.k, |s|);
    PathFull(s, h, Dist(h, i, |s|))
  }

  /** Every full slot can be reached from its key's home slot. */
  predicate ProbeOk(s: seq<Option<Pair>>)
  {
    |s| > 0 && forall i :: 0 <= i < |s| && s[i].Some? ==> Reachable(s, i)
  }

  /** No key is in two slots. */
  predicate DistinctKeys(s: seq<Option<Pair>>)
  {
    forall i, j :: 0 <= i < |s| && 0 <= j < |s| && i != j && s[i].Some? && s[j].Some? ==> s[i].value.k != s[j].value.k
  }

  /** A full slot's stored hash is its key's hash. */
  predicate HashesOk(s: seq<Option<Pair>>, hs: seq<u32>)
  {
    |hs| == |s| && forall i :: 0 <= i < |s| && s[i].Some? ==> hs[i] == Hash(s[i].value.k)
  }

  /** No full slot holds k. */
  predicate Absent(s: seq<Option<Pair>>, k: seq<byte>)
  {
    forall i :: 0 <= i < |s| && s[i].Some? ==> s[i].value.k != k
  }

  /** The number of full slots. */
  function Count(s: seq<Option<Pair>>): nat
  {
    if s == [] then 0 else Count(s[..|s| - 1]) + (if s[|s| - 1].Some? then 1 else 0)
  }

  /** The pairs in the table. */
  function Entries(s: seq<Option<Pair>>): set<Pair>
  {
    set i | 0 <= i < |s| && s[i].Some? :: s[i].value
  }

  /** A table of n empty slots. */
  function Empty(n: nat): seq<Option<Pair>>
  {
    seq(n, _ => None)
  }

  predicate PowerOfTwo(n: nat)
  {
    n == 1 || (n >= 2 && n % 2 == 0 && PowerOfTwo(n / 2))
  }

  /* Counting full slots. */

  lemma {:induction false} CountBound(s: seq<Option<Pair>>)
    ensures Count(s) <= |s|
  {
    if s != [] {
      CountBound(s[..|s| - 1]);
    }
  }

  /** A table with fewer full slots than slots has an empty one. */
  lemma {:induction false} EmptySlot(s: seq<Option<Pair>>) returns (e: nat)
    requires Count(s) < |s|
    ensures e < |s| && s[e].None?
  {
    var t := s[..|s| - 1];
    if s[|s| - 1].None? {
      e := |s| - 1;
    } else {
      e := EmptySlot(t);
      assert s[e] == t[e];
    }
  }

  lemma {:induction false} CountFill(s: seq<Option<Pair>>, p: nat, x: Pair)
    requires p < |s| && s[p].None?
    ensures Count(s[p := Some(x)]) == Count(s) + 1
  {
    var s2 := s[p := Some(x)];
    if p < |s| - 1 {
      assert s2[..|s| - 1] == s[..|s| - 1][p := Some(x)];
      CountFill(s[..|s| - 1], p, x);
    } else {
      assert s2[..|s| - 1] == s[..|s| - 1];
    }
  }

  lemma {:induction false} CountReplace(s: seq<Option<Pair>>, p: nat, x: Pair)
    requires p < |s| && s[p].Some?
    ensures Count(s[p := Some(x)]) == Count(s)
  {
    var s2 := s[p := Some(x)];
    if p < |s| - 1 {
      assert s2[..|s| - 1] == s[..|s| - 1][p := Some(x)];
      CountReplace(s[..|s| - 1], p, x);
    } else {
      assert s2[..|s| - 1] == s[..|s| - 1];
    }
  }

  lemma {:induction false} CountNone(n: nat)
    ensures Count(Empty(n)) == 0
  {
    if n > 0 {
      assert Empty(n)[..n - 1] == Empty(n - 1);
      CountNone(n - 1);
    }
  }

  lemma CountPrefix(s: seq<Option<Pair>>, i: nat)
    requires i < |s|
    ensures Count(s[..i + 1]) == Count(s[..i]) + (if s[i].Some? then 1 else 0)
  {
    assert s[..i + 1][..i] == s[..i];
  }

  /* The pairs in the table. */

  lemma EntriesFill(s: seq<Option<Pair>>, p: nat, x: Pair)
    requires p < |s| && s[p].None?
    ensures Entries(s[p := Some(x)]) == Entries(s) + {x}
  {
    var s2 := s[p := Some(x)];
    forall y | y in Entries(s2)
      ensures y in Entries(s) + {x}
    {
      var i :| 0 <= i < |s2| && s2[i].Some? && s2[i].value == y;
      if i != p {
        assert s[i] == s2[i];
      }
    }
    forall y | y in Entries(s)
      ensures y in Entries(s2)
    {
      var i :| 0 <= i < |s| && s[i].Some? && s[i].value == y;
      assert s2[i] == s[i];
    }
    assert s2[p] == Some(x);
  }

  lemma EntriesPrefix(s: seq<Option<Pair>>, i: nat)
    requires i < |s|
    ensures Entries(s[..i + 1]) == Entries(s[..i]) + (if s[i].Some? then {s[i].value} else {})
  {
    var a, b := s[..i + 1], s[..i];
    forall y | y in Entries(a)
      ensures y in Entries(b) + (if s[i].Some? then {s[i].value} else {})
    {
      var j :| 0 <= j < |a| && a[j].Some? && a[j].value == y;
      if j < i {
        assert b[j] == a[j];
      }
    }
    forall y | y in Entries(b)
      ensures y in Entries(a)
    {
      var j :| 0 <= j < |b| && b[j].Some? && b[j].value == y;
      assert a[j] == b[j];
    }
    if s[i].Some? {
      assert a[i] == s[i];
    }
  }

  lemma EntriesNone(n: nat)
    ensures Entries(Empty(n)) == {}
  {
  }

  /* Probing. */

  /** Stepping along a probe sequence is the wrapped increment. */
  lemma StepAt(h: nat, d: nat, n: nat)
    requires h < n && d + 1 < n
    ensures Wrap(h + d + 1, n) == (Wrap(h + d, n) + 1) % n
  {
    var p := Wrap(h + d, n);
    if p + 1 < n {
      assert (p + 1) % n == p + 1;
    } else {
      assert p + 1 == n;
      assert (p + 1) % n == 0;
    }
  }

  /** A walk over full slots from h cannot pass an empty slot, so it ends before it has seen every slot. */
  lemma WalkBound(s: seq<Option<Pair>>, h: nat, d: nat, e0: nat)
    requires h < |s| && d < |s| && e0 < |s| && s[e0].None?
    requires PathFull(s, h, d + 1)
    ensures d + 1 < |s|
  {
    var de := Dist(h, e0, |s|);
    assert At(s, h, de) == s[e0];
  }

  /**
   * A probe for k that met an empty slot after d slots holding other keys
   * proves k is not in the table, because a slot holding k would be
   * reachable from k's home without passing the empty slot.
   */
  lemma AbsentFromWalk(s: seq<Option<Pair>>, k: seq<byte>, d: nat)
    requires ProbeOk(s) && d < |s|
    requires At(s, Home(k, |s|), d).None? && PathMisses(s, Home(k, |s|), d, k)
    ensures Absent(s, k)
  {
    var n, h := |s|, Home(k, |s|);
    forall j | 0 <= j < n && s[j].Some?
      ensures s[j].value.k != k
    {
      var dj := Dist(h, j, n);
      assert At(s, h, dj) == s[j];
      if dj < d {
        assert At(s, h, dj).value.k != k;
      } else {
        assert Reachable(s, j);
        assert Home(s[j].value.k, n) != h;
      }
    }
  }

  /** Putting x into the empty slot its probe reached keeps every slot reachable. */
  lemma FillReachable(s: seq<Option<Pair>>, pos: nat, d: nat, x: Pair)
    requires ProbeOk(s) && d < |s|
    requires pos == Wrap(Home(x.k, |s|) + d, |s|) && s[pos].None? && PathFull(s, Home(x.k, |s|), d)
    ensures ProbeOk(s[pos := Some(x)])
  {
    var s2, n := s[pos := Some(x)], |s|;
    forall i | 0 <= i < n && s2[i].Some?
      ensures Reachable(s2, i)
    {
      var h := Home(s2[i].value.k, n);
      forall e | 0 <= e < Dist(h, i, n)
        ensures At(s2, h, e).Some?
      {
        if i == pos {
          assert Dist(h, i, n) == d;
          assert At(s, h, e).Some?;
        } else {
          assert s2[i] == s[i] && Reachable(s, i);
          assert At(s, h, e).Some?;
        }
      }
    }
  }

  lemma FillDistinct(s: seq<Option<Pair>>, pos: nat, x: Pair)
    requires DistinctKeys(s) && Absent(s, x.k) && pos < |s|
    ensures DistinctKeys(s[pos := Some(x)])
  {
  }

  /** Whatever is in a table built from the pairs of old[..i] has a key other than the key at i. */
  lemma AbsentFromEntries(s: seq<Option<Pair>>, old_: seq<Option<Pair>>, i: nat)
    requires i < |old_| && old_[i].Some? && DistinctKeys(old_)
    requires Entries(s) == Entries(old_[..i])
    ensures Absent(s, old_[i].value.k)
  {
    forall j | 0 <= j < |s| && s[j].Some?
      ensures s[j].value.k != old_[i].value.k
    {
      assert s[j].value in Entries(s);
      var i2 :| 0 <= i2 < i && old_[..i][i2].Some? && old_[..i][i2].value == s[j].value;
      assert old_[i2] == old_[..i][i2];
    }
  }

  /**
   * The probe loop of kvhash_search over a table with an empty slot: the
   * slot holding k, or the first empty slot on k's probe sequence, with the
   * slots before it full of other keys.
   */
  method Probe(s: seq<Option<Pair>>, hs: seq<u32>, k: seq<byte>) returns (pos: nat, ghost d: nat)
    requires ProbeOk(s) && HashesOk(s, hs) && Count(s) < |s|
    ensures pos < |s| && d < |s| && pos == Wrap(Home(k, |s|) + d, |s|)
    ensures PathMisses(s, Home(k, |s|), d, k)
    ensures s[pos].Some? ==> s[pos].value.k == k
  {
    var n, h := |s|, Hash(k);
    ghost var e0 := EmptySlot(s);
    pos, d := h % n, 0;
    while s[pos].Some? && !(hs[pos] == h && s[pos].value.k == k)
      invariant d < n && pos == Wrap(Home(k, n) + d, n)
      invariant PathMisses(s, Home(k, n), d, k)
      decreases n - d
    {
      assert At(s, Home(k, n), d) == s[pos];
      WalkBound(s, Home(k, n), d, e0);
      StepAt(Home(k, n), d, n);
      pos := (pos + 1) % n;
      d := d + 1;
    }
  }

  /** The placement loop of rehash: the first empty slot on the probe sequence from h. */
  method FindEmpty(s: seq<Option<Pair>>, h: nat) returns (pos: nat, ghost d: nat)
    requires h < |s| && Count(s) < |s|
    ensures pos < |s| && d < |s| && pos == Wrap(h + d, |s|)
    ensures s[pos].None? && PathFull(s, h, d)
  {
    var n := |s|;
    ghost var e0 := EmptySlot(s);
    pos, d := h, 0;
    while s[pos].Some?
      invariant d < n && pos == Wrap(h + d, n)
      invariant PathFull(s, h, d)
      decreases n - d
    {
      WalkBound(s, h, d, e0);
      StepAt(h, d, n);
      pos := (pos + 1) % n;
      d := d + 1;
    }
  }

  /** The table the other is rehashed into: n2 empty slots, then each full slot of the old table moved across. */
  method Rebuild(old_: seq<Option<Pair>>, oldHashes: seq<u32>, n2: nat) returns (np: array<Option<Pair>>, nh: array<u32>)
    requires DistinctKeys(old_) && HashesOk(old_, oldHashes) && |old_| < n2
    ensures fresh(np) && fresh(nh) && np.Length == n2 && nh.Length == n2
    ensures ProbeOk(np[..]) && DistinctKeys(np[..]) && HashesOk(np[..], nh[..])
    ensures Entries(np[..]) == Entries(old_) && Count(np[..]) == Count(old_)
  {
    np := new Option<Pair>[n2](_ => None);
    nh := new u32[n2];
    CountNone(n2);
    EntriesNone(n2);
    assert np[..] == Empty(n2);
    for i := 0 to |old_|
      invariant ProbeOk(np[..]) && DistinctKeys(np[..]) && HashesOk(np[..], nh[..])
      invariant Entries(np[..]) == Entries(old_[..i]) && Count(np[..]) == Count(old_[..i])
    {
      CountPrefix(old_, i);
      EntriesPrefix(old_, i);
      if old_[i].Some? {
        Move(np, nh, old_, oldHashes, i);
      }
    }
    assert old_[..|old_|] == old_;
  }

  /** One step of rehash's scan: the pair at i, with its hash, goes to the first empty slot of its probe sequence. */
  method Move(np: array<Option<Pair>>, nh: array<u32>, old_: seq<Option<Pair>>, oldHashes: seq<u32>, i: nat)
    requires np != nh as object && i < |old_| && old_[i].Some? && |old_| < np.Length == nh.Length
    requires DistinctKeys(old_) && HashesOk(old_, oldHashes)
    requires ProbeOk(np[..]) && DistinctKeys(np[..]) && HashesOk(np[..], nh[..])
    requires Entries(np[..]) == Entries(old_[..i]) && Count(np[..]) == Count(old_[..i])
    modifies np, nh
    ensures ProbeOk(np[..]) && DistinctKeys(np[..]) && HashesOk(np[..], nh[..])
    ensures Entries(np[..]) == Entries(old_[..i]) + {old_[i].value} && Count(np[..]) == Count(old_[..i]) + 1
  {
    var x := old_[i].value;
    CountBound(old_[..i]);
    var pos, d := FindEmpty(np[..], oldHashes[i] % np.Length);
    AbsentFromEntries(np[..], old_, i);
    FillReachable(np[..], pos, d, x);
    FillDistinct(np[..], pos, x);
    CountFill(np[..], pos, x);
    EntriesFill(np[..], pos, x);
    np[pos] := Some(x);
    nh[pos] := oldHashes[i];
  }

  class KvHash {
    var pairs: array<Option<Pair>>
    var hashes: array<u32>
    var nkeys: nat
    var nslots: nat

    /** The arrays are nslots long, nslots is a power of two of at least 4, and the slots keep the probe invariants. */
    predicate Fits()
      reads this, pairs, hashes
    {
      && pairs.Length == nslots && nslots >= 4 && PowerOfTwo(nslots)
      && ProbeOk(pairs[..]) && DistinctKeys(pairs[..]) && HashesOk(pairs[..], hashes[..])
    }

    /** Between operations: nkeys counts the full slots and the table is at most three quarters full. */
    predicate Valid()
      reads this, pairs, hashes
    {
      Fits() && Count(pairs[..]) == nkeys && nkeys + nslots / 4 <= nslots
    }

    /** kvhash_init: 4 empty slots and no keys. */
    constructor ()
      ensures Valid() && fresh(pairs) && fresh(hashes)
      ensures nslots == 4 && nkeys == 0 && Entries(pairs[..]) == {}
    {
      nslots := 4;
      pairs := new Option<Pair>[4](_ => None);
      hashes := new u32[4];
      nkeys := 0;
      new;
      assert pairs[..] == Empty(4);
      CountNone(4);
      EntriesNone(4);
      assert PowerOfTwo(4) by {
        assert PowerOfTwo(2);
      }
    }

    /**
     * kvhash_search: the slot holding k, or the empty slot where k would
     * go, which is then the first empty slot of k's probe sequence, and no
     * slot holds k; k's hash is written into that slot's hash.
     */
    method Search(k: seq<byte>) returns (pos: nat)
      requires Valid()
      modifies hashes
      ensures Valid()
      ensures pos < nslots && hashes[..] == old(hashes[..])[pos := Hash(k)]
      ensures pairs[pos].Some? ==> pairs[pos].value.k == k
      ensures pairs[pos].None? ==> Absent(pairs[..], k)
      ensures PathMisses(pairs[..], Home(k, nslots), Dist(Home(k, nslots), pos, nslots), k)
    {
      ghost var d;
      pos, d := Probe(pairs[..], hashes[..], k);
      if pairs[pos].None? {
        AbsentFromWalk(pairs[..], k, d);
      }
      hashes[pos] := Hash(k);
    }

    /**
     * What a caller does with the slot kvhash_search returned: it stores
     * the key and the value there.
     */
    method Store(pos: nat, k: seq<byte>, v: Option<seq<byte>>)
      requires Valid() && pos < nslots
      requires pairs[pos].Some? ==> pairs[pos].value.k == k
      requires pairs[pos].None? ==> Absent(pairs[..], k) && PathFull(pairs[..], Home(k, nslots), Dist(Home(k, nslots), pos, nslots))
      requires hashes[pos] == Hash(k)
      modifies pairs
      ensures Fits()
      ensures pairs[..] == old(pairs[..])[pos := Some(Pair(k, v))]
      ensures Count(pairs[..]) == nkeys + (if old(pairs[pos]).None? then 1 else 0)
    {
      var x := Pair(k, v);
      if pairs[pos].None? {
        FillReachable(pairs[..], pos, Dist(Home(k, nslots), pos, nslots), x);
        FillDistinct(pairs[..], pos, x);
        CountFill(pairs[..], pos, x);
      } else {
        CountReplace(pairs[..], pos, x);
        ReplaceOk(pairs[..], pos, x);
      }
      pairs[pos] := Some(x);
    }

    /**
     * kvhash_postadd: one more key, then a rehash into twice the slots if
     * nkeys + nslots / 4 exceeds nslots.
     */
    method PostAdd()
      requires Fits() && Count(pairs[..]) == nkeys + 1 && nkeys + nslots / 4 <= nslots
      modifies this
      ensures Valid() && nkeys == old(nkeys) + 1
      ensures Entries(pairs[..]) == old(Entries(pairs[..]))
      ensures nslots == if nkeys + old(nslots) / 4 > old(nslots) then 2 * old(nslots) else old(nslots)
    {
      nkeys := nkeys + 1;
      if nkeys + nslots / 4 > nslots {
        Rehash();
      }
    }

    /** rehash: twice the slots, with every pair and its hash kept. */
    method Rehash()
      requires Fits()
      modifies this
      ensures Fits() && fresh(pairs) && fresh(hashes) && nkeys == old(nkeys)
      ensures nslots == 2 * old(nslots)
      ensures Entries(pairs[..]) == old(Entries(pairs[..])) && Count(pairs[..]) == old(Count(pairs[..]))
    {
      var np, nh := Rebuild(pairs[..], hashes[..], nslots * 2);
      assert PowerOfTwo(nslots * 2) by {
        assert (nslots * 2) / 2 == nslots;
      }
      pairs, hashes, nslots := np, nh, nslots * 2;
    }
  }

  /** Giving a present key a new value keeps the slots' invariants. */
  lemma ReplaceOk(s: seq<Option<Pair>>, pos: nat, x: Pair)
    requires ProbeOk(s) && DistinctKeys(s) && pos < |s| && s[pos].Some? && s[pos].value.k == x.k
    ensures ProbeOk(s[pos := Some(x)]) && DistinctKeys(s[pos := Some(x)])
  {
    var s2 := s[pos := Some(x)];
    forall i | 0 <= i < |s| && s2[i].Some?
      ensures Reachable(s2, i)
    {
      var h := Home(s2[i].value.k, |s|);
      assert Reachable(s, i);
      forall e | 0 <= e < Dist(h, i, |s|)
        ensures At(s2, h, e).Some?
      {
        assert At(s, h, e).Some?;
      }
    }
  }
}
