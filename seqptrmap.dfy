/**
 * The sequential pointer map (libcperciva/datastruct/seqptrmap.c): adding
 * a pointer associates it with the next integer, counting from 0, and the
 * pointers live in an elastic queue whose head is the integer offset.  A
 * deleted pointer becomes NULL (None) in the queue, and NULLs at the head
 * are dropped, so the head of a non-empty map always holds a pointer.
 */
module SeqPtrMap {
  import opened Wrappers
  import ElasticQueue

  const INT64_MAX: int := 0x7fff_ffff_ffff_ffff

  /** The slot of the integer k in a queue whose head is the integer off; None outside the queue. */
  function Slot<T>(off: int, c: seq<Option<T>>, k: int): Option<T>
  {
    if off <= k < off + |c| then c[k - off] else None
  }

  /** The associations a queue holds when its head is the integer off: off + j to the pointer at j. */
  function AssocOf<T>(off: int, c: seq<Option<T>>): map<int, T>
  {
    map k | off <= k < off + |c| && Slot(off, c, k).Some? :: Slot(off, c, k).value
  }

  /** A pointer added at the tail is associated with the integer after the queue. */
  lemma AssocSnoc<T>(off: int, c: seq<Option<T>>, p: T)
    ensures AssocOf(off, c + [Some(p)]) == AssocOf(off, c)[off + |c| := p]
  {
    var c2 := c + [Some(p)];
    forall k | k in AssocOf(off, c2)
      ensures AssocOf(off, c2)[k] == AssocOf(off, c)[off + |c| := p][k]
    {
      if k < off + |c| {
        assert c2[k - off] == c[k - off];
      }
    }
    assert AssocOf(off, c2).Keys == AssocOf(off, c)[off + |c| := p].Keys by {
      forall k
        ensures k in AssocOf(off, c2) <==> k in AssocOf(off, c)[off + |c| := p]
      {
        if off <= k < off + |c| {
          assert c2[k - off] == c[k - off];
        }
      }
    }
  }

  /** Setting the slot of off + j to None removes that integer's association and no other. */
  lemma AssocClear<T>(off: int, c: seq<Option<T>>, j: nat)
    requires j < |c|
    ensures AssocOf(off, c[j := None]) == AssocOf(off, c) - {off + j}
  {
    var c2 := c[j := None];
    forall k | k in AssocOf(off, c2)
      ensures AssocOf(off, c2)[k] == (AssocOf(off, c) - {off + j})[k]
    {
      assert c2[k - off] == c[k - off];
    }
    assert AssocOf(off, c2).Keys == (AssocOf(off, c) - {off + j}).Keys by {
      forall k
        ensures k in AssocOf(off, c2) <==> k in AssocOf(off, c) - {off + j}
      {
        if off <= k < off + |c| && k != off + j {
          assert c2[k - off] == c[k - off];
        }
      }
    }
  }

  /** Dropping a NULL head and moving the offset up by one keeps every association. */
  lemma AssocDropNone<T>(off: int, c: seq<Option<T>>)
    requires c != [] && c[0].None?
    ensures AssocOf(off + 1, c[1..]) == AssocOf(off, c)
  {
    var c2 := c[1..];
    forall k | k in AssocOf(off, c)
      ensures k in AssocOf(off + 1, c2) && AssocOf(off + 1, c2)[k] == AssocOf(off, c)[k]
    {
      assert k != off;
      assert c2[k - (off + 1)] == c[k - off];
    }
    forall k | k in AssocOf(off + 1, c2)
      ensures k in AssocOf(off, c)
    {
      assert c2[k - (off + 1)] == c[k - off];
    }
  }

  class PtrMap<T> {
    const ptrs: ElasticQueue.Queue<Option<T>>
    var offset: int
    var len: nat

    /** The queue holds len slots from offset on, the integers fit in 64 bits, and the head slot holds a pointer. */
    predicate Valid()
      reads this, ptrs
    {
      && ptrs.Valid() && len == |ptrs.Contents()|
      && 0 <= offset && offset + len <= INT64_MAX
      && (len > 0 ==> ptrs.Contents()[0].Some?)
    }

    /** Which integer each pointer in the map is associated with. */
    function Associations(): map<int, T>
      requires Valid()
      reads this, ptrs
    {
      AssocOf(offset, ptrs.Contents())
    }

    /** The integer the next add returns. */
    function Next(): int
      reads this
    {
      offset + len
    }

    /** seqptrmap_init: no pointers, and the first integer handed out is 0. */
    constructor ()
      ensures Valid() && fresh(ptrs)
      ensures Associations() == map[] && Next() == 0
    {
      ptrs := new ElasticQueue.Queue();
      offset, len := 0, 0;
    }

    /**
     * seqptrmap_add: ptr is associated with the next integer, which is
     * returned; the overflow assertions become the precondition.
     */
    method Add(ptr: T) returns (i: int)
      requires Valid() && Next() < INT64_MAX
      modifies this, ptrs
      ensures Valid()
      ensures i == old(Next()) && Next() == i + 1
      ensures Associations() == old(Associations())[i := ptr]
    {
      AssocSnoc(offset, ptrs.Contents(), ptr);
      ptrs.Add(Some(ptr));
      len := len + 1;
      return offset + len - 1;
    }

    /** seqptrmap_get: the pointer associated with i, or None, in particular outside [offset, offset + len). */
    method Get(i: int) returns (p: Option<T>)
      requires Valid()
      ensures p == if i in Associations() then Some(Associations()[i]) else None
      ensures !(offset <= i < Next()) ==> p == None
    {
      if i < offset {
        return None;
      }
      if i - offset >= len {
        return None;
      }
      var slot := ptrs.Get(i - offset);
      return slot.value;
    }

    /** seqptrmap_getmin: -1 for an empty map, otherwise the least integer with a pointer. */
    method GetMin() returns (m: int)
      requires Valid()
      ensures Associations() == map[] ==> m == -1
      ensures Associations() != map[] ==> m in Associations() && forall k | k in Associations() :: m <= k
    {
      var n := ptrs.GetLen();
      if n == 0 {
        assert Associations() == map[];
        return -1;
      }
      assert offset in Associations();
      return offset;
    }

    /**
     * seqptrmap_delete: i loses its pointer, and nothing happens for an i
     * outside the queue; NULLs at the head are then dropped.
     */
    method Delete(i: int)
      requires Valid()
      modifies this, ptrs
      ensures Valid()
      ensures Associations() == old(Associations()) - {i}
      ensures Next() == old(Next())
    {
      if i < offset || i - offset >= len {
        assert i !in Associations();
        assert Associations() - {i} == Associations();
        return;
      }
      AssocClear(offset, ptrs.Contents(), i - offset);
      ptrs.Set(i - offset, None);
      var n := ptrs.GetLen();
      var h := ptrs.Get(0);
      while n > 0 && h.value.None?
        invariant ptrs.Valid() && len == |ptrs.Contents()| == n
        invariant 0 <= offset && offset + len == old(Next())
        invariant n > 0 ==> h == Some(ptrs.Contents()[0])
        invariant AssocOf(offset, ptrs.Contents()) == old(Associations()) - {i}
        decreases len
      {
        AssocDropNone(offset, ptrs.Contents());
        ptrs.Delete();
        offset := offset + 1;
        len := len - 1;
        n := ptrs.GetLen();
        h := ptrs.Get(0);
      }
    }
  }
}
