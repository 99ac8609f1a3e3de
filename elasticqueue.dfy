/**
 * The elastic queue (libcperciva/datastruct/elasticqueue.c): a FIFO of
 * records kept in a growable array, whose head is offset records into the
 * array.  A delete only moves the offset, until the dead space in front
 * exceeds the live records; then the records are moved to the front and
 * the array is shrunk, so the array never holds more than twice the
 * records in the queue.
 */
module ElasticQueue {
  import opened Wrappers

  class Queue<T> {
    /** The elastic array's records: offset dead ones, then the queue. */
    var buf: seq<T>
    var offset: nat
    var len: nat

    /** The queue fills the array from offset on, and the dead space is no larger than the queue. */
    predicate Valid()
      reads this
    {
      |buf| == offset + len && offset <= len
    }

    /** The records in the queue, head first. */
    function Contents(): (r: seq<T>)
      requires Valid()
      reads this
      ensures |r| == len
    {
      buf[offset..]
    }

    /** elasticqueue_init: an empty queue. */
    constructor ()
      ensures Valid() && Contents() == []
    {
      buf := [];
      offset, len := 0, 0;
    }

    /** elasticqueue_add: rec goes at the tail. */
    method Add(rec: T)
      requires Valid()
      modifies this
      ensures Valid()
      ensures Contents() == old(Contents()) + [rec]
      ensures len == old(len) + 1
    {
      buf := buf + [rec];
      len := len + 1;
      assert buf[offset..] == old(buf[offset..]) + [rec];
    }

    /**
     * elasticqueue_delete: the head goes, and nothing happens to an empty
     * queue; when the dead space outgrows the queue, the records move to
     * the front of the array with their order kept.
     */
    method Delete()
      requires Valid()
      modifies this
      ensures Valid()
      ensures old(len) == 0 ==> Contents() == old(Contents()) && len == 0
      ensures old(len) > 0 ==> Contents() == old(Contents())[1..] && len == old(len) - 1
    {
      if len == 0 {
        return;
      }
      offset := offset + 1;
      len := len - 1;
      if offset > len {
        buf := Compact(buf, offset, len);
        offset := 0;
      }
    }

    /** elasticqueue_getlen: the number of records. */
    method GetLen() returns (n: nat)
      requires Valid()
      ensures n == |Contents()|
    {
      return len;
    }

    /** elasticqueue_get: the record at position pos from the head, or None beyond the tail. */
    method Get(pos: nat) returns (r: Option<T>)
      requires Valid()
      ensures pos >= |Contents()| ==> r == None
      ensures pos < |Contents()| ==> r == Some(Contents()[pos])
    {
      if pos >= len {
        return None;
      }
      return Some(buf[pos + offset]);
    }

    /** A store through the pointer elasticqueue_get returns: the record at pos becomes v. */
    method Set(pos: nat, v: T)
      requires Valid() && pos < len
      modifies this
      ensures Valid() && offset == old(offset) && len == old(len)
      ensures Contents() == old(Contents())[pos := v]
    {
      buf := buf[pos + offset := v];
      assert buf[offset..] == old(buf[offset..])[pos := v];
    }
  }

  /** The move to the front: the n records from off on go to 0..n, in order, and the array is shrunk to n. */
  method Compact<T>(b: seq<T>, off: nat, n: nat) returns (r: seq<T>)
    requires |b| == off + n && off > 0
    ensures r == b[off..]
  {
    r := b;
    for i := 0 to n
      invariant |r| == |b|
      invariant r[..i] == b[off..off + i]
      invariant r[i + off..] == b[i + off..]
    {
      r := r[i := r[i + off]];
      assert r[..i + 1] == r[..i] + [b[off + i]];
      assert b[off..off + i + 1] == b[off..off + i] + [b[off + i]];
    }
    r := r[..n];
  }
}
