/** A free pool for a single thread: a LIFO stack of byte buffers that keeps
    at most MaxSize entries and falls back to a factory when it is empty.
    The factory (the pool's `New` field) is not modelled: the value it would
    produce is passed to Get by the caller. */
module FreePool {

  /** The largest number of objects the pool keeps. */
  const MaxSize := 128

  type Bytes = seq<bv8>

  class BytePool {
    /** The cached objects; the last one was put most recently. */
    var p: seq<Bytes>

    ghost predicate Valid()
      reads this
    {
      |p| <= MaxSize
    }

    /** A pool with nothing cached, as the zero value of the Go struct. */
    constructor ()
      ensures Valid() && p == []
    {
      p := [];
    }

    /** Removes and returns the most recently put object, or returns `produced`
        (what the factory produces) when the pool is empty. */
    method Get(produced: Bytes) returns (x: Bytes)
      requires Valid()
      modifies this
      ensures Valid()
      ensures old(p) == [] ==> x == produced && p == []
      ensures old(p) != [] ==> x == old(p)[|old(p)| - 1] && p == old(p)[..|old(p)| - 1]
    {
      if |p| == 0 {
        return produced;
      }
      x := p[|p| - 1];
      p := p[..|p| - 1];
    }

    /** Caches `x` when fewer than MaxSize objects are cached; otherwise
        drops it. */
    method Put(x: Bytes)
      requires Valid()
      modifies this
      ensures Valid()
      ensures |old(p)| < MaxSize ==> p == old(p) + [x]
      ensures |old(p)| >= MaxSize ==> p == old(p)
    {
      if |p| < MaxSize {
        p := p + [x];
      }
    }
  }

  /** A Put into a pool with room, followed by a Get, hands back the object
      just put and leaves the pool as it was (LIFO round trip). */
  method PutThenGet(pool: BytePool, x: Bytes, produced: Bytes) returns (y: Bytes)
    requires pool.Valid() && |pool.p| < MaxSize
    modifies pool
    ensures pool.Valid()
    ensures y == x && pool.p == old(pool.p)
  {
    pool.Put(x);
    y := pool.Get(produced);
  }

  /** A Put into a full pool drops the object: a following Get returns the
      entry that was on top before, not the object put. */
  method PutFullThenGet(pool: BytePool, x: Bytes, produced: Bytes) returns (y: Bytes)
    requires pool.Valid() && |pool.p| == MaxSize
    modifies pool
    ensures pool.Valid()
    ensures y == old(pool.p)[MaxSize - 1] && pool.p == old(pool.p)[..MaxSize - 1]
  {
    pool.Put(x);
    y := pool.Get(produced);
  }
}
