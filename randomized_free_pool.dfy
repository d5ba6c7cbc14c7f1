/** A free pool of integer slices sharded by logical processor, as specialised
    for `[]int` (IntsFreePool). Each shard has a private LIFO of at most
    MaxPrivateElems entries and a shared LIFO whose length is mirrored in
    `sharedSize`. Put falls back from the private slots to the shared list of
    the less loaded of two shards (power-of-two choice); Get looks only at its
    own shard.

    The model is sequential: the processor id the runtime pins the caller to
    is the parameter `pid`, the random draw is the parameter `r`, the shard
    mutex and the atomic loads and stores of `sharedSize` are plain reads and
    writes, and the factory is replaced by a caller-supplied value `produced`. */
module RandomizedFreePool {

  /** Number of private slots per shard. */
  const MaxPrivateElems := 4

  /** A pooled object, an `[]int`; a nil slice is modelled as []. */
  type Elem = seq<int>

  /** The range of the runtime's fast random number generator. */
  type uint32 = x: int | 0 <= x < 0x1_0000_0000

  datatype Option<T> = None | Some(value: T)

  /** One shard, a struct stored by value in the pool's `local` array. */
  datatype Shard = Shard(private: seq<Elem>, privateSize: int, shared: seq<Elem>, sharedSize: int)
  {
    /** The shape every shard keeps whatever the cap: a fixed array of
        private slots, a private count within it, slots above the count
        cleared, and `sharedSize` equal to the shared list's length. */
    predicate WellFormed()
    {
      && |private| == MaxPrivateElems
      && 0 <= privateSize <= MaxPrivateElems
      && (forall k :: privateSize <= k < MaxPrivateElems ==> private[k] == [])
      && sharedSize == |shared|
    }

    /** WellFormed, and the shared list within the cap when the cap is
        non-negative (no length is checked against the -1 sentinel). */
    predicate Valid(maxLocalSize: int)
    {
      WellFormed() && (maxLocalSize >= 0 ==> sharedSize <= maxLocalSize)
    }

    /** The number of objects the shard holds. */
    function Count(): int
    {
      privateSize + sharedSize
    }
  }

  /** A shard as it is allocated: every field zero. */
  const EmptyShard := Shard([[], [], [], []], 0, [], 0)

  /** The per-shard cap on the shared list: the sentinel -1 for a
      non-positive total, otherwise the total divided evenly among the shards, raised to
      1 when that rounds down to zero. */
  function MaxLocalSize(maxSize: int, maxProcs: int): (m: int)
    requires maxProcs > 0
    ensures m == -1 <==> maxSize <= 0
    ensures maxSize > 0 ==> m >= 1
    ensures maxSize >= maxProcs ==> m * maxProcs <= maxSize < (m + 1) * maxProcs
    ensures 0 < maxSize < maxProcs ==> m == 1
  {
    if maxSize > 0 then
      var q := maxSize / maxProcs;
      if q <= 0 then 1 else q
    else
      -1
  }

  predicate AllValid(shards: seq<Shard>, maxLocalSize: int)
  {
    forall i :: 0 <= i < |shards| ==> shards[i].Valid(maxLocalSize)
  }

  /** The number of objects held by all the shards together. */
  function TotalLen(shards: seq<Shard>): int
  {
    if shards == [] then 0 else TotalLen(shards[..|shards| - 1]) + shards[|shards| - 1].Count()
  }

  /** The shard a Put with a full private array appends to: the shard drawn
      at random (`r` modulo the shard count) when its shared list is strictly
      shorter than the caller's own, the caller's own shard otherwise. */
  function PutTarget(shards: seq<Shard>, pid: nat, r: uint32): (t: nat)
    requires pid < |shards|
    ensures t < |shards|
    ensures t == pid || t == r % |shards|
    ensures t != pid <==> shards[r % |shards|].sharedSize < shards[pid].sharedSize
    ensures shards[t].sharedSize <= shards[pid].sharedSize
    ensures shards[t].sharedSize <= shards[r % |shards|].sharedSize
  {
    var other := r % |shards|;
    if shards[other].sharedSize < shards[pid].sharedSize then other else pid
  }

  /** Whether a Put by processor `pid` keeps its object rather than dropping it. */
  predicate PutRetains(shards: seq<Shard>, maxLocalSize: int, pid: nat, r: uint32)
    requires pid < |shards|
  {
    || shards[pid].privateSize < MaxPrivateElems
    || (maxLocalSize >= 0 && shards[PutTarget(shards, pid, r)].sharedSize < maxLocalSize)
  }

  /** The shards after processor `pid` puts `x`, with random draw `r`. */
  function PutSpec(shards: seq<Shard>, maxLocalSize: int, pid: nat, r: uint32, x: Elem): (s: seq<Shard>)
    requires pid < |shards| && AllValid(shards, maxLocalSize)
    ensures |s| == |shards| && AllValid(s, maxLocalSize)
    // a free private slot takes the object, and nothing else changes
    ensures shards[pid].privateSize < MaxPrivateElems ==>
      && s[pid].privateSize == shards[pid].privateSize + 1
      && s[pid].private == shards[pid].private[shards[pid].privateSize := x]
      && s[pid].shared == shards[pid].shared && s[pid].sharedSize == shards[pid].sharedSize
      && forall i :: 0 <= i < |s| && i != pid ==> s[i] == shards[i]
    // otherwise only the chosen shard's shared list may change, by appending x
    ensures shards[pid].privateSize == MaxPrivateElems ==>
      var t := PutTarget(shards, pid, r);
      && s[t].private == shards[t].private && s[t].privateSize == shards[t].privateSize
      && s[t].shared == (if PutRetains(shards, maxLocalSize, pid, r) then shards[t].shared + [x] else shards[t].shared)
      && forall i :: 0 <= i < |s| && i != t ==> s[i] == shards[i]
  {
    var l := shards[pid];
    if l.privateSize < MaxPrivateElems then
      shards[pid := l.(private := l.private[l.privateSize := x], privateSize := l.privateSize + 1)]
    else
      var t := PutTarget(shards, pid, r);
      var l2 := shards[t];
      if maxLocalSize >= 0 && l2.sharedSize < maxLocalSize then
        shards[t := l2.(shared := l2.shared + [x], sharedSize := l2.sharedSize + 1)]
      else
        shards
  }

  /** The object processor `pid` gets, and the shards afterwards; `produced` is
      what the factory would produce. */
  function GetSpec(shards: seq<Shard>, pid: nat, produced: Elem): (res: (Elem, seq<Shard>))
    requires pid < |shards| && shards[pid].WellFormed()
    ensures |res.1| == |shards|
    // Get never touches another shard
    ensures forall i :: 0 <= i < |shards| && i != pid ==> res.1[i] == shards[i]
    // the most recent private entry is taken first, and its slot cleared
    ensures shards[pid].privateSize > 0 ==>
      var k := shards[pid].privateSize - 1;
      && res.0 == shards[pid].private[k]
      && res.1[pid].private == shards[pid].private[k := []] && res.1[pid].privateSize == k
      && res.1[pid].shared == shards[pid].shared && res.1[pid].sharedSize == shards[pid].sharedSize
    // then the last element of the shard's own shared list
    ensures shards[pid].privateSize == 0 && shards[pid].shared != [] ==>
      var k := |shards[pid].shared| - 1;
      && res.0 == shards[pid].shared[k]
      && res.1[pid].shared == shards[pid].shared[..k] && res.1[pid].sharedSize == k
      && res.1[pid].private == shards[pid].private && res.1[pid].privateSize == 0
    // and the factory only when the shard holds nothing
    ensures shards[pid].Count() == 0 ==> res == (produced, shards)
  {
    var l := shards[pid];
    if l.privateSize > 0 then
      var k := l.privateSize - 1;
      (l.private[k], shards[pid := l.(private := l.private[k := []], privateSize := k)])
    else if |l.shared| > 0 then
      var k := |l.shared| - 1;
      (l.shared[k], shards[pid := l.(shared := l.shared[..k], sharedSize := l.sharedSize - 1)])
    else
      (produced, shards)
  }

  /** Replacing one shard changes the total by the difference of the two
      shards' counts. */
  lemma {:induction false} TotalLenUpdate(shards: seq<Shard>, i: nat, sh: Shard)
    requires i < |shards|
    ensures TotalLen(shards[i := sh]) == TotalLen(shards) - shards[i].Count() + sh.Count()
  {
    var n := |shards| - 1;
    if i == n {
      assert shards[i := sh][..n] == shards[..n];
    } else {
      assert shards[i := sh][..n] == shards[..n][i := sh];
      TotalLenUpdate(shards[..n], i, sh);
    }
  }

  /** With a cap, the pool never holds more than MaxPrivateElems plus the
      cap per shard. */
  lemma {:induction false} TotalLenBound(shards: seq<Shard>, maxLocalSize: int)
    requires AllValid(shards, maxLocalSize) && maxLocalSize >= 0
    ensures 0 <= TotalLen(shards) <= |shards| * (MaxPrivateElems + maxLocalSize)
  {
    if shards != [] {
      var n := |shards| - 1;
      assert AllValid(shards[..n], maxLocalSize) by {
        forall i | 0 <= i < n ensures shards[..n][i].Valid(maxLocalSize) {
          assert shards[..n][i] == shards[i];
        }
      }
      TotalLenBound(shards[..n], maxLocalSize);
      assert shards[n].Valid(maxLocalSize);
      var c := MaxPrivateElems + maxLocalSize;
      assert TotalLen(shards) == TotalLen(shards[..n]) + shards[n].Count();
      assert 0 <= shards[n].Count() <= c;
      assert |shards| * c == n * c + c;
    }
  }

  /** Every shard holds a non-negative count, so the total is non-negative. */
  lemma {:induction false} TotalLenNonNegative(shards: seq<Shard>, maxLocalSize: int)
    requires AllValid(shards, maxLocalSize)
    ensures TotalLen(shards) >= 0
  {
    if shards != [] {
      var n := |shards| - 1;
      assert AllValid(shards[..n], maxLocalSize) by {
        forall i | 0 <= i < n ensures shards[..n][i].Valid(maxLocalSize) {
          assert shards[..n][i] == shards[i];
        }
      }
      TotalLenNonNegative(shards[..n], maxLocalSize);
      assert shards[n].Valid(maxLocalSize);
    }
  }

  /** A Put adds exactly one object to the pool when it retains it, and
      none when it drops it. */
  lemma PutCount(shards: seq<Shard>, maxLocalSize: int, pid: nat, r: uint32, x: Elem)
    requires pid < |shards| && AllValid(shards, maxLocalSize)
    ensures TotalLen(PutSpec(shards, maxLocalSize, pid, r, x))
      == TotalLen(shards) + (if PutRetains(shards, maxLocalSize, pid, r) then 1 else 0)
  {
    var s := PutSpec(shards, maxLocalSize, pid, r, x);
    if shards[pid].privateSize < MaxPrivateElems {
      assert s == shards[pid := s[pid]];
      TotalLenUpdate(shards, pid, s[pid]);
    } else {
      var t := PutTarget(shards, pid, r);
      assert s == shards[t := s[t]];
      TotalLenUpdate(shards, t, s[t]);
    }
  }

  /** With the sentinel maxLocalSize == -1, a Put on a full private
      array never changes the pool: no object ever reaches a shared list. */
  lemma PutDropsWithoutCap(shards: seq<Shard>, pid: nat, r: uint32, x: Elem)
    requires pid < |shards| && AllValid(shards, -1)
    requires shards[pid].privateSize == MaxPrivateElems
    ensures PutSpec(shards, -1, pid, r, x) == shards
    ensures !PutRetains(shards, -1, pid, r)
  {
  }

  /** A shared list other than the caller's own grows only when the caller's
      private array is full and that list is strictly shorter than its own. */
  lemma PutOtherSharedOnlyIfShorter(shards: seq<Shard>, maxLocalSize: int, pid: nat, r: uint32, x: Elem, j: nat)
    requires pid < |shards| && AllValid(shards, maxLocalSize)
    requires j < |shards| && j != pid
    requires PutSpec(shards, maxLocalSize, pid, r, x)[j] != shards[j]
    ensures shards[pid].privateSize == MaxPrivateElems
    ensures j == r % |shards| && shards[j].sharedSize < shards[pid].sharedSize
    ensures maxLocalSize >= 0 && shards[j].sharedSize < maxLocalSize
  {
  }

  /** Get keeps every shard valid. */
  lemma GetPreservesValid(shards: seq<Shard>, maxLocalSize: int, pid: nat, produced: Elem)
    requires pid < |shards| && AllValid(shards, maxLocalSize)
    ensures AllValid(GetSpec(shards, pid, produced).1, maxLocalSize)
  {
    var s := GetSpec(shards, pid, produced).1;
    forall i | 0 <= i < |s| ensures s[i].Valid(maxLocalSize) {
      if i == pid {
        var l := shards[pid];
        if l.privateSize > 0 {
          forall k | s[i].privateSize <= k < MaxPrivateElems ensures s[i].private[k] == [] {
          }
        }
      }
    }
  }

  /** Get removes exactly one object from the pool, unless the caller's shard
      is empty, in which case it removes none and returns `produced`. */
  lemma GetCount(shards: seq<Shard>, maxLocalSize: int, pid: nat, produced: Elem)
    requires pid < |shards| && AllValid(shards, maxLocalSize)
    ensures TotalLen(GetSpec(shards, pid, produced).1)
      == TotalLen(shards) - (if shards[pid].Count() == 0 then 0 else 1)
  {
    var s := GetSpec(shards, pid, produced).1;
    assert s == shards[pid := s[pid]];
    TotalLenUpdate(shards, pid, s[pid]);
  }

  /** Put into a free private slot, then Get on the same processor, returns
      the object put and restores every shard. */
  lemma PutGetRoundTrip(shards: seq<Shard>, maxLocalSize: int, pid: nat, r: uint32, x: Elem, produced: Elem)
    requires pid < |shards| && AllValid(shards, maxLocalSize)
    requires shards[pid].privateSize < MaxPrivateElems
    ensures GetSpec(PutSpec(shards, maxLocalSize, pid, r, x), pid, produced) == (x, shards)
  {
    var l := shards[pid];
    var s := PutSpec(shards, maxLocalSize, pid, r, x);
    var g := GetSpec(s, pid, produced);
    assert l.private[l.privateSize := x][l.privateSize := []] == l.private;
    assert g.1[pid] == l;
    assert g.1 == shards;
  }

  /** With the private slots full, a Put followed by a Get on the same
      processor returns the newest private entry, not the object put: the
      Put went to a shared list (or was dropped) and Get pops private slots
      first. */
  lemma PutFullThenGetReturnsPrivateTop(shards: seq<Shard>, maxLocalSize: int, pid: nat, r: uint32, x: Elem, produced: Elem)
    requires pid < |shards| && AllValid(shards, maxLocalSize)
    requires shards[pid].privateSize == MaxPrivateElems
    ensures GetSpec(PutSpec(shards, maxLocalSize, pid, r, x), pid, produced).0
      == shards[pid].private[MaxPrivateElems - 1]
  {
    var s := PutSpec(shards, maxLocalSize, pid, r, x);
    assert s[pid].private == shards[pid].private && s[pid].privateSize == MaxPrivateElems;
  }

  /** The objects returned by n successive Gets on processor `pid`, oldest
      call first, and the shards afterwards. */
  function Gets(shards: seq<Shard>, maxLocalSize: int, pid: nat, produced: Elem, n: nat): (res: (seq<Elem>, seq<Shard>))
    requires pid < |shards| && AllValid(shards, maxLocalSize)
    ensures |res.0| == n && |res.1| == |shards| && AllValid(res.1, maxLocalSize)
    decreases n
  {
    if n == 0 then
      ([], shards)
    else
      GetPreservesValid(shards, maxLocalSize, pid, produced);
      var g := GetSpec(shards, pid, produced);
      var rest := Gets(g.1, maxLocalSize, pid, produced, n - 1);
      ([g.0] + rest.0, rest.1)
  }

  /** Gets on one processor never touch another processor's shard. */
  lemma {:induction false} GetsLeaveOtherShards(shards: seq<Shard>, maxLocalSize: int, pid: nat, produced: Elem, n: nat, j: nat)
    requires pid < |shards| && AllValid(shards, maxLocalSize)
    requires j < |shards| && j != pid
    ensures Gets(shards, maxLocalSize, pid, produced, n).1[j] == shards[j]
    decreases n
  {
    if n > 0 {
      GetPreservesValid(shards, maxLocalSize, pid, produced);
      var g := GetSpec(shards, pid, produced);
      GetsLeaveOtherShards(g.1, maxLocalSize, pid, produced, n - 1, j);
    }
  }

  /** A Put can move an object out of reach of its own processor: here
      processor 0 (private slots full, one shared entry) puts x on the
      emptier shard 1, and its sixth Get falls back to the factory while x
      still sits on shard 1. A single thread does not get back everything
      it put. */
  lemma PutCanHideObjectFromGet(x: Elem, produced: Elem)
    ensures var e: Elem := [1];
      var before := [Shard([e, e, e, e], MaxPrivateElems, [e], 1), EmptyShard];
      var after := PutSpec(before, 2, 0, 1, x);
      var gets := Gets(after, 2, 0, produced, 6);
      && after[1].shared == [x]
      && gets.0[5] == produced
      && gets.1[1].shared == [x]
  {
    var e: Elem := [1];
    var before := [Shard([e, e, e, e], MaxPrivateElems, [e], 1), EmptyShard];
    assert AllValid(before, 2);
    assert PutTarget(before, 0, 1) == 1;
    var after := PutSpec(before, 2, 0, 1, x);
    assert !(before[0].privateSize < MaxPrivateElems);
    assert before[1].sharedSize < 2;
    assert after == before[1 := before[1].(shared := before[1].shared + [x], sharedSize := before[1].sharedSize + 1)];
    assert after[0].Count() == 5;
    GetsPastOwnShard(after, 2, 0, produced, 6);
    GetsLeaveOtherShards(after, 2, 0, produced, 6, 1);
  }

  /** A Get that finds its shard holding something takes one object out of it. */
  lemma GetTakesOne(shards: seq<Shard>, maxLocalSize: int, pid: nat, produced: Elem)
    requires pid < |shards| && AllValid(shards, maxLocalSize)
    requires shards[pid].Count() > 0
    ensures GetSpec(shards, pid, produced).1[pid].Count() == shards[pid].Count() - 1
  {
  }

  /** Once a processor's own shard is drained, its Gets fall back on the
      factory whatever the other shards hold: the n-th of n Gets returns
      `produced` when the shard held fewer than n objects. */
  lemma {:induction false} GetsPastOwnShard(shards: seq<Shard>, maxLocalSize: int, pid: nat, produced: Elem, n: nat)
    requires pid < |shards| && AllValid(shards, maxLocalSize)
    requires shards[pid].Count() < n
    ensures Gets(shards, maxLocalSize, pid, produced, n).0[n - 1] == produced
    decreases n
  {
    var g := GetSpec(shards, pid, produced);
    GetPreservesValid(shards, maxLocalSize, pid, produced);
    if shards[pid].Count() == 0 {
      if n > 1 {
        GetsPastOwnShard(g.1, maxLocalSize, pid, produced, n - 1);
      }
    } else {
      GetTakesOne(shards, maxLocalSize, pid, produced);
      GetsPastOwnShard(g.1, maxLocalSize, pid, produced, n - 1);
    }
  }

  /** The Put the -1 sentinel evidently stands for: a negative cap means
      the shared lists are unbounded, so the guard reads "no cap, or under
      the cap". Otherwise as PutSpec. */
  function IntendedPutSpec(shards: seq<Shard>, maxLocalSize: int, pid: nat, r: uint32, x: Elem): (s: seq<Shard>)
    requires pid < |shards| && AllValid(shards, maxLocalSize)
    ensures |s| == |shards| && AllValid(s, maxLocalSize)
    ensures shards[pid].privateSize == MaxPrivateElems ==>
      var t := PutTarget(shards, pid, r);
      && s[t].private == shards[t].private && s[t].privateSize == shards[t].privateSize
      && s[t].shared == (if maxLocalSize < 0 || shards[t].sharedSize < maxLocalSize then shards[t].shared + [x] else shards[t].shared)
      && forall i :: 0 <= i < |s| && i != t ==> s[i] == shards[i]
  {
    var l := shards[pid];
    if l.privateSize < MaxPrivateElems then
      shards[pid := l.(private := l.private[l.privateSize := x], privateSize := l.privateSize + 1)]
    else
      var t := PutTarget(shards, pid, r);
      var l2 := shards[t];
      if maxLocalSize < 0 || l2.sharedSize < maxLocalSize then
        shards[t := l2.(shared := l2.shared + [x], sharedSize := l2.sharedSize + 1)]
      else
        shards
  }

  /** Without a cap the intended Put never drops: every Put adds one object
      to the pool. */
  lemma IntendedPutKeepsWithoutCap(shards: seq<Shard>, pid: nat, r: uint32, x: Elem)
    requires pid < |shards| && AllValid(shards, -1)
    ensures TotalLen(IntendedPutSpec(shards, -1, pid, r, x)) == TotalLen(shards) + 1
  {
    var s := IntendedPutSpec(shards, -1, pid, r, x);
    var t := if shards[pid].privateSize < MaxPrivateElems then pid else PutTarget(shards, pid, r);
    assert s == shards[t := s[t]];
    TotalLenUpdate(shards, t, s[t]);
  }

  /** With a cap (maxLocalSize >= 0) the intended Put is the Put as
      written; the two differ only for the -1 sentinel. */
  lemma IntendedPutAgreesWithCap(shards: seq<Shard>, maxLocalSize: int, pid: nat, r: uint32, x: Elem)
    requires pid < |shards| && AllValid(shards, maxLocalSize)
    ensures maxLocalSize >= 0 ==> IntendedPutSpec(shards, maxLocalSize, pid, r, x) == PutSpec(shards, maxLocalSize, pid, r, x)
    ensures maxLocalSize == -1 && shards[pid].privateSize == MaxPrivateElems ==>
      IntendedPutSpec(shards, maxLocalSize, pid, r, x) != PutSpec(shards, maxLocalSize, pid, r, x)
  {
    if maxLocalSize == -1 && shards[pid].privateSize == MaxPrivateElems {
      var t := PutTarget(shards, pid, r);
      assert |IntendedPutSpec(shards, maxLocalSize, pid, r, x)[t].shared| == |shards[t].shared| + 1;
    }
  }

  /** On a newly built pool every Get falls back to the factory. */
  lemma GetOnEmptyPool(n: nat, pid: nat, produced: Elem)
    requires pid < n
    ensures GetSpec(seq(n, _ => EmptyShard), pid, produced) == (produced, seq(n, _ => EmptyShard))
  {
  }

  class IntsFreePool {
    /** One shard per processor; allocated once and never resized. */
    const local: array<Shard>
    /** The cap on each shared list. The constructor sets -1 for a
        non-positive total, and with -1 no object ever enters a shared list
        (see PutDropsWithoutCap). */
    const maxLocalSize: int

    ghost predicate Valid()
      reads local
    {
      && local.Length > 0
      && (maxLocalSize == -1 || maxLocalSize >= 1)
      && AllValid(local[..], maxLocalSize)
    }

    /** A pool of `maxProcs` empty shards whose total capacity is about
        `maxSize` (none when `maxSize` is not positive). */
    constructor (maxSize: int, maxProcs: nat)
      requires maxProcs > 0
      ensures Valid() && fresh(local)
      ensures local.Length == maxProcs && maxLocalSize == MaxLocalSize(maxSize, maxProcs)
      ensures forall i :: 0 <= i < maxProcs ==> local[i] == EmptyShard
    {
      maxLocalSize := MaxLocalSize(maxSize, maxProcs);
      local := new Shard[maxProcs](_ => EmptyShard);
    }

    /** The shard a caller pinned to processor `pid` works on; None stands
        for the panic on a processor id beyond the shards. */
    function Pin(pid: nat): (l: Option<nat>)
      ensures l.Some? <==> pid < local.Length
      ensures l.Some? ==> l.value == pid
    {
      if pid >= local.Length then None else Some(pid)
    }

    /** Hands `x` to the pool; the pool may drop it. */
    method Put(x: Elem, pid: nat, r: uint32)
      requires Valid() && Pin(pid).Some?
      modifies local
      ensures Valid()
      ensures local[..] == PutSpec(old(local[..]), maxLocalSize, pid, r, x)
    {
      var done := false;
      var l := Pin(pid).value;
      if local[l].privateSize < MaxPrivateElems {
        local[l] := local[l].(private := local[l].private[local[l].privateSize := x]);
        local[l] := local[l].(privateSize := local[l].privateSize + 1);
        done := true;
      }
      if !done {
        var l2 := r % local.Length;
        var lSize := local[l].sharedSize;
        var l2Size := local[l2].sharedSize;
        if l2Size < lSize {
          l := l2;
        }
        if maxLocalSize >= 0 && local[l].sharedSize < maxLocalSize {
          local[l] := local[l].(shared := local[l].shared + [x]);
          local[l] := local[l].(sharedSize := local[l].sharedSize + 1);
        }
      }
    }

    /** Takes an object from the caller's shard, or returns `produced` (what the
        factory produces) when that shard holds none. */
    method Get(pid: nat, produced: Elem) returns (x: Elem)
      requires Valid() && Pin(pid).Some?
      modifies local
      ensures Valid()
      ensures (x, local[..]) == GetSpec(old(local[..]), pid, produced)
    {
      GetPreservesValid(local[..], maxLocalSize, pid, produced);
      ghost var before := local[..];
      var l := Pin(pid).value;
      var done := false;
      if local[l].privateSize > 0 {
        local[l] := local[l].(privateSize := local[l].privateSize - 1);
        x := local[l].private[local[l].privateSize];
        local[l] := local[l].(private := local[l].private[local[l].privateSize := []]);
        done := true;
      }
      if done {
        assert local[..] == before[l := local[l]];
        return;
      }
      var last := |local[l].shared| - 1;
      if last >= 0 {
        x := local[l].shared[last];
        local[l] := local[l].(shared := local[l].shared[..last]);
        local[l] := local[l].(sharedSize := local[l].sharedSize - 1);
        done := true;
      }
      if !done {
        x := produced;
      }
      assert local[..] == before[l := local[l]];
    }

    /** The number of objects in the pool: private plus shared sizes over
        all shards. */
    method ApproxLen() returns (n: int)
      requires Valid()
      ensures n == TotalLen(local[..])
      ensures n >= 0
      ensures maxLocalSize >= 0 ==> n <= local.Length * (MaxPrivateElems + maxLocalSize)
    {
      n := 0;
      for i := 0 to local.Length
        invariant n == TotalLen(local[..i])
      {
        n := n + local[i].privateSize;
        n := n + local[i].sharedSize;
        assert local[..i + 1][..i] == local[..i];
      }
      assert local[..local.Length] == local[..];
      TotalLenNonNegative(local[..], maxLocalSize);
      if maxLocalSize >= 0 {
        TotalLenBound(local[..], maxLocalSize);
      }
    }
  }

  /** Put into a free private slot followed by Get on the same processor
      returns the object put and leaves the pool as it was. */
  method PutThenGet(pool: IntsFreePool, x: Elem, pid: nat, r: uint32, produced: Elem) returns (y: Elem)
    requires pool.Valid() && pool.Pin(pid).Some?
    requires pool.local[pid].privateSize < MaxPrivateElems
    modifies pool.local
    ensures pool.Valid()
    ensures y == x && pool.local[..] == old(pool.local[..])
  {
    ghost var before := pool.local[..];
    pool.Put(x, pid, r);
    y := pool.Get(pid, produced);
    PutGetRoundTrip(before, pool.maxLocalSize, pid, r, x, produced);
  }
}
