# Free pools and XOR byte kernels

This project models three in-place components of a Go code base in Dafny and
proves their contracts.

- `RandomizedFreePool` (`randomized_free_pool.dfy`) models `IntsFreePool`, a free pool of
  `[]int` objects with one shard per processor. Each shard holds:
  - a private LIFO of four slots with a `privateSize` counter;
  - a shared LIFO whose length is mirrored in `sharedSize`. Its length is capped
    by `maxLocalSize`. The constructor sets -1 for a non-positive `maxSize`, and
    with -1 no object ever enters a shared list.

  `Put` first tries the caller's private slots. When those are full, it appends
  to the shared list of whichever of two shards has the shorter list: the
  caller's own, or one drawn at random (power-of-two choice). `Get` pops from
  the caller's private slots, then from its shared list. When both are empty,
  `Get` falls back to the factory.
  - The shards are an `array<Shard>` that `Put` and `Get` update in place.
  - Each method is proved equal to a specification function on the sequence of
    shards (`PutSpec`, `GetSpec`).
  - Lemmas about those functions state what the pool promises: the per-shard
    invariants, the object count, which shards may change, and the
    Put-then-Get round trip.

  With `maxLocalSize == -1` (a non-positive `maxSize`), the insertion guard
  `maxLocalSize >= 0 && ...` never lets an object into a shared list. So every
  `Put` beyond the four private slots is dropped, although -1 looks meant to say
  "unbounded". The model keeps this behaviour as written, and
  `PutDropsWithoutCap` states it. `IntendedPutSpec` is the unbounded reading,
  listed under Findings.

  Two promises one might read into the pool do not hold, and the model proves
  so:
  - A single processor does not always get back what it put. `Get` looks only
    at the caller's own shard, while `Put` may place the object on another
    shard. `PutCanHideObjectFromGet` shows a pool where the caller's Gets fall
    back on the factory while its object sits in the other shard. The comment
    at `int_freepool.go:48-50` states this trade-off.
  - Put followed by Get returns the object put only when a private slot was
    free (`PutGetRoundTrip`). With the private slots full, Get returns the
    newest private entry instead (`PutFullThenGetReturnsPrivateTop`).
- `FreePool` (`free_pool.dfy`) models `bytePool`, a single-threaded LIFO of byte
  buffers. It keeps at most 128 entries and falls back to its `New` factory when
  empty.
- `SimdXor` (`simd_xor.dfy`) models the byte-wise XOR kernels:
  - `main ^= arg` (`XorInplace`, `XorUnsafeInplace`);
  - `dst = src1 ^ src2` (`Xor`, `XorUnsafe`);
  - `main ^= val` (`XorConst8Inplace`, `XorConst8UnsafeInplace`);
  - `dst = src ^ val` (`XorConst8`, `XorConst8Unsafe`).

  The kernels work one 8-byte word at a time. Memory is an `array<bv8>`, and a
  word store at offset `o` writes the 8 bytes `o..o+8`.
  - The safe kernels end with final words that may overlap bytes already
    processed. The proofs show that every byte of `[0, len)` is covered and that
    no access goes past `len`. For the in-place kernels, both final words are
    read before either is written, so the overlap still yields plain XOR.
  - The unsafe kernels get a buffer whose length is the slice's capacity, at
    least `RoundUpPow2(len + 1, bytesPerVec)`. They may write up to a word past
    `len`, and the proofs show every write stays below the capacity.

Parameters stand in for the runtime:
- The processor id from the runtime pin is `pid`.
- The `fastrand()` draw is `r`, a value below 2^32.
- `runtime.GOMAXPROCS(0)` is the constructor parameter `maxProcs`.
- The object a factory would create is `produced`.
- The panics on mismatched lengths are the result `ok == false`, with nothing
  written.

## Model

| member | source | states |
|---|---|---|
| RandomizedFreePool.MaxLocalSize | gtl/tests/int_freepool.go:88-94 | The cap is -1 exactly when maxSize <= 0. Otherwise it is at least 1: maxSize / maxProcs rounded down when maxSize >= maxProcs, and 1 when 0 < maxSize < maxProcs. |
| RandomizedFreePool.IntsFreePool.constructor | gtl/tests/int_freepool.go:86-101 | A new pool has maxProcs shards, all empty. Its cap is MaxLocalSize(maxSize, maxProcs), and the pool satisfies the shard invariants. |
| RandomizedFreePool.IntsFreePool.Pin | gtl/tests/int_freepool.go:103-109 | Pinning succeeds exactly when pid < the shard count, and it selects shard pid. Failure stands for the panic. |
| RandomizedFreePool.PutTarget | gtl/tests/int_freepool.go:128-133 | It picks shard r % n exactly when that shard's sharedSize is strictly less than the caller's. Otherwise it picks the caller's shard, so ties keep it. The pick has the smaller sharedSize of the two. |
| RandomizedFreePool.PutSpec | gtl/tests/int_freepool.go:113-141 | With a free private slot, x goes into private[privateSize], privateSize goes up by one, and nothing else changes. With the private slots full, only the chosen shard may change, and it gains x at the end of its shared list exactly when the cap allows. All shard invariants are preserved. |
| RandomizedFreePool.IntsFreePool.Put | gtl/tests/int_freepool.go:113-141 | The shards afterwards are PutSpec of the shards before, and the pool invariants still hold. |
| RandomizedFreePool.GetSpec | gtl/tests/int_freepool.go:145-173 | Get pops the newest private entry and clears its slot. Failing that, it pops the last shared entry and decrements sharedSize. Failing that, it returns the factory's object and changes nothing. No other shard changes. |
| RandomizedFreePool.IntsFreePool.Get | gtl/tests/int_freepool.go:145-173 | The returned object and the shards afterwards are GetSpec of the shards before, and the pool invariants still hold. |
| RandomizedFreePool.IntsFreePool.ApproxLen | gtl/tests/int_freepool.go:178-185 | The loop's result is the sum of privateSize + sharedSize over all shards. It is non-negative, and with a cap it is at most shards * (4 + cap). |
| RandomizedFreePool.TotalLenUpdate | gtl/tests/int_freepool.go:178-185 | Replacing one shard changes the pool's total by the difference of the two shards' counts. |
| RandomizedFreePool.TotalLenBound | gtl/tests/int_freepool.go:67-72 | With a cap m >= 0, valid shards hold between 0 and shards * (4 + m) objects in total. |
| RandomizedFreePool.TotalLenNonNegative | gtl/tests/int_freepool.go:67-72 | Valid shards hold a non-negative number of objects. |
| RandomizedFreePool.PutCount | gtl/tests/int_freepool.go:113-141 | A Put adds exactly one object to the pool's total when it keeps x, and none when it drops x. |
| RandomizedFreePool.PutDropsWithoutCap | gtl/tests/int_freepool.go:135-138 | With maxLocalSize == -1, a Put on a full private array leaves every shard unchanged and drops the object. |
| RandomizedFreePool.PutOtherSharedOnlyIfShorter | gtl/tests/int_freepool.go:122-138 | A Put changes a shard other than the caller's only in this case: the caller's private slots are full, the shard is r % n, its shared list is strictly shorter than the caller's, and it is under the cap. |
| RandomizedFreePool.GetPreservesValid | gtl/tests/int_freepool.go:149-168 | Get keeps every shard within its invariants. |
| RandomizedFreePool.GetCount | gtl/tests/int_freepool.go:145-173 | Get removes exactly one object from the total, or none when the caller's shard is empty. |
| RandomizedFreePool.PutGetRoundTrip | gtl/tests/int_freepool.go:115-120 | Put into a free private slot, then Get with the same pid, returns x and gives back the original shards. |
| RandomizedFreePool.PutFullThenGetReturnsPrivateTop | gtl/tests/int_freepool.go:113-173 | With the caller's private slots full, Put(x) followed by Get with the same pid returns the newest private entry, not x. |
| RandomizedFreePool.Gets | gtl/tests/int_freepool.go:145-173 | n Gets in a row by one processor return n objects and keep every shard within its invariants. |
| RandomizedFreePool.GetsLeaveOtherShards | gtl/tests/int_freepool.go:145-173 | Any number of Gets by one processor leave every other processor's shard unchanged. |
| RandomizedFreePool.GetTakesOne | gtl/tests/int_freepool.go:149-168 | A Get whose own shard holds something removes exactly one object from that shard. |
| RandomizedFreePool.GetsPastOwnShard | gtl/tests/int_freepool.go:145-173 | When the caller's shard holds fewer than n objects, the n-th of n Gets returns the factory's object, whatever the other shards hold. |
| RandomizedFreePool.PutCanHideObjectFromGet | gtl/tests/int_freepool.go:113-173 | On a two-shard pool whose caller has full private slots and one shared entry, Put(x) with r = 1 puts x on the other shard. The caller's sixth Get then returns the factory's object while x is still in the other shard. |
| RandomizedFreePool.IntendedPutSpec | gtl/tests/int_freepool.go:135-138 | Put with the guard read as "no cap, or under the cap": with full private slots, the chosen shard gains x when the cap is negative or not yet reached. Only that shard changes, and all invariants are preserved. |
| RandomizedFreePool.IntendedPutKeepsWithoutCap | gtl/tests/int_freepool.go:135-138 | With the cap -1, the corrected Put always adds exactly one object to the pool's total. |
| RandomizedFreePool.IntendedPutAgreesWithCap | gtl/tests/int_freepool.go:135-138 | With a cap >= 0 the corrected Put equals PutSpec. With the cap -1 and full private slots, the two differ. |
| RandomizedFreePool.GetOnEmptyPool | gtl/tests/int_freepool.go:169-171 | On a newly built pool, Get returns the factory's object and changes nothing. |
| RandomizedFreePool.PutThenGet | gtl/tests/int_freepool.go:113-173 | On the class itself, Put into a free private slot and then Get with the same pid returns x and restores every shard. |
| FreePool.BytePool.constructor | gtl/tests/freepool.go:15-18 | A new pool is empty. |
| FreePool.BytePool.Get | gtl/tests/freepool.go:20-27 | On an empty stack, Get returns the factory's object and the stack stays empty. Otherwise it returns the last entry and removes exactly that entry. The bound of 128 entries is preserved. |
| FreePool.BytePool.Put | gtl/tests/freepool.go:29-33 | Put appends x when fewer than 128 entries are held, and otherwise leaves the stack unchanged. The bound of 128 entries is preserved. |
| FreePool.PutThenGet | gtl/tests/freepool.go:20-33 | Below the bound, Put(x) followed by Get returns x and restores the stack (LIFO round trip). |
| FreePool.PutFullThenGet | gtl/tests/freepool.go:20-33 | On a full stack, Put(x) drops x, so the following Get returns the entry that was on top before. |
| SimdXor.CapacityCoversWords | simd/xor_amd64.go:121-129 | With a capacity of at least RoundUpPow2(len + 1, vec), where vec is a power of two >= 8, both fit: ceil(len / 8) whole words, and the single word at offset 0. |
| SimdXor.Pow2Small | simd/xor_amd64.go:27 | A power of two is 1, 2, 4 or a multiple of 8, so a vector width of at least 8 is a whole number of words. |
| SimdXor.DivUpBounds | simd/xor_amd64.go:129 | DivUpPow2(x, d) is the least q with q * d >= x. |
| SimdXor.BroadcastBytes | simd/xor_amd64.go:199 | Every byte of 0x0101010101010101 * val is val. |
| SimdXor.BroadcastArgWord | simd/xor_amd64.go:199 | The constant kernels' argWord has val in each of its 8 bytes. |
| SimdXor.ByteOfXor | simd/xor_amd64.go:42 | Byte k of the machine word x ^ y is byte k of x XOR byte k of y. |
| SimdXor.WordXorBytes | simd/xor_amd64.go:42 | The machine-word XOR x ^ y, laid out as 8 little-endian bytes, is the byte-wise XOR of the bytes of x and y. |
| SimdXor.StoreWord | simd/xor_amd64.go:42 | A word store at offset o writes w at [o, o + 8), and every other byte is unchanged. |
| SimdXor.XorByteTwice | simd/xor_amd64.go:42 | XOR with the same byte twice gives back the original byte. |
| SimdXor.InplaceTailFits | simd/xor_amd64.go:37-64 | For len >= 8, both lie within [0, len) and together cover it: the (len - 9) / 8 loop words (none when len <= 16), the word after them, and the word ending at len. |
| SimdXor.CopyTailFits | simd/xor_amd64.go:160-181 | For len >= 8, the (len - 1) / 8 loop words and the word ending at len lie within [0, len) and cover it. |
| SimdXor.XorWordsInplace | simd/xor_amd64.go:37-45 | The word loop XORs arg into the first nWords words of main and touches nothing beyond them. main and arg may be the same array. |
| SimdXor.XorFinalWordsInplace | simd/xor_amd64.go:52-64 | The two final words, read before either is written, XOR exactly the bytes [it, len) once, even where they overlap. |
| SimdXor.XorWordsInto | simd/xor_amd64.go:129-141 | The word loop sets dst to src1 ^ src2 over the first nWords words and leaves the rest of dst unchanged. |
| SimdXor.XorConstWordsInplace | simd/xor_amd64.go:202-208 | The word loop XORs val into every byte of the first nWords words of main and leaves the rest unchanged. |
| SimdXor.XorConstFinalWordsInplace | simd/xor_amd64.go:214-219 | The two final words XOR val into exactly the bytes [it, len) once. |
| SimdXor.XorConstWordsInto | simd/xor_amd64.go:269-279 | The word loop sets dst to src ^ val over the first nWords words and leaves the rest of dst unchanged. |
| SimdXor.UnsafeInplaceEnd | simd/xor_amd64.go:46-50 | The bytes an unsafe in-place kernel writes end at or after len and within the assumed capacity. The end is exactly 8 when len <= 8, and exactly len otherwise. |
| SimdXor.UnsafeWordsEnd | simd/xor_amd64.go:129 | ceil(len / 8) whole words end at or after len, on a word boundary, within the assumed capacity. |
| SimdXor.XorUnsafeInplace | simd/xor_amd64.go:31-65 | Given the capacity assumption, main[i] becomes main[i] ^ arg[i] for every i in [0, len), widened to the whole first word when len <= 8. Every other byte is unchanged, and no write reaches the capacity. |
| SimdXor.XorInplace | simd/xor_amd64.go:67-108 | It fails, writing nothing, exactly when the lengths differ. Otherwise main[i] becomes main[i] ^ arg[i] for every i, and arg is unchanged unless it is main. |
| SimdXor.XorUnsafe | simd/xor_amd64.go:125-142 | Given the capacity assumption, dst[i] becomes src1[i] ^ src2[i] for every i below the first word boundary at or after len. Bytes past that are unchanged, and no write reaches the capacity. |
| SimdXor.XorBytesInto | simd/xor_amd64.go:151-156 | The short-slice byte loop sets dst[i] to src1[i] ^ src2[i] for i < n and leaves the rest unchanged, whichever arrays are the same. |
| SimdXor.Xor | simd/xor_amd64.go:144-181 | It fails, writing nothing, exactly when the three lengths are not all equal. Otherwise dst[i] becomes src1[i] ^ src2[i] for every i, except when dst is exactly one of the sources: then the final-word bytes the loop already wrote keep dst's old value. |
| SimdXor.XorWordPath | simd/xor_amd64.go:158-180 | For equal lengths of at least 8, the word loop and then the final word give the same result as Xor states, for every aliasing of the three arrays. |
| SimdXor.XorFinalWordInto | simd/xor_amd64.go:173-180 | The final word writes src1 ^ src2 over the last 8 bytes of dst, read as they are at that point, and leaves every other byte unchanged. |
| SimdXor.XorFinalBytes | simd/xor_amd64.go:158-180 | Byte by byte, the loop's output followed by the final word equals src1 ^ src2 of the original contents, except the overlap bytes when dst is exactly one source, which hold dst's original value. |
| SimdXor.FinalByteAfterLoop | simd/xor_amd64.go:173-180 | One final-word byte: re-reading a byte the loop already XORed undoes the XOR when one source is dst, and still gives the XOR when both are. |
| SimdXor.XorReadFinalFirst | simd/xor_amd64.go:144-181 | With the final word read before the loop writes anything, dst[i] becomes src1[i] ^ src2[i] for every i, whichever arrays are the same. Fails, writing nothing, on a length mismatch. |
| SimdXor.XorAliasedCounterexample | simd/xor_amd64.go:173-180 | Xor(a, a, b) on 12 zero bytes and 12 one bytes leaves a[4] == 0, although 0 ^ 1 == 1. |
| SimdXor.XorConst8UnsafeInplace | simd/xor_amd64.go:197-220 | Given the capacity assumption, main[i] becomes main[i] ^ val for every i in [0, len), widened to the whole first word when len <= 8. Every other byte is unchanged. |
| SimdXor.XorConst8Inplace | simd/xor_amd64.go:222-249 | main[i] becomes main[i] ^ val for every i. |
| SimdXor.XorConst8Unsafe | simd/xor_amd64.go:266-280 | Given the capacity assumption, dst[i] becomes src[i] ^ val for every i below the first word boundary at or after len. Bytes past that are unchanged. |
| SimdXor.XorConstBytesInto | simd/xor_amd64.go:289-294 | The short-slice byte loop sets dst[i] to src[i] ^ val for i < n and leaves the rest unchanged, also when dst is src. |
| SimdXor.XorConst8 | simd/xor_amd64.go:282-313 | It fails, writing nothing, exactly when the lengths differ. Otherwise dst[i] becomes src[i] ^ val for every i, except when dst is src: then the final-word bytes the loop already wrote keep their old value. |
| SimdXor.XorConst8ReadFinalFirst | simd/xor_amd64.go:282-313 | With the final word read before the loop writes anything, dst[i] becomes src[i] ^ val for every i, also when dst is src. Fails, writing nothing, on a length mismatch. |
| SimdXor.XorConst8AliasedCounterexample | simd/xor_amd64.go:307-312 | XorConst8(a, a, 1) on 12 zero bytes leaves a[4] == 0, although 0 ^ 1 == 1. |
| SimdXor.XorInplaceTwice | simd/xor_amd64.go:67-108 | XorInplace with the same arg twice restores main. |
| SimdXor.XorConst8InplaceTwice | simd/xor_amd64.go:222-249 | XorConst8Inplace with the same val twice restores main. |
| SimdXor.XorThenXorBack | simd/xor_amd64.go:144-181 | Xor of src with a key into dst, then Xor of dst with the same key into out, makes out equal to src's original contents. |

## Left out

- Concurrency is not modelled. The shard mutex and the atomic loads and stores
  of `sharedSize` are plain reads and writes, so the stale reads the Go code
  tolerates between shards are not captured.
- The runtime hooks `runtime_procPin`, `runtime_procUnpin` and `fastrand` are not
  part of this model. Their results are the parameters `pid` and `r`.
- The O(log log n) load-imbalance bound for power-of-two choice is not modelled.
  It is probabilistic, so only the deterministic choice rule is.
- The cache-line padding of each shard is not modelled. It is memory layout and
  has no logical content.
- `runtime.GOMAXPROCS(0)` is the constructor parameter `maxProcs`, required
  positive.
- The `new`/`New` factory callbacks are not modelled. The object they would
  create is a caller-supplied value.
- The model does not distinguish a nil `[]int` from an empty one. Both are `[]`,
  including the cleared private slot.
- `sharedSize` is an `int64` in the source. Its overflow is not modelled, and the
  count is bounded by the cap or by memory.
- Slice headers and `unsafe.Pointer` arithmetic are not modelled. A word access
  is 8 byte positions of one array, and alignment and store-to-load forwarding
  are not modelled.
- `DivUpPow2`, `RoundUpPow2`, `BytesPerWord` and `bytesPerVec` are defined
  elsewhere in package `simd` and are not part of this model.
  - `DivUpPow2` and `RoundUpPow2` are taken as ceiling division and round-up to a
    multiple.
  - `bytesPerVec` is taken as 16. `CapacityCoversWords` shows that the bounds
    hold for any power of two of at least 8.
- The unsafe kernels take one length `len` for all their slices, as their
  documented precondition requires equal lengths. The case where the lengths
  differ is not modelled.
- Partial overlap between slices (two slices into the same buffer at different
  offsets) is not modelled. Arrays are either the same array or disjoint.
- The generator templates and code-generation headers are not part of this
  model.

## Findings

| source | as written | input that shows it | evidently intended | confidence | as-written member | corrected member |
|---|---|---|---|---|---|---|
| gtl/tests/int_freepool.go:135 | The shared-list guard is `maxLocalSize >= 0 && sharedSize < maxLocalSize`, and the constructor sets -1 for `maxSize <= 0`. | A pool built with `maxSize = 0` and a caller whose four private slots are full: `Put(x)` drops x. | -1 means the shared lists are unbounded, so a negative cap should let every object into the chosen shared list. | medium, not executed | RandomizedFreePool.PutDropsWithoutCap | RandomizedFreePool.IntendedPutSpec |
| simd/xor_amd64.go:173-180 | The final word is read after the loop has written dst. | `Xor(a, a, b)` with 12 bytes: a all 0, b all 1. Byte 4 stays 0. | `dst[i] = src1[i] ^ src2[i]` for every i, also when dst is a source. | medium, not executed | SimdXor.XorAliasedCounterexample | SimdXor.XorReadFinalFirst |
| simd/xor_amd64.go:307-312 | The final word is read after the loop has written dst. | `XorConst8(a, a, 1)` with 12 zero bytes. Byte 4 stays 0. | `dst[i] = src[i] ^ val` for every i, also when dst is src. | medium, not executed | SimdXor.XorConst8AliasedCounterexample | SimdXor.XorConst8ReadFinalFirst |
