# Static buffer pool: a Dafny model

This project models the `buffer-pool` allocator core in Dafny. The core hands out fixed-size chunks of caller-owned memory without a heap. It has three layers:

- **Buffer descriptor** (`buffer_st`, module `Buffers`). A record of a backing pointer, a capacity, an availability flag and an initialized flag. Its operations are `buffer_init`, `buffer_data`, `buffer_mark_free` and `buffer_mark_in_use`. `buffer_data` and the two mark operations are gated by `buffer_is_valid`. `buffer_init` only checks that the handle is non-NULL, since it is the operation that sets the initialized flag.
- **Buffer pool** (`buffer_pool_st`, module `BufferPool`). A view over a caller-provided descriptor array. It has `buffer_pool_init`, a first-fit `buffer_pool_acquire`, `buffer_pool_find` (matches by address identity), `buffer_pool_release_by_ptr` and `buffer_pool_mark_all_free`.
- **Buffer array context** (`buffer_array_ctx_st`, module `BufferArray`). It carves one flat block into `count` chunks of `size` bytes. Chunk `i` is at `block + i*size` and is bound to descriptor `i`. The context wraps a pool and gates three pass-through operations on its own initialized flag.

Module `BufferArrayFacts` proves what these layers guarantee across sequences of calls:

- chunk addresses are distinct, so find and release resolve chunk `i` to descriptor `i`;
- after init, the acquires return descriptors 0, 1, …, N-1 in that order and then NULL;
- release followed by acquire is a round trip;
- mark-all-free refills the pool.

How C is represented:

- Addresses are natural numbers. NULL is `None` (`Wrappers.Option`).
- A pointer to a descriptor, pool or context that may be NULL is an `Option` of the record. Each operation returns the record as it is afterwards.
- The caller-owned descriptor array is carried inside the pool (`Pool.buffers`). The context's own `buffer_array_sa` field always aliases the pool's array, so it is held only once, as `pool.buffers`.
- A returned `buffer_st *` is the index of the descriptor in that array.
- Each C scan loop is modelled twice: as a pure function that is the reference definition, and as a method written like the C loop (`AcquireScan`, `FindScan`, `MarkAllFreeScan`, `InitScan`). Each method is proved equal to its function.

The code does not keep NULL-backed or zero-capacity descriptors permanently unavailable. `buffer_init` leaves such a descriptor unavailable. But `buffer_mark_free` (buffer.c:86-92) and `buffer_pool_mark_all_free` (buffer.c:187-195) set the flag on any initialized descriptor. The model follows the code, and `Buffers.ZeroCapacityNotPermanent` and `BufferPool.ZeroCapacityFoundNotAcquired` state this behaviour.

## Model

| member | source | states |
|---|---|---|
| Buffers.IsValid | buffer.c:19-22 | `buffer_is_valid`: the handle is non-NULL and the descriptor is initialized. |
| Buffers.Init | buffer.c:43-62 | A NULL handle stays NULL. Otherwise the descriptor is valid and `buffer_data` on it returns the given pointer and capacity. It is acquirable iff the pointer is non-NULL and the capacity non-zero. Its previous contents do not matter. |
| Buffers.Data | buffer.h:93-105 | A valid descriptor reports its pointer and capacity. A NULL or uninitialized one reports NULL and 0. |
| Buffers.MarkFree | buffer.c:86-92 | A valid descriptor becomes acquirable and keeps its pointer, capacity and initialized flag. A NULL or uninitialized one is unchanged. |
| Buffers.MarkInUse | buffer.c:94-100 | A valid descriptor becomes unavailable and keeps its pointer, capacity and initialized flag. A NULL or uninitialized one is unchanged. |
| Buffers.MarkKeepsData | buffer.c:64-100 | `buffer_data` reports the same thing before and after either mark operation. |
| Buffers.MarkRoundTrip | buffer.c:86-100 | Marking a free descriptor in use and then free restores it. Marking a taken one free and then in use also restores it. |
| Buffers.ZeroCapacityNotPermanent | buffer.c:50-92 | A NULL-backed or zero-capacity init gives a valid descriptor that is not acquirable, and mark-free then makes it acquirable. |
| BufferPool.IsValid | buffer.c:31-37 | `buffer_pool_is_valid`: the pool is non-NULL and initialized, its array is non-NULL and its count is positive. |
| BufferPool.FirstFree | buffer.c:127-139 | Returns the lowest index at or after `from` whose descriptor is initialized and available. All earlier indices fail that test. None means no index qualifies. |
| BufferPool.FirstMatch | buffer.c:151-162 | Returns the lowest index at or after `from` whose descriptor is initialized and has the given pointer. None means no index matches. |
| BufferPool.FreeAll | buffer.c:187-195 | Same length. No pointer, capacity or initialized flag changes. Each descriptor is available afterwards iff it is initialized or was already available. |
| BufferPool.Init | buffer.c:106-116 | A NULL pool, NULL array or zero count is a no-op. Otherwise the pool is valid over exactly the given array and count, and no descriptor is touched. |
| BufferPool.Acquire | buffer.c:118-140 | On a valid pool, returns the lowest index below `count` that is initialized and available. Only that descriptor changes, and it is now in use. If no descriptor qualifies or the pool is invalid, returns NULL and the pool is unchanged. |
| BufferPool.Find | buffer.c:142-163 | Returns NULL on an invalid pool or a NULL pointer. Otherwise returns the first initialized descriptor below `count` with that pointer, whether free or taken, and nothing changes. |
| BufferPool.ReleaseByPtr | buffer.c:165-176 | Returns true iff find succeeds. On success only the found descriptor changes, and it becomes free. On failure the pool is unchanged. |
| BufferPool.MarkAllFree | buffer.c:178-196 | An invalid pool is unchanged. Otherwise every initialized descriptor below `count` becomes available, whatever its pointer or capacity. Uninitialized descriptors and those past `count` are untouched. |
| BufferPool.AcquireScan | buffer.c:118-140 | The ascending for-loop with early return computes exactly what `Acquire` specifies. |
| BufferPool.FindScan | buffer.c:142-163 | The ascending for-loop with early return computes exactly what `Find` specifies. |
| BufferPool.MarkAllFreeScan | buffer.c:178-196 | The in-place loop over the first `count` descriptors computes exactly what `MarkAllFree` specifies. |
| BufferPool.FindIgnoresAvailability | buffer.c:151-159 | Two pools whose descriptors differ only in availability give the same find result. |
| BufferPool.ReleaseIdempotent | buffer.c:165-176 | Releasing an already-free buffer returns true and changes nothing. Releasing the same pointer twice equals releasing it once. |
| BufferPool.AcquireReleaseRoundTrip | buffer.c:118-176 | Suppose acquire hands out descriptor `i` and `i` is the first descriptor with its pointer. Then releasing that pointer returns true and restores the pool as it was before the acquire. |
| BufferPool.ZeroCapacityFoundNotAcquired | buffer.c:127-193 | A descriptor initialized with zero capacity is never returned by acquire. Find still locates it by its non-NULL pointer. Mark-all-free makes it acquirable. |
| BufferArray.IsValid | buffer.c:235-240 | The gate shared by the three context operations: the context is non-NULL and initialized. |
| BufferArray.ChangedOnlyKeepsLayout | buffer.c:224-228 | Changing one descriptor's availability keeps the carved layout: same block, count and size, and descriptor `i` still holds chunk `i`. |
| BufferArray.InitChunks | buffer.c:224-228 | The first `n` descriptors are initialized over `block + i*size` with capacity `size`. They are free iff `size` is non-zero. The rest of the array is unchanged. |
| BufferArray.Init | buffer.c:202-233 | If any argument is NULL or zero, nothing happens. Otherwise the context is carved: it is initialized, its pool is valid with `count`, and descriptor `i` holds chunk `i` and is free. Descriptors past `count` are untouched. |
| BufferArray.Acquire | buffer.c:235-243 | An invalid context returns NULL and nothing changes. Otherwise the result is the pool's acquire. On a carved context the layout is kept, and a handed-out index is below `count` and now in use. |
| BufferArray.Find | buffer.c:245-253 | An invalid context returns NULL. Otherwise the result is the pool's find. |
| BufferArray.Release | buffer.c:255-263 | An invalid context returns false and nothing changes. Otherwise the result is the pool's release. On a carved context the layout is kept. |
| BufferArray.InitScan | buffer.c:202-233 | The carving loop (one `buffer_init` per chunk, then `buffer_pool_init`) computes exactly what `Init` specifies. |
| BufferArrayFacts.ChunkAddrInjective | buffer.c:226 | With positive size, distinct chunk indices have distinct addresses. |
| BufferArrayFacts.FindChunk | buffer.c:224-253 | In a carved context, find of address `a` returns `i` iff `i < count` and `a == block + i*size`. |
| BufferArrayFacts.ReleaseOnlyChunks | buffer.c:255-263 | In a carved context, release succeeds iff the pointer is a chunk address. Any other pointer, NULL included, returns false and changes nothing. |
| BufferArrayFacts.ReleaseChunk | buffer.c:165-176 | Releasing chunk `i` by its address succeeds, frees descriptor `i` and changes no other descriptor. |
| BufferArrayFacts.AcquireNext | buffer.c:118-140 | Start after `k` acquires with no releases. If `k < count`, the next acquire returns descriptor `k`. If all are taken, it returns NULL and changes nothing. |
| BufferArrayFacts.AcquireRest | buffer.c:235-243 | Start after `k` acquires. The next `count-k` acquires return `k, …, count-1` in order, and the one after returns NULL. |
| BufferArrayFacts.InitThenAcquireAll | buffer.c:202-243 | Right after init with `count` N, the k-th acquire returns descriptor k-1, which reports `block + (k-1)*size` and `size` bytes. The (N+1)-th acquire returns NULL. |
| BufferArrayFacts.MarkAllFreeRefills | buffer.c:178-196 | Whatever the history, after mark-all-free on a carved context's pool the next `count` acquires succeed in ascending order, and the one after returns NULL. |
| BufferArrayFacts.ReleaseThenAcquire | buffer.c:118-176 | Suppose chunk `i` and every chunk before it are taken. Releasing chunk `i` by address returns true, and the next acquire returns `i` and restores the context exactly. |
| BufferArrayFacts.ThreeChunksOf64 | buffer.c:202-263 | With 3 chunks of 64 bytes, three acquires return descriptors 0, 1 and 2, each reporting offset 0, 64 or 128 and 64 bytes. A fourth returns NULL. Releasing the three base addresses returns true each time. The next acquire returns descriptor 0. |

## Left out

- The `volatile` availability flag and races between interrupt and mainline code are not modelled. The model runs calls one at a time. The read-then-flip in acquire is not atomic in C, and that is not represented.
- Memory contents and real pointer arithmetic are not modelled. Addresses are unbounded naturals, so `size_t` and pointer overflow of `index * buffer_size` are not modelled.
- That the block really holds `count * size` bytes is not modelled: the code never checks it.
- The pool's `count` must not exceed its descriptor array (`requires` on the pool and context operations). In C this is the caller's promise and the code never checks it; reading past the array is undefined behaviour.
- Buffers.Data: the optional `capacity_bytes_out_p` out-pointer is not modelled. The capacity is always returned, and a NULL out-pointer would only discard it.
- The garbage contents of C structs before init are not modelled as a separate state. A descriptor, pool or context before its init is an arbitrary value of its datatype, and every lemma holds for any such value. A garbage descriptor whose flags happen to read initialized and available is handed out by acquire, as in C, because `buffer_pool_init` does not touch descriptors.
- Pointer aliasing of the descriptor array is not modelled. In C a pool holds a pointer to a caller-owned array. Here the pool holds the array as a value in `Pool.buffers`. So two pools over one array, or a pool and a caller variable, do not see each other's writes. A write through a handed-out `buffer_st *` is not an operation of the model either. Examples are `buffer_mark_free` on an acquired descriptor, or `buffer_init` run after `buffer_pool_init`. Such a write is only expressible as a direct update of `pool.buffers`, and no lemma relates it to `ReleaseByPtr`.
- The C++ `extern "C"` guards and the header include guards are not modelled.
