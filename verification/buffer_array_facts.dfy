/**
 * What a carved buffer array context guarantees across sequences of calls:
 * chunk addresses are distinct so find and release resolve chunk `i` to
 * descriptor `i`, acquires come out in ascending order until the pool is
 * exhausted, and release followed by acquire is a round trip.
 */
module BufferArrayFacts {
  import opened Wrappers
  import D = Buffers
  import P = BufferPool
  import BA = BufferArray

  /** The slots handed out by `n` acquires in a row, and the context afterwards. */
  datatype Run = Run(ctx: Option<BA.Ctx>, slots: seq<Option<nat>>)

  /** `n` consecutive `buffer_array_acquire` calls with nothing in between. */
  function AcquireMany(c: Option<BA.Ctx>, n: nat): Run
    requires BA.WellFormed(c)
    decreases n
  {
    if n == 0 then Run(c, [])
    else
      var a := BA.Acquire(c);
      var rest := AcquireMany(a.ctx, n - 1);
      Run(rest.ctx, [a.slot] + rest.slots)
  }

  /**
   * A carved context in which descriptors `0 .. k-1` are taken and the rest
   * of the first `count` are free: the state after `k` acquires.
   */
  predicate InUsePrefix(c: BA.Ctx, k: nat) {
    && BA.Carved(c) && k <= c.count
    && forall i :: 0 <= i < c.count ==> (BA.Descs(c)[i].available <==> k <= i)
  }

  /** `buffer_data` on the descriptor at `slot` in `c` reports `addr` and `size`. */
  predicate Reports(c: Option<BA.Ctx>, slot: Option<nat>, addr: D.Addr, size: nat) {
    && c.Some? && c.value.pool.buffers.Some? && slot.Some?
    && slot.value < |BA.Descs(c.value)|
    && D.Data(Some(BA.Descs(c.value)[slot.value])) == D.Backing(Some(addr), size)
  }

  /** Chunks of positive size never share an address. */
  lemma ChunkAddrInjective(block: D.Addr, size: nat, i: nat, j: nat)
    requires 0 < size
    ensures BA.ChunkAddr(block, size, i) == BA.ChunkAddr(block, size, j) ==> i == j
  {
  }

  /**
   * In a carved context, find by pointer resolves exactly the chunk
   * addresses: it returns `i` for the address of chunk `i`, and nothing
   * else.
   */
  lemma FindChunk(c: BA.Ctx, a: D.Addr, i: nat)
    requires BA.Carved(c)
    ensures BA.Find(Some(c), Some(a)) == Some(i) <==>
      i < c.count && a == BA.ChunkAddr(c.block.value, c.size, i)
  {
    var r := BA.Find(Some(c), Some(a));
    if r.Some? {
      var k := r.value;
      assert BA.HoldsChunk(BA.Descs(c)[k], c.block.value, c.size, k);
      ChunkAddrInjective(c.block.value, c.size, k, i);
    }
    if i < c.count && a == BA.ChunkAddr(c.block.value, c.size, i) {
      assert P.Matches(BA.Descs(c)[i], Some(a));
    }
  }

  /**
   * In a carved context, release by pointer succeeds exactly for the chunk
   * addresses; any other pointer, NULL included, returns false and changes
   * nothing.
   */
  lemma ReleaseOnlyChunks(c: BA.Ctx, memory: Option<D.Addr>)
    requires BA.Carved(c)
    ensures BA.Release(Some(c), memory).ok <==>
      exists i :: 0 <= i < c.count && memory == Some(BA.ChunkAddr(c.block.value, c.size, i))
    ensures !BA.Release(Some(c), memory).ok ==> BA.Release(Some(c), memory).ctx == Some(c)
  {
    var r := BA.Release(Some(c), memory);
    if r.ok {
      var k := BA.Find(Some(c), memory).value;
      FindChunk(c, memory.value, k);
    }
    if exists i :: 0 <= i < c.count && memory == Some(BA.ChunkAddr(c.block.value, c.size, i)) {
      var i :| 0 <= i < c.count && memory == Some(BA.ChunkAddr(c.block.value, c.size, i));
      FindChunk(c, memory.value, i);
    }
  }

  /**
   * Releasing chunk `i` of a carved context succeeds, frees descriptor `i`
   * whether it was taken or not, and changes no other descriptor.
   */
  lemma ReleaseChunk(c: BA.Ctx, i: nat)
    requires BA.Carved(c) && i < c.count
    ensures
      var r := BA.Release(Some(c), Some(BA.ChunkAddr(c.block.value, c.size, i)));
      && r.ok && r.ctx.Some? && BA.SameLayout(c, r.ctx.value)
      && |BA.Descs(r.ctx.value)| == |BA.Descs(c)|
      && D.Acquirable(BA.Descs(r.ctx.value)[i])
      && forall j :: 0 <= j < |BA.Descs(c)| && j != i ==> BA.Descs(r.ctx.value)[j] == BA.Descs(c)[j]
  {
    FindChunk(c, BA.ChunkAddr(c.block.value, c.size, i), i);
  }

  /**
   * One acquire from the state after `k` acquires hands out descriptor `k`
   * and reaches the state after `k + 1`; once all `count` are taken it
   * returns NULL and changes nothing.
   */
  lemma AcquireNext(c: BA.Ctx, k: nat)
    requires InUsePrefix(c, k)
    ensures k < c.count ==>
      && BA.Acquire(Some(c)).slot == Some(k)
      && BA.Acquire(Some(c)).ctx.Some?
      && BA.SameLayout(c, BA.Acquire(Some(c)).ctx.value)
      && InUsePrefix(BA.Acquire(Some(c)).ctx.value, k + 1)
    ensures k == c.count ==> BA.Acquire(Some(c)) == BA.Acquired(Some(c), None)
  {
    var a := BA.Acquire(Some(c));
    if k < c.count {
      assert D.Acquirable(BA.Descs(c)[k]);
      var j := a.slot.value;
      assert j == k;
    } else {
      assert BA.Descs(c) == P.Descs(Some(c.pool));
      assert forall j :: 0 <= j < c.count ==> !D.Acquirable(BA.Descs(c)[j]);
      assert c.(pool := c.pool) == c;
    }
  }

  /**
   * From the state after `k` acquires, the next `count - k` acquires hand
   * out descriptors `k, k+1, ..., count-1` in that order and the one after
   * them returns NULL.
   */
  lemma {:induction false} AcquireRest(c: BA.Ctx, k: nat)
    requires InUsePrefix(c, k)
    ensures
      var run := AcquireMany(Some(c), c.count - k + 1);
      && |run.slots| == c.count - k + 1
      && (forall i :: 0 <= i < c.count - k ==> run.slots[i] == Some(k + i))
      && run.slots[c.count - k] == None
      && run.ctx.Some? && InUsePrefix(run.ctx.value, c.count) && BA.SameLayout(c, run.ctx.value)
    decreases c.count - k
  {
    AcquireNext(c, k);
    if k < c.count {
      var c' := BA.Acquire(Some(c)).ctx.value;
      AcquireRest(c', k + 1);
      assert c.count - k + 1 - 1 == c'.count - (k + 1) + 1;
    } else {
      assert AcquireMany(Some(c), 0) == Run(Some(c), []);
    }
  }

  /**
   * Right after `buffer_array_ctx_init` with `count` N, the k-th acquire
   * (k = 1..N) hands out descriptor k-1, which reports chunk k-1 of the
   * block and `size` bytes, and the (N+1)-th acquire returns NULL.
   */
  lemma InitThenAcquireAll(c: BA.Ctx, buffers: seq<D.Descriptor>, block: D.Addr, count: nat, size: nat)
    requires 0 < count <= |buffers| && 0 < size
    ensures
      var c1 := BA.Init(Some(c), Some(buffers), Some(block), count, size);
      var run := AcquireMany(c1, count + 1);
      && |run.slots| == count + 1
      && (forall i :: 0 <= i < count ==>
            run.slots[i] == Some(i) && Reports(run.ctx, run.slots[i], BA.ChunkAddr(block, size, i), size))
      && run.slots[count] == None
  {
    var c1 := BA.Init(Some(c), Some(buffers), Some(block), count, size).value;
    assert InUsePrefix(c1, 0);
    AcquireRest(c1, 0);
    var run := AcquireMany(Some(c1), count + 1);
    forall i | 0 <= i < count
      ensures Reports(run.ctx, run.slots[i], BA.ChunkAddr(block, size, i), size)
    {
      assert BA.HoldsChunk(BA.Descs(run.ctx.value)[i], block, size, i);
    }
  }

  /**
   * Whatever was acquired and released before, `buffer_pool_mark_all_free`
   * on a carved context's pool makes the next `count` acquires succeed, in
   * ascending order.
   */
  lemma MarkAllFreeRefills(c: BA.Ctx)
    requires BA.Carved(c)
    ensures
      var c' := c.(pool := P.MarkAllFree(Some(c.pool)).value);
      var run := AcquireMany(Some(c'), c.count + 1);
      && |run.slots| == c.count + 1
      && (forall i :: 0 <= i < c.count ==> run.slots[i] == Some(i))
      && run.slots[c.count] == None
  {
    var c' := c.(pool := P.MarkAllFree(Some(c.pool)).value);
    forall j | 0 <= j < c.count
      ensures BA.HoldsChunk(BA.Descs(c')[j], c.block.value, c.size, j)
    {
      assert D.SameBacking(BA.Descs(c)[j], BA.Descs(c')[j]);
    }
    assert InUsePrefix(c', 0);
    AcquireRest(c', 0);
  }

  /**
   * Release then acquire is a round trip: when chunk `i` is taken and so
   * is every chunk before it, releasing it by its address succeeds and the
   * next acquire hands descriptor `i` back, leaving the context as it was.
   */
  lemma ReleaseThenAcquire(c: BA.Ctx, i: nat)
    requires BA.Carved(c) && i < c.count
    requires !BA.Descs(c)[i].available
    requires forall j :: 0 <= j < i ==> !BA.Descs(c)[j].available
    ensures
      var r := BA.Release(Some(c), Some(BA.ChunkAddr(c.block.value, c.size, i)));
      r.ok && BA.Acquire(r.ctx) == BA.Acquired(Some(c), Some(i))
  {
    ReleaseChunk(c, i);
    var r := BA.Release(Some(c), Some(BA.ChunkAddr(c.block.value, c.size, i)));
    var c1 := r.ctx.value;
    var a := BA.Acquire(r.ctx);
    assert D.Acquirable(BA.Descs(c1)[i]);
    assert a.slot == Some(i);
    assert BA.Descs(a.ctx.value) == BA.Descs(c);
  }

  /**
   * Three chunks of 64 bytes: three acquires hand out descriptors 0, 1, 2
   * reporting offsets 0, 64, 128 and 64 bytes each; a fourth returns NULL;
   * releasing the three base addresses succeeds each time; and the next
   * acquire hands out descriptor 0 again.
   */
  lemma ThreeChunksOf64(c: BA.Ctx, buffers: seq<D.Descriptor>, block: D.Addr)
    requires 3 <= |buffers|
    ensures
      var c1 := BA.Init(Some(c), Some(buffers), Some(block), 3, 64);
      var a1 := BA.Acquire(c1);
      var a2 := BA.Acquire(a1.ctx);
      var a3 := BA.Acquire(a2.ctx);
      var a4 := BA.Acquire(a3.ctx);
      var r1 := BA.Release(a4.ctx, Some(block));
      var r2 := BA.Release(r1.ctx, Some(block + 64));
      var r3 := BA.Release(r2.ctx, Some(block + 128));
      var a5 := BA.Acquire(r3.ctx);
      && a1.slot == Some(0) && Reports(a4.ctx, a1.slot, block, 64)
      && a2.slot == Some(1) && Reports(a4.ctx, a2.slot, block + 64, 64)
      && a3.slot == Some(2) && Reports(a4.ctx, a3.slot, block + 128, 64)
      && a4.slot == None
      && r1.ok && r2.ok && r3.ok
      && a5.slot == Some(0)
  {
    var c1 := BA.Init(Some(c), Some(buffers), Some(block), 3, 64).value;
    assert InUsePrefix(c1, 0);
    AcquireNext(c1, 0);
    var c2 := BA.Acquire(Some(c1)).ctx.value;
    AcquireNext(c2, 1);
    var c3 := BA.Acquire(Some(c2)).ctx.value;
    AcquireNext(c3, 2);
    var c4 := BA.Acquire(Some(c3)).ctx.value;
    AcquireNext(c4, 3);
    assert BA.HoldsChunk(BA.Descs(c4)[0], block, 64, 0);
    assert BA.HoldsChunk(BA.Descs(c4)[1], block, 64, 1);
    assert BA.HoldsChunk(BA.Descs(c4)[2], block, 64, 2);
    ReleaseChunk(c4, 0);
    var d1 := BA.Release(Some(c4), Some(block)).ctx.value;
    ReleaseChunk(d1, 1);
    var d2 := BA.Release(Some(d1), Some(block + 64)).ctx.value;
    ReleaseChunk(d2, 2);
    var d3 := BA.Release(Some(d2), Some(block + 128)).ctx.value;
    assert InUsePrefix(d3, 0);
    AcquireNext(d3, 0);
  }
}
