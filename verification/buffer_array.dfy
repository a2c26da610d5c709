/**
 * The buffer array context (`buffer_array_ctx_st`): one flat memory block
 * carved into `count` chunks of `size` bytes, chunk `i` at address
 * `block + i * size` bound to descriptor `i`, with a pool over the
 * descriptors and three pass-through operations gated on the context's own
 * initialized flag.
 *
 * The context's descriptor array is the same array as its pool's, so it is
 * held once, as `pool.buffers`.
 */
module BufferArray {
  import opened Wrappers
  import D = Buffers
  import P = BufferPool

  /** A context: its pool, the memory block (NULL allowed), the geometry, and whether Init ran. */
  datatype Ctx = Ctx(pool: P.Pool, block: Option<D.Addr>, count: nat, size: nat, initialized: bool)

  /** Result of acquire: the context afterwards and the index handed out, if any. */
  datatype Acquired = Acquired(ctx: Option<Ctx>, slot: Option<nat>)

  /** Result of release: the context afterwards and whether a descriptor was released. */
  datatype Released = Released(ctx: Option<Ctx>, ok: bool)

  /** Address of chunk `i` of a block carved into chunks of `size` bytes. */
  function ChunkAddr(block: D.Addr, size: nat, i: nat): D.Addr {
    block + i * size
  }

  /** The context is present and its initialized flag is set. */
  predicate IsValid(c: Option<Ctx>) {
    c.Some? && c.value.initialized
  }

  /** The caller's promise on the embedded pool (count within the array). */
  predicate WellFormed(c: Option<Ctx>) {
    c.Some? ==> P.WellFormed(Some(c.value.pool))
  }

  /** The descriptors of a context whose pool has an array. */
  function Descs(c: Ctx): seq<D.Descriptor>
    requires c.pool.buffers.Some?
  {
    c.pool.buffers.value
  }

  /** Descriptor `d` describes chunk `i`: initialized, at the chunk's address, `size` bytes. */
  predicate HoldsChunk(d: D.Descriptor, block: D.Addr, size: nat, i: nat) {
    d.initialized && d.data == Some(ChunkAddr(block, size, i)) && d.capacity == size
  }

  /**
   * The layout Init establishes and every later operation keeps: a valid
   * pool over `count` descriptors, descriptor `i` holding chunk `i`.
   */
  predicate Carved(c: Ctx) {
    && c.initialized && c.block.Some? && 0 < c.size && 0 < c.count
    && P.IsValid(Some(c.pool)) && P.WellFormed(Some(c.pool)) && c.pool.count == c.count
    && forall i :: 0 <= i < c.count ==> HoldsChunk(Descs(c)[i], c.block.value, c.size, i)
  }

  /** `c'` has the same block, geometry and layout as `c`. */
  predicate SameLayout(c: Ctx, c': Ctx) {
    Carved(c) && Carved(c') && c'.block == c.block && c'.count == c.count && c'.size == c.size
  }

  /** Changing the availability of one descriptor keeps the layout. */
  lemma ChangedOnlyKeepsLayout(c: Ctx, q: Option<P.Pool>, i: nat)
    requires Carved(c) && P.ChangedOnly(Some(c.pool), q, i)
    ensures SameLayout(c, c.(pool := q.value))
  {
    var c' := c.(pool := q.value);
    forall j | 0 <= j < c.count
      ensures HoldsChunk(Descs(c')[j], c.block.value, c.size, j)
    {
      assert D.SameBacking(Descs(c)[j], Descs(c')[j]);
    }
  }

  /**
   * The first `n` descriptors of `s` initialized over consecutive chunks of
   * `size` bytes starting at `block`; the rest of `s` is untouched.
   */
  function InitChunks(s: seq<D.Descriptor>, block: D.Addr, size: nat, n: nat): (r: seq<D.Descriptor>)
    requires n <= |s|
    ensures |r| == |s|
    ensures forall i :: 0 <= i < n ==> HoldsChunk(r[i], block, size, i)
    ensures forall i :: 0 <= i < n ==> (r[i].available <==> size != 0)
    ensures forall i :: n <= i < |s| ==> r[i] == s[i]
    decreases n
  {
    if n == 0 then s
    else
      var k := n - 1;
      InitChunks(s, block, size, k)[k := D.Init(Some(s[k]), Some(ChunkAddr(block, size, k)), size).value]
  }

  /**
   * `buffer_array_ctx_init`: when any argument is NULL or zero nothing
   * happens. Otherwise descriptor `i` (for `i < count`) becomes initialized
   * and free over chunk `i`, the pool is bound to the array with `count`,
   * and the context is marked initialized; descriptors past `count` are
   * untouched.
   */
  function Init(c: Option<Ctx>, buffers: Option<seq<D.Descriptor>>, block: Option<D.Addr>, count: nat, size: nat): (r: Option<Ctx>)
    requires buffers.Some? && 0 < count ==> count <= |buffers.value|
    ensures c.None? || buffers.None? || block.None? || count == 0 || size == 0 ==> r == c
    ensures c.Some? && buffers.Some? && block.Some? && 0 < count && 0 < size ==>
      && r.Some? && Carved(r.value)
      && r.value.block == block && r.value.count == count && r.value.size == size
      && |Descs(r.value)| == |buffers.value|
      && (forall i :: 0 <= i < count ==> D.Acquirable(Descs(r.value)[i]))
      && (forall i :: count <= i < |buffers.value| ==> Descs(r.value)[i] == buffers.value[i])
    ensures WellFormed(c) ==> WellFormed(r)
  {
    if c.None? || buffers.None? || block.None? || count == 0 || size == 0 then c
    else
      var carved := InitChunks(buffers.value, block.value, size, count);
      var pool := P.Init(Some(c.value.pool), Some(carved), count).value;
      Some(Ctx(pool, block, count, size, true))
  }

  /**
   * `buffer_array_acquire`: NULL without touching anything unless the
   * context is valid; then exactly what the pool's acquire does. A handed
   * out descriptor of a carved context holds the chunk of the same index,
   * and the layout is kept.
   */
  function Acquire(c: Option<Ctx>): (r: Acquired)
    requires WellFormed(c)
    ensures WellFormed(r.ctx)
    ensures !IsValid(c) ==> r == Acquired(c, None)
    ensures IsValid(c) ==>
      && r.slot == P.Acquire(Some(c.value.pool)).slot
      && r.ctx == Some(c.value.(pool := P.Acquire(Some(c.value.pool)).pool.value))
    ensures IsValid(c) && Carved(c.value) ==> r.ctx.Some? && SameLayout(c.value, r.ctx.value)
    ensures IsValid(c) && Carved(c.value) && r.slot.Some? ==>
      r.slot.value < c.value.count && !Descs(r.ctx.value)[r.slot.value].available
  {
    if !IsValid(c) then Acquired(c, None)
    else
      var a := P.Acquire(Some(c.value.pool));
      var c' := c.value.(pool := a.pool.value);
      if a.slot.Some? && Carved(c.value) then
        ChangedOnlyKeepsLayout(c.value, a.pool, a.slot.value);
        Acquired(Some(c'), a.slot)
      else
        Acquired(Some(c'), a.slot)
  }

  /**
   * `buffer_array_find_by_ptr`: NULL unless the context is valid; then
   * exactly what the pool's find does.
   */
  function Find(c: Option<Ctx>, memory: Option<D.Addr>): (r: Option<nat>)
    requires WellFormed(c)
    ensures !IsValid(c) ==> r.None?
    ensures IsValid(c) ==> r == P.Find(Some(c.value.pool), memory)
  {
    if !IsValid(c) then None else P.Find(Some(c.value.pool), memory)
  }

  /**
   * `buffer_array_release_by_ptr`: false without touching anything unless
   * the context is valid; then exactly what the pool's release does, and a
   * carved context keeps its layout.
   */
  function Release(c: Option<Ctx>, memory: Option<D.Addr>): (r: Released)
    requires WellFormed(c)
    ensures WellFormed(r.ctx)
    ensures !IsValid(c) ==> r == Released(c, false)
    ensures IsValid(c) ==>
      && r.ok == P.ReleaseByPtr(Some(c.value.pool), memory).ok
      && r.ctx == Some(c.value.(pool := P.ReleaseByPtr(Some(c.value.pool), memory).pool.value))
    ensures IsValid(c) && Carved(c.value) ==> r.ctx.Some? && SameLayout(c.value, r.ctx.value)
  {
    if !IsValid(c) then Released(c, false)
    else
      var rel := P.ReleaseByPtr(Some(c.value.pool), memory);
      var c' := c.value.(pool := rel.pool.value);
      if rel.ok && Carved(c.value) then
        ChangedOnlyKeepsLayout(c.value, rel.pool, P.Find(Some(c.value.pool), memory).value);
        Released(Some(c'), rel.ok)
      else
        Released(Some(c'), rel.ok)
  }

  /** The carving loop of `buffer_array_ctx_init`, one `buffer_init` per chunk. */
  method InitScan(c: Option<Ctx>, buffers: Option<seq<D.Descriptor>>, block: Option<D.Addr>, count: nat, size: nat)
    returns (r: Option<Ctx>)
    requires buffers.Some? && 0 < count ==> count <= |buffers.value|
    ensures r == Init(c, buffers, block, count, size)
  {
    if c.None? || buffers.None? || block.None? || count == 0 || size == 0 {
      return c;
    }
    var s := buffers.value;
    var index := 0;
    while index < count
      invariant index <= count
      invariant s == InitChunks(buffers.value, block.value, size, index)
    {
      var chunk := ChunkAddr(block.value, size, index);
      s := s[index := D.Init(Some(s[index]), Some(chunk), size).value];
      index := index + 1;
    }
    var pool := P.Init(Some(c.value.pool), Some(s), count).value;
    return Some(Ctx(pool, block, count, size, true));
  }
}
