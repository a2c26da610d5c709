/**
 * The buffer pool (`buffer_pool_st`): a view over a caller-provided array of
 * descriptors with first-fit acquire, find by backing pointer, release by
 * backing pointer and bulk mark-all-free.
 *
 * The caller-owned descriptor array is carried inside the pool value, so an
 * operation that changes a descriptor returns the pool with its new array.
 * A returned `buffer_st *` is the index of the descriptor in that array.
 */
module BufferPool {
  import opened Wrappers
  import D = Buffers

  /** A pool: the descriptor array (NULL allowed), its element count, and whether Init ran. */
  datatype Pool = Pool(buffers: Option<seq<D.Descriptor>>, count: nat, initialized: bool)

  /** Result of acquire: the pool afterwards and the index handed out, if any. */
  datatype Acquired = Acquired(pool: Option<Pool>, slot: Option<nat>)

  /** Result of release: the pool afterwards and whether a descriptor was released. */
  datatype Released = Released(pool: Option<Pool>, ok: bool)

  /** `buffer_pool_is_valid`: present, initialized, with an array and a positive count. */
  predicate IsValid(p: Option<Pool>) {
    p.Some? && p.value.initialized && p.value.buffers.Some? && 0 < p.value.count
  }

  /**
   * The caller's promise, never checked by the code: the count of a valid
   * pool does not exceed the number of descriptors in its array.
   */
  predicate WellFormed(p: Option<Pool>) {
    IsValid(p) ==> p.value.count <= |p.value.buffers.value|
  }

  /** The descriptor array of a valid pool. */
  function Descs(p: Option<Pool>): seq<D.Descriptor>
    requires IsValid(p)
  {
    p.value.buffers.value
  }

  /** `d` is an initialized descriptor whose backing pointer is `memory`. */
  predicate Matches(d: D.Descriptor, memory: Option<D.Addr>) {
    d.initialized && d.data == memory
  }

  /** `q` is `p` with descriptor `i` changed in its availability only. */
  predicate ChangedOnly(p: Option<Pool>, q: Option<Pool>, i: nat)
    requires IsValid(p)
  {
    && q.Some? && q.value.count == p.value.count && q.value.initialized
    && q.value.buffers.Some? && |Descs(q)| == |Descs(p)| && i < |Descs(p)|
    && D.SameBacking(Descs(p)[i], Descs(q)[i])
    && forall j :: 0 <= j < |Descs(p)| && j != i ==> Descs(q)[j] == Descs(p)[j]
  }

  /**
   * First-fit scan: the lowest index at or after `from` holding an
   * acquirable descriptor, or None when there is none.
   */
  function FirstFree(s: seq<D.Descriptor>, from: nat): (r: Option<nat>)
    requires from <= |s|
    ensures r.Some? ==> from <= r.value < |s| && D.Acquirable(s[r.value])
    ensures r.Some? ==> forall j :: from <= j < r.value ==> !D.Acquirable(s[j])
    ensures r.None? ==> forall j :: from <= j < |s| ==> !D.Acquirable(s[j])
    decreases |s| - from
  {
    if from == |s| then None
    else if D.Acquirable(s[from]) then Some(from)
    else FirstFree(s, from + 1)
  }

  /**
   * Identity search: the lowest index at or after `from` holding an
   * initialized descriptor backed by `memory`, or None when there is none.
   */
  function FirstMatch(s: seq<D.Descriptor>, memory: Option<D.Addr>, from: nat): (r: Option<nat>)
    requires from <= |s|
    ensures r.Some? ==> from <= r.value < |s| && Matches(s[r.value], memory)
    ensures r.Some? ==> forall j :: from <= j < r.value ==> !Matches(s[j], memory)
    ensures r.None? ==> forall j :: from <= j < |s| ==> !Matches(s[j], memory)
    decreases |s| - from
  {
    if from == |s| then None
    else if Matches(s[from], memory) then Some(from)
    else FirstMatch(s, memory, from + 1)
  }

  /**
   * Every initialized descriptor becomes free; uninitialized ones are left
   * as they were, and no backing pointer or capacity changes.
   */
  function FreeAll(s: seq<D.Descriptor>): (r: seq<D.Descriptor>)
    ensures |r| == |s|
    ensures forall j :: 0 <= j < |s| ==> D.SameBacking(s[j], r[j])
    ensures forall j :: 0 <= j < |s| ==> r[j].available == (s[j].initialized || s[j].available)
  {
    if s == [] then [] else [D.MarkFree(Some(s[0])).value] + FreeAll(s[1..])
  }

  /**
   * `buffer_pool_init`: binds a present pool to a non-NULL array with a
   * positive count; otherwise nothing happens. No descriptor is touched.
   */
  function Init(p: Option<Pool>, buffers: Option<seq<D.Descriptor>>, count: nat): (r: Option<Pool>)
    requires buffers.Some? && 0 < count ==> count <= |buffers.value|
    ensures p.None? || buffers.None? || count == 0 ==> r == p
    ensures p.Some? && buffers.Some? && 0 < count ==>
      IsValid(r) && WellFormed(r) && r.value.buffers == buffers && r.value.count == count
  {
    if p.None? || buffers.None? || count == 0 then p
    else Some(Pool(buffers, count, true))
  }

  /**
   * `buffer_pool_acquire`: on a valid pool, the lowest-index acquirable
   * descriptor among the first `count` is marked in use and returned, and
   * no other descriptor changes. When the pool is invalid or none is
   * acquirable, NULL is returned and the pool is unchanged.
   */
  function Acquire(p: Option<Pool>): (r: Acquired)
    requires WellFormed(p)
    ensures WellFormed(r.pool)
    ensures r.slot.None? ==> r.pool == p
    ensures r.slot.None? && IsValid(p) ==>
      forall j :: 0 <= j < p.value.count ==> !D.Acquirable(Descs(p)[j])
    ensures r.slot.Some? ==>
      && IsValid(p)
      && r.slot.value < p.value.count
      && D.Acquirable(Descs(p)[r.slot.value])
      && (forall j :: 0 <= j < r.slot.value ==> !D.Acquirable(Descs(p)[j]))
      && ChangedOnly(p, r.pool, r.slot.value)
      && Descs(r.pool)[r.slot.value].initialized
      && !Descs(r.pool)[r.slot.value].available
  {
    if !IsValid(p) then Acquired(p, None)
    else
      var s := Descs(p);
      match FirstFree(s[..p.value.count], 0)
      case None => Acquired(p, None)
      case Some(i) =>
        var s' := s[i := D.MarkInUse(Some(s[i])).value];
        Acquired(Some(p.value.(buffers := Some(s'))), Some(i))
  }

  /**
   * `buffer_pool_find`: on a valid pool and a non-NULL pointer, the lowest
   * index among the first `count` whose descriptor is initialized and backed
   * by that pointer, whether free or not; otherwise NULL. Nothing changes.
   */
  function Find(p: Option<Pool>, memory: Option<D.Addr>): (r: Option<nat>)
    requires WellFormed(p)
    ensures r.Some? ==>
      && IsValid(p) && memory.Some?
      && r.value < p.value.count
      && Matches(Descs(p)[r.value], memory)
      && forall j :: 0 <= j < r.value ==> !Matches(Descs(p)[j], memory)
    ensures r.None? && IsValid(p) && memory.Some? ==>
      forall j :: 0 <= j < p.value.count ==> !Matches(Descs(p)[j], memory)
  {
    if !IsValid(p) || memory.None? then None
    else FirstMatch(Descs(p)[..p.value.count], memory, 0)
  }

  /**
   * `buffer_pool_release_by_ptr`: succeeds exactly when Find does; then the
   * found descriptor is free and no other descriptor changes. On failure
   * the pool is unchanged.
   */
  function ReleaseByPtr(p: Option<Pool>, memory: Option<D.Addr>): (r: Released)
    requires WellFormed(p)
    ensures WellFormed(r.pool)
    ensures r.ok <==> Find(p, memory).Some?
    ensures !r.ok ==> r.pool == p
    ensures r.ok ==>
      && ChangedOnly(p, r.pool, Find(p, memory).value)
      && D.Acquirable(Descs(r.pool)[Find(p, memory).value])
  {
    match Find(p, memory)
    case None => Released(p, false)
    case Some(i) =>
      var s := Descs(p);
      Released(Some(p.value.(buffers := Some(s[i := D.MarkFree(Some(s[i])).value]))), true)
  }

  /**
   * `buffer_pool_mark_all_free`: on a valid pool every initialized
   * descriptor among the first `count` becomes free, whatever its pointer
   * or capacity; uninitialized ones and those past `count` are untouched.
   * An invalid pool is left as it is.
   */
  function MarkAllFree(p: Option<Pool>): (r: Option<Pool>)
    requires WellFormed(p)
    ensures !IsValid(p) ==> r == p
    ensures IsValid(p) ==>
      && r.Some? && r.value.count == p.value.count && r.value.initialized
      && r.value.buffers.Some? && |Descs(r)| == |Descs(p)|
      && (forall j :: 0 <= j < |Descs(p)| ==> D.SameBacking(Descs(p)[j], Descs(r)[j]))
      && (forall j :: 0 <= j < p.value.count ==>
            Descs(r)[j].available == (Descs(p)[j].initialized || Descs(p)[j].available))
      && (forall j :: p.value.count <= j < |Descs(p)| ==> Descs(r)[j] == Descs(p)[j])
  {
    if !IsValid(p) then p
    else
      var s := Descs(p);
      var n := p.value.count;
      Some(p.value.(buffers := Some(FreeAll(s[..n]) + s[n..])))
  }

  /* ------------------------------------------------------------------------ */
  /* The scans as the C code writes them: one loop over the first `count`      */
  /* ------------------------------------------------------------------------ */

  /** The acquire loop: test each descriptor in ascending order, flip the first free one. */
  method AcquireScan(p: Option<Pool>) returns (pool: Option<Pool>, slot: Option<nat>)
    requires WellFormed(p)
    ensures Acquired(pool, slot) == Acquire(p)
  {
    if !IsValid(p) {
      return p, None;
    }
    var s := Descs(p);
    var n := p.value.count;
    var index := 0;
    while index < n
      invariant index <= n
      invariant forall j :: 0 <= j < index ==> !D.Acquirable(s[j])
    {
      if D.IsValid(Some(s[index])) && s[index].available {
        assert s[..n][index] == s[index];
        s := s[index := s[index].(available := false)];
        return Some(p.value.(buffers := Some(s))), Some(index);
      }
      index := index + 1;
    }
    return p, None;
  }

  /** The find loop: the first initialized descriptor whose pointer is `memory`. */
  method FindScan(p: Option<Pool>, memory: Option<D.Addr>) returns (slot: Option<nat>)
    requires WellFormed(p)
    ensures slot == Find(p, memory)
  {
    if !IsValid(p) || memory.None? {
      return None;
    }
    var s := Descs(p);
    var n := p.value.count;
    var index := 0;
    while index < n
      invariant index <= n
      invariant forall j :: 0 <= j < index ==> !Matches(s[j], memory)
    {
      if D.IsValid(Some(s[index])) && s[index].data == memory {
        assert s[..n][index] == s[index];
        return Some(index);
      }
      index := index + 1;
    }
    return None;
  }

  /** The mark-all-free loop: set the flag of every initialized descriptor. */
  method MarkAllFreeScan(p: Option<Pool>) returns (pool: Option<Pool>)
    requires WellFormed(p)
    ensures pool == MarkAllFree(p)
  {
    if !IsValid(p) {
      return p;
    }
    var s0 := Descs(p);
    var n := p.value.count;
    var s := s0;
    var index := 0;
    while index < n
      invariant index <= n
      invariant |s| == |s0|
      invariant forall j :: 0 <= j < index ==> s[j] == D.MarkFree(Some(s0[j])).value
      invariant forall j :: index <= j < |s0| ==> s[j] == s0[j]
    {
      if D.IsValid(Some(s[index])) {
        s := s[index := s[index].(available := true)];
      }
      index := index + 1;
    }
    assert s == FreeAll(s0[..n]) + s0[n..];
    return Some(p.value.(buffers := Some(s)));
  }

  /* ------------------------------------------------------------------------ */
  /* Properties relating the operations                                        */
  /* ------------------------------------------------------------------------ */

  /**
   * Find looks only at pointers and initialized flags, so two pools whose
   * descriptors differ at most in availability find the same descriptor.
   */
  lemma FindIgnoresAvailability(p: Option<Pool>, q: Option<Pool>, memory: Option<D.Addr>)
    requires IsValid(p) && WellFormed(p)
    requires IsValid(q) && q.value.count == p.value.count && |Descs(q)| == |Descs(p)|
    requires forall j :: 0 <= j < |Descs(p)| ==> D.SameBacking(Descs(p)[j], Descs(q)[j])
    ensures Find(p, memory) == Find(q, memory)
  {
  }

  /**
   * Releasing a descriptor that is already free succeeds and changes
   * nothing; consequently releasing the same pointer twice is the same as
   * releasing it once.
   */
  lemma ReleaseIdempotent(p: Option<Pool>, memory: Option<D.Addr>)
    requires WellFormed(p)
    ensures Find(p, memory).Some? && Descs(p)[Find(p, memory).value].available ==>
      ReleaseByPtr(p, memory) == Released(p, true)
    ensures ReleaseByPtr(ReleaseByPtr(p, memory).pool, memory)
      == Released(ReleaseByPtr(p, memory).pool, ReleaseByPtr(p, memory).ok)
  {
    var r := ReleaseByPtr(p, memory);
    if r.ok {
      var i := Find(p, memory).value;
      if Descs(p)[i].available {
        assert Descs(p)[i := D.MarkFree(Some(Descs(p)[i])).value] == Descs(p);
      }
      FindIgnoresAvailability(p, r.pool, memory);
      assert Descs(r.pool)[i := D.MarkFree(Some(Descs(r.pool)[i])).value] == Descs(r.pool);
    }
  }

  /**
   * Acquire and release are inverse: when acquire hands out descriptor `i`
   * and `i` is the first descriptor backed by its pointer, releasing that
   * pointer succeeds and gives back the pool acquire started from.
   */
  lemma AcquireReleaseRoundTrip(p: Option<Pool>)
    requires WellFormed(p)
    requires Acquire(p).slot.Some?
    requires Find(p, Descs(p)[Acquire(p).slot.value].data) == Acquire(p).slot
    ensures ReleaseByPtr(Acquire(p).pool, Descs(p)[Acquire(p).slot.value].data) == Released(p, true)
  {
    var a := Acquire(p);
    var i := a.slot.value;
    var memory := Descs(p)[i].data;
    FindIgnoresAvailability(p, a.pool, memory);
    assert Descs(a.pool)[i := D.MarkFree(Some(Descs(a.pool)[i])).value] == Descs(p);
  }

  /**
   * A descriptor initialized with zero capacity (or NULL memory) is never
   * handed out by acquire, yet find still locates it by a non-NULL pointer,
   * and mark-all-free does make it acquirable.
   */
  lemma ZeroCapacityFoundNotAcquired(p: Option<Pool>, i: nat, old_d: D.Descriptor, memory: D.Addr)
    requires WellFormed(p) && IsValid(p) && i < p.value.count
    requires Descs(p)[i] == D.Init(Some(old_d), Some(memory), 0).value
    requires forall j :: 0 <= j < i ==> !Matches(Descs(p)[j], Some(memory))
    ensures Acquire(p).slot != Some(i)
    ensures Find(p, Some(memory)) == Some(i)
    ensures D.Acquirable(Descs(MarkAllFree(p))[i])
  {
  }
}
