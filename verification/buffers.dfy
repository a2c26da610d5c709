/**
 * A single fixed-size buffer descriptor (`buffer_st`) and the single-buffer
 * API: `buffer_init`, `buffer_data`, `buffer_mark_free`, `buffer_mark_in_use`.
 *
 * A descriptor does not own memory, it only records where the memory is.
 * Addresses are natural numbers and NULL is `None`. A pointer to a
 * descriptor that may be NULL is an `Option<Descriptor>`: the operations
 * take the descriptor as it was and return it as it is afterwards.
 */
module Buffers {
  import opened Wrappers

  /** Address of a byte of memory (`uint8_t *` without NULL). */
  type Addr = nat

  /** One buffer descriptor. Before `Init` only `initialized == false` is meaningful. */
  datatype Descriptor = Descriptor(
    data: Option<Addr>,   // backing memory, NULL allowed
    capacity: nat,        // capacity in bytes
    available: bool,      // free for reuse
    initialized: bool)    // set once Init has run

  /** What `buffer_data` reports: the backing pointer and the capacity. */
  datatype Backing = Backing(ptr: Option<Addr>, capacity: nat)

  /** `buffer_is_valid`: the handle is present and the descriptor initialized. */
  predicate IsValid(h: Option<Descriptor>) {
    h.Some? && h.value.initialized
  }

  /** What acquire looks for: an initialized descriptor that is free. */
  predicate Acquirable(d: Descriptor) {
    d.initialized && d.available
  }

  /** The two descriptors differ at most in their availability flag. */
  predicate SameBacking(a: Descriptor, b: Descriptor) {
    a.data == b.data && a.capacity == b.capacity && a.initialized == b.initialized
  }

  /**
   * `buffer_init`: a NULL handle is left alone; otherwise the descriptor
   * records the memory and capacity it was given, becomes initialized, and
   * is free exactly when the memory is non-NULL and the capacity non-zero.
   * Whatever the descriptor held before does not matter.
   */
  function Init(h: Option<Descriptor>, memory: Option<Addr>, capacity: nat): (r: Option<Descriptor>)
    ensures r.Some? <==> h.Some?
    ensures h.Some? ==> IsValid(r) && Data(r) == Backing(memory, capacity)
    ensures h.Some? ==> (Acquirable(r.value) <==> memory.Some? && capacity != 0)
  {
    if h.None? then None
    else Some(Descriptor(memory, capacity, memory.Some? && capacity != 0, true))
  }

  /**
   * `buffer_data`: the backing pointer and capacity of a valid descriptor;
   * NULL and zero for a NULL or uninitialized one.
   */
  function Data(h: Option<Descriptor>): (r: Backing)
    ensures IsValid(h) ==> r == Backing(h.value.data, h.value.capacity)
    ensures !IsValid(h) ==> r == Backing(None, 0)
  {
    if IsValid(h) then Backing(h.value.data, h.value.capacity) else Backing(None, 0)
  }

  /**
   * `buffer_mark_free`: a valid descriptor becomes free and nothing else
   * about it changes; a NULL or uninitialized one is left as it is.
   */
  function MarkFree(h: Option<Descriptor>): (r: Option<Descriptor>)
    ensures !IsValid(h) ==> r == h
    ensures IsValid(h) ==> r.Some? && SameBacking(h.value, r.value) && Acquirable(r.value)
  {
    if IsValid(h) then Some(h.value.(available := true)) else h
  }

  /**
   * `buffer_mark_in_use`: a valid descriptor becomes taken and nothing else
   * about it changes; a NULL or uninitialized one is left as it is.
   */
  function MarkInUse(h: Option<Descriptor>): (r: Option<Descriptor>)
    ensures !IsValid(h) ==> r == h
    ensures IsValid(h) ==> r.Some? && SameBacking(h.value, r.value) && IsValid(r) && !Acquirable(r.value)
  {
    if IsValid(h) then Some(h.value.(available := false)) else h
  }

  /** Marking never changes what `buffer_data` reports. */
  lemma MarkKeepsData(h: Option<Descriptor>)
    ensures Data(MarkFree(h)) == Data(h)
    ensures Data(MarkInUse(h)) == Data(h)
  {
  }

  /**
   * Marking a free descriptor in use and then free again gives back the
   * descriptor it was; the same holds the other way round.
   */
  lemma MarkRoundTrip(h: Option<Descriptor>)
    ensures IsValid(h) && h.value.available ==> MarkFree(MarkInUse(h)) == h
    ensures IsValid(h) && !h.value.available ==> MarkInUse(MarkFree(h)) == h
  {
  }

  /**
   * A descriptor initialized over NULL memory or with zero capacity is
   * initialized but not acquirable; it is not permanently so, since
   * `buffer_mark_free` makes it acquirable.
   */
  lemma ZeroCapacityNotPermanent(h: Descriptor, memory: Option<Addr>, capacity: nat)
    requires memory.None? || capacity == 0
    ensures IsValid(Init(Some(h), memory, capacity))
    ensures !Acquirable(Init(Some(h), memory, capacity).value)
    ensures Acquirable(MarkFree(Init(Some(h), memory, capacity)).value)
  {
  }
}
