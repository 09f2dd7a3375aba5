/** The raw buffer under the hand-written vector (`RawVec<T>`): it owns the
    capacity and the block of memory, and knows nothing of how many slots hold
    live values.

    Memory is modelled per buffer as a map from slot index to the value whose
    bits were last stored there. A slot that was never written is absent.
    Reading a slot does not remove it, exactly like `ptr::read`: whether a
    present slot still counts as live is the owner's business. */
module Raw {
  import opened Common

  type Memory<T> = map<nat, T>

  /** Why an operation of the vector panics or aborts. */
  datatype Fault =
    | CapacityOverflow  // `grow` reached with zero-sized elements
    | LayoutOverflow    // `Layout::array::<T>(n).unwrap()` on more than `isize::MAX` bytes
    | AllocFailure      // the allocator refused; `handle_alloc_error` aborts
    | IndexOutOfBounds  // `insert` / `remove` assertion

  /** The values stored in slots `[lo, hi)`, in slot order. */
  function Slice<T>(mem: Memory<T>, lo: nat, hi: nat): (s: seq<T>)
    requires lo <= hi
    requires forall i :: lo <= i < hi ==> i in mem
    ensures |s| == hi - lo
    ensures forall k :: 0 <= k < |s| ==> s[k] == mem[lo + k]
  {
    seq(hi - lo, k requires 0 <= k < hi - lo => mem[lo + k])
  }

  /** `ptr::copy(src, dst, count)`: a memmove of `count` slots. Every value
      is read from the memory as it was before the move, so overlapping
      ranges are handled. */
  function Copy<T>(mem: Memory<T>, src: nat, dst: nat, count: nat): (r: Memory<T>)
    requires forall k :: src <= k < src + count ==> k in mem
    ensures forall k :: dst <= k < dst + count ==> k in r && r[k] == mem[k - dst + src]
    ensures forall k :: k in mem && !(dst <= k < dst + count) ==> k in r && r[k] == mem[k]
    ensures forall k :: k in r ==> k in mem || dst <= k < dst + count
    decreases count
  {
    if count == 0 then mem
    else Copy(mem, src, dst, count - 1)[dst + count - 1 := mem[src + count - 1]]
  }

  datatype RawVec<T> = RawVec(mem: Memory<T>, cap: nat, elemSize: nat)
  {
    /** Number of bytes currently allocated for the buffer. */
    function Bytes(): nat {
      cap * elemSize
    }

    /** Zero-sized elements are given the largest capacity from the start;
        otherwise the allocation must have had a valid layout. No slot at or
        beyond the capacity is ever written. */
    ghost predicate Valid() {
      && elemSize <= ISIZE_MAX
      && cap <= USIZE_MAX
      && (elemSize == 0 ==> cap == USIZE_MAX)
      && (elemSize != 0 ==> Bytes() <= ISIZE_MAX)
      && forall i :: i in mem ==> i < cap
    }
  }

  /** `Layout::array::<T>(n)` succeeds. Alignment padding is not modelled. */
  predicate LayoutFits(n: nat, elemSize: nat) {
    n * elemSize <= ISIZE_MAX
  }

  /** `RawVec::new`: nothing is allocated; zero-sized elements get capacity
      `usize::MAX` (written `!0` in the source), everything else capacity 0. */
  function NewRawVec<T>(elemSize: nat): (rv: RawVec<T>)
    requires elemSize <= ISIZE_MAX
    ensures rv.Valid() && rv.elemSize == elemSize
    ensures rv.mem == map[] && rv.Bytes() == 0
    ensures rv.cap != 0 <==> elemSize == 0
    ensures elemSize == 0 ==> rv.cap == USIZE_MAX
  {
    RawVec(map[], if elemSize == 0 then USIZE_MAX else 0, elemSize)
  }

  /** `RawVec::grow`: the first growth allocates one slot, every later one
      doubles the capacity; the contents of the old block are kept. It is
      a logic error to reach it with zero-sized elements. `allocOk` is the
      allocator's answer to the `alloc` / `realloc` request. */
  function Grow<T>(rv: RawVec<T>, allocOk: bool): (r: Result<RawVec<T>, Fault>)
    requires rv.Valid()
    ensures r == Failure(CapacityOverflow) <==> rv.elemSize == 0
    ensures r.Success? <==>
      rv.elemSize != 0 && allocOk && LayoutFits(if rv.cap == 0 then 1 else 2 * rv.cap, rv.elemSize)
    ensures r.Success? ==>
      && r.value.Valid()
      && r.value.mem == rv.mem
      && r.value.elemSize == rv.elemSize
      && r.value.cap > rv.cap
      && (rv.cap == 0 ==> r.value.cap == 1)
      && (rv.cap != 0 ==> r.value.cap == 2 * rv.cap)
  {
    if rv.elemSize == 0 then
      Failure(CapacityOverflow)
    else
      var newCap := if rv.cap == 0 then 1 else 2 * rv.cap;
      if !LayoutFits(newCap, rv.elemSize) then Failure(LayoutOverflow)
      else if !allocOk then Failure(AllocFailure)
      else Success(RawVec(rv.mem, newCap, rv.elemSize))
  }

  /** `Drop for RawVec`: the size in bytes handed back to the allocator, or
      `None` when there is no allocation to free. */
  function Release<T>(rv: RawVec<T>): (freed: Option<nat>)
    ensures freed.Some? <==> rv.Bytes() > 0
    ensures freed.Some? ==> freed.value == rv.Bytes()
  {
    if rv.cap != 0 && rv.elemSize != 0 then Some(rv.cap * rv.elemSize) else None
  }
}
