/** The hand-written `Vec<T>`: a `RawVec` plus the number `len` of leading
    slots that hold live values, with push, pop, positional insert and
    remove, a slice view, a popping destructor, and the two consuming
    iterators `IntoIter` and `Drain`.

    Operations are pure functions from the old vector to the new one. The
    allocator's answer to a growth request is the parameter `allocOk`; a
    panic or abort is a `Failure` carrying its `Fault`. */
module CustomVec {
  import opened Common
  import opened Raw
  import opened Iter

  datatype Vec<T> = Vec(buf: RawVec<T>, len: nat)
  {
    /** `len <= cap`, and slots `[0, len)` are initialised. */
    ghost predicate Valid() {
      && buf.Valid()
      && len <= buf.cap
      && forall i :: 0 <= i < len ==> i in buf.mem
    }
  }

  /** `Vec::cap`. */
  function Cap<T>(v: Vec<T>): (c: nat)
    ensures v.Valid() ==> v.len <= c <= USIZE_MAX
  {
    v.buf.cap
  }

  /** `Deref for Vec`: the slice of live values `[0, len)`. */
  function Deref<T>(v: Vec<T>): (s: seq<T>)
    requires v.Valid()
    ensures |s| == v.len
  {
    Slice(v.buf.mem, 0, v.len)
  }

  /** Stores `e` in slot `i` of the buffer (`ptr::write`). */
  function WriteSlot<T>(buf: RawVec<T>, i: nat, e: T): (r: RawVec<T>)
    ensures i in r.mem && r.mem[i] == e
    ensures forall j :: j in buf.mem && j != i ==> j in r.mem && r.mem[j] == buf.mem[j]
    ensures r.mem.Keys == buf.mem.Keys + {i}
    ensures r.cap == buf.cap && r.elemSize == buf.elemSize
  {
    buf.(mem := buf.mem[i := e])
  }

  /** Grows the buffer when it is full, as `push` and `insert` do first. */
  function Reserve<T>(v: Vec<T>, allocOk: bool): (r: Result<RawVec<T>, Fault>)
    requires v.Valid()
    ensures r.Failure? <==> v.len == Cap(v) && Grow(v.buf, allocOk).Failure?
    ensures r.Failure? ==> r == Grow(v.buf, allocOk)
    ensures r.Success? ==>
      && r.value.Valid() && r.value.mem == v.buf.mem && r.value.elemSize == v.buf.elemSize
      && v.len < r.value.cap
      && (v.len < Cap(v) ==> r.value.cap == Cap(v))
  {
    if v.len == Cap(v) then Grow(v.buf, allocOk) else Success(v.buf)
  }

  /** `Vec::new`: empty, with the raw buffer's initial capacity. */
  function New<T>(elemSize: nat): (v: Vec<T>)
    requires elemSize <= ISIZE_MAX
    ensures v.Valid() && Deref(v) == [] && v.buf.elemSize == elemSize
    ensures Cap(v) == (if elemSize == 0 then USIZE_MAX else 0)
  {
    Vec(NewRawVec(elemSize), 0)
  }

  /** `Vec::push`: appends `elem`, growing the buffer first when it is full.
      It fails only when a full buffer cannot grow. */
  function Push<T>(v: Vec<T>, elem: T, allocOk: bool): (r: Result<Vec<T>, Fault>)
    requires v.Valid()
    ensures r.Failure? <==> v.len == Cap(v) && Grow(v.buf, allocOk).Failure?
    ensures r.Success? ==>
      && r.value.Valid()
      && Deref(r.value) == Deref(v) + [elem]
      && r.value.buf.elemSize == v.buf.elemSize
      && (v.len < Cap(v) ==> Cap(r.value) == Cap(v))
      && (v.len == Cap(v) ==> Cap(r.value) > Cap(v))
  {
    match Reserve(v, allocOk)
    case Failure(f) => Failure(f)
    case Success(buf) =>
      var w := Vec(WriteSlot(buf, v.len, elem), v.len + 1);
      assert Deref(w) == Deref(v) + [elem];
      Success(w)
  }

  /** `Vec::pop`: `None` on an empty vector, otherwise the last live value,
      which stops being live. The capacity never changes. */
  function Pop<T>(v: Vec<T>): (r: (Vec<T>, Option<T>))
    requires v.Valid()
    ensures r.0.Valid() && Cap(r.0) == Cap(v) && r.0.buf.elemSize == v.buf.elemSize
    ensures v.len == 0 ==> r == (v, None)
    ensures v.len > 0 ==>
      && r.1 == Some(Deref(v)[v.len - 1])
      && Deref(r.0) == Deref(v)[..v.len - 1]
  {
    if v.len == 0 then (v, None)
    else
      var w := v.(len := v.len - 1);
      assert Deref(w) == Deref(v)[..v.len - 1];
      (w, Some(v.buf.mem[v.len - 1]))
  }

  /** `Vec::insert`: panics unless `index <= len`; grows when full; moves
      `[index, len)` up one slot and writes `elem` at `index`. */
  function Insert<T>(v: Vec<T>, index: nat, elem: T, allocOk: bool): (r: Result<Vec<T>, Fault>)
    requires v.Valid()
    ensures index > v.len ==> r == Failure(IndexOutOfBounds)
    ensures index <= v.len ==> (r.Failure? <==> v.len == Cap(v) && Grow(v.buf, allocOk).Failure?)
    ensures r.Success? ==>
      && r.value.Valid()
      && Deref(r.value) == Deref(v)[..index] + [elem] + Deref(v)[index..]
      && r.value.buf.elemSize == v.buf.elemSize
      && (v.len < Cap(v) ==> Cap(r.value) == Cap(v))
  {
    if index > v.len then Failure(IndexOutOfBounds)
    else
      match Reserve(v, allocOk)
      case Failure(f) => Failure(f)
      case Success(buf) => Success(InsertInto(v, buf, index, elem))
  }

  /** The part of `insert` after the capacity check, on a buffer `buf` that
      holds the vector's memory with room for one more value. */
  function InsertInto<T>(v: Vec<T>, buf: RawVec<T>, index: nat, elem: T): (w: Vec<T>)
    requires v.Valid() && buf.Valid() && index <= v.len < buf.cap
    requires buf.mem == v.buf.mem
    ensures w.Valid() && w.buf.cap == buf.cap && w.buf.elemSize == buf.elemSize
    ensures Deref(w) == Deref(v)[..index] + [elem] + Deref(v)[index..]
  {
    var mem' := InsertedMem(buf.mem, v.len, index, elem);
    InsertedMemLayout(Deref(v), buf.mem, index, elem, buf.cap);
    Vec(buf.(mem := mem'), v.len + 1)
  }

  /** The memory after `insert`'s move of `[index, len)` up one slot and its
      write of `elem` at `index`. */
  function InsertedMem<T>(mem: Memory<T>, len: nat, index: nat, elem: T): (r: Memory<T>)
    requires index <= len
    requires forall i :: index <= i < len ==> i in mem
    ensures index in r && r[index] == elem
    ensures forall i :: index < i <= len ==> i in r && r[i] == mem[i - 1]
    ensures forall i :: i in mem && !(index <= i <= len) ==> i in r && r[i] == mem[i]
    ensures forall i :: i in r ==> i in mem || index <= i <= len
  {
    var moved := if index < len then Copy(mem, index, index + 1, len - index) else mem;
    moved[index := elem]
  }

  /** Slot by slot, the memory after `insert` holds the old prefix, the new
      value and the old suffix, and nothing at or beyond the capacity. */
  lemma InsertedMemLayout<T>(old_: seq<T>, mem: Memory<T>, index: nat, elem: T, cap: nat)
    requires index <= |old_| < cap
    requires forall i :: i in mem ==> i < cap
    requires forall i :: 0 <= i < |old_| ==> i in mem && mem[i] == old_[i]
    ensures var mem' := InsertedMem(mem, |old_|, index, elem);
      && (forall i :: i in mem' ==> i < cap)
      && (forall i :: 0 <= i <= |old_| ==> i in mem')
      && Slice(mem', 0, |old_| + 1) == old_[..index] + [elem] + old_[index..]
  {
    var moved := if index < |old_| then Copy(mem, index, index + 1, |old_| - index) else mem;
    var mem' := InsertedMem(mem, |old_|, index, elem);
    assert mem' == moved[index := elem];
    ShiftUp(old_, mem, moved, index, cap);
    InsertLayout(old_, moved, mem', index, elem, cap);
  }

  /** `insert`'s move: slots below `index` keep their values, slots
      `(index, len]` receive the values one below them. */
  lemma ShiftUp<T>(old_: seq<T>, mem: Memory<T>, moved: Memory<T>, index: nat, cap: nat)
    requires index <= |old_| < cap
    requires forall i :: i in mem ==> i < cap
    requires forall i :: 0 <= i < |old_| ==> i in mem && mem[i] == old_[i]
    requires moved == if index < |old_| then Copy(mem, index, index + 1, |old_| - index) else mem
    ensures && (forall i :: i in moved ==> i < cap)
      && (forall i :: 0 <= i < index ==> i in moved && moved[i] == old_[i])
      && (forall i :: index < i <= |old_| ==> i in moved && moved[i] == old_[i - 1])
  {
  }

  /** Slot by slot, the memory after `insert`'s move and write holds the old
      prefix, the new value, then the old suffix. */
  lemma InsertLayout<T>(old_: seq<T>, moved: Memory<T>, mem': Memory<T>, index: nat, elem: T, cap: nat)
    requires index <= |old_| < cap
    requires mem' == moved[index := elem]
    requires forall i :: i in moved ==> i < cap
    requires forall i :: 0 <= i < index ==> i in moved && moved[i] == old_[i]
    requires forall i :: index < i <= |old_| ==> i in moved && moved[i] == old_[i - 1]
    ensures forall i :: 0 <= i <= |old_| ==> i in mem'
    ensures forall i :: i in mem' ==> i < cap
    ensures Slice(mem', 0, |old_| + 1) == old_[..index] + [elem] + old_[index..]
  {
    var t := old_[..index] + [elem] + old_[index..];
    forall i | 0 <= i <= |old_|
      ensures i in mem' && mem'[i] == t[i]
    {
      if i < index {
        assert t[i] == old_[i];
      } else if i > index {
        assert t[i] == old_[i - 1];
      }
    }
  }

  /** `Vec::remove`: panics unless `index < len`; reads out the value at
      `index` and moves `[index + 1, len)` down one slot. */
  function Remove<T>(v: Vec<T>, index: nat): (r: Result<(Vec<T>, T), Fault>)
    requires v.Valid()
    ensures r.Failure? <==> index >= v.len
    ensures r.Failure? ==> r.error == IndexOutOfBounds
    ensures r.Success? ==>
      && r.value.0.Valid()
      && r.value.1 == Deref(v)[index]
      && Deref(r.value.0) == Deref(v)[..index] + Deref(v)[index + 1..]
      && Cap(r.value.0) == Cap(v) && r.value.0.buf.elemSize == v.buf.elemSize
  {
    if index >= v.len then Failure(IndexOutOfBounds)
    else
      var len := v.len - 1;
      var result := v.buf.mem[index];
      var mem' := Copy(v.buf.mem, index + 1, index, len - index);
      RemoveLayout(v, mem', index);
      Success((Vec(v.buf.(mem := mem'), len), result))
  }

  /** Slot by slot, the memory after `remove`'s move holds the old sequence
      without the value at `index`, and nothing at or beyond the capacity. */
  lemma RemoveLayout<T>(v: Vec<T>, mem': Memory<T>, index: nat)
    requires v.Valid() && index < v.len
    requires mem' == Copy(v.buf.mem, index + 1, index, v.len - 1 - index)
    ensures forall i :: i in mem' ==> i < v.buf.cap
    ensures forall i :: 0 <= i < v.len - 1 ==> i in mem'
    ensures Slice(mem', 0, v.len - 1) == Deref(v)[..index] + Deref(v)[index + 1..]
  {
    var old_ := Deref(v);
    var t := old_[..index] + old_[index + 1..];
    forall i | 0 <= i < v.len - 1
      ensures i in mem' && mem'[i] == t[i]
    {
      if i < index {
        assert mem'[i] == v.buf.mem[i] == old_[i] == t[i];
      } else {
        assert mem'[i] == v.buf.mem[i + 1] == old_[i + 1] == t[i];
      }
    }
  }

  /** `Drop for Vec`: pops until empty, so the live values are dropped from
      the last to the first, then the raw buffer frees its allocation. */
  method Drop<T>(v: Vec<T>) returns (dropped: seq<T>, freed: Option<nat>)
    requires v.Valid()
    ensures dropped == Reversed(Deref(v))
    ensures freed.Some? <==> v.buf.Bytes() > 0
  {
    dropped := [];
    var cur := v;
    while true
      invariant cur.Valid() && Cap(cur) == Cap(v) && cur.buf.elemSize == v.buf.elemSize
      invariant Deref(v) == Deref(cur) + Reversed(dropped)
      decreases cur.len
    {
      var (next, x) := Pop(cur);
      match x {
        case None =>
          break;
        case Some(e) =>
          assert Reversed(dropped + [e]) == [e] + Reversed(dropped) by {
            ReversedAppend(dropped, e);
          }
          assert Deref(cur) == Deref(next) + [e];
          dropped := dropped + [e];
          cur := next;
      }
    }
    assert Deref(cur) == [];
    ReversedInvolution(Deref(v));
    assert Reversed(Reversed(dropped)) == dropped by { ReversedInvolution(dropped); }
    freed := Release(cur.buf);
  }

  lemma ReversedAppend<T>(s: seq<T>, e: T)
    ensures Reversed(s + [e]) == [e] + Reversed(s)
  {
    assert forall i :: 0 <= i < |s| + 1 ==> Reversed(s + [e])[i] == ([e] + Reversed(s))[i];
  }

  lemma ReversedInvolution<T>(s: seq<T>)
    ensures Reversed(Reversed(s)) == s
  {
    assert forall i :: 0 <= i < |s| ==> Reversed(Reversed(s))[i] == s[i];
  }

  /** `IntoIter`: owns the raw buffer and iterates over its former live slots. */
  datatype IntoIter<T> = IntoIter(buf: RawVec<T>, iter: RawValIter<T>)
  {
    ghost predicate Valid() {
      buf.Valid() && iter.Valid()
    }
  }

  /** `Vec::into_iter`: the buffer moves into the iterator, which hands out
      the live values; the vector's own destructor does not run. */
  function IntoIterOf<T>(v: Vec<T>): (r: IntoIter<T>)
    requires v.Valid()
    ensures r.Valid() && Remaining(r.iter) == Deref(v)
    ensures r.buf == v.buf
  {
    IntoIter(v.buf, NewIter(v.buf.mem, v.len))
  }

  /** `Iterator for IntoIter`: the front value, delegating to `RawValIter`. */
  function IntoIterNext<T>(it: IntoIter<T>): (r: (IntoIter<T>, Option<T>))
    requires it.Valid()
    ensures r.0.Valid() && r.0.buf == it.buf
    ensures r.1.None? <==> Remaining(it.iter) == []
    ensures r.1.Some? ==> Remaining(it.iter) == [r.1.value] + Remaining(r.0.iter)
  {
    var (iter, x) := Next(it.iter);
    (it.(iter := iter), x)
  }

  /** `DoubleEndedIterator for IntoIter`: the back value. */
  function IntoIterNextBack<T>(it: IntoIter<T>): (r: (IntoIter<T>, Option<T>))
    requires it.Valid()
    ensures r.0.Valid() && r.0.buf == it.buf
    ensures r.1.None? <==> Remaining(it.iter) == []
    ensures r.1.Some? ==> Remaining(it.iter) == Remaining(r.0.iter) + [r.1.value]
  {
    var (iter, x) := NextBack(it.iter);
    (it.(iter := iter), x)
  }

  /** `size_hint` of `IntoIter`: the exact number of values left. */
  function IntoIterSizeHint<T>(it: IntoIter<T>): (r: (nat, Option<nat>))
    requires it.Valid()
    ensures r == (|Remaining(it.iter)|, Some(|Remaining(it.iter)|))
  {
    SizeHint(it.iter, it.buf.elemSize)
  }

  /** `Drop for IntoIter`: the values not yet handed out are dropped front to
      back, then the owned buffer frees its allocation. */
  method DropIntoIter<T>(it: IntoIter<T>) returns (dropped: seq<T>, freed: Option<nat>)
    requires it.Valid()
    ensures dropped == Remaining(it.iter)
    ensures freed.Some? <==> it.buf.Bytes() > 0
  {
    dropped := Exhaust(it.iter);
    freed := Release(it.buf);
  }

  /** `Drain`: hands out the values the vector held when it was drained. */
  datatype Drain<T> = Drain(iter: RawValIter<T>)

  /** `Vec::drain`: the vector's length becomes 0 at once, its buffer and
      capacity stay, and the drain owns the former live values. */
  function DrainOf<T>(v: Vec<T>): (r: (Vec<T>, Drain<T>))
    requires v.Valid()
    ensures r.0.Valid() && Deref(r.0) == []
    ensures r.0.buf == v.buf && Cap(r.0) == Cap(v)
    ensures r.1.iter.Valid() && Remaining(r.1.iter) == Deref(v)
  {
    var iter := NewIter(v.buf.mem, v.len);
    (v.(len := 0), Drain(iter))
  }

  /** `Iterator for Drain`: the front value. */
  function DrainNext<T>(d: Drain<T>): (r: (Drain<T>, Option<T>))
    requires d.iter.Valid()
    ensures r.0.iter.Valid()
    ensures r.1.None? <==> Remaining(d.iter) == []
    ensures r.1.Some? ==> Remaining(d.iter) == [r.1.value] + Remaining(r.0.iter)
  {
    var (iter, x) := Next(d.iter);
    (Drain(iter), x)
  }

  /** `DoubleEndedIterator for Drain`: the back value. */
  function DrainNextBack<T>(d: Drain<T>): (r: (Drain<T>, Option<T>))
    requires d.iter.Valid()
    ensures r.0.iter.Valid()
    ensures r.1.None? <==> Remaining(d.iter) == []
    ensures r.1.Some? ==> Remaining(d.iter) == Remaining(r.0.iter) + [r.1.value]
  {
    var (iter, x) := NextBack(d.iter);
    (Drain(iter), x)
  }

  /** `size_hint` of `Drain`: the exact number of values left. */
  function DrainSizeHint<T>(d: Drain<T>, elemSize: nat): (r: (nat, Option<nat>))
    requires d.iter.Valid()
    ensures r == (|Remaining(d.iter)|, Some(|Remaining(d.iter)|))
  {
    SizeHint(d.iter, elemSize)
  }

  /** `Drop for Drain`: the values not yet handed out are dropped front to
      back; no memory is released, the vector keeps its buffer. */
  method DropDrain<T>(d: Drain<T>) returns (dropped: seq<T>)
    requires d.iter.Valid()
    ensures dropped == Remaining(d.iter)
  {
    dropped := Exhaust(d.iter);
  }
}
