/** Laws of the hand-written `Vec` that relate several calls: the push/pop
    and insert/remove round trips, the doubling growth policy, reuse of the
    buffer after a drain, zero-sized elements, and the consuming iterator
    handing out every value exactly once. */
module VecLaws {
  import opened Common
  import opened Raw
  import opened Iter
  import opened CustomVec

  /** Pushing a value and popping it again gives that value back and
      restores the previous contents and length. */
  lemma PushThenPop<T>(v: Vec<T>, e: T, allocOk: bool)
    requires v.Valid() && Push(v, e, allocOk).Success?
    ensures var (w, x) := Pop(Push(v, e, allocOk).value);
      x == Some(e) && Deref(w) == Deref(v) && w.len == v.len
  {
    var u := Push(v, e, allocOk).value;
    assert Deref(u)[..u.len - 1] == Deref(v);
  }

  /** Inserting a value at a valid index, with room or a buffer that can
      grow, succeeds; removing at that index gives the value back and
      restores the previous contents. */
  lemma InsertThenRemove<T>(v: Vec<T>, index: nat, e: T, allocOk: bool)
    requires v.Valid() && index <= v.len
    requires v.len < Cap(v) || Grow(v.buf, allocOk).Success?
    ensures Insert(v, index, e, allocOk).Success?
    ensures var r := Remove(Insert(v, index, e, allocOk).value, index);
      r.Success? && r.value.1 == e && Deref(r.value.0) == Deref(v)
  {
    SpliceUnsplice(Deref(v), index, e);
  }

  /** On sequences: taking out the value just spliced in at `index` gives
      back the original. */
  lemma SpliceUnsplice<T>(s: seq<T>, index: nat, e: T)
    requires index <= |s|
    ensures var t := s[..index] + [e] + s[index..];
      t[index] == e && t[..index] + t[index + 1..] == s
  {
    var t := s[..index] + [e] + s[index..];
    assert t[..index] == s[..index];
    assert t[index + 1..] == s[index..];
  }

  /** `push` applied to each value in turn, stopping at the first failure. */
  function PushAll<T>(v: Vec<T>, xs: seq<T>, allocOk: bool): (r: Result<Vec<T>, Fault>)
    requires v.Valid()
    ensures r.Success? ==> r.value.Valid() && r.value.buf.elemSize == v.buf.elemSize
    decreases |xs|
  {
    if xs == [] then Success(v)
    else
      match Push(v, xs[0], allocOk)
      case Failure(f) => Failure(f)
      case Success(w) => PushAll(w, xs[1..], allocOk)
  }

  /** A run of successful pushes appends the values in order: slot `i` holds
      the `i`-th value pushed. */
  lemma {:induction false} PushAllAppends<T>(v: Vec<T>, xs: seq<T>, allocOk: bool)
    requires v.Valid() && PushAll(v, xs, allocOk).Success?
    ensures Deref(PushAll(v, xs, allocOk).value) == Deref(v) + xs
    decreases |xs|
  {
    if xs != [] {
      var w := Push(v, xs[0], allocOk).value;
      PushAllAppends(w, xs[1..], allocOk);
      assert Deref(v) + xs == (Deref(v) + [xs[0]]) + xs[1..];
    }
  }

  /** `c` is a power of two. */
  ghost predicate IsPow2(c: nat) {
    c == 1 || (c > 1 && c % 2 == 0 && IsPow2(c / 2))
  }

  /** The capacity the doubling policy reaches for `len` values: none for an
      empty vector, otherwise the least power of two holding them. */
  ghost predicate DoublingShape(len: nat, cap: nat) {
    if len == 0 then cap == 0 else IsPow2(cap) && cap / 2 < len <= cap
  }

  /** One push keeps the capacity at the least power of two that holds the
      values. */
  lemma PushKeepsDoublingShape<T>(v: Vec<T>, e: T, allocOk: bool)
    requires v.Valid() && v.buf.elemSize != 0 && DoublingShape(v.len, Cap(v))
    requires Push(v, e, allocOk).Success?
    ensures DoublingShape(v.len + 1, Cap(Push(v, e, allocOk).value))
  {
    var w := Push(v, e, allocOk).value;
    if v.len == Cap(v) && Cap(v) != 0 {
      assert Grow(v.buf, allocOk).value.cap == 2 * Cap(v);
      assert Cap(w) == 2 * Cap(v);
      assert (2 * Cap(v)) / 2 == Cap(v);
    }
  }

  /** Starting from an empty vector of sized elements, every successful run of
      `n` pushes leaves the capacity at 0 for `n == 0` and otherwise at the
      least power of two that is at least `n`: 0, 1, 2, 4, 4, 8, ... */
  lemma {:induction false} CapacityDoubles<T>(elemSize: nat, xs: seq<T>, allocOk: bool)
    requires 0 < elemSize <= ISIZE_MAX
    requires PushAll(New<T>(elemSize), xs, allocOk).Success?
    ensures DoublingShape(|xs|, Cap(PushAll(New<T>(elemSize), xs, allocOk).value))
  {
    PushAllKeepsDoublingShape(New<T>(elemSize), xs, allocOk);
  }

  lemma {:induction false} PushAllKeepsDoublingShape<T>(v: Vec<T>, xs: seq<T>, allocOk: bool)
    requires v.Valid() && v.buf.elemSize != 0 && DoublingShape(v.len, Cap(v))
    requires PushAll(v, xs, allocOk).Success?
    ensures DoublingShape(v.len + |xs|, Cap(PushAll(v, xs, allocOk).value))
    decreases |xs|
  {
    if xs != [] {
      PushKeepsDoublingShape(v, xs[0], allocOk);
      var w := Push(v, xs[0], allocOk).value;
      PushAllKeepsDoublingShape(w, xs[1..], allocOk);
    }
  }

  /** Distinct powers of two are at least a factor two apart. */
  lemma {:induction false} Pow2Gap(a: nat, b: nat)
    requires IsPow2(a) && IsPow2(b) && a < b
    ensures 2 * a <= b
    decreases a + b
  {
    var h := b / 2;
    assert b > 1 && b == 2 * h && IsPow2(h);
    if h < a {
      Pow2Gap(h, a);
      assert false;
    } else if h > a {
      Pow2Gap(a, h);
    }
  }

  /** The doubling policy fixes the capacity for a given length: there is
      only one least power of two holding `len` values. */
  lemma DoublingShapeUnique(len: nat, a: nat, b: nat)
    requires DoublingShape(len, a) && DoublingShape(len, b)
    ensures a == b
  {
    if len > 0 && a != b {
      if a < b { Pow2Gap(a, b); } else { Pow2Gap(b, a); }
    }
  }

  /** A successful run of pushes can be cut anywhere: the first `k` pushes
      succeed on their own, and the rest continue from where they left off. */
  lemma {:induction false} PushAllSplit<T>(v: Vec<T>, xs: seq<T>, k: nat, allocOk: bool)
    requires v.Valid() && k <= |xs|
    ensures PushAll(v, xs, allocOk).Success? ==>
      && PushAll(v, xs[..k], allocOk).Success?
      && PushAll(PushAll(v, xs[..k], allocOk).value, xs[k..], allocOk) == PushAll(v, xs, allocOk)
    decreases k
  {
    if k > 0 && PushAll(v, xs, allocOk).Success? {
      var w := Push(v, xs[0], allocOk).value;
      PushAllSplit(w, xs[1..], k - 1, allocOk);
      assert xs[..k][1..] == xs[1..][..k - 1];
      assert xs[1..][k - 1..] == xs[k..];
    }
  }

  /** The capacities the doubling policy passes through on the way to ten
      values: 0, 1, 2, 4, 4, 8, 8, 8, 8, 16, 16. */
  const TEN_PUSH_CAPS: seq<nat> := [0, 1, 2, 4, 4, 8, 8, 8, 8, 16, 16]

  lemma TenPushCapsAreShapes(k: nat)
    requires k <= 10
    ensures DoublingShape(k, TEN_PUSH_CAPS[k])
  {
    assert IsPow2(1) && IsPow2(2) && IsPow2(4) && IsPow2(8) && IsPow2(16);
  }

  /** Ten pushes onto an empty vector of sized elements, watched after each
      push: the capacity goes 0, 1, 2, 4, 4, 8, 8, 8, 8, 16, 16. */
  lemma TenPushesReachSixteen<T>(elemSize: nat, xs: seq<T>, allocOk: bool)
    requires 0 < elemSize <= ISIZE_MAX && |xs| == 10
    requires PushAll(New<T>(elemSize), xs, allocOk).Success?
    ensures forall k :: 0 <= k <= 10 ==>
      && PushAll(New<T>(elemSize), xs[..k], allocOk).Success?
      && Cap(PushAll(New<T>(elemSize), xs[..k], allocOk).value) == TEN_PUSH_CAPS[k]
    ensures Cap(PushAll(New<T>(elemSize), xs, allocOk).value) == 16
  {
    var v := New<T>(elemSize);
    forall k | 0 <= k <= 10
      ensures PushAll(v, xs[..k], allocOk).Success?
      ensures Cap(PushAll(v, xs[..k], allocOk).value) == TEN_PUSH_CAPS[k]
    {
      PushAllSplit(v, xs, k, allocOk);
      CapacityDoubles(elemSize, xs[..k], allocOk);
      TenPushCapsAreShapes(k);
      DoublingShapeUnique(k, TEN_PUSH_CAPS[k], Cap(PushAll(v, xs[..k], allocOk).value));
    }
    assert xs[..10] == xs;
  }

  /** A drained vector keeps its capacity: when that is not zero, the next
      push needs no allocation and cannot fail. */
  lemma DrainLeavesCapacityReusable<T>(v: Vec<T>, e: T, allocOk: bool)
    requires v.Valid() && Cap(v) > 0
    ensures var r := Push(DrainOf(v).0, e, allocOk);
      r.Success? && Cap(r.value) == Cap(v) && Deref(r.value) == [e]
  {
  }

  /** Zero-sized elements never cause an allocation: every push below
      `usize::MAX` values succeeds at capacity `usize::MAX`, the one beyond it
      panics with "capacity overflow", and there is nothing to free. */
  lemma ZeroSizedNeverAllocates<T>(v: Vec<T>, e: T, allocOk: bool)
    requires v.Valid() && v.buf.elemSize == 0
    ensures Cap(v) == USIZE_MAX && Release(v.buf) == None
    ensures v.len < USIZE_MAX ==>
      Push(v, e, allocOk).Success? && Cap(Push(v, e, allocOk).value) == USIZE_MAX
    ensures v.len == USIZE_MAX ==> Push(v, e, allocOk) == Failure(CapacityOverflow)
  {
  }

  /** Collecting `into_iter` with any interleaving of `next` and `next_back`
      hands out every element once: the front values followed by the back
      values in reverse are the vector's contents. */
  lemma IntoIterTakesEachOnce<T>(v: Vec<T>, ends: seq<End>)
    requires v.Valid() && |ends| >= v.len
    ensures var t := Drive(IntoIterOf(v).iter, ends);
      Deref(v) == t.fronts + Reversed(t.backs) && Remaining(t.rest) == []
  {
    ExhaustedDriveTakesAll(IntoIterOf(v).iter, ends);
  }
}
