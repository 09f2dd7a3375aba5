/** `RawValIter<T>`: two cursors over a run of slots, handing out the values
    by value from the front (`next`) and from the back (`next_back`) until
    they meet. It is the shared engine of `IntoIter` and `Drain`.

    Cursors are slot indices. The source keeps `*const T` addresses and, for
    zero-sized elements, uses the address as a plain counter; both come down
    to a slot index that moves by one per step. */
module Iter {
  import opened Common
  import opened Raw

  datatype RawValIter<T> = RawValIter(mem: Memory<T>, start: nat, end: nat)
  {
    /** The cursors have not crossed and every slot between them holds a value. */
    ghost predicate Valid() {
      start <= end && forall i :: start <= i < end ==> i in mem
    }
  }

  /** The values the iterator has still to hand out, front first. */
  function Remaining<T>(it: RawValIter<T>): seq<T>
    requires it.Valid()
  {
    Slice(it.mem, it.start, it.end)
  }

  /** `RawValIter::new` over the slice `[0, len)` of a buffer. */
  function NewIter<T>(mem: Memory<T>, len: nat): (it: RawValIter<T>)
    requires forall i :: 0 <= i < len ==> i in mem
    ensures it.Valid() && it.mem == mem
    ensures Remaining(it) == Slice(mem, 0, len)
  {
    RawValIter(mem, 0, len)
  }

  /** `Iterator::next`: the value at the front cursor, or `None` once the
      cursors have met. */
  function Next<T>(it: RawValIter<T>): (r: (RawValIter<T>, Option<T>))
    requires it.Valid()
    ensures r.0.Valid() && r.0.mem == it.mem
    ensures r.1.None? <==> Remaining(it) == []
    ensures r.1.None? ==> r.0 == it
    ensures r.1.Some? ==> Remaining(it) == [r.1.value] + Remaining(r.0)
  {
    if it.start == it.end then (it, None)
    else
      var rest := it.(start := it.start + 1);
      assert Remaining(it) == [it.mem[it.start]] + Remaining(rest);
      (rest, Some(it.mem[it.start]))
  }

  /** `DoubleEndedIterator::next_back`: the back cursor steps back first, then
      the value under it is handed out. */
  function NextBack<T>(it: RawValIter<T>): (r: (RawValIter<T>, Option<T>))
    requires it.Valid()
    ensures r.0.Valid() && r.0.mem == it.mem
    ensures r.1.None? <==> Remaining(it) == []
    ensures r.1.None? ==> r.0 == it
    ensures r.1.Some? ==> Remaining(it) == Remaining(r.0) + [r.1.value]
  {
    if it.start == it.end then (it, None)
    else
      var rest := it.(end := it.end - 1);
      assert Remaining(it) == Remaining(rest) + [it.mem[it.end - 1]];
      (rest, Some(it.mem[it.end - 1]))
  }

  /** `Iterator::size_hint`: the byte distance between the cursors divided by
      the element size (by 1 for zero-sized elements), as an exact pair. */
  function SizeHint<T>(it: RawValIter<T>, elemSize: nat): (r: (nat, Option<nat>))
    requires it.Valid()
    ensures r.0 == |Remaining(it)| && r.1 == Some(r.0)
  {
    var stride := if elemSize == 0 then 1 else elemSize;
    var len := (it.end * stride - it.start * stride) / stride;
    ByteDistance(it.start, it.end, stride);
    (len, Some(len))
  }

  /** Dividing the byte distance between two slots by the stride gives back
      their distance in slots. */
  lemma ByteDistance(start: nat, end: nat, stride: nat)
    requires start <= end && stride > 0
    ensures (end * stride - start * stride) / stride == end - start
  {
    var d := end - start;
    MulDistributes(start, d, stride);
    MulDivCancels(d, stride);
  }

  lemma MulDistributes(a: nat, b: nat, c: nat)
    ensures (a + b) * c == a * c + b * c
  {
  }

  lemma MulDivCancels(d: nat, c: nat)
    requires c > 0
    ensures d * c / c == d
  {
    var q, r := d * c / c, d * c % c;
    assert d * c == q * c + r && 0 <= r < c;
    if q < d {
      MulDistributes(q, 1, c);
      MulMono(q + 1, d, c);
      assert false;
    } else if q > d {
      MulDistributes(d, 1, c);
      MulMono(d + 1, q, c);
      assert false;
    }
  }

  lemma MulMono(a: nat, b: nat, c: nat)
    requires a <= b
    ensures a * c <= b * c
  {
    MulDistributes(a, b - a, c);
  }

  /** `next` called `n` times: the values handed out and the iterator left. */
  function NextTimes<T>(it: RawValIter<T>, n: nat): (r: (seq<Option<T>>, RawValIter<T>))
    requires it.Valid()
    ensures r.1.Valid() && |r.0| == n
    decreases n
  {
    if n == 0 then ([], it)
    else
      var (it', x) := Next(it);
      var (xs, last) := NextTimes(it', n - 1);
      ([x] + xs, last)
  }

  /** The size hint is exact: `next` hands out exactly that many values, the
      remaining values in order, and then `None`. */
  lemma {:induction false} SizeHintIsExact<T>(it: RawValIter<T>, elemSize: nat)
    requires it.Valid()
    ensures var n := SizeHint(it, elemSize).0;
      && (forall k :: 0 <= k < n ==> NextTimes(it, n).0[k] == Some(Remaining(it)[k]))
      && Next(NextTimes(it, n).1).1 == None
    decreases it.end - it.start
  {
    var n := SizeHint(it, elemSize).0;
    if n > 0 {
      var (it', x) := Next(it);
      SizeHintIsExact(it', elemSize);
      assert SizeHint(it', elemSize).0 == n - 1;
      assert NextTimes(it, n) == ([x] + NextTimes(it', n - 1).0, NextTimes(it', n - 1).1);
    }
  }

  /** Which end a call takes from. */
  datatype End = Front | Back

  /** The result of a sequence of calls: values taken at the front in call
      order, values taken at the back in call order, and the iterator left. */
  datatype Trace<T> = Trace(fronts: seq<T>, backs: seq<T>, rest: RawValIter<T>)

  /** Calls `next` or `next_back` as `ends` says, one call per entry. */
  function Drive<T>(it: RawValIter<T>, ends: seq<End>): (t: Trace<T>)
    requires it.Valid()
    ensures t.rest.Valid() && t.rest.mem == it.mem
    decreases ends
  {
    if ends == [] then Trace([], [], it)
    else
      var (it', x) := if ends[0] == Front then Next(it) else NextBack(it);
      var t := Drive(it', ends[1..]);
      match x
      case None => t
      case Some(v) =>
        if ends[0] == Front then Trace([v] + t.fronts, t.backs, t.rest)
        else Trace(t.fronts, [v] + t.backs, t.rest)
  }

  function Min(a: nat, b: nat): nat {
    if a <= b then a else b
  }

  /** However `next` and `next_back` are interleaved, the cursors never
      cross: the front values, the untouched middle and the back values read
      back to front are exactly the remaining values, and every call made
      while something remained handed out one value. */
  lemma {:induction false} DriveTakesEachOnce<T>(it: RawValIter<T>, ends: seq<End>)
    requires it.Valid()
    ensures var t := Drive(it, ends);
      && Remaining(it) == t.fronts + Remaining(t.rest) + Reversed(t.backs)
      && |t.fronts| + |t.backs| == Min(|ends|, |Remaining(it)|)
    decreases ends
  {
    if ends != [] {
      var (it', x) := if ends[0] == Front then Next(it) else NextBack(it);
      DriveTakesEachOnce(it', ends[1..]);
      var t := Drive(it', ends[1..]);
      if x.Some? {
        var v := x.value;
        if ends[0] == Front {
          assert Drive(it, ends) == Trace([v] + t.fronts, t.backs, t.rest);
          assert Remaining(it) == [v] + Remaining(it');
          FrontStep(v, t.fronts, Remaining(t.rest), t.backs);
        } else {
          assert Drive(it, ends) == Trace(t.fronts, [v] + t.backs, t.rest);
          assert Remaining(it) == Remaining(it') + [v];
          BackStep(v, t.fronts, Remaining(t.rest), t.backs);
        }
      }
    }
  }

  /** A value taken at the front joins the front values. */
  lemma FrontStep<T>(v: T, fronts: seq<T>, mid: seq<T>, backs: seq<T>)
    ensures [v] + (fronts + mid + Reversed(backs)) == ([v] + fronts) + mid + Reversed(backs)
  {
  }

  /** A value taken at the back joins the back values, which read back to
      front end with it. */
  lemma BackStep<T>(v: T, fronts: seq<T>, mid: seq<T>, backs: seq<T>)
    ensures (fronts + mid + Reversed(backs)) + [v] == fronts + mid + Reversed([v] + backs)
  {
    assert Reversed([v] + backs) == Reversed(backs) + [v] by {
      assert ([v] + backs)[1..] == backs;
    }
  }

  /** Once at least as many calls as values have been made, the values taken
      are exactly the original ones: the front values followed by the back
      values in reverse. */
  lemma ExhaustedDriveTakesAll<T>(it: RawValIter<T>, ends: seq<End>)
    requires it.Valid()
    requires |ends| >= |Remaining(it)|
    ensures var t := Drive(it, ends);
      Remaining(it) == t.fronts + Reversed(t.backs) && Remaining(t.rest) == []
  {
    DriveTakesEachOnce(it, ends);
    var t := Drive(it, ends);
    assert |Remaining(t.rest)| == 0;
    assert t.fronts + Remaining(t.rest) + Reversed(t.backs) == t.fronts + Reversed(t.backs);
  }

  /** `for _ in &mut iter {}`, the body of the drops of `IntoIter` and
      `Drain`: takes every remaining value from the front, in order. */
  method Exhaust<T>(it: RawValIter<T>) returns (dropped: seq<T>)
    requires it.Valid()
    ensures dropped == Remaining(it)
  {
    dropped := [];
    var cur := it;
    while true
      invariant cur.Valid() && cur.mem == it.mem
      invariant Remaining(it) == dropped + Remaining(cur)
      decreases cur.end - cur.start
    {
      var (next, x) := Next(cur);
      match x {
        case None =>
          return;
        case Some(v) =>
          dropped := dropped + [v];
          cur := next;
      }
    }
  }
}
