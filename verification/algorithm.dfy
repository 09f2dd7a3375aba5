/** Two ways of comparing lists (`basics/src/algorithm.rs`): `sublist`
    looks for one list as a contiguous run of the other, `subset` compares
    the sets of elements through a hash map of occurrences. */
module Algorithm {
  import opened Common

  datatype Comparison = Equal | Sublist | Superlist | Unequal

  /** `slice::windows(size)`: every run of `size` consecutive elements, from
      the left. Rust panics on a window size of 0, hence the precondition. */
  function Windows<T>(s: seq<T>, size: nat): (ws: seq<seq<T>>)
    requires size > 0
    ensures |ws| == if size <= |s| then |s| - size + 1 else 0
    ensures forall i :: 0 <= i < |ws| ==> ws[i] == s[i..i + size]
  {
    if |s| < size then [] else [s[..size]] + Windows(s[1..], size)
  }

  /** The run of `n` elements of `s` starting at `k`. */
  function RunAt<T>(s: seq<T>, k: nat, n: nat): seq<T>
    requires k + n <= |s|
  {
    s[k..k + n]
  }

  /** `x` occurs as a contiguous run inside `s`. */
  ghost predicate IsWindow<T>(x: seq<T>, s: seq<T>) {
    exists k: nat :: k + |x| <= |s| && RunAt(s, k, |x|) == x
  }

  /** The test in either strict branch of `sublist`:
      `short.len() == 0 || long.windows(short.len()).any(|w| w == short)`.
      The length test comes first because a window size of 0 panics. */
  function HasRun<T(==)>(long: seq<T>, short: seq<T>): (r: bool)
    ensures r <==> IsWindow(short, long)
  {
    if |short| == 0 then
      assert RunAt(long, 0, 0) == short;
      true
    else
      var ws := Windows(long, |short|);
      if short in ws then
        var i :| 0 <= i < |ws| && ws[i] == short;
        assert RunAt(long, i, |short|) == short;
        true
      else
        assert forall k: nat :: k + |short| <= |long| ==> RunAt(long, k, |short|) == ws[k];
        false
  }

  /** `sublist(a, b)`: equal lengths compare element by element; otherwise
      the shorter list, when empty or a window of the longer, makes the
      longer one a super- or sublist. */
  function SublistCompare<T(==)>(a: seq<T>, b: seq<T>): (r: Comparison)
    ensures r == Equal <==> a == b
    ensures r == Superlist <==> |a| > |b| && IsWindow(b, a)
    ensures r == Sublist <==> |a| < |b| && IsWindow(a, b)
  {
    if |a| == |b| then
      if a == b then Equal else Unequal
    else if |a| > |b| then
      if HasRun(a, b) then Superlist else Unequal
    else
      if HasRun(b, a) then Sublist else Unequal
  }

  /** The two strict branches of `sublist` mirror each other. */
  lemma SublistMirrors<T>(a: seq<T>, b: seq<T>)
    ensures SublistCompare(a, b) == Sublist <==> SublistCompare(b, a) == Superlist
    ensures SublistCompare(a, b) == Equal <==> SublistCompare(b, a) == Equal
  {
  }

  /** Where an element was seen. */
  datatype Occurrences = OnlyA | OnlyB | Both

  /** The map collected from `a`: every element of `a` seen only in `a`. */
  function MarkA<T(==)>(a: seq<T>): (m: map<T, Occurrences>)
    ensures m.Keys == Elems(a)
    ensures forall t :: t in m ==> m[t] == OnlyA
  {
    map t | t in a :: OnlyA
  }

  /** Turns the occurrence map into the answer: with no `OnlyA` entry `a`
      could be a sublist, with no `OnlyB` entry it could be a superlist. */
  function Classify<T>(m: map<T, Occurrences>): (r: Comparison)
    ensures r == Equal || r == Sublist <==> OnlyA !in m.Values
    ensures r == Equal || r == Superlist <==> OnlyB !in m.Values
  {
    var couldBeSublist := OnlyA !in m.Values;
    var couldBeSuperlist := OnlyB !in m.Values;
    match (couldBeSublist, couldBeSuperlist)
    case (true, true) => Equal
    case (true, false) => Sublist
    case (false, true) => Superlist
    case (false, false) => Unequal
  }

  /** The pass over `b` as the source writes it: `entry(t).or_insert(OnlyB)`
      followed by an unconditional `*e = Both`, so every element of `b` ends
      up marked `Both`. */
  function MarkBAsWritten<T(==)>(m: map<T, Occurrences>, b: seq<T>): (r: map<T, Occurrences>)
    ensures r.Keys == m.Keys + Elems(b)
    ensures forall t :: t in r ==> r[t] == (if t in b then Both else m[t])
    decreases |b|
  {
    if b == [] then m else MarkBAsWritten(m[b[0] := Both], b[1..])
  }

  /** `subset(a, b)` as written. */
  function SubsetAsWritten<T(==)>(a: seq<T>, b: seq<T>): (r: Comparison)
    ensures r == Equal || r == Superlist
  {
    var m := MarkBAsWritten(MarkA(a), b);
    assert OnlyB !in m.Values;
    Classify(m)
  }

  /** As written, no entry is ever `OnlyB`: `subset` answers `Equal` exactly
      when every element of `a` is in `b`, and `Superlist` otherwise; it
      never answers `Sublist` or `Unequal`. */
  lemma SubsetAsWrittenIgnoresB<T>(a: seq<T>, b: seq<T>)
    ensures SubsetAsWritten(a, b) == Equal <==> Elems(a) <= Elems(b)
    ensures SubsetAsWritten(a, b) == Superlist <==> !(Elems(a) <= Elems(b))
  {
    var m := MarkBAsWritten(MarkA(a), b);
    assert OnlyB !in m.Values;
    if !(Elems(a) <= Elems(b)) {
      var t :| t in Elems(a) && t !in Elems(b);
      assert m[t] == OnlyA;
    }
  }

  /** Two inputs on which the source's answer differs from the set
      comparison its result type promises. */
  lemma SubsetAsWrittenCounterexample()
    ensures SubsetAsWritten([1], [1, 2]) == Equal
    ensures SubsetCompare([1], [1, 2]) == Sublist
    ensures SubsetAsWritten([1], [2]) == Superlist
    ensures SubsetCompare([1], [2]) == Unequal
  {
    assert Elems([1]) == {1} && Elems([1, 2]) == {1, 2} && Elems([2]) == {2};
    SubsetAsWrittenIgnoresB([1], [1, 2]);
    SubsetAsWrittenIgnoresB([1], [2]);
  }

  /** The mark the corrected pass gives an element seen in `a` or `b`. */
  function Expected(inA: bool, inB: bool): Occurrences
    requires inA || inB
  {
    if inA && inB then Both else if inA then OnlyA else OnlyB
  }

  /** `m` records, for every element of `a` or `done`, where it was seen. */
  ghost predicate Records<T>(m: map<T, Occurrences>, a: seq<T>, done: seq<T>) {
    && m.Keys == Elems(a) + Elems(done)
    && forall t :: t in m ==> m[t] == Expected(t in a, t in done)
  }

  /** The pass over `b` as evidently intended: an element already seen in
      `a` becomes `Both`, an element first seen in `b` is `OnlyB`, and an
      `OnlyB` element seen again in `b` stays `OnlyB`. */
  function MarkB<T(==)>(m: map<T, Occurrences>, b: seq<T>): (r: map<T, Occurrences>)
    ensures r.Keys == m.Keys + Elems(b)
    ensures forall t :: t in b ==> r[t] != OnlyA
    ensures forall t :: t in m && t !in b ==> r[t] == m[t]
    decreases |b|
  {
    if b == [] then m
    else
      var t := b[0];
      MarkB(m[t := if t in m && m[t] != OnlyB then Both else OnlyB], b[1..])
  }

  lemma {:induction false} MarkBRecords<T>(m: map<T, Occurrences>, a: seq<T>, done: seq<T>, b: seq<T>)
    requires Records(m, a, done)
    ensures Records(MarkB(m, b), a, done + b)
    decreases |b|
  {
    if b != [] {
      var t := b[0];
      var m' := m[t := if t in m && m[t] != OnlyB then Both else OnlyB];
      assert Elems(done + [t]) == Elems(done) + {t};
      forall u | u in m'
        ensures m'[u] == Expected(u in a, u in done + [t])
      {
        assert u in done + [t] <==> u in done || u == t;
      }
      assert Records(m', a, done + [t]);
      MarkBRecords(m', a, done + [t], b[1..]);
      assert done + [t] + b[1..] == done + b;
    }
  }

  /** `subset(a, b)` with the pass over `b` corrected: the answer is the
      comparison of the two element sets. */
  function SubsetCompare<T(==)>(a: seq<T>, b: seq<T>): (r: Comparison)
    ensures r == Equal <==> Elems(a) == Elems(b)
    ensures r == Sublist <==> Elems(a) < Elems(b)
    ensures r == Superlist <==> Elems(b) < Elems(a)
    ensures r == Unequal <==> !(Elems(a) <= Elems(b)) && !(Elems(b) <= Elems(a))
  {
    var m := MarkB(MarkA(a), b);
    MarkBRecords(MarkA(a), a, [], b);
    assert [] + b == b;
    ClassifyRecords(m, a, b);
    Classify(m)
  }

  /** From a complete record, the `OnlyA` and `OnlyB` marks are exactly the
      elements missing from the other list. */
  lemma ClassifyRecords<T>(m: map<T, Occurrences>, a: seq<T>, b: seq<T>)
    requires Records(m, a, b)
    ensures OnlyA in m.Values <==> !(Elems(a) <= Elems(b))
    ensures OnlyB in m.Values <==> !(Elems(b) <= Elems(a))
  {
    if !(Elems(a) <= Elems(b)) {
      var t :| t in Elems(a) && t !in Elems(b);
      assert m[t] == OnlyA;
    }
    if !(Elems(b) <= Elems(a)) {
      var t :| t in Elems(b) && t !in Elems(a);
      assert m[t] == OnlyB;
    }
  }

  /** `subset` looks only at the element sets: reordering or repeating
      elements of either list never changes the answer. */
  lemma SubsetIgnoresOrderAndRepeats<T>(a: seq<T>, a': seq<T>, b: seq<T>, b': seq<T>)
    requires Elems(a) == Elems(a') && Elems(b) == Elems(b')
    ensures SubsetCompare(a, b) == SubsetCompare(a', b')
  {
  }
}
