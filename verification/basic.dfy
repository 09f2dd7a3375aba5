/** The self-contained tutorial functions of `basics/src/basic.rs`: the
    first word of a string, rectangles, `plus_one`, `largest`, `longest`, the
    `Counter` iterator and the memoising `NoArgsCacher`.

    Strings are their UTF-8 bytes; the space searched for is the byte 0x20. */
module Basic {
  import opened Common

  const SPACE: u8 := 0x20

  /** `p` is where the first word of `s` ends: no space before it, and a
      space at it unless it is the end of `s`. */
  ghost predicate IsFirstSpace(s: seq<u8>, p: nat) {
    && p <= |s|
    && (forall i :: 0 <= i < p ==> s[i] != SPACE)
    && (p < |s| ==> s[p] == SPACE)
  }

  /** Only one position can end the first word. */
  lemma FirstSpaceUnique(s: seq<u8>, p: nat, q: nat)
    requires IsFirstSpace(s, p) && IsFirstSpace(s, q)
    ensures p == q
  {
  }

  /** `first_word_pos`: the index of the first space byte, or the length of
      `s` when there is none. */
  method FirstWordPos(s: seq<u8>) returns (p: nat)
    ensures IsFirstSpace(s, p)
  {
    for i := 0 to |s|
      invariant forall j :: 0 <= j < i ==> s[j] != SPACE
    {
      if s[i] == SPACE {
        return i;
      }
    }
    return |s|;
  }

  /** `first_word`: the bytes before the first space, or all of `s`. */
  method FirstWord(s: seq<u8>) returns (w: seq<u8>)
    ensures IsFirstSpace(s, |w|) && w == s[..|w|]
  {
    for i := 0 to |s|
      invariant forall j :: 0 <= j < i ==> s[j] != SPACE
    {
      if s[i] == SPACE {
        return s[0..i];
      }
    }
    return s[..];
  }

  /** What `first_word` returns is the prefix of `s` up to what
      `first_word_pos` returns. */
  lemma FirstWordIsPrefixToPos(s: seq<u8>, w: seq<u8>, p: nat)
    requires IsFirstSpace(s, |w|) && w == s[..|w|]
    requires IsFirstSpace(s, p)
    ensures w == s[..p]
  {
    FirstSpaceUnique(s, |w|, p);
  }

  datatype Rect = Rect(width: u32, height: u32)

  /** `Rect::can_hold`: strictly wider and strictly taller. */
  predicate CanHold(r: Rect, other: Rect): (b: bool)
    ensures b ==> r.width >= 1 && r.height >= 1 && r != other
  {
    r.width > other.width && r.height > other.height
  }

  /** `Rect::square`. */
  function Square(size: u32): (r: Rect)
    ensures r.width == size && r.height == size
  {
    Rect(size, size)
  }

  /** `can_hold` is a strict order: no rectangle holds itself, two never hold
      each other, and holding is transitive. */
  lemma CanHoldIsStrictOrder(a: Rect, b: Rect, c: Rect)
    ensures !CanHold(a, a)
    ensures CanHold(a, b) ==> !CanHold(b, a)
    ensures CanHold(a, b) && CanHold(b, c) ==> CanHold(a, c)
  {
  }

  /** Squares hold exactly the strictly smaller squares. */
  lemma SquareHoldsSmaller(n: u32, m: u32)
    ensures CanHold(Square(n), Square(m)) <==> n > m
  {
  }

  /** `plus_one`: `None` stays `None`, `Some(i)` becomes `Some(i + 1)`.
      An `i32` addition that overflows panics, hence the precondition. */
  function PlusOne(x: Option<i32>): (r: Option<i32>)
    requires x.Some? ==> x.value < I32_MAX
    ensures r.None? <==> x.None?
    ensures r.Some? ==> r.value - x.value == 1
  {
    match x
    case None => None
    case Some(i) => Some(i + 1)
  }

  /** Applying `plus_one` twice adds two, and it never merges two inputs. */
  lemma PlusOneTwice(x: Option<i32>, y: Option<i32>)
    requires x.Some? ==> x.value < I32_MAX - 1
    requires y.Some? ==> y.value < I32_MAX
    ensures var once := PlusOne(x);
      once.Some? ==> PlusOne(once) == Some(x.value + 2)
    ensures PlusOne(x) == PlusOne(y) ==> x == y
  {
  }

  /** `largest`: a value of the list no other value exceeds. The source
      reads `list[0]` first, so the list must not be empty. */
  method Largest(list: seq<int>) returns (largest: int)
    requires |list| > 0
    ensures largest in list
    ensures forall x :: x in list ==> x <= largest
  {
    largest := list[0];
    for i := 0 to |list|
      invariant largest in list
      invariant forall j :: 0 <= j < i ==> list[j] <= largest
    {
      var item := list[i];
      if item > largest {
        largest := item;
      }
    }
  }

  /** `longest`: the longer string, and `y` when the lengths tie. */
  function Longest(x: seq<u8>, y: seq<u8>): (r: seq<u8>)
    ensures r == x || r == y
    ensures |r| >= |x| && |r| >= |y|
    ensures |x| == |y| ==> r == y
  {
    if |x| > |y| then x else y
  }

  /** The `Counter` iterator: `next` increments the count and yields it while
      it is below 6. The `u32` increment panics on overflow, hence the
      precondition. */
  datatype Counter = Counter(count: u32)

  /** `Counter::new`: the first call of `next` yields 1. */
  function NewCounter(): (c: Counter)
    ensures c.count < U32_MAX && CounterNext(c).1 == Some(1)
  {
    Counter(0)
  }

  function CounterNext(c: Counter): (r: (Counter, Option<u32>))
    requires c.count < U32_MAX
    ensures r.0.count == c.count + 1
    ensures r.1.Some? <==> c.count < 5
    ensures r.1.Some? ==> r.1.value == r.0.count
  {
    var count := c.count + 1;
    if count < 6 then (Counter(count), Some(count)) else (Counter(count), None)
  }

  /** Everything a counter yields before its first `None`. */
  function Collect(c: Counter): (xs: seq<u32>)
    requires c.count <= 5
    decreases 5 - c.count
  {
    var (c', x) := CounterNext(c);
    match x
    case None => []
    case Some(v) => [v] + Collect(c')
  }

  /** A counter yields the numbers after its count up to 5 and then `None`;
      a fresh one yields 1, 2, 3, 4, 5. */
  lemma {:induction false} CounterYieldsOneToFive(c: Counter)
    requires c.count <= 5
    ensures Collect(c) == seq(5 - c.count, i requires 0 <= i < 5 - c.count => c.count + 1 + i)
    ensures c == NewCounter() ==> Collect(c) == [1, 2, 3, 4, 5]
    decreases 5 - c.count
  {
    if c.count < 5 {
      CounterYieldsOneToFive(CounterNext(c).0);
    }
  }

  /** Once a counter has yielded `None` it keeps yielding `None`. */
  lemma CounterStaysExhausted(c: Counter)
    requires 5 <= c.count < U32_MAX
    ensures CounterNext(c).1 == None
  {
  }

  function Zip(xs: seq<u32>, ys: seq<u32>): (ps: seq<(u32, u32)>)
    ensures |ps| == if |xs| <= |ys| then |xs| else |ys|
  {
    if xs == [] || ys == [] then [] else [(xs[0], ys[0])] + Zip(xs[1..], ys[1..])
  }

  function Products(ps: seq<(u32, u32)>): seq<int> {
    if ps == [] then [] else [ps[0].0 * ps[0].1] + Products(ps[1..])
  }

  function MultiplesOfThree(xs: seq<int>): seq<int> {
    if xs == [] then []
    else if xs[0] % 3 == 0 then [xs[0]] + MultiplesOfThree(xs[1..])
    else MultiplesOfThree(xs[1..])
  }

  function Sum(xs: seq<int>): int {
    if xs == [] then 0 else xs[0] + Sum(xs[1..])
  }

  /** The iterator pipeline of the `Counter` test: zip a counter with one
      that skipped its first value, multiply the pairs, keep the multiples of
      three and add them up: 2 * 3 + 3 * 4 = 18. */
  lemma CounterPipelineSumsTo18()
    ensures Sum(MultiplesOfThree(Products(Zip(Collect(NewCounter()), Collect(NewCounter())[1..])))) == 18
  {
    var xs := Collect(NewCounter());
    CounterYieldsOneToFive(NewCounter());
    assert xs == [1, 2, 3, 4, 5];
    assert xs[1..] == [2, 3, 4, 5];
    ZipWithTail();
    ProductsOfMultiplesOfThree();
  }

  /** The rest of the pipeline on those pairs: the products 2, 6, 12, 20,
      of which 6 and 12 are multiples of three. */
  lemma ProductsOfMultiplesOfThree()
    ensures Sum(MultiplesOfThree(Products([(1, 2), (2, 3), (3, 4), (4, 5)]))) == 18
  {
    var ps: seq<(u32, u32)> := [(1, 2), (2, 3), (3, 4), (4, 5)];
    assert Products(ps[3..]) == [20];
    assert Products(ps[2..]) == [12] + Products(ps[3..]);
    assert Products(ps[1..]) == [6] + Products(ps[2..]);
    assert Products(ps) == [2] + Products(ps[1..]);
    var qs := [2, 6, 12, 20];
    assert MultiplesOfThree(qs[3..]) == [];
    assert MultiplesOfThree(qs[2..]) == [12] + MultiplesOfThree(qs[3..]);
    assert MultiplesOfThree(qs[1..]) == [6] + MultiplesOfThree(qs[2..]);
    assert MultiplesOfThree(qs) == MultiplesOfThree(qs[1..]);
    assert Sum([6, 12]) == 6 + Sum([12]);
  }

  /** The pairs of the test's `zip`: each value with its successor. */
  lemma ZipWithTail()
    ensures Zip([1, 2, 3, 4, 5], [2, 3, 4, 5]) == [(1, 2), (2, 3), (3, 4), (4, 5)]
  {
    assert Zip([5], []) == [];
    assert Zip([4, 5], [5]) == [(4, 5)] + Zip([5], []);
    assert Zip([3, 4, 5], [4, 5]) == [(3, 4)] + Zip([4, 5], [5]);
    assert Zip([2, 3, 4, 5], [3, 4, 5]) == [(2, 3)] + Zip([3, 4, 5], [4, 5]);
    assert Zip([1, 2, 3, 4, 5], [2, 3, 4, 5]) == [(1, 2)] + Zip([2, 3, 4, 5], [3, 4, 5]);
  }

  /** `NoArgsCacher`: a calculation and the value it produced, once known.
      The closure may answer differently from one call to the next (it can
      read a clock or a `Cell`), so it is modelled by its answers: the `k`-th
      time it is run it returns `calculation(k)`. `runs` counts how often it
      has been run so far. */
  datatype Cacher = Cacher(calculation: nat -> u32, runs: nat, value: Option<u32>)

  function NewCacher(calculation: nat -> u32): (c: Cacher)
    ensures c.value == None && c.runs == 0 && c.calculation == calculation
  {
    Cacher(calculation, 0, None)
  }

  /** `NoArgsCacher::value`: the cached value, or else the calculation's
      result, which is then cached. Also says whether the calculation ran. */
  function CacherValue(c: Cacher): (r: (Cacher, u32, bool))
    ensures r.0.calculation == c.calculation
    ensures r.2 <==> c.value.None?
    ensures c.value.Some? ==> r.1 == c.value.value && r.0 == c
    ensures c.value.None? ==> r.1 == c.calculation(c.runs) && r.0.runs == c.runs + 1
    ensures r.0.value == Some(r.1)
  {
    match c.value
    case Some(v) => (c, v, false)
    case None =>
      var v := c.calculation(c.runs);
      (Cacher(c.calculation, c.runs + 1, Some(v)), v, true)
  }

  /** `n` calls of `value`: what they return and how many ran the calculation. */
  function CacherCalls(c: Cacher, n: nat): (r: (seq<u32>, nat))
    ensures |r.0| == n
    decreases n
  {
    if n == 0 then ([], 0)
    else
      var (c', v, ran) := CacherValue(c);
      var (vs, runs) := CacherCalls(c', n - 1);
      ([v] + vs, runs + if ran then 1 else 0)
  }

  /** However often `value` is called, the calculation runs at most once,
      and never once a value is cached. Every call returns the cached value
      or, when nothing was cached, the answer of that one run, even though
      later runs of the closure could have answered differently. */
  lemma {:induction false} CacherRunsAtMostOnce(c: Cacher, n: nat)
    ensures var (vs, runs) := CacherCalls(c, n);
      && runs <= 1
      && (c.value.Some? ==> runs == 0 && forall i :: 0 <= i < n ==> vs[i] == c.value.value)
      && (c.value.None? ==> forall i :: 0 <= i < n ==> vs[i] == c.calculation(c.runs))
    decreases n
  {
    if n > 0 {
      var (c', v, ran) := CacherValue(c);
      CacherRunsAtMostOnce(c', n - 1);
    }
  }

  /** A calculation that answers 420 the first time it runs and 7 on every
      later run. */
  function FirstRun420(k: nat): u32 {
    if k == 0 then 420 else 7
  }

  /** Three calls of `value` on that calculation all return 420, and it runs
      once. */
  lemma CacherHidesLaterAnswers()
    ensures CacherCalls(NewCacher(FirstRun420), 3) == ([420, 420, 420], 1)
  {
    var c := NewCacher(FirstRun420);
    var c1 := Cacher(FirstRun420, 1, Some(420));
    assert CacherValue(c) == (c1, 420, true);
    CacherRunsAtMostOnce(c1, 2);
    var (vs, runs) := CacherCalls(c1, 2);
    assert vs == [420, 420] && runs == 0;
    assert CacherCalls(c, 3) == ([420] + vs, runs + 1);
    assert [420] + vs == [420, 420, 420];
  }
}
