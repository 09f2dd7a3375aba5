# A verified model of a hand-written `Vec<T>` and some list utilities

This project models, in Dafny, four pieces of a Rust learning repository:

- `nomicon/src/custom_vec.rs`, a growable vector built on a raw allocator
  following the Rustonomicon chapter "Implementing Vec". `RawVec` owns the
  capacity. `Vec` adds a length and provides `push`, `pop`, `insert`,
  `remove`, a slice view and a popping destructor. `RawValIter` is a
  two-cursor iterator. `IntoIter` and `Drain` are the two consuming
  iterators built on it.
- `basics/src/algorithm.rs`: `sublist`, which compares lists by contiguous
  windows, and `subset`, which compares their element sets.
- `basics/src/advanced.rs`: the `replace_with` / `replace` extension of `Option`.
- `basics/src/basic.rs`: `first_word_pos`, `first_word`, `Rect::can_hold`,
  `Rect::square`, `plus_one`, `largest`, `longest`, the `Counter` iterator and
  the memoising `NoArgsCacher`.

## How the vector is modelled

- Every operation is a pure function from the old state to the new one.
  Destructors that loop are methods that return what they dropped.
- A buffer's memory is a map from slot index to the value last written
  there. A slot that was never written is absent. `ptr::write` updates a
  slot. `ptr::read` looks a slot up and leaves it in place, as the bits
  stay in memory. `ptr::copy` is a memmove (`Raw.Copy`).
- `Vec.Valid()` is the invariant: `len <= cap <= usize::MAX`, slots
  `[0, len)` are written, and nothing is written at or beyond `cap`.
  For zero-sized elements `cap` is `usize::MAX`. For sized elements the
  allocation is at most `isize::MAX` bytes. The live sequence is
  `Deref(v)`, the slots `[0, len)`.
- The allocator's answer to `alloc` / `realloc` is the parameter `allocOk`.
  Each panic or abort is a `Failure` carrying a `Fault`:
  - `CapacityOverflow`: `grow` was reached with zero-sized elements.
  - `LayoutOverflow`: `Layout::array(..).unwrap()` failed.
  - `AllocFailure`: `handle_alloc_error` aborted.
  - `IndexOutOfBounds`: an index assertion in `insert` or `remove` failed.
- The target is 64-bit: `usize::MAX = 2^64 - 1` and `isize::MAX = 2^63 - 1`.
- Iterator cursors are slot indices. The source keeps `*const T` addresses, and for
  zero-sized elements it uses the address as a counter. Both reduce to an
  index that moves one slot per step. `size_hint` still divides a byte
  distance by the element size, or by 1 for zero-sized elements.
- `Vec::cap` is `CustomVec.Cap`, and `Default` is the same as `New`.

`Vec::drop` calls `pop` until the vector is empty (custom_vec.rs:161), so
values are dropped last to first. `CustomVec.Drop` states this: the dropped
sequence is the contents reversed.

## Model

| member | source | states |
|---|---|---|
| Raw.NewRawVec | nomicon/src/custom_vec.rs:15-22 | nothing is allocated and memory is empty; capacity is nonzero exactly for zero-sized elements, and then it is `usize::MAX` |
| Raw.Grow | nomicon/src/custom_vec.rs:24-58 | fails with "capacity overflow" exactly for zero-sized elements; succeeds iff the element is sized, the new layout fits and the allocator agrees; on success the capacity goes 0 to 1 or doubles, contents are kept and the invariant holds |
| Raw.Release | nomicon/src/custom_vec.rs:61-71 | memory is given back exactly when the allocation has a nonzero byte size (`cap != 0` and a sized element), and that byte size is what is given back |
| Raw.Copy | nomicon/src/custom_vec.rs:127-131 | memmove: each destination slot gets the value its source slot held before the move, and every other slot is unchanged |
| CustomVec.New | nomicon/src/custom_vec.rs:87-92 | an empty, valid vector whose capacity is 0, or `usize::MAX` for zero-sized elements |
| CustomVec.Deref | nomicon/src/custom_vec.rs:165-170 | the slice view has exactly `len` elements |
| CustomVec.Cap | nomicon/src/custom_vec.rs:83-85 | `cap()` of a valid vector is at least its length and at most `usize::MAX` |
| CustomVec.WriteSlot | nomicon/src/custom_vec.rs:101 | `ptr::write`: slot `i` holds `e` afterwards, every other slot keeps its value, and the buffer's capacity is unchanged |
| CustomVec.Reserve | nomicon/src/custom_vec.rs:95-97 | grows only when `len == cap`; afterwards there is room for one more value, and the capacity is unchanged if there was room already |
| CustomVec.Push | nomicon/src/custom_vec.rs:94-105 | contents become `old + [elem]`; fails only if the buffer was full and could not grow; capacity changes only when the buffer was full |
| CustomVec.Pop | nomicon/src/custom_vec.rs:107-117 | on an empty vector returns `None` and changes nothing; otherwise returns the last value and leaves `old[..len-1]`; capacity never changes |
| CustomVec.Insert | nomicon/src/custom_vec.rs:119-136 | `index > len` panics "index out of bounds"; otherwise contents become `old[..index] + [elem] + old[index..]`; fails only if a full buffer cannot grow |
| CustomVec.InsertInto | nomicon/src/custom_vec.rs:125-135 | moving the tail up one slot and writing at `index` gives the inserted sequence and keeps the invariant |
| CustomVec.ShiftUp | nomicon/src/custom_vec.rs:126-132 | after the move, slots below `index` are unchanged and each slot in `(index, len]` holds the value from one slot below |
| CustomVec.InsertLayout | nomicon/src/custom_vec.rs:126-134 | after the move and the write, slots `[0, len]` read `old[..index] + [elem] + old[index..]` |
| CustomVec.InsertedMem | nomicon/src/custom_vec.rs:126-133 | the memory after `insert`'s move and write: `elem` at `index`, each slot in `(index, len]` holds the value from one slot below, and every other slot is unchanged |
| CustomVec.InsertedMemLayout | nomicon/src/custom_vec.rs:125-134 | the memory after `insert` has slots `[0, len]` filled with the inserted sequence and nothing at or beyond the capacity |
| CustomVec.Remove | nomicon/src/custom_vec.rs:138-150 | fails with "index out of bounds" exactly when `index >= len`; otherwise returns `old[index]`, leaves `old[..index] + old[index+1..]` and keeps the capacity |
| CustomVec.RemoveLayout | nomicon/src/custom_vec.rs:141-147 | after the move, slots `[0, len-1)` read the old sequence without the value at `index`, and nothing is written at or beyond the capacity |
| CustomVec.Drop | nomicon/src/custom_vec.rs:159-163 | drops every live value exactly once, last to first, then frees the buffer iff it holds a nonzero allocation |
| Iter.NewIter | nomicon/src/custom_vec.rs:185-196 | the new iterator's remaining values are the slice it was built from |
| Iter.Next | nomicon/src/custom_vec.rs:201-215 | returns `None` exactly when the cursors have met, and then changes nothing; otherwise returns the front value, and the remaining values lose their first element |
| Iter.NextBack | nomicon/src/custom_vec.rs:226-239 | returns `None` exactly when the cursors have met; otherwise returns the back value, and the remaining values lose their last element |
| Iter.SizeHint | nomicon/src/custom_vec.rs:217-222 | the byte distance divided by the stride is the exact number of remaining values, for both bounds |
| Iter.ByteDistance | nomicon/src/custom_vec.rs:219-220 | dividing the byte distance between two cursors by the stride gives their distance in slots |
| Iter.SizeHintIsExact | nomicon/src/custom_vec.rs:199-222 | calling `next` as many times as the hint says returns the remaining values in order, and the next call returns `None` |
| Iter.DriveTakesEachOnce | nomicon/src/custom_vec.rs:199-240 | for any mix of `next` and `next_back`, the front values, the untouched middle and the back values (reversed) are the original values; each call made while values remain returns one |
| Iter.ExhaustedDriveTakesAll | nomicon/src/custom_vec.rs:199-240 | once there have been at least as many calls as values, the front values followed by the reversed back values are exactly the original values |
| Iter.Exhaust | nomicon/src/custom_vec.rs:263-268 | the drop loop `for _ in iter {}` takes every remaining value, front to back |
| CustomVec.IntoIterOf | nomicon/src/custom_vec.rs:270-281 | the iterator owns the vector's buffer unchanged and will return the vector's contents |
| CustomVec.IntoIterNext | nomicon/src/custom_vec.rs:247-251 | forwards to the inner iterator: the front value, or `None` exactly when nothing remains; the buffer is untouched |
| CustomVec.IntoIterNextBack | nomicon/src/custom_vec.rs:257-261 | the back value, or `None` exactly when nothing remains; the buffer is untouched |
| CustomVec.IntoIterSizeHint | nomicon/src/custom_vec.rs:252-254 | the exact number of remaining values, for both bounds |
| CustomVec.DropIntoIter | nomicon/src/custom_vec.rs:263-268 | drops the values not yet returned, front to back, then frees the buffer iff it holds a nonzero allocation |
| CustomVec.DrainOf | nomicon/src/custom_vec.rs:311-322 | the vector's length becomes 0 while its buffer and capacity stay; the drain will return the former contents |
| CustomVec.DrainNext | nomicon/src/custom_vec.rs:289-293 | the front value, or `None` exactly when nothing remains |
| CustomVec.DrainNextBack | nomicon/src/custom_vec.rs:299-303 | the back value, or `None` exactly when nothing remains |
| CustomVec.DrainSizeHint | nomicon/src/custom_vec.rs:294-296 | the exact number of remaining values, for both bounds |
| CustomVec.DropDrain | nomicon/src/custom_vec.rs:305-309 | drops the values not yet returned, front to back, and frees nothing |
| VecLaws.PushThenPop | nomicon/src/custom_vec.rs:94-117 | popping right after a successful push returns the pushed value and restores the old contents and length |
| VecLaws.InsertThenRemove | nomicon/src/custom_vec.rs:119-150 | an insert at `index <= len` succeeds when there is room or the buffer can grow; removing at `index` afterwards returns the inserted value and restores the old contents |
| VecLaws.PushAll | nomicon/src/custom_vec.rs:94-105 | pushing values one by one keeps the invariant and the element size |
| VecLaws.PushAllAppends | nomicon/src/custom_vec.rs:94-105 | after successful pushes, slot `i` holds the `i`-th pushed value: contents are `old + xs` |
| VecLaws.PushAllSplit | nomicon/src/custom_vec.rs:94-105 | a successful run of pushes can be cut after any `k` values: the first `k` pushes succeed, and the rest continue from there to the same result |
| VecLaws.PushKeepsDoublingShape | nomicon/src/custom_vec.rs:32-44 | one push keeps the capacity at the smallest power of two that holds the length (0 when empty) |
| VecLaws.PushAllKeepsDoublingShape | nomicon/src/custom_vec.rs:94-97 | any run of successful pushes keeps that shape |
| VecLaws.CapacityDoubles | nomicon/src/custom_vec.rs:32-44 | for sized elements, after `n` successful pushes from `new` the capacity is 0 if `n = 0`, else the smallest power of two that is at least `n` |
| VecLaws.Pow2Gap | nomicon/src/custom_vec.rs:36 | two different powers of two differ by at least a factor of two |
| VecLaws.DoublingShapeUnique | nomicon/src/custom_vec.rs:32-44 | the doubling policy allows only one capacity for a given length |
| VecLaws.TenPushesReachSixteen | nomicon/src/custom_vec.rs:32-44 | during ten successful pushes from `new`, the capacity after each push is 0, 1, 2, 4, 4, 8, 8, 8, 8, 16, 16 (before the first push, then after each one) |
| VecLaws.DrainLeavesCapacityReusable | nomicon/src/custom_vec.rs:311-322 | after a drain with nonzero capacity, the next push cannot fail, keeps the capacity and gives contents `[e]` |
| VecLaws.ZeroSizedNeverAllocates | nomicon/src/custom_vec.rs:15-30 | with zero-sized elements the capacity is `usize::MAX` and nothing is freed; a push below that length always succeeds without changing capacity; a push at that length fails with "capacity overflow" |
| VecLaws.IntoIterTakesEachOnce | nomicon/src/custom_vec.rs:270-281 | for any mix of `next` and `next_back` on `into_iter` with at least `len` calls, the front values then the reversed back values are the vector's contents, and nothing remains |
| Algorithm.Windows | basics/src/algorithm.rs:18 | `windows(size)` yields `len - size + 1` windows (none if `size > len`), and window `i` is `s[i..i+size]` |
| Algorithm.HasRun | basics/src/algorithm.rs:18 | "empty, or equal to some window" holds exactly when `short` is a contiguous run of `long` |
| Algorithm.SublistCompare | basics/src/algorithm.rs:11-27 | `Equal` iff the lists are equal; `Superlist` iff `a` is longer and `b` is a contiguous run of `a`; `Sublist` iff `a` is shorter and a contiguous run of `b`; otherwise `Unequal` (including equal lengths with different elements) |
| Algorithm.SublistMirrors | basics/src/algorithm.rs:17-24 | `sublist(a, b) == Sublist` iff `sublist(b, a) == Superlist`, and `Equal` is symmetric |
| Algorithm.MarkA | basics/src/algorithm.rs:37 | the collected map has exactly the elements of `a` as keys, each marked `OnlyA` |
| Algorithm.MarkBAsWritten | basics/src/algorithm.rs:39-42 | as written, every element of `b` ends up marked `Both`; the other keys keep their marks |
| Algorithm.Classify | basics/src/algorithm.rs:44-51 | the answer is `Equal` or `Sublist` exactly when no entry is `OnlyA`, and `Equal` or `Superlist` exactly when no entry is `OnlyB` |
| Algorithm.SubsetAsWritten | basics/src/algorithm.rs:36-51 | `subset` as written can only answer `Equal` or `Superlist` |
| Algorithm.SubsetAsWrittenIgnoresB | basics/src/algorithm.rs:36-51 | as written, `subset` returns `Equal` iff set(a) ⊆ set(b) and `Superlist` otherwise, so it never returns `Sublist` or `Unequal` |
| Algorithm.SubsetAsWrittenCounterexample | basics/src/algorithm.rs:39-42 | as written, `subset([1], [1, 2])` is `Equal` where `Sublist` is meant, and `subset([1], [2])` is `Superlist` where `Unequal` is meant |
| Algorithm.MarkB | basics/src/algorithm.rs:39-42 | corrected pass over `b`: keys are the old keys plus the elements of `b`; no element of `b` is left `OnlyA`; entries not in `b` are unchanged |
| Algorithm.MarkBRecords | basics/src/algorithm.rs:39-42 | the corrected pass over `b` marks each element `OnlyA`, `OnlyB` or `Both` by which lists contain it |
| Algorithm.ClassifyRecords | basics/src/algorithm.rs:44-45 | with those marks, some entry is `OnlyA` iff set(a) ⊄ set(b), and some entry is `OnlyB` iff set(b) ⊄ set(a) |
| Algorithm.SubsetCompare | basics/src/algorithm.rs:36-51 | corrected `subset`: `Equal` iff set(a) = set(b); `Sublist` iff set(a) ⊂ set(b); `Superlist` iff set(b) ⊂ set(a); `Unequal` iff neither set contains the other |
| Algorithm.SubsetIgnoresOrderAndRepeats | basics/src/algorithm.rs:37-45 | lists with the same element sets get the same answer, so reordering or repeating elements changes nothing |
| Advanced.ReplaceWith | basics/src/advanced.rs:32-39 | returns the old option; the closure runs iff the option is `Some`; afterwards the option is `Some(f())` if it was `Some` and `None` otherwise |
| Advanced.Replace | basics/src/advanced.rs:28-30 | returns the old option; stores `val` only if the option was `Some`, so a `None` stays `None` |
| Advanced.ReplaceTwice | basics/src/advanced.rs:28-39 | two replaces in a row return the first value stored and keep the second; on `None` both do nothing |
| Basic.FirstWordPos | basics/src/basic.rs:120-128 | the index of the first space byte, or `s.len()` when there is none; no byte before it is a space |
| Basic.FirstWord | basics/src/basic.rs:130-139 | a prefix of `s` that contains no space and ends at the first space or at the end of `s` |
| Basic.FirstSpaceUnique | basics/src/basic.rs:120-128 | only one position can end the first word |
| Basic.FirstWordIsPrefixToPos | basics/src/basic.rs:120-139 | `first_word(s)` equals `s[0..first_word_pos(s)]` |
| Basic.Square | basics/src/basic.rs:200-205 | `Rect::square(n)` has width and height `n` |
| Basic.CanHold | basics/src/basic.rs:195-197 | a rectangle that holds another has positive width and height and differs from it |
| Basic.CanHoldIsStrictOrder | basics/src/basic.rs:195-197 | `can_hold` is irreflexive (so `r.can_hold(r)` is false), asymmetric and transitive |
| Basic.SquareHoldsSmaller | basics/src/basic.rs:195-205 | `square(n)` holds `square(m)` iff `n > m` |
| Basic.PlusOne | basics/src/basic.rs:294-299 | `None` maps to `None`; `Some(i)` maps to the `Some` one greater than `i` |
| Basic.PlusOneTwice | basics/src/basic.rs:294-299 | applying it twice adds two, and two inputs (`None` included) never map to the same output |
| Basic.Largest | basics/src/basic.rs:585-594 | for a non-empty list, returns an element of the list that is at least every element |
| Basic.Longest | basics/src/basic.rs:634-641 | returns one of its arguments, at least as long as both; on equal lengths returns `y` |
| Basic.CounterNext | basics/src/basic.rs:831-839 | every call increments the count; the call returns `Some(count)` iff the old count is below 5 |
| Basic.NewCounter | basics/src/basic.rs:822-826 | a new counter's first `next` yields 1 |
| Basic.CounterYieldsOneToFive | basics/src/basic.rs:818-839 | a counter yields the numbers after its count up to 5 before its first `None`, so a fresh counter yields 1, 2, 3, 4, 5 |
| Basic.CounterStaysExhausted | basics/src/basic.rs:831-839 | once the count is 5 or more, every call returns `None` |
| Basic.CounterPipelineSumsTo18 | basics/src/basic.rs:842-850 | the zip / skip / map / filter / sum pipeline of the test sums to 18 |
| Basic.NewCacher | basics/src/basic.rs:699-704 | a new cacher has nothing cached and has not run its calculation |
| Basic.CacherValue | basics/src/basic.rs:706-715 | with a cached value, returns it and changes nothing; otherwise runs the calculation once, returns that run's answer and caches it; the calculation runs iff nothing was cached |
| Basic.CacherRunsAtMostOnce | basics/src/basic.rs:706-715 | over any number of calls the calculation runs at most once, and not at all once a value is cached; every call returns the cached value or, when nothing was cached, that one run's answer, even if later runs would answer differently |
| Basic.CacherHidesLaterAnswers | basics/src/basic.rs:706-715 | for a calculation that answers 420 first and 7 afterwards, three calls return 420, 420, 420 and run it once |

## Findings

| source | as written | input that shows it | evidently intended | confidence | as-written member | corrected member |
|---|---|---|---|---|---|---|
| basics/src/algorithm.rs:39-42 | every element of `b` is marked `Both` (`or_insert(OnlyB)` followed by `*e = Both`), so no entry is ever `OnlyB` and `subset` returns only `Equal` or `Superlist` | `subset(&[1], &[1, 2])` returns `Equal`; `subset(&[1], &[2])` returns `Superlist` | an element first seen in `b` stays `OnlyB`, and only an `OnlyA` entry becomes `Both`, so the result compares the two element sets (`Sublist` and `Unequal` are then 2 and 4 of `Comparison`) | high (not executed) | Algorithm.SubsetAsWrittenCounterexample | Algorithm.SubsetCompare |

## Left out

- Real allocation: `Global.alloc` / `realloc` / `dealloc`, `Layout`, `Unique` / `NonNull`, `PhantomData`, and `Vec::ptr`. The allocator's answer is a parameter, and memory is a map from slot index to value.
- Alignment padding in `Layout::array`: a layout is taken to fit when `n * size <= isize::MAX`.
- Raw.Grow: `2 * self.cap` is not checked for `usize` overflow. Under the buffer invariant the old capacity is at most `isize::MAX`, so the product fits.
- `DerefMut`: the mutable slice view is the same sequence as `Deref`. Writes through it are not modelled.
- Address arithmetic wrap-around: cursors and addresses are unbounded naturals. Wrap-around would need a zero-sized vector holding `usize::MAX` values.
- Drop order across owners: dropping is modelled as the sequence of values dropped. Destructor side effects and the move-without-drop of `mem::forget` in `into_iter` are not modelled. `IntoIterOf` passes the buffer on and never calls `Drop`.
- The side effects of the `NoArgsCacher` closure, such as printing and sleeping in its one use (basic.rs:721-725). Only its answers are modelled: the `k`-th run returns `calculation(k)`, so successive runs may differ.
- Algorithm.SublistCompare: `T: PartialEq` is modelled by Dafny's equality, which is reflexive. For a type whose `==` is not reflexive, such as `f64` with NaN, `sublist(&[NaN], &[NaN])` returns `Unequal`. The model answers `Equal`.
- Basic.Largest: `T: PartialOrd + Copy` is modelled on integers. A partial order such as floating point with NaN is not covered.
- Basic.PlusOne: the `i32` addition's overflow panic is a precondition. Wrapping in release builds is not modelled.
- Basic.CounterNext: the `u32` increment's overflow panic after about four billion calls is a precondition. Wrapping in release builds is not modelled.
- `Rect::area`: it is not modelled because its `u32` multiplication can overflow.
- The rest of `basic.rs`: threads, file I/O, floating point and printing-only code.
- Other crates in the repository: game rendering, the async executor, the `Cell` tests and macros are outside the modelled components.
