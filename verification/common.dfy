/** Shared vocabulary: optional values, fallible results, the integer limits
    of a 64-bit Rust target and two small sequence helpers. */
module Common {

  /** Rust's `Option<T>`. */
  datatype Option<+T> = None | Some(value: T)

  /** The outcome of an operation that may panic or abort. */
  datatype Result<+R, +E> = Success(value: R) | Failure(error: E)

  /** `usize::MAX` and `isize::MAX` on a 64-bit target. */
  const USIZE_MAX: nat := 0xFFFF_FFFF_FFFF_FFFF
  const ISIZE_MAX: nat := 0x7FFF_FFFF_FFFF_FFFF

  type u8 = x: int | 0 <= x < 0x100
  type u32 = x: int | 0 <= x < 0x1_0000_0000
  type i32 = x: int | -0x8000_0000 <= x < 0x8000_0000

  const U32_MAX: u32 := 0xFFFF_FFFF
  const I32_MAX: i32 := 0x7FFF_FFFF

  /** The set of values occurring in a sequence. */
  function Elems<T>(s: seq<T>): set<T> {
    set x | x in s
  }

  /** The sequence read back to front. */
  function Reversed<T>(s: seq<T>): (r: seq<T>)
    ensures |r| == |s|
    ensures forall i :: 0 <= i < |s| ==> r[i] == s[|s| - 1 - i]
  {
    if s == [] then [] else Reversed(s[1..]) + [s[0]]
  }
}
