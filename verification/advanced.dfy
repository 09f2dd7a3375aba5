/** The `OptionMutExt` extension of `Option<T>` (`basics/src/advanced.rs`):
    `replace_with` swaps in a freshly computed value, but only when the
    option already holds one. The `&mut self` receiver becomes the pair of
    the option afterwards and the value returned. */
module Advanced {
  import opened Common

  /** The option after the call, the value the call returned, and whether
      the closure was run. */
  datatype Replaced<T> = Replaced(now: Option<T>, returned: Option<T>, ranClosure: bool)

  /** `replace_with(f)`: on `Some`, takes the old value out, stores `f()`
      and returns the old value; on `None`, returns `None` and leaves the
      option alone without calling `f`. */
  function ReplaceWith<T>(self: Option<T>, f: () -> T): (r: Replaced<T>)
    ensures r.returned == self
    ensures r.ranClosure <==> self.Some?
    ensures self.None? ==> r.now == None
    ensures self.Some? ==> r.now == Some(f())
  {
    if self.Some? then
      var result := self;
      Replaced(Some(f()), result, true)
    else
      Replaced(None, None, false)
  }

  /** `replace(val)`: `replace_with` on the closure that returns `val`, so on
      `None` nothing is stored. */
  function Replace<T>(self: Option<T>, val: T): (r: Replaced<T>)
    ensures r.returned == self
    ensures r.now == (if self.Some? then Some(val) else None)
  {
    ReplaceWith(self, () => val)
  }

  /** Replacing twice in a row returns the first replacement and keeps the
      second; on `None` both calls are no-ops. */
  lemma ReplaceTwice<T>(self: Option<T>, x: T, y: T)
    ensures var first := Replace(self, x);
      var second := Replace(first.now, y);
      && second.returned == (if self.Some? then Some(x) else None)
      && second.now == (if self.Some? then Some(y) else None)
  {
  }
}
