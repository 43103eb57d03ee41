/** Optional values, used wherever the original code relies on a
    not-a-number or an uninitialised double to mean "no value". */
module Options {

  datatype Option<+T> = None | Some(value: T)

  /** Sum of two optional reals: defined only when both operands are. */
  function Plus(a: Option<real>, b: Option<real>): (r: Option<real>)
    ensures r.Some? <==> a.Some? && b.Some?
    ensures r.Some? ==> r.value == a.value + b.value
  {
    if a.Some? && b.Some? then Some(a.value + b.value) else None
  }

  lemma PlusAssociative(a: Option<real>, b: Option<real>, c: Option<real>)
    ensures Plus(Plus(a, b), c) == Plus(a, Plus(b, c))
  {
  }
}
