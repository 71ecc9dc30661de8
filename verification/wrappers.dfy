/** Failure-compatible wrappers: Java's `null` becomes `None`, a thrown exception `Failure`. */
module Wrappers {

  datatype Option<+T> = None | Some(value: T) {
    predicate IsFailure() { None? }

    function PropagateFailure<U>(): Option<U>
      requires None?
    {
      None
    }

    function Extract(): T
      requires Some?
    {
      value
    }
  }

  datatype Result<+T, +E> = Success(value: T) | Failure(error: E) {
    predicate IsFailure() { Failure? }

    function PropagateFailure<U>(): Result<U, E>
      requires Failure?
    {
      Failure(error)
    }

    function Extract(): T
      requires Success?
    {
      value
    }
  }

  /** The last element, or None for the empty sequence: what a Java variable assigned in a loop over `s` holds after it. */
  function LastOf<T>(s: seq<T>): (r: Option<T>)
    ensures r.None? <==> s == []
    ensures r.Some? ==> r.value == s[|s| - 1]
  {
    if s == [] then None else Some(s[|s| - 1])
  }

  /** The last element of a concatenation comes from its second part unless that is empty. */
  lemma LastOfConcat<T>(a: seq<T>, b: seq<T>)
    ensures LastOf(a + b) == if b == [] then LastOf(a) else LastOf(b)
  {
    if b == [] {
      assert a + b == a;
    }
  }

  /** A log that grew by `t` after growing by `s` grew by `s + t`. */
  lemma ConcatAssoc<T>(log: seq<T>, base: seq<T>, s: seq<T>, t: seq<T>)
    requires log == (base + s) + t
    ensures log == base + (s + t)
  {
  }

  /** A log that grew by nothing is unchanged. */
  lemma ConcatEmpty<T>(log: seq<T>, base: seq<T>, t: seq<T>)
    requires log == base + t && |t| == 0
    ensures log == base
  {
    assert t == [];
    assert base + [] == base;
  }
}
