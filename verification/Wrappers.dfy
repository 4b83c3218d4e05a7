/** Values that may be missing, and outcomes that may fail. */
module Wrappers {
  datatype Option<+T> = None | Some(value: T)

  /** The result of an operation that the source leaves by throwing when it fails. */
  datatype Outcome<+T> = Done(value: T) | Failed {
    predicate IsFailure() { Failed? }
    function PropagateFailure<U>(): Outcome<U>
      requires Failed?
    {
      Failed
    }
    function Extract(): T
      requires Done?
    {
      value
    }
  }

  /** The same for operations without a result. */
  datatype Status = Fine | Thrown {
    predicate IsFailure() { Thrown? }
    function PropagateFailure(): Status
      requires Thrown?
    {
      Thrown
    }
  }

  /** A list read so far, and what reading the rest gives. */
  function Then<T>(xs: seq<T>, rest: Outcome<(seq<T>, nat)>): Outcome<(seq<T>, nat)> {
    match rest
    case Failed => Failed
    case Done(v) => Done((xs + v.0, v.1))
  }

  lemma ThenNone<T>(rest: Outcome<(seq<T>, nat)>)
    ensures Then([], rest) == rest
  {
    assert rest.Done? ==> [] + rest.value.0 == rest.value.0;
  }

  lemma ThenNext<T>(xs: seq<T>, x: T, rest: Outcome<(seq<T>, nat)>)
    ensures Then(xs, Then([x], rest)) == Then(xs + [x], rest)
  {
    assert rest.Done? ==> xs + ([x] + rest.value.0) == xs + [x] + rest.value.0;
  }
}
