/** Option and Result values that every day's model shares. A `Fatal` result stands for
    the source's `fatalError` (or a trapping force-unwrap): the run stops with a message. */
module Wrappers {

  datatype Option<+T> = None | Some(value: T)

  datatype Result<+T> = Ok(value: T) | Fatal(message: string) {

    predicate IsFailure() {
      Fatal?
    }

    function PropagateFailure<U>(): Result<U>
      requires Fatal?
    {
      Fatal(message)
    }

    function Extract(): T
      requires Ok?
    {
      value
    }
  }

  /** The messages of the standard library's own traps. */
  const NilUnwrap := "Unexpectedly found nil while unwrapping an Optional value"
  const InvertedRange := "Range requires lowerBound <= upperBound"
  const EmptyRemoveFirst := "Can't remove first element from an empty collection"

  /** `items` followed by what a line-by-line parse of the remaining input gives; a fatal
      rest stays fatal. */
  function Prepend<T>(items: seq<T>, rest: Result<seq<T>>): Result<seq<T>> {
    if rest.Fatal? then Fatal(rest.message) else Ok(items + rest.value)
  }

  lemma PrependAppend<T>(items: seq<T>, more: seq<T>, rest: Result<seq<T>>)
    ensures Prepend(items, Prepend(more, rest)) == Prepend(items + more, rest)
  {
    if rest.Ok? {
      assert items + (more + rest.value) == items + more + rest.value;
    }
  }

  lemma PrependNothing<T>(rest: Result<seq<T>>)
    ensures Prepend([], rest) == rest
  {
    if rest.Ok? {
      assert [] + rest.value == rest.value;
    }
  }
}
