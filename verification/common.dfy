/**
 Small failure-compatible wrappers shared by every store.

 The storage layer never raises for missing data (an absent row is `None`),
 but it does surface two kinds of programming error to its caller: a
 one-row lookup that finds several rows, and an overflow hook that is called
 while none has been registered.
 */
module Common {

  datatype Option<T> = None | Some(value: T)

  /** The failures the storage layer lets escape to its caller. */
  datatype Error =
      /** `one_or_none` found more than one matching row. */
    | MultipleRowsFound
      /** A queue overflowed while its table-full hook was still unset, so the
          store called `None`. */
    | HookNotCallable

  datatype Result<T> = Ok(value: T) | Err(error: Error) {

    predicate IsFailure() {
      Err?
    }

    function PropagateFailure<U>(): Result<U>
      requires Err?
    {
      Err(error)
    }

    function Extract(): T
      requires Ok?
    {
      value
    }
  }
}
