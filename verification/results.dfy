/** Failure-compatible wrappers shared by the registry model, and the errors
    the registry raises (each a `ValueError` in Jumanji's registry, told apart here
    by the check that raises it). */
module Results {

  datatype Option<+T> = None | Some(value: T)

  datatype Error =
    /** The identifier does not fully match the identifier pattern. */
    | MalformedId(id: string)
    /** A spec with this canonical identifier is already registered. */
    | AlreadyRegistered(id: string)
    /** A non-zero version of a name none of whose versions is registered. */
    | FirstVersionNotZero(version: nat)
    /** Lookup of an identifier with no spec; carries every registered
        identifier in registration order, as the message lists them. */
    | Unregistered(id: string, registered: seq<string>)
    /** An entry point that does not split into exactly two parts at ':'. */
    | MalformedEntryPoint(entryPoint: string)

  datatype Result<+T> = Ok(value: T) | Err(error: Error) {

    predicate IsFailure() {
      Err?
    }

    function PropagateFailure<U>(): Result<U>
      requires Err?
    {
      Err(error)
    }

    function Extract(): T
      requires Ok?
    {
      value
    }
  }
}
