/** Small sum types shared by every module of the model. */
module Wrappers {
  /** A value that may be missing (Python's `None`). */
  datatype Option<T> = None | Some(value: T)

  /** The outcome of an operation that raises in the source. */
  datatype Result<T> = Ok(value: T) | Err(error: Error)

  /** The exceptions the modelled code can raise. */
  datatype Error =
    | KeyError(key: string)        // a dict lookup with a missing key
    | NodeNotFound(node: string)   // a graph query about a node the graph lacks: networkx raises
                                   // NodeNotFound from its path searches and NetworkXError from
                                   // `predecessors`; the model does not tell the two apart
    | IndexError(index: int)       // a list index out of range
    | EmptySequence                // `min` of an empty collection
    | NotUnique(count: nat)        // an `assert len(res) == 1` that fails
    | TypeError                    // an operation on `None`
}
