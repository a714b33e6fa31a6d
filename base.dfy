/** Failure-carrying results and the error kinds the graph library raises. */
module Base {

  datatype Option<+T> = None | Some(value: T)

  /** Java's `IllegalArgumentException` and the runtime exceptions the Java
      classes raise, as values. */
  datatype Error =
    | VertexOutOfRange(v: int)      // validateVertex
    | NegativeVertexCount           // "number of vertices ... must be non-negative"
    | NegativeEdgeCount             // "number of edges ... must be non-negative"
    | InvalidFormat                 // missing token in the token-stream constructor
    | NotRootedDag                  // "This isn't a rooted DAG"
    | NotANoun                      // "Both nouns must be in the network"
    | NullLookup                    // unboxing the null returned for an unknown noun
    | IndexOutOfBounds(i: int)      // array access with an out-of-range vertex id

  datatype Result<+T> = Ok(value: T) | Err(error: Error)

  /** The outcome of an operation that returns nothing (a Java `void` method). */
  datatype Outcome = Pass | Fail(error: Error)

  /** Java's Integer.MAX_VALUE, used by ShortestCommonAncestor.java and WordNet.java as "no candidate yet". */
  const IntMax: int := 0x7fff_ffff
}
