/** Definitions shared by the three modules. */
module Common {

  /** A value that may be absent: a pandas null, a failed match, a pass with nothing to pick. */
  datatype Option<T> = None | Some(value: T)

  lemma AppendAssociates<T>(a: seq<T>, b: seq<T>, c: seq<T>)
    ensures a + (b + c) == (a + b) + c
  {
  }
}
