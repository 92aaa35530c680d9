/**
 * The JSON collaborator (Newtonsoft's JsonConvert) as an abstract pair of
 * functions. The encoding itself is not modelled: a converter is any pair of
 * functions, and `None` stands for the exception either direction may throw
 * (a reference loop while serialising, a malformed payload while reading).
 */
module Json {
  import opened Wrappers

  datatype JsonConvert<!T> = JsonConvert(
    serialize: T -> Option<string>,
    deserialize: string -> Option<T>)

  /**
   * The round-trip assumption: whatever serialises reads back as itself.
   * Nothing in the model assumes this; lemmas that need it take it as a
   * precondition.
   */
  ghost predicate RoundTrips<T(!new)>(json: JsonConvert<T>)
  {
    forall v :: json.serialize(v).Some? ==> json.deserialize(json.serialize(v).value) == Some(v)
  }
}
