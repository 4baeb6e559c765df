/** `JSON.stringify` and `JSON.parse` applied to user records. Both are
    runtime built-ins outside the model, so they are supplied as a `Codec`
    value rather than defined here. */
module Json {
  import opened Wrappers
  import opened Users

  /** What `JSON.parse` does with a text: it throws (`Malformed`), or it
      yields `null` (`Parsed(None)`) or a user record (`Parsed(Some(u))`). */
  datatype Parse = Malformed | Parsed(value: Option<User>)

  datatype Codec = Codec(serialize: User -> string, parse: string -> Parse) {

    /** The serialization of a record is never the empty string (a JSON
        object text starts with a brace), and parsing it gives that record
        back. Both hold of the JSON built-ins for records whose fields are
        strings; the lemmas that need them take them as a hypothesis. */
    ghost predicate RoundTrips() {
      forall u :: serialize(u) != "" && parse(serialize(u)) == Parsed(Some(u))
    }
  }
}
