/** The two JavaScript value shapes the selection logic branches on: a
    nullable value, and the truthiness of a nullable string. */
module Nullable {

  /** `T | null`: `None` stands for JavaScript's `null`. */
  datatype Option<+T> = None | Some(value: T)

  /** JavaScript truthiness of a `string | null`: `null` and the empty
      string are falsy, every other string is truthy. */
  predicate Truthy(s: Option<string>) {
    s.Some? && s.value != ""
  }
}
