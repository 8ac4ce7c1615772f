/** Helper datatypes shared by the model. */
module Wrappers {

  /** An optional value: "no match" for a search, "no generation call" for a reply, "no failure" for a loop. */
  datatype Option<+T> = None | Some(value: T)
}
