/** What several modules share. */
module Wrappers {
  datatype Option<T> = None | Some(value: T)

  /** s is the end of t. */
  ghost predicate IsSuffix<T>(s: seq<T>, t: seq<T>) {
    |s| <= |t| && s == t[|t| - |s|..]
  }
}
