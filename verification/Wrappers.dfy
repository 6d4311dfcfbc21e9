/** What several modules share. */
module Wrappers {

  /** Values that may be absent. The absent case stands for an error return or a recovered panic. */
  datatype Option<+T> = None | Some(value: T)

  /** The elements of a sequence. */
  ghost function Elements<T>(s: seq<T>): set<T> {
    set x | x in s
  }
}
