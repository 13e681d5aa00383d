/** The usual optional value, shared by the trie and the matcher. */
module Options {
  datatype Option<T> = None | Some(value: T)
}
