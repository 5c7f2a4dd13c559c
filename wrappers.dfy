/** Failure-carrying wrappers shared by the key codec and the trie. */
module Wrappers {

  /** Rust's `Option`: an absent or present value. */
  datatype Option<T> = None | Some(value: T)

  /** The result of an operation that the source ends with `.expect(msg)`:
      `Err(msg)` stands for the panic with that message. */
  datatype Outcome<T> = Ok(value: T) | Err(message: string)
}
