/** Types shared by the crowdfunding and token-vendor models. */
module Common {

  /** An Ethereum account (an externally owned account or a contract). */
  type Address = nat

  /** One ether, in wei. */
  const Ether: nat := 1_000_000_000_000_000_000

  /** A value that may be absent. */
  datatype Option<T> = None | Some(value: T)

  /** The outcome of a call that returns nothing: it either succeeds or reverts with an error. */
  datatype Outcome<E> = Pass | Fail(error: E)

  /** The outcome of a call that returns a value or reverts with an error. */
  datatype Result<T, E> = Ok(value: T) | Err(error: E)
}
