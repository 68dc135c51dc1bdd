/** Exceptions of the ledger, as values.

    Every `throw std::runtime_error(...)` of the ledger becomes a `Failure` carrying the
    kind of error it reports, so that callers of the model see the same failure paths
    as callers of the C++ code. */
module Results {

  datatype Error =
    | Unsigned            // "This transaction hasn't been signed yet!"
    | KeyRejected         // "Failed to verify transaction signature!" (author key unusable)
    | MalformedHex        // "Invalid hex string conversion!"
    | InsufficientFunds   // "Insufficient funds!"
    | InvalidTransaction  // a block refused a transaction
    | InvalidCoinbase     // a block or chain refused a coinbase transaction
    | InvalidBlock        // a chain refused to commit its current block
    | GenesisExists       // "Genesis block already exists!"
    | MiningUnfinished    // the nonce search used up its fuel (not a C++ error: it loops on)

  /** A value, or the error an operation threw instead of returning one. */
  datatype Result<+T> = Success(value: T) | Failure(error: Error) {

    predicate IsFailure() {
      Failure?
    }

    function PropagateFailure<U>(): Result<U>
      requires Failure?
    {
      Failure(error)
    }

    function Extract(): T
      requires Success?
    {
      value
    }
  }
}
