/** Optional values, the ledger's failure kinds, and results that carry one or the other. */
module Results {

  /** A value that may be absent: JavaScript's `null` / `undefined`, or a `NaN` from parsing. */
  datatype Option<+T> = None | Some(value: T)

  /** The ways an operation of the ledger ends without a value. */
  datatype Failure =
    | ChallengeExpired    // submitStar: five minutes or more since the challenge was issued
    | NotVerified         // submitStar: the signature does not verify
    | BlockNotFound       // getBlockByHash: no block carries the hash
    | MissingPredecessor  // validateChain: the block at index 0 asks for the hash of chain[-1]; its promise never settles

  /** What a promise of the ledger settles with: a value, or the failure it rejects with. */
  datatype Result<+T> = Ok(value: T) | Err(failure: Failure)
}
