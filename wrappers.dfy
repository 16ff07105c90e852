/** Option and Result values for the error paths of the pipeline, and the
    failures its stages report when they stop. */
module Wrappers {

  datatype Option<+T> = None | Some(value: T)

  datatype Result<+T, +E> = Ok(value: T) | Err(error: E)

  /** Why a stage of the pipeline stops without a result. */
  datatype Failure =
    | InsufficientEntropy          // the draw file ran out before the entropy or lone-bit quota was met
    | InsufficientSeedEntropy      // the seed bound is too small for the requested prime size
    | InvalidPrimeInput            // a BBS prime or the field prime fails its structural check
    | NoCandidateFound(last: int)  // the bounded curve search used up its budget; last candidate number
    | NotPrime(n: int)             // an input of the prover fails the pseudo-primality test
    | MalformedDraw                // a draw line has fewer values than it declares
    | NoInverse                    // a modular inverse does not exist (the library raises)
    | AssertionFailed              // an assertion of the source fails at run time
    | OutOfFuel                    // the model's step bound for an unbounded search ran out
}
