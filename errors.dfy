/** The ways an instruction of the escrow program can fail, and the result of one that may fail. */
module Errors {

  datatype Error =
    | AccountNotInitialized     // Anchor: an account the instruction reads does not exist
    | AccountAlreadyInUse       // system program: `init` at an address that already holds an account
    | ConstraintAddress         // Anchor: an `address = …` constraint does not hold
    | NoViableBump              // no bump seed turns the seeds into a program address
    | MissingRequiredSignature  // the escrow's signer seeds do not derive the escrow's address
    | InsufficientFunds         // token program: the source holds less than the amount
    | MintMismatch              // token program: source and destination hold different mints

  datatype Result<+T> = Ok(value: T) | Err(error: Error)
}
