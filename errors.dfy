/** The errors an escrow instruction can end with. */
module Errors {

  datatype Error =
    // Anchor's account validation
    | AccountNotSigner          // an account declared `Signer` did not sign the transaction
    | AccountNotInitialized     // a referenced account does not exist, or is not of the declared kind
    | AccountAlreadyInUse       // `init` on an address that already holds an account
    | ConstraintSeeds           // a supplied address differs from the one derived from the seeds
    | ConstraintHasOne          // `has_one`: the record's field differs from the supplied account
    | ConstraintRaw             // an explicit `constraint = ...` is false
    | ConstraintAssociated      // a token account is not the associated account of the wallet and mint
    // the token program
    | InsufficientFunds         // the source holds less than the amount
    | MintMismatch              // source and destination hold different mints
    | OwnerMismatch             // the authority is not the owner of the account
    | MissingRequiredSignature  // the authority did not sign
    | Overflow                  // the destination balance would leave the u64 range
    | NonNativeHasBalance       // closing a token account that still holds tokens
}
