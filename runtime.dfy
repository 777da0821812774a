/**
 * The ledger the escrow program runs against: the mints, every token account and every escrow
 * record, each by address. An instruction is one transaction that either commits a new ledger
 * or fails and leaves the ledger as it was.
 */
module Runtime {
  import opened Keys
  import opened Token
  import opened EscrowRecord

  datatype Chain = Chain(mints: set<Pubkey>, tokens: TokenMap, escrows: map<Pubkey, EscrowState>)

  /** An account of some kind already exists at `at`. */
  predicate InUse(c: Chain, at: Pubkey) {
    at in c.tokens || at in c.escrows
  }

  /** `at` is the associated token account of `wallet` for `mint` and holds that mint for that owner. */
  predicate IsAssociated(c: Chain, at: Pubkey, wallet: Pubkey, mint: Pubkey) {
    && at == AssociatedTokenAddress(wallet, mint)
    && at in c.tokens
    && c.tokens[at].mint == mint
    && c.tokens[at].owner == wallet
  }

  /** The record at `at` sits at its initializer's state address, and that initializer's vault
      holds exactly the locked amount of mint A under the record's authority. */
  predicate Paired(c: Chain, at: Pubkey)
    requires at in c.escrows
  {
    var record := c.escrows[at];
    && at == StateAddress(record.initializer)
    && VaultAddress(record.initializer) in c.tokens
    && c.tokens[VaultAddress(record.initializer)] == TokenAccount(record.mintA, at, record.initializerAmount)
  }

  /** The invariant every instruction keeps. */
  ghost predicate Valid(c: Chain) {
    // every record is paired with its vault
    && (forall at :: at in c.escrows ==> Paired(c, at))
    // every vault belongs to an open record
    && (forall k :: VaultAddress(k) in c.tokens ==> StateAddress(k) in c.escrows)
    // no token account sits at a state address
    && (forall k :: StateAddress(k) !in c.tokens)
    // an associated token account holds its own mint for its own wallet
    && (forall w, m :: AssociatedTokenAddress(w, m) in c.tokens ==>
          c.tokens[AssociatedTokenAddress(w, m)].mint == m && c.tokens[AssociatedTokenAddress(w, m)].owner == w)
  }

  /** The signers of a token-program call the escrow program makes for an escrow's vault: the
      transaction's signers, plus the record's address, for which the program signs with the
      seeds `["state", initializer]`. */
  function ProgramSigners(signers: set<Pubkey>, initializer: Pubkey): set<Pubkey> {
    signers + {StateAddress(initializer)}
  }
}
