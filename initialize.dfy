/**
 * The `initialize` instruction: opens an escrow. It creates the record at the initializer's
 * state address and the vault at the initializer's vault address, fills in the record, and
 * moves `initializerAmount` of mint A from the initializer's associated account into the vault.
 */
module InitializeContext {
  import opened Wrappers
  import opened Errors
  import opened Keys
  import opened Token
  import opened EscrowRecord
  import opened Runtime

  /** The accounts the caller passes, by address. */
  datatype Accounts = Accounts(
    initializer: Pubkey,
    taker: Pubkey,
    mintA: Pubkey,
    mintB: Pubkey,
    initializerAtaA: Pubkey,
    escrowState: Pubkey,
    vault: Pubkey)

  /**
   * Anchor's validation of the accounts, in the order it runs: the initializer signs; both mints
   * and the source token account exist; each `init` account is at its derived address and that
   * address is still free; the source is the initializer's associated account for mint A.
   * The taker is not checked at all, and neither amount is.
   */
  function Constraints(c: Chain, signers: set<Pubkey>, a: Accounts): (r: Outcome<Error>)
    ensures a.initializer !in signers ==> r == Fail(AccountNotSigner)
    ensures r.Pass? <==>
      && a.initializer in signers && a.mintA in c.mints && a.mintB in c.mints
      && a.escrowState == StateAddress(a.initializer) && !InUse(c, a.escrowState)
      && a.vault == VaultAddress(a.initializer) && !InUse(c, a.vault)
      && IsAssociated(c, a.initializerAtaA, a.initializer, a.mintA)
  {
    if a.initializer !in signers then Fail(AccountNotSigner)
    else if a.mintA !in c.mints || a.mintB !in c.mints then Fail(AccountNotInitialized)
    else if a.initializerAtaA !in c.tokens then Fail(AccountNotInitialized)
    else if a.escrowState != StateAddress(a.initializer) then Fail(ConstraintSeeds)
    else if InUse(c, a.escrowState) then Fail(AccountAlreadyInUse)
    else if a.vault != VaultAddress(a.initializer) then Fail(ConstraintSeeds)
    else if InUse(c, a.vault) then Fail(AccountAlreadyInUse)
    else if !IsAssociated(c, a.initializerAtaA, a.initializer, a.mintA) then Fail(ConstraintAssociated)
    else Pass
  }

  /** The record the handler writes. */
  function NewRecord(a: Accounts, initializerAmount: u64, takerAmount: u64): EscrowState {
    EscrowState(a.initializer, a.taker, initializerAmount, takerAmount, a.mintA, a.mintB)
  }

  /** The vault `init` creates: empty, for mint A, with the record's address as its authority. */
  function NewVault(a: Accounts): TokenAccount {
    TokenAccount(a.mintA, a.escrowState, 0)
  }

  /** The whole transaction: validation, account creation, the handler, and the lock transfer. */
  function Initialize(c: Chain, signers: set<Pubkey>, a: Accounts, initializerAmount: u64, takerAmount: u64): (r: Result<Chain, Error>)
    ensures Constraints(c, signers, a).Fail? ==> r == Failure(Constraints(c, signers, a).error)
    ensures r.Success? ==>
      && r.value.mints == c.mints
      && r.value.escrows.Keys == c.escrows.Keys + {a.escrowState}
      && r.value.tokens.Keys == c.tokens.Keys + {a.vault}
  {
    match Constraints(c, signers, a)
    case Fail(e) => Failure(e)
    case Pass =>
      var created := c.(escrows := c.escrows[a.escrowState := NewRecord(a, initializerAmount, takerAmount)],
                       tokens := c.tokens[a.vault := NewVault(a)]);
      var locked :- Transfer(created.tokens, a.initializerAtaA, a.vault, a.initializer, signers, initializerAmount);
      Success(created.(tokens := locked))
  }

  /** Initialize succeeds exactly when the initializer signs, the accounts are the derived and
      associated ones, both derived addresses are free and the source holds the amount.
      Zero amounts are accepted. */
  lemma InitializeSucceedsIff(c: Chain, signers: set<Pubkey>, a: Accounts, initializerAmount: u64, takerAmount: u64)
    ensures Initialize(c, signers, a, initializerAmount, takerAmount).Success? <==>
      && a.initializer in signers
      && a.mintA in c.mints && a.mintB in c.mints
      && IsAssociated(c, a.initializerAtaA, a.initializer, a.mintA)
      && a.escrowState == StateAddress(a.initializer) && !InUse(c, a.escrowState)
      && a.vault == VaultAddress(a.initializer) && !InUse(c, a.vault)
      && initializerAmount <= c.tokens[a.initializerAtaA].amount
  {
  }

  /** On success the record names the signer, the taker argument, both amounts and both mints,
      and no other record changes. */
  lemma InitializeRecordFields(c: Chain, signers: set<Pubkey>, a: Accounts, initializerAmount: u64, takerAmount: u64)
    requires Initialize(c, signers, a, initializerAmount, takerAmount).Success?
    ensures var c' := Initialize(c, signers, a, initializerAmount, takerAmount).value;
      && StateAddress(a.initializer) !in c.escrows
      && c'.escrows == c.escrows[StateAddress(a.initializer) :=
           EscrowState(a.initializer, a.taker, initializerAmount, takerAmount, a.mintA, a.mintB)]
      && c'.mints == c.mints
  {
  }

  /** On success exactly `initializerAmount` of mint A moves from the initializer's account into a
      new vault at the initializer's vault address, owned by the record's address; every other
      token account is unchanged. */
  lemma InitializeMovesExactAmount(c: Chain, signers: set<Pubkey>, a: Accounts, initializerAmount: u64, takerAmount: u64)
    requires Initialize(c, signers, a, initializerAmount, takerAmount).Success?
    ensures var c' := Initialize(c, signers, a, initializerAmount, takerAmount).value;
      var vault := VaultAddress(a.initializer);
      && vault !in c.tokens
      && c'.tokens.Keys == c.tokens.Keys + {vault}
      && c'.tokens[vault] == TokenAccount(a.mintA, StateAddress(a.initializer), initializerAmount)
      && c'.tokens[a.initializerAtaA] == c.tokens[a.initializerAtaA].(amount := c.tokens[a.initializerAtaA].amount - initializerAmount)
      && (forall at :: at in c.tokens && at != a.initializerAtaA ==> c'.tokens[at] == c.tokens[at])
  {
    var created := c.tokens[a.vault := NewVault(a)];
    assert Transfer(created, a.initializerAtaA, a.vault, a.initializer, signers, initializerAmount).Success?;
  }

  /** Initialize fails while a record for the same initializer exists. */
  lemma InitializeFailsWhileOpen(c: Chain, signers: set<Pubkey>, a: Accounts, initializerAmount: u64, takerAmount: u64)
    requires StateAddress(a.initializer) in c.escrows
    ensures Initialize(c, signers, a, initializerAmount, takerAmount).Failure?
  {
  }

  /** In a valid ledger, once the earlier checks pass, the error is AccountAlreadyInUse exactly
      when the initializer already has an open escrow. */
  lemma InitializeConflict(c: Chain, signers: set<Pubkey>, a: Accounts, initializerAmount: u64, takerAmount: u64)
    requires Valid(c)
    requires a.initializer in signers && a.mintA in c.mints && a.mintB in c.mints && a.initializerAtaA in c.tokens
    requires a.escrowState == StateAddress(a.initializer) && a.vault == VaultAddress(a.initializer)
    ensures Initialize(c, signers, a, initializerAmount, takerAmount) == Failure(AccountAlreadyInUse)
        <==> StateAddress(a.initializer) in c.escrows
  {
    if StateAddress(a.initializer) !in c.escrows {
      assert !InUse(c, a.escrowState);
      assert VaultAddress(a.initializer) !in c.tokens;
    }
  }

  /** Initialize requires the initializer's signature and locks only from the initializer's own
      associated account for mint A. */
  lemma InitializeAuthorization(c: Chain, signers: set<Pubkey>, a: Accounts, initializerAmount: u64, takerAmount: u64)
    ensures a.initializer !in signers ==> Initialize(c, signers, a, initializerAmount, takerAmount) == Failure(AccountNotSigner)
    ensures Initialize(c, signers, a, initializerAmount, takerAmount).Success? ==>
      && a.initializerAtaA == AssociatedTokenAddress(a.initializer, a.mintA)
      && c.tokens[a.initializerAtaA].owner == a.initializer
      && c.tokens[a.initializerAtaA].mint == a.mintA
  {
  }

  /** When the source holds too little the whole instruction fails with InsufficientFunds. */
  lemma InitializeInsufficientFunds(c: Chain, signers: set<Pubkey>, a: Accounts, initializerAmount: u64, takerAmount: u64)
    requires Constraints(c, signers, a) == Pass
    requires c.tokens[a.initializerAtaA].amount < initializerAmount
    ensures Initialize(c, signers, a, initializerAmount, takerAmount) == Failure(InsufficientFunds)
  {
  }

  /** Initialize keeps the ledger invariant. */
  lemma InitializePreservesValid(c: Chain, signers: set<Pubkey>, a: Accounts, initializerAmount: u64, takerAmount: u64)
    requires Valid(c)
    requires Initialize(c, signers, a, initializerAmount, takerAmount).Success?
    ensures Valid(Initialize(c, signers, a, initializerAmount, takerAmount).value)
  {
    var c' := Initialize(c, signers, a, initializerAmount, takerAmount).value;
    InitializeRecordFields(c, signers, a, initializerAmount, takerAmount);
    InitializeMovesExactAmount(c, signers, a, initializerAmount, takerAmount);
    forall at | at in c'.escrows
      ensures Paired(c', at)
    {
      if at != a.escrowState {
        assert Paired(c, at);
        var k := c.escrows[at].initializer;
        assert VaultAddress(k) != a.initializerAtaA;
        assert VaultAddress(k) != a.vault;
      }
    }
  }

  /** Initialize preserves the supply of every mint: the locked units are in the vault. */
  lemma InitializeConserves(c: Chain, signers: set<Pubkey>, a: Accounts, initializerAmount: u64, takerAmount: u64, mint: Pubkey)
    requires Initialize(c, signers, a, initializerAmount, takerAmount).Success?
    ensures Supply(Initialize(c, signers, a, initializerAmount, takerAmount).value.tokens, mint) == Supply(c.tokens, mint)
  {
    var created := c.tokens[a.vault := NewVault(a)];
    SupplyInsert(c.tokens, a.vault, NewVault(a), mint);
    TransferConserves(created, a.initializerAtaA, a.vault, a.initializer, signers, initializerAmount, mint);
  }
}
