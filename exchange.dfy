/**
 * The `exchange` instruction: the taker pays `takerAmount` of mint B to the initializer, the
 * vault pays `initializerAmount` of mint A to the taker, then the vault and the record are
 * closed. All of it is one transaction: a failing step undoes every earlier one.
 */
module ExchangeContext {
  import opened Wrappers
  import opened Errors
  import opened Keys
  import opened Token
  import opened EscrowRecord
  import opened Runtime

  /** The accounts the caller passes, by address. */
  datatype Accounts = Accounts(
    taker: Pubkey,
    initializer: Pubkey,
    mintA: Pubkey,
    mintB: Pubkey,
    takerAtaA: Pubkey,
    takerAtaB: Pubkey,
    initializerAtaB: Pubkey,
    escrowState: Pubkey,
    vault: Pubkey)

  /**
   * Anchor's validation of the accounts, in the order it runs: the taker signs; both mints, the
   * three token accounts, the record and the vault exist; the token accounts are the associated
   * accounts of taker and initializer for their mints; the record is at the state address
   * derived from the supplied initializer and names the signer as taker, the supplied
   * initializer, and the two supplied mints; the vault is at the initializer's vault address.
   */
  function Constraints(c: Chain, signers: set<Pubkey>, a: Accounts): (r: Outcome<Error>)
    ensures a.taker !in signers ==> r == Fail(AccountNotSigner)
    ensures r.Pass? <==>
      && a.taker in signers && a.mintA in c.mints && a.mintB in c.mints
      && a.escrowState in c.escrows && a.vault in c.tokens
      && IsAssociated(c, a.takerAtaA, a.taker, a.mintA)
      && IsAssociated(c, a.takerAtaB, a.taker, a.mintB)
      && IsAssociated(c, a.initializerAtaB, a.initializer, a.mintB)
      && a.escrowState == StateAddress(a.initializer)
      && c.escrows[a.escrowState].taker == a.taker && c.escrows[a.escrowState].initializer == a.initializer
      && c.escrows[a.escrowState].mintA == a.mintA && c.escrows[a.escrowState].mintB == a.mintB
      && a.vault == VaultAddress(a.initializer)
  {
    if a.taker !in signers then Fail(AccountNotSigner)
    else if a.mintA !in c.mints || a.mintB !in c.mints then Fail(AccountNotInitialized)
    else if a.takerAtaA !in c.tokens || a.takerAtaB !in c.tokens || a.initializerAtaB !in c.tokens then Fail(AccountNotInitialized)
    else if a.escrowState !in c.escrows then Fail(AccountNotInitialized)
    else if a.vault !in c.tokens then Fail(AccountNotInitialized)
    else if !IsAssociated(c, a.takerAtaA, a.taker, a.mintA) then Fail(ConstraintAssociated)
    else if !IsAssociated(c, a.takerAtaB, a.taker, a.mintB) then Fail(ConstraintAssociated)
    else if !IsAssociated(c, a.initializerAtaB, a.initializer, a.mintB) then Fail(ConstraintAssociated)
    else if a.escrowState != StateAddress(a.initializer) then Fail(ConstraintSeeds)
    else if c.escrows[a.escrowState].taker != a.taker then Fail(ConstraintRaw)
    else if c.escrows[a.escrowState].initializer != a.initializer then Fail(ConstraintRaw)
    else if c.escrows[a.escrowState].mintA != a.mintA then Fail(ConstraintRaw)
    else if c.escrows[a.escrowState].mintB != a.mintB then Fail(ConstraintRaw)
    else if a.vault != VaultAddress(a.initializer) then Fail(ConstraintSeeds)
    else Pass
  }

  /** The whole transaction: validation, the taker's payment, the release from the vault, closing
      the vault, and closing the record. */
  function Exchange(c: Chain, signers: set<Pubkey>, a: Accounts): (r: Result<Chain, Error>)
    ensures Constraints(c, signers, a).Fail? ==> r == Failure(Constraints(c, signers, a).error)
    ensures r.Success? ==>
      && r.value.mints == c.mints
      && r.value.escrows.Keys == c.escrows.Keys - {a.escrowState}
      && r.value.tokens.Keys == c.tokens.Keys - {a.vault}
  {
    match Constraints(c, signers, a)
    case Fail(e) => Failure(e)
    case Pass =>
      var record := c.escrows[a.escrowState];
      var paid :- Transfer(c.tokens, a.takerAtaB, a.initializerAtaB, a.taker, signers, record.takerAmount);
      var released :- Transfer(paid, a.vault, a.takerAtaA, a.escrowState, ProgramSigners(signers, a.initializer), record.initializerAmount);
      var closed :- CloseAccount(released, a.vault, a.escrowState, ProgramSigners(signers, a.initializer));
      Success(c.(tokens := closed, escrows := c.escrows - {a.escrowState}))
  }

  /** The balance of `at` after both legs: the taker's mint-B account pays `takerAmount` to the
      initializer's, and the taker's mint-A account receives `initializerAmount`. */
  function AfterLegs(c: Chain, a: Accounts, record: EscrowState, at: Pubkey): int
    requires at in c.tokens
  {
    c.tokens[at].amount
      - (if at == a.takerAtaB then record.takerAmount else 0)
      + (if at == a.initializerAtaB then record.takerAmount else 0)
      + (if at == a.takerAtaA then record.initializerAmount else 0)
  }

  /** Exchange succeeds only for a signing taker who is the record's taker. */
  lemma ExchangeRequiresTaker(c: Chain, signers: set<Pubkey>, a: Accounts)
    requires Exchange(c, signers, a).Success?
    ensures a.taker in signers
    ensures a.escrowState in c.escrows && c.escrows[a.escrowState].taker == a.taker
  {
  }

  /** The supplied initializer is the record's, and both the record and the vault are at the
      addresses derived from it. */
  lemma ExchangeBindsInitializer(c: Chain, signers: set<Pubkey>, a: Accounts)
    requires Exchange(c, signers, a).Success?
    ensures a.escrowState in c.escrows && c.escrows[a.escrowState].initializer == a.initializer
    ensures a.escrowState == StateAddress(a.initializer)
    ensures a.vault == VaultAddress(a.initializer)
  {
  }

  /** The supplied mints are the record's. */
  lemma ExchangeChecksMints(c: Chain, signers: set<Pubkey>, a: Accounts)
    requires Exchange(c, signers, a).Success?
    ensures a.escrowState in c.escrows
    ensures c.escrows[a.escrowState].mintA == a.mintA && c.escrows[a.escrowState].mintB == a.mintB
  {
  }

  /** On success the vault is gone, it held exactly `initializerAmount`, and every other account's
      balance is the one both legs leave, whichever of the accounts coincide; mints and owners
      do not change. The accounts the legs move tokens between are the taker's associated
      accounts for mints A and B and the initializer's for mint B. */
  lemma ExchangeLegs(c: Chain, signers: set<Pubkey>, a: Accounts)
    requires Exchange(c, signers, a).Success?
    ensures IsAssociated(c, a.takerAtaA, a.taker, a.mintA)
    ensures IsAssociated(c, a.takerAtaB, a.taker, a.mintB)
    ensures IsAssociated(c, a.initializerAtaB, a.initializer, a.mintB)
    ensures var c' := Exchange(c, signers, a).value;
      var record := c.escrows[a.escrowState];
      && c.tokens[a.vault].amount == record.initializerAmount
      && c'.tokens.Keys == c.tokens.Keys - {a.vault}
      && (forall at :: at in c'.tokens ==>
            && c'.tokens[at].mint == c.tokens[at].mint
            && c'.tokens[at].owner == c.tokens[at].owner
            && c'.tokens[at].amount == AfterLegs(c, a, record, at))
  {
    var record := c.escrows[a.escrowState];
    var paid := Transfer(c.tokens, a.takerAtaB, a.initializerAtaB, a.taker, signers, record.takerAmount);
    assert paid.Success?;
    var released := Transfer(paid.value, a.vault, a.takerAtaA, a.escrowState, ProgramSigners(signers, a.initializer), record.initializerAmount);
    assert released.Success?;
    assert CloseAccount(released.value, a.vault, a.escrowState, ProgramSigners(signers, a.initializer)).Success?;
  }

  /** With distinct parties and distinct mints: the initializer's mint-B account gains exactly
      `takerAmount`, the taker's mint-A account gains exactly `initializerAmount` and its mint-B
      account loses `takerAmount`, and no other token account changes. */
  lemma ExchangeSwaps(c: Chain, signers: set<Pubkey>, a: Accounts)
    requires Exchange(c, signers, a).Success?
    requires a.taker != a.initializer && a.mintA != a.mintB
    ensures a.initializerAtaB == AssociatedTokenAddress(a.initializer, a.mintB)
    ensures a.takerAtaA == AssociatedTokenAddress(a.taker, a.mintA)
    ensures a.takerAtaB == AssociatedTokenAddress(a.taker, a.mintB)
    ensures var c' := Exchange(c, signers, a).value;
      var record := c.escrows[a.escrowState];
      && c'.tokens[a.initializerAtaB].amount == c.tokens[a.initializerAtaB].amount + record.takerAmount
      && c'.tokens[a.takerAtaA].amount == c.tokens[a.takerAtaA].amount + record.initializerAmount
      && c'.tokens[a.takerAtaB].amount == c.tokens[a.takerAtaB].amount - record.takerAmount
      && (forall at :: at in c'.tokens && at !in {a.initializerAtaB, a.takerAtaA, a.takerAtaB} ==> c'.tokens[at] == c.tokens[at])
  {
    ExchangeLegs(c, signers, a);
  }

  /** On success the vault and the record no longer exist; no other record changes. */
  lemma ExchangeCloses(c: Chain, signers: set<Pubkey>, a: Accounts)
    requires Exchange(c, signers, a).Success?
    ensures var c' := Exchange(c, signers, a).value;
      && StateAddress(a.initializer) !in c'.escrows
      && VaultAddress(a.initializer) !in c'.tokens
      && c'.escrows == c.escrows - {a.escrowState}
      && c'.mints == c.mints
  {
    ExchangeLegs(c, signers, a);
  }

  /** All or nothing: once the accounts check out, the instruction fails, and so neither leg
      takes effect, if the taker cannot pay, and also if the vault does not hold exactly
      `initializerAmount` (too little fails the release, a surplus fails the close). */
  lemma ExchangeAllOrNothing(c: Chain, signers: set<Pubkey>, a: Accounts)
    requires Constraints(c, signers, a) == Pass
    ensures c.tokens[a.takerAtaB].amount < c.escrows[a.escrowState].takerAmount ==>
      Exchange(c, signers, a) == Failure(InsufficientFunds)
    ensures c.tokens[a.vault].amount != c.escrows[a.escrowState].initializerAmount ==>
      Exchange(c, signers, a).Failure?
  {
    var record := c.escrows[a.escrowState];
    var paid := Transfer(c.tokens, a.takerAtaB, a.initializerAtaB, a.taker, signers, record.takerAmount);
    if paid.Success? {
      assert paid.value[a.vault] == c.tokens[a.vault];
    }
  }

  /** In a valid ledger the record's taker can complete an open escrow with the associated
      accounts of both parties, given `takerAmount` of mint B, room for leg 1's credit unless it is a self-transfer, and room
      for the taker's mint-A account after both legs. */
  lemma ExchangeSucceedsWhenValid(c: Chain, signers: set<Pubkey>, a: Accounts)
    requires Valid(c)
    requires a.escrowState in c.escrows
    requires var record := c.escrows[a.escrowState];
      && a.taker == record.taker && a.initializer == record.initializer
      && a.mintA == record.mintA && a.mintB == record.mintB
      && a.escrowState == StateAddress(a.initializer) && a.vault == VaultAddress(a.initializer)
      && a.takerAtaA == AssociatedTokenAddress(a.taker, a.mintA)
      && a.takerAtaB == AssociatedTokenAddress(a.taker, a.mintB)
      && a.initializerAtaB == AssociatedTokenAddress(a.initializer, a.mintB)
      && a.taker in signers && a.mintA in c.mints && a.mintB in c.mints
      && a.takerAtaA in c.tokens && a.takerAtaB in c.tokens && a.initializerAtaB in c.tokens
      && record.takerAmount <= c.tokens[a.takerAtaB].amount
      && (a.takerAtaB == a.initializerAtaB || c.tokens[a.initializerAtaB].amount + record.takerAmount < U64_LIMIT)
      && AfterLegs(c, a, record, a.takerAtaA) < U64_LIMIT
    ensures Exchange(c, signers, a).Success?
  {
    var record := c.escrows[a.escrowState];
    assert Paired(c, a.escrowState);
    var paid := Transfer(c.tokens, a.takerAtaB, a.initializerAtaB, a.taker, signers, record.takerAmount);
    assert paid.Success?;
    assert paid.value[a.vault] == c.tokens[a.vault];
    assert Transfer(paid.value, a.vault, a.takerAtaA, a.escrowState, ProgramSigners(signers, a.initializer), record.initializerAmount).Success?;
  }

  /** Exchange keeps the ledger invariant. */
  lemma ExchangePreservesValid(c: Chain, signers: set<Pubkey>, a: Accounts)
    requires Valid(c)
    requires Exchange(c, signers, a).Success?
    ensures Valid(Exchange(c, signers, a).value)
  {
    var c' := Exchange(c, signers, a).value;
    ExchangeLegs(c, signers, a);
    ExchangeCloses(c, signers, a);
    forall at | at in c'.escrows
      ensures Paired(c', at)
    {
      assert Paired(c, at);
      var k := c.escrows[at].initializer;
      assert k != a.initializer;
      assert VaultAddress(k) !in {a.takerAtaA, a.takerAtaB, a.initializerAtaB};
    }
  }

  /** For every mint, the total across all token accounts, the vault included, is unchanged. */
  lemma ExchangeConserves(c: Chain, signers: set<Pubkey>, a: Accounts, mint: Pubkey)
    requires Exchange(c, signers, a).Success?
    ensures Supply(Exchange(c, signers, a).value.tokens, mint) == Supply(c.tokens, mint)
  {
    var record := c.escrows[a.escrowState];
    var paid := Transfer(c.tokens, a.takerAtaB, a.initializerAtaB, a.taker, signers, record.takerAmount);
    TransferConserves(c.tokens, a.takerAtaB, a.initializerAtaB, a.taker, signers, record.takerAmount, mint);
    var released := Transfer(paid.value, a.vault, a.takerAtaA, a.escrowState, ProgramSigners(signers, a.initializer), record.initializerAmount);
    TransferConserves(paid.value, a.vault, a.takerAtaA, a.escrowState, ProgramSigners(signers, a.initializer), record.initializerAmount, mint);
    CloseConserves(released.value, a.vault, a.escrowState, ProgramSigners(signers, a.initializer), mint);
  }
}
