/**
 * The `cancel` instruction: the initializer takes back everything in the vault, then the vault
 * and the record are closed.
 */
module CancelContext {
  import opened Wrappers
  import opened Errors
  import opened Keys
  import opened Token
  import opened EscrowRecord
  import opened Runtime

  /** The accounts the caller passes, by address. */
  datatype Accounts = Accounts(
    initializer: Pubkey,
    escrowState: Pubkey,
    vault: Pubkey,
    initializerAtaA: Pubkey)

  /**
   * Anchor's validation of the accounts, in the order it runs: the initializer signs; the record,
   * the vault and the refund account exist; the record is at the state address derived from the
   * signer (checked before `has_one`) and names the signer as its initializer; the vault is at
   * the signer's vault address; the refund account is the signer's associated account for the
   * record's mint A.
   */
  function Constraints(c: Chain, signers: set<Pubkey>, a: Accounts): (r: Outcome<Error>)
    ensures a.initializer !in signers ==> r == Fail(AccountNotSigner)
    ensures (&& a.initializer in signers && a.escrowState in c.escrows && a.vault in c.tokens && a.initializerAtaA in c.tokens
             && a.escrowState != StateAddress(a.initializer)) ==> r == Fail(ConstraintSeeds)
    ensures r.Pass? <==>
      && a.initializer in signers
      && a.escrowState in c.escrows && a.vault in c.tokens
      && a.escrowState == StateAddress(a.initializer)
      && c.escrows[a.escrowState].initializer == a.initializer
      && a.vault == VaultAddress(a.initializer)
      && IsAssociated(c, a.initializerAtaA, a.initializer, c.escrows[a.escrowState].mintA)
  {
    if a.initializer !in signers then Fail(AccountNotSigner)
    else if a.escrowState !in c.escrows then Fail(AccountNotInitialized)
    else if a.vault !in c.tokens || a.initializerAtaA !in c.tokens then Fail(AccountNotInitialized)
    else if a.escrowState != StateAddress(a.initializer) then Fail(ConstraintSeeds)
    else if c.escrows[a.escrowState].initializer != a.initializer then Fail(ConstraintHasOne)
    else if a.vault != VaultAddress(a.initializer) then Fail(ConstraintSeeds)
    else if !IsAssociated(c, a.initializerAtaA, a.initializer, c.escrows[a.escrowState].mintA) then Fail(ConstraintAssociated)
    else Pass
  }

  /** The whole transaction: validation, the refund of the vault's current balance, closing the
      vault, and closing the record. */
  function Cancel(c: Chain, signers: set<Pubkey>, a: Accounts): (r: Result<Chain, Error>)
    ensures Constraints(c, signers, a).Fail? ==> r == Failure(Constraints(c, signers, a).error)
    ensures r.Success? ==>
      && r.value.mints == c.mints
      && r.value.escrows.Keys == c.escrows.Keys - {a.escrowState}
      && r.value.tokens.Keys == c.tokens.Keys - {a.vault}
  {
    match Constraints(c, signers, a)
    case Fail(e) => Failure(e)
    case Pass =>
      var refunded :- Transfer(c.tokens, a.vault, a.initializerAtaA, a.escrowState, ProgramSigners(signers, a.initializer), c.tokens[a.vault].amount);
      var closed :- CloseAccount(refunded, a.vault, a.escrowState, ProgramSigners(signers, a.initializer));
      Success(c.(tokens := closed, escrows := c.escrows - {a.escrowState}))
  }

  /** Cancel succeeds only for a signer whose key derives the supplied record address and is the
      record's initializer. */
  lemma CancelRequiresInitializer(c: Chain, signers: set<Pubkey>, a: Accounts)
    requires Cancel(c, signers, a).Success?
    ensures a.initializer in signers
    ensures a.escrowState == StateAddress(a.initializer)
    ensures a.escrowState in c.escrows && c.escrows[a.escrowState].initializer == a.initializer
  {
  }

  /** In a valid ledger, any signer other than the record's initializer who passes the real
      record, vault and refund account is turned away by the seeds check, and nothing changes. */
  lemma CancelRejectsOtherSigner(c: Chain, signers: set<Pubkey>, a: Accounts)
    requires Valid(c)
    requires a.initializer in signers
    requires a.escrowState in c.escrows && a.vault in c.tokens && a.initializerAtaA in c.tokens
    requires c.escrows[a.escrowState].initializer != a.initializer
    ensures Cancel(c, signers, a) == Failure(ConstraintSeeds)
  {
    assert Paired(c, a.escrowState);
  }

  /** Cancel refunds from the signer's own vault only: no other vault can be substituted. */
  lemma CancelVaultBinding(c: Chain, signers: set<Pubkey>, a: Accounts)
    requires Cancel(c, signers, a).Success?
    ensures a.vault == VaultAddress(a.initializer)
  {
  }

  /** The refund goes to the initializer's associated account for the record's mint A. */
  lemma CancelRefundDestination(c: Chain, signers: set<Pubkey>, a: Accounts)
    requires Cancel(c, signers, a).Success?
    ensures a.initializerAtaA == AssociatedTokenAddress(a.initializer, c.escrows[a.escrowState].mintA)
    ensures c.tokens[a.initializerAtaA].owner == a.initializer
  {
  }

  /** On success the vault's whole balance is added to the refund account, the vault is gone, and
      every other token account, the taker's included, is unchanged. */
  lemma CancelRefundsVault(c: Chain, signers: set<Pubkey>, a: Accounts)
    requires Cancel(c, signers, a).Success?
    ensures var c' := Cancel(c, signers, a).value;
      && c'.tokens.Keys == c.tokens.Keys - {a.vault}
      && c'.tokens[a.initializerAtaA] == c.tokens[a.initializerAtaA].(amount := c.tokens[a.initializerAtaA].amount + c.tokens[a.vault].amount)
      && (forall at :: at in c'.tokens && at != a.initializerAtaA ==> c'.tokens[at] == c.tokens[at])
  {
    var refunded := Transfer(c.tokens, a.vault, a.initializerAtaA, a.escrowState, ProgramSigners(signers, a.initializer), c.tokens[a.vault].amount);
    assert refunded.Success?;
    assert CloseAccount(refunded.value, a.vault, a.escrowState, ProgramSigners(signers, a.initializer)).Success?;
  }

  /** On success both the vault and the record are closed; no other record changes. */
  lemma CancelCloses(c: Chain, signers: set<Pubkey>, a: Accounts)
    requires Cancel(c, signers, a).Success?
    ensures var c' := Cancel(c, signers, a).value;
      && StateAddress(a.initializer) !in c'.escrows
      && VaultAddress(a.initializer) !in c'.tokens
      && c'.escrows == c.escrows - {a.escrowState}
      && c'.mints == c.mints
  {
    CancelRefundsVault(c, signers, a);
  }

  /** In a valid ledger the initializer can always cancel an open escrow, given its associated
      account for mint A and room in it for the refund. */
  lemma CancelSucceedsWhenValid(c: Chain, signers: set<Pubkey>, initializer: Pubkey)
    requires Valid(c)
    requires initializer in signers
    requires StateAddress(initializer) in c.escrows
    requires AssociatedTokenAddress(initializer, c.escrows[StateAddress(initializer)].mintA) in c.tokens
    requires c.tokens[AssociatedTokenAddress(initializer, c.escrows[StateAddress(initializer)].mintA)].amount
             + c.escrows[StateAddress(initializer)].initializerAmount < U64_LIMIT
    ensures Cancel(c, signers, Accounts(initializer, StateAddress(initializer), VaultAddress(initializer),
                   AssociatedTokenAddress(initializer, c.escrows[StateAddress(initializer)].mintA))).Success?
  {
    assert Paired(c, StateAddress(initializer));
  }

  /** Cancel keeps the ledger invariant. */
  lemma CancelPreservesValid(c: Chain, signers: set<Pubkey>, a: Accounts)
    requires Valid(c)
    requires Cancel(c, signers, a).Success?
    ensures Valid(Cancel(c, signers, a).value)
  {
    var c' := Cancel(c, signers, a).value;
    CancelRefundsVault(c, signers, a);
    CancelCloses(c, signers, a);
    forall at | at in c'.escrows
      ensures Paired(c', at)
    {
      assert Paired(c, at);
      var k := c.escrows[at].initializer;
      assert k != a.initializer;
    }
  }

  /** Cancel preserves the supply of every mint. */
  lemma CancelConserves(c: Chain, signers: set<Pubkey>, a: Accounts, mint: Pubkey)
    requires Cancel(c, signers, a).Success?
    ensures Supply(Cancel(c, signers, a).value.tokens, mint) == Supply(c.tokens, mint)
  {
    var refunded := Transfer(c.tokens, a.vault, a.initializerAtaA, a.escrowState, ProgramSigners(signers, a.initializer), c.tokens[a.vault].amount);
    TransferConserves(c.tokens, a.vault, a.initializerAtaA, a.escrowState, ProgramSigners(signers, a.initializer), c.tokens[a.vault].amount, mint);
    CloseConserves(refunded.value, a.vault, a.escrowState, ProgramSigners(signers, a.initializer), mint);
  }
}
