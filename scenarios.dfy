/**
 * The repository's test cases, on the ledger: the initializer locks 500 of mint A asking 1000
 * of mint B; a stranger's cancel is refused by the seeds check; the initializer's cancel gives the
 * 500 back and closes everything; after a new initialize, the taker's exchange swaps the amounts.
 */
module Scenarios {
  import opened Wrappers
  import opened Errors
  import opened Keys
  import opened Token
  import opened EscrowRecord
  import opened Runtime
  import InitializeContext
  import CancelContext
  import ExchangeContext
  import Lifecycle
  import Ledger

  const MINT_A: Pubkey := Keypair(1)
  const MINT_B: Pubkey := Keypair(2)
  const INITIALIZER: Pubkey := Keypair(10)
  const TAKER: Pubkey := Keypair(11)
  const STRANGER: Pubkey := Keypair(12)

  /** Both mints, and the four associated accounts: the initializer holds 500 of mint A, the taker 1000 of mint B. */
  function Genesis(): (c: Chain)
    ensures Valid(c)
  {
    Chain({MINT_A, MINT_B},
          map[AssociatedTokenAddress(INITIALIZER, MINT_A) := TokenAccount(MINT_A, INITIALIZER, 500),
              AssociatedTokenAddress(INITIALIZER, MINT_B) := TokenAccount(MINT_B, INITIALIZER, 0),
              AssociatedTokenAddress(TAKER, MINT_A) := TokenAccount(MINT_A, TAKER, 0),
              AssociatedTokenAddress(TAKER, MINT_B) := TokenAccount(MINT_B, TAKER, 1000)],
          map[])
  }

  function InitializeAccounts(): InitializeContext.Accounts {
    InitializeContext.Accounts(INITIALIZER, TAKER, MINT_A, MINT_B, AssociatedTokenAddress(INITIALIZER, MINT_A),
                               StateAddress(INITIALIZER), VaultAddress(INITIALIZER))
  }

  function CancelAccounts(signer: Pubkey): CancelContext.Accounts {
    CancelContext.Accounts(signer, StateAddress(INITIALIZER), VaultAddress(INITIALIZER), AssociatedTokenAddress(INITIALIZER, MINT_A))
  }

  function ExchangeAccounts(): ExchangeContext.Accounts {
    ExchangeContext.Accounts(TAKER, INITIALIZER, MINT_A, MINT_B,
                             AssociatedTokenAddress(TAKER, MINT_A), AssociatedTokenAddress(TAKER, MINT_B),
                             AssociatedTokenAddress(INITIALIZER, MINT_B), StateAddress(INITIALIZER), VaultAddress(INITIALIZER))
  }

  /** The test suite's four cases, in order, on one ledger. */
  method TestCases() returns (ledger: Ledger.Ledger)
    ensures ledger.escrows == map[]
    ensures ledger.tokens.Keys == Genesis().tokens.Keys
    ensures ledger.tokens[AssociatedTokenAddress(INITIALIZER, MINT_A)].amount == 0
    ensures ledger.tokens[AssociatedTokenAddress(TAKER, MINT_A)].amount == 500
    ensures ledger.tokens[AssociatedTokenAddress(INITIALIZER, MINT_B)].amount == 1000
    ensures ledger.tokens[AssociatedTokenAddress(TAKER, MINT_B)].amount == 0
  {
    var genesis := Genesis();
    ledger := new Ledger.Ledger(genesis);
    var initializerAtaA := AssociatedTokenAddress(INITIALIZER, MINT_A);

    // the initializer locks 500 of mint A asking 1000 of mint B
    InitializeContext.InitializeSucceedsIff(genesis, {INITIALIZER}, InitializeAccounts(), 500, 1000);
    InitializeContext.InitializeRecordFields(genesis, {INITIALIZER}, InitializeAccounts(), 500, 1000);
    InitializeContext.InitializeMovesExactAmount(genesis, {INITIALIZER}, InitializeAccounts(), 500, 1000);
    InitializeContext.InitializePreservesValid(genesis, {INITIALIZER}, InitializeAccounts(), 500, 1000);
    var r := ledger.Initialize({INITIALIZER}, InitializeAccounts(), 500, 1000);
    assert r.Pass?;
    assert ledger.escrows[StateAddress(INITIALIZER)] == EscrowState(INITIALIZER, TAKER, 500, 1000, MINT_A, MINT_B);
    assert ledger.tokens[VaultAddress(INITIALIZER)].amount == 500;
    var locked := ledger.State();

    // a stranger cannot cancel it
    CancelContext.CancelRejectsOtherSigner(locked, {STRANGER}, CancelAccounts(STRANGER));
    r := ledger.Cancel({STRANGER}, CancelAccounts(STRANGER));
    assert r == Fail(ConstraintSeeds) && ledger.State() == locked;

    // the initializer cancels: the 500 come back, record and vault are gone
    Lifecycle.CancelUndoesInitialize(genesis, {INITIALIZER}, InitializeAccounts(), 500, 1000, {INITIALIZER});
    r := ledger.Cancel({INITIALIZER}, CancelAccounts(INITIALIZER));
    assert r.Pass? && ledger.State() == genesis;
    assert ledger.tokens[initializerAtaA].amount == 500;

    // a new escrow with the same terms, and the taker exchanges
    r := ledger.Initialize({INITIALIZER}, InitializeAccounts(), 500, 1000);
    assert r.Pass? && ledger.State() == locked;
    ExchangeContext.ExchangeSucceedsWhenValid(locked, {TAKER}, ExchangeAccounts());
    Lifecycle.ExchangeSettlesInitialize(genesis, {INITIALIZER}, InitializeAccounts(), 500, 1000, {TAKER}, ExchangeAccounts());
    r := ledger.Exchange({TAKER}, ExchangeAccounts());
    assert r.Pass?;
  }
}
