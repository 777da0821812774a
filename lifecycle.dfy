/**
 * The escrow lifecycle across instructions: the program's entry points, the runtime that commits
 * a transaction or discards it, and what holds over any sequence of transactions.
 */
module Lifecycle {
  import opened Wrappers
  import opened Errors
  import opened Keys
  import opened Token
  import opened EscrowRecord
  import opened Runtime
  import InitializeContext
  import CancelContext
  import ExchangeContext

  /** An instruction of the escrow program with its arguments. */
  datatype Instruction =
    | InitializeIx(initAccounts: InitializeContext.Accounts, initializerAmount: u64, takerAmount: u64)
    | CancelIx(cancelAccounts: CancelContext.Accounts)
    | ExchangeIx(exchangeAccounts: ExchangeContext.Accounts)

  /** A transaction: one instruction and the keys that signed it. */
  datatype Transaction = Transaction(signers: set<Pubkey>, instruction: Instruction)

  /** The program's entry points. */
  function Execute(c: Chain, tx: Transaction): (r: Result<Chain, Error>)
    ensures r.Success? ==> r.value.mints == c.mints
    ensures r.Success? && tx.instruction.InitializeIx? ==>
      r.value.escrows.Keys == c.escrows.Keys + {tx.instruction.initAccounts.escrowState}
    ensures r.Success? && tx.instruction.CancelIx? ==>
      r.value.escrows.Keys == c.escrows.Keys - {tx.instruction.cancelAccounts.escrowState}
    ensures r.Success? && tx.instruction.ExchangeIx? ==>
      r.value.escrows.Keys == c.escrows.Keys - {tx.instruction.exchangeAccounts.escrowState}
  {
    match tx.instruction
    case InitializeIx(a, x, y) => InitializeContext.Initialize(c, tx.signers, a, x, y)
    case CancelIx(a) => CancelContext.Cancel(c, tx.signers, a)
    case ExchangeIx(a) => ExchangeContext.Exchange(c, tx.signers, a)
  }

  /** The runtime: a successful transaction commits its ledger, a failed one leaves the ledger as it was. */
  function Commit(c: Chain, tx: Transaction): (r: Chain)
    ensures r == c || Execute(c, tx) == Success(r)
    ensures Execute(c, tx).Success? ==> Execute(c, tx) == Success(r)
    ensures r.mints == c.mints
  {
    match Execute(c, tx)
    case Success(c') => c'
    case Failure(_) => c
  }

  /** The ledger after the transactions `txs`, one after another. */
  function Replay(c: Chain, txs: seq<Transaction>): (r: Chain)
    ensures r.mints == c.mints
    decreases |txs|
  {
    if txs == [] then c else Replay(Commit(c, txs[0]), txs[1..])
  }

  /** Every instruction keeps the ledger invariant. */
  lemma ExecutePreservesValid(c: Chain, tx: Transaction)
    requires Valid(c)
    ensures Valid(Commit(c, tx))
  {
    if Execute(c, tx).Success? {
      match tx.instruction
      case InitializeIx(a, x, y) => InitializeContext.InitializePreservesValid(c, tx.signers, a, x, y);
      case CancelIx(a) => CancelContext.CancelPreservesValid(c, tx.signers, a);
      case ExchangeIx(a) => ExchangeContext.ExchangePreservesValid(c, tx.signers, a);
    }
  }

  /** Every instruction preserves the supply of every mint. */
  lemma ExecuteConserves(c: Chain, tx: Transaction, mint: Pubkey)
    ensures Supply(Commit(c, tx).tokens, mint) == Supply(c.tokens, mint)
  {
    if Execute(c, tx).Success? {
      match tx.instruction
      case InitializeIx(a, x, y) => InitializeContext.InitializeConserves(c, tx.signers, a, x, y, mint);
      case CancelIx(a) => CancelContext.CancelConserves(c, tx.signers, a, mint);
      case ExchangeIx(a) => ExchangeContext.ExchangeConserves(c, tx.signers, a, mint);
    }
  }

  /** No instruction rewrites a record: each creates one at a free address or closes one, and a
      record present before and after is the same record. The mints never change. */
  lemma RecordsNeverRewritten(c: Chain, tx: Transaction)
    ensures var c' := Commit(c, tx);
      && c'.mints == c.mints
      && (forall at :: at in c.escrows && at in c'.escrows ==> c'.escrows[at] == c.escrows[at])
  {
    if Execute(c, tx).Success? {
      match tx.instruction
      case InitializeIx(a, x, y) => InitializeContext.InitializeRecordFields(c, tx.signers, a, x, y);
      case CancelIx(a) => CancelContext.CancelCloses(c, tx.signers, a);
      case ExchangeIx(a) => ExchangeContext.ExchangeCloses(c, tx.signers, a);
    }
  }

  /** From a valid ledger, every sequence of transactions leads to a valid ledger. */
  lemma {:induction false} ReplayPreservesValid(c: Chain, txs: seq<Transaction>)
    requires Valid(c)
    ensures Valid(Replay(c, txs))
    decreases |txs|
  {
    if txs != [] {
      ExecutePreservesValid(c, txs[0]);
      ReplayPreservesValid(Commit(c, txs[0]), txs[1..]);
    }
  }

  /** No sequence of transactions creates or destroys tokens of any mint. */
  lemma {:induction false} ReplayConserves(c: Chain, txs: seq<Transaction>, mint: Pubkey)
    ensures Supply(Replay(c, txs).tokens, mint) == Supply(c.tokens, mint)
    decreases |txs|
  {
    if txs != [] {
      ExecuteConserves(c, txs[0], mint);
      ReplayConserves(Commit(c, txs[0]), txs[1..], mint);
    }
  }

  /** In a valid ledger an initializer has at most one open escrow: two records with the same
      initializer are the same record. */
  lemma OneEscrowPerInitializer(c: Chain, at1: Pubkey, at2: Pubkey)
    requires Valid(c)
    requires at1 in c.escrows && at2 in c.escrows
    requires c.escrows[at1].initializer == c.escrows[at2].initializer
    ensures at1 == at2
  {
    assert Paired(c, at1) && Paired(c, at2);
  }

  /** In a valid ledger an escrow is open exactly while both its record and its vault exist. */
  lemma OpenIffVault(c: Chain, initializer: Pubkey)
    requires Valid(c)
    ensures StateAddress(initializer) in c.escrows <==> VaultAddress(initializer) in c.tokens
  {
    if StateAddress(initializer) in c.escrows {
      assert Paired(c, StateAddress(initializer));
    }
  }

  /** Cancelling right after initializing restores the ledger exactly: the initializer's mint-A
      balance is back, and neither the vault nor the record exists. */
  lemma CancelUndoesInitialize(c: Chain, signers: set<Pubkey>, a: InitializeContext.Accounts,
                               initializerAmount: u64, takerAmount: u64, cancelSigners: set<Pubkey>)
    requires InitializeContext.Initialize(c, signers, a, initializerAmount, takerAmount).Success?
    requires a.initializer in cancelSigners
    ensures CancelContext.Cancel(InitializeContext.Initialize(c, signers, a, initializerAmount, takerAmount).value,
              cancelSigners, CancelContext.Accounts(a.initializer, a.escrowState, a.vault, a.initializerAtaA))
            == Success(c)
  {
    var c1 := InitializeContext.Initialize(c, signers, a, initializerAmount, takerAmount).value;
    var b := CancelContext.Accounts(a.initializer, a.escrowState, a.vault, a.initializerAtaA);
    InitializeContext.InitializeRecordFields(c, signers, a, initializerAmount, takerAmount);
    InitializeContext.InitializeMovesExactAmount(c, signers, a, initializerAmount, takerAmount);
    assert CancelContext.Constraints(c1, cancelSigners, b) == Pass;
    var ps := ProgramSigners(cancelSigners, a.initializer);
    var refunded := Transfer(c1.tokens, a.vault, a.initializerAtaA, a.escrowState, ps, initializerAmount);
    assert refunded.Success?;
    var closed := CloseAccount(refunded.value, a.vault, a.escrowState, ps);
    assert closed.Success?;
    assert closed.value == c.tokens;
    assert c1.escrows - {a.escrowState} == c.escrows;
  }

  /** Initializing and then exchanging, with distinct parties and mints, is a direct swap between
      the two parties named at initialize: the initializer's associated account for mint A ends
      with `initializerAmount` less and its account for mint B with `takerAmount` more, the
      taker's accounts the reverse, no record is left, and no other token account changes. */
  lemma ExchangeSettlesInitialize(c: Chain, signers: set<Pubkey>, a: InitializeContext.Accounts,
                                  initializerAmount: u64, takerAmount: u64,
                                  takerSigners: set<Pubkey>, b: ExchangeContext.Accounts)
    requires InitializeContext.Initialize(c, signers, a, initializerAmount, takerAmount).Success?
    requires b.escrowState == a.escrowState
    requires ExchangeContext.Exchange(InitializeContext.Initialize(c, signers, a, initializerAmount, takerAmount).value, takerSigners, b).Success?
    requires a.initializer != a.taker && a.mintA != a.mintB
    ensures b.initializer == a.initializer && b.taker == a.taker && b.mintA == a.mintA && b.mintB == a.mintB
    ensures a.initializerAtaA == AssociatedTokenAddress(a.initializer, a.mintA)
    ensures b.initializerAtaB == AssociatedTokenAddress(a.initializer, a.mintB)
    ensures b.takerAtaA == AssociatedTokenAddress(a.taker, a.mintA)
    ensures b.takerAtaB == AssociatedTokenAddress(a.taker, a.mintB)
    ensures var c2 := ExchangeContext.Exchange(InitializeContext.Initialize(c, signers, a, initializerAmount, takerAmount).value, takerSigners, b).value;
      && c2.escrows == c.escrows
      && c2.tokens.Keys == c.tokens.Keys
      && c2.tokens[a.initializerAtaA].amount == c.tokens[a.initializerAtaA].amount - initializerAmount
      && c2.tokens[b.initializerAtaB].amount == c.tokens[b.initializerAtaB].amount + takerAmount
      && c2.tokens[b.takerAtaA].amount == c.tokens[b.takerAtaA].amount + initializerAmount
      && c2.tokens[b.takerAtaB].amount == c.tokens[b.takerAtaB].amount - takerAmount
      && (forall at :: at in c.tokens && at !in {a.initializerAtaA, b.initializerAtaB, b.takerAtaA, b.takerAtaB} ==>
            c2.tokens[at] == c.tokens[at])
  {
    var c1 := InitializeContext.Initialize(c, signers, a, initializerAmount, takerAmount).value;
    InitializeContext.InitializeRecordFields(c, signers, a, initializerAmount, takerAmount);
    InitializeContext.InitializeMovesExactAmount(c, signers, a, initializerAmount, takerAmount);
    ExchangeContext.ExchangeBindsInitializer(c1, takerSigners, b);
    ExchangeContext.ExchangeRequiresTaker(c1, takerSigners, b);
    ExchangeContext.ExchangeChecksMints(c1, takerSigners, b);
    ExchangeContext.ExchangeSwaps(c1, takerSigners, b);
    ExchangeContext.ExchangeCloses(c1, takerSigners, b);
    assert b.initializer == a.initializer && b.taker == a.taker;
  }

  /** Once cancel succeeds, a second cancel and any exchange of the same record fail with
      AccountNotInitialized (for a signed request that passes the real record). */
  lemma NothingAfterCancel(c: Chain, signers: set<Pubkey>, a: CancelContext.Accounts,
                           againSigners: set<Pubkey>, again: CancelContext.Accounts,
                           takerSigners: set<Pubkey>, b: ExchangeContext.Accounts)
    requires CancelContext.Cancel(c, signers, a).Success?
    requires again.escrowState == a.escrowState && again.initializer in againSigners
    requires b.escrowState == a.escrowState && b.taker in takerSigners
    ensures var c' := CancelContext.Cancel(c, signers, a).value;
      && CancelContext.Cancel(c', againSigners, again) == Failure(AccountNotInitialized)
      && ExchangeContext.Exchange(c', takerSigners, b) == Failure(AccountNotInitialized)
  {
    CancelContext.CancelCloses(c, signers, a);
  }

  /** Once exchange succeeds, a cancel and a second exchange of the same record fail with
      AccountNotInitialized (for a signed request that passes the real record). */
  lemma NothingAfterExchange(c: Chain, signers: set<Pubkey>, b: ExchangeContext.Accounts,
                             cancelSigners: set<Pubkey>, a: CancelContext.Accounts,
                             againSigners: set<Pubkey>, again: ExchangeContext.Accounts)
    requires ExchangeContext.Exchange(c, signers, b).Success?
    requires a.escrowState == b.escrowState && a.initializer in cancelSigners
    requires again.escrowState == b.escrowState && again.taker in againSigners
    ensures var c' := ExchangeContext.Exchange(c, signers, b).value;
      && CancelContext.Cancel(c', cancelSigners, a) == Failure(AccountNotInitialized)
      && ExchangeContext.Exchange(c', againSigners, again) == Failure(AccountNotInitialized)
  {
    ExchangeContext.ExchangeCloses(c, signers, b);
  }
}
