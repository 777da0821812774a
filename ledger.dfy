/**
 * The escrow program run in place on a mutable ledger. Each instruction validates its accounts,
 * then changes the ledger one step at a time as the handler does (creating the accounts,
 * filling in the record field by field, calling the token program, closing accounts); when a
 * step fails, the runtime puts back the ledger as it was before the transaction.
 */
module Ledger {
  import opened Wrappers
  import opened Errors
  import opened Keys
  import opened Token
  import opened EscrowRecord
  import opened Runtime
  import InitializeContext
  import CancelContext
  import ExchangeContext
  import Lifecycle

  class Ledger {
    var mints: set<Pubkey>
    var tokens: TokenMap
    var escrows: map<Pubkey, EscrowState>

    /** The ledger as a value. */
    function State(): Chain
      reads this
    {
      Chain(mints, tokens, escrows)
    }

    constructor (genesis: Chain)
      ensures State() == genesis
    {
      mints, tokens, escrows := genesis.mints, genesis.tokens, genesis.escrows;
    }

    /** The runtime discarding the writes of a failed transaction. */
    method Restore(snapshot: Chain)
      modifies this
      ensures State() == snapshot
    {
      mints, tokens, escrows := snapshot.mints, snapshot.tokens, snapshot.escrows;
    }

    /** A token-program transfer: applied to the token accounts if it succeeds, nothing otherwise. */
    method TransferTokens(source: Pubkey, destination: Pubkey, authority: Pubkey, signers: set<Pubkey>, amount: u64)
      returns (r: Outcome<Error>)
      modifies this
      ensures mints == old(mints) && escrows == old(escrows)
      ensures Transfer(old(tokens), source, destination, authority, signers, amount)
              == (if r.Pass? then Success(tokens) else Failure(r.error))
      ensures r.Fail? ==> tokens == old(tokens)
    {
      match Transfer(tokens, source, destination, authority, signers, amount)
      case Success(moved) =>
        tokens := moved;
        r := Pass;
      case Failure(e) =>
        r := Fail(e);
    }

    /** A token-program account close: applied if it succeeds, nothing otherwise. */
    method CloseTokenAccount(account: Pubkey, authority: Pubkey, signers: set<Pubkey>) returns (r: Outcome<Error>)
      modifies this
      ensures mints == old(mints) && escrows == old(escrows)
      ensures CloseAccount(old(tokens), account, authority, signers)
              == (if r.Pass? then Success(tokens) else Failure(r.error))
      ensures r.Fail? ==> tokens == old(tokens)
    {
      match CloseAccount(tokens, account, authority, signers)
      case Success(closed) =>
        tokens := closed;
        r := Pass;
      case Failure(e) =>
        r := Fail(e);
    }

    /** The `initialize` instruction. */
    method Initialize(signers: set<Pubkey>, a: InitializeContext.Accounts, initializerAmount: u64, takerAmount: u64)
      returns (r: Outcome<Error>)
      modifies this
      ensures InitializeContext.Initialize(old(State()), signers, a, initializerAmount, takerAmount)
              == (if r.Pass? then Success(State()) else Failure(r.error))
      ensures r.Fail? ==> State() == old(State())
    {
      var snapshot := State();
      r := InitializeContext.Constraints(snapshot, signers, a);
      if r.Fail? {
        return;
      }
      // `init` creates the record and the vault at their derived addresses
      escrows := escrows[a.escrowState := ZEROED];
      tokens := tokens[a.vault := InitializeContext.NewVault(a)];
      // the handler fills in the record one field at a time
      var record := escrows[a.escrowState];
      record := record.(initializer := a.initializer);
      record := record.(taker := a.taker);
      record := record.(initializerAmount := initializerAmount);
      record := record.(takerAmount := takerAmount);
      record := record.(mintA := a.mintA);
      record := record.(mintB := a.mintB);
      escrows := escrows[a.escrowState := record];
      assert escrows == snapshot.escrows[a.escrowState := InitializeContext.NewRecord(a, initializerAmount, takerAmount)];
      // then locks mint A in the vault
      r := TransferTokens(a.initializerAtaA, a.vault, a.initializer, signers, initializerAmount);
      if r.Fail? {
        Restore(snapshot);
      }
    }

    /** The `cancel` instruction. */
    method Cancel(signers: set<Pubkey>, a: CancelContext.Accounts) returns (r: Outcome<Error>)
      modifies this
      ensures CancelContext.Cancel(old(State()), signers, a)
              == (if r.Pass? then Success(State()) else Failure(r.error))
      ensures r.Fail? ==> State() == old(State())
    {
      var snapshot := State();
      r := CancelContext.Constraints(snapshot, signers, a);
      if r.Fail? {
        return;
      }
      var programSigners := ProgramSigners(signers, a.initializer);
      // refund the vault's balance as loaded with the accounts
      r := TransferTokens(a.vault, a.initializerAtaA, a.escrowState, programSigners, snapshot.tokens[a.vault].amount);
      if r.Fail? {
        Restore(snapshot);
        return;
      }
      r := CloseTokenAccount(a.vault, a.escrowState, programSigners);
      // the close cannot fail: the refund emptied the vault and was authorized by the vault's owner
      assert r.Pass?;
      // `close = initializer` on the record runs when the handler has returned
      escrows := escrows - {a.escrowState};
    }

    /** The `exchange` instruction. */
    method Exchange(signers: set<Pubkey>, a: ExchangeContext.Accounts) returns (r: Outcome<Error>)
      modifies this
      ensures ExchangeContext.Exchange(old(State()), signers, a)
              == (if r.Pass? then Success(State()) else Failure(r.error))
      ensures r.Fail? ==> State() == old(State())
    {
      var snapshot := State();
      r := ExchangeContext.Constraints(snapshot, signers, a);
      if r.Fail? {
        return;
      }
      var record := escrows[a.escrowState];
      // leg 1: the taker pays the initializer in mint B
      r := TransferTokens(a.takerAtaB, a.initializerAtaB, a.taker, signers, record.takerAmount);
      if r.Fail? {
        Restore(snapshot);
        return;
      }
      // leg 2: the vault pays the taker in mint A, the program signing for the record's address
      var programSigners := ProgramSigners(signers, a.initializer);
      r := TransferTokens(a.vault, a.takerAtaA, a.escrowState, programSigners, record.initializerAmount);
      if r.Fail? {
        Restore(snapshot);
        return;
      }
      r := CloseTokenAccount(a.vault, a.escrowState, programSigners);
      if r.Fail? {
        Restore(snapshot);
        return;
      }
      // `close = initializer` on the record runs when the handler has returned
      escrows := escrows - {a.escrowState};
    }

    /** Runs one transaction, committing it or leaving the ledger as it was. */
    method Execute(tx: Lifecycle.Transaction) returns (r: Outcome<Error>)
      modifies this
      ensures Lifecycle.Execute(old(State()), tx) == (if r.Pass? then Success(State()) else Failure(r.error))
      ensures State() == Lifecycle.Commit(old(State()), tx)
    {
      match tx.instruction
      case InitializeIx(a, x, y) =>
        r := Initialize(tx.signers, a, x, y);
      case CancelIx(a) =>
        r := Cancel(tx.signers, a);
      case ExchangeIx(a) =>
        r := Exchange(tx.signers, a);
    }
  }
}
