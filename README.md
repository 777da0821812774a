# Escrow program: a Dafny model

This project models the on-chain escrow program `escrow_dapp`, written in Rust with Anchor.
In an escrow, an *initializer* locks `initializer_amount` of mint A in a custody *vault* and
names a *taker* and the `taker_amount` of mint B it wants back. The program has three
instructions:

- `initialize` creates the escrow record and the vault, both at addresses derived from the
  initializer's key, and moves the locked amount into the vault.
- `cancel` gives the vault's whole balance back to the initializer and closes the vault and the record.
- `exchange` is a two-leg swap. The taker pays `taker_amount` of mint B to the initializer, the
  vault pays `initializer_amount` of mint A to the taker, and the vault and the record are closed.

The model is a ledger of mints, token accounts and escrow records, each keyed by address
(`Runtime.Chain`). Each instruction takes the account addresses its caller passes and the set of
keys that signed the transaction. Anchor first validates the accounts in its own order
(`Constraints`). Then the handler makes its token-program calls. A transaction either commits its
new ledger or fails with an error and leaves the ledger unchanged.

- `Keys`: addresses. A program-derived address `Derive(seed, base)` and an associated token
  address are free constructors. So derivation is injective, and a derived address is never an
  ordinary key.
- `Token`: the token program's `transfer` and `close_account` as checked functions, and the
  supply of each mint across all accounts.
- `EscrowRecord`: the six-field record.
- `InitializeContext`, `CancelContext`, `ExchangeContext`: each instruction as a function from
  ledger to result, with its lemmas.
- `Lifecycle`: the program's dispatch, the commit-or-discard runtime, the replay of any sequence
  of transactions, and properties that span instructions.
- `Ledger`: a class whose methods change the ledger in place, step by step as each handler does.
  A failed step puts back the ledger as it was. Each method is proved equal to its instruction's function.
- `Scenarios`: the repository's test cases, replayed on the class as one verified method whose postcondition states the final balances.

Amounts and balances are `u64` (`0 <= x < 2^64`). The token program's checked add can fail with `Overflow`.

Three consequences of the code are easy to miss. The model states each one:

- Neither amount is checked, so an escrow for zero of either mint opens like any other
  (`initialize.rs:5-27`, `InitializeSucceedsIff`).
- A cancel by anyone but the initializer fails with Anchor's `ConstraintSeeds`, not
  `ConstraintHasOne`, because the record's seeds are checked before its `has_one`. The repository's
  test expects exactly that error (`CancelRejectsOtherSigner`).
- The three instructions keep every vault at exactly the record's `initializer_amount`
  (`Runtime.Valid`). But `exchange` releases `initializer_amount`, not the vault's balance
  (`exchange.rs:31`), and then closes the vault, which fails unless it is empty (`exchange.rs:41`).
  So if someone else ever deposits into a vault, every exchange of that escrow fails, while
  `cancel` still refunds everything (`ExchangeAllOrNothing`).

## Model

| member | source | states |
|---|---|---|
| Runtime.Valid | anchor_project/programs/escrow_dapp/src/contexts/initialize.rs:43-59 | The ledger invariant, a predicate with no contract of its own. Every record sits at its initializer's state address. Its vault exists and holds exactly `initializer_amount` of `mint_a` under the record's authority. Every vault has a record, no token account sits at a state address, and associated accounts hold their own mint for their own wallet. |
| Keys.DeriveInjective | anchor_project/programs/escrow_dapp/src/contexts/initialize.rs:43-58 | Two derived addresses are equal exactly when their seeds and base keys are equal. |
| Keys.EscrowAddressesDistinct | anchor_project/programs/escrow_dapp/src/contexts/initialize.rs:47-56 | Distinct initializers have distinct state and vault addresses. A state address is never a vault address or an associated token account address. |
| Token.Transfer | anchor_project/programs/escrow_dapp/src/contexts/initialize.rs:17-24 | A transfer succeeds exactly when both accounts exist, the source holds the amount, the mints agree, the authority owns the source and signed, and the credit stays below 2^64. On success it keeps the set of accounts and each account's mint and owner. Each balance moves by the debit and the credit that fall on it, so a self-transfer changes nothing. |
| Token.CloseAccount | anchor_project/programs/escrow_dapp/src/contexts/cancel.rs:24-31 | A close succeeds exactly when the account exists, is empty, and its owner is the authority and signed. It removes that account and nothing else. |
| Token.TransferConserves | anchor_project/programs/escrow_dapp/src/contexts/exchange.rs:7-14 | A successful transfer leaves the total supply of every mint unchanged. |
| Token.CloseConserves | anchor_project/programs/escrow_dapp/src/contexts/exchange.rs:33-41 | Closing an account leaves the total supply of every mint unchanged. |
| InitializeContext.Constraints | anchor_project/programs/escrow_dapp/src/contexts/initialize.rs:29-62 | Without the initializer's signature the result is `AccountNotSigner`. The checks pass exactly when the initializer signed, both mints exist, the record and vault addresses are the derived ones and both are free, and the source is the initializer's associated account for mint A. |
| InitializeContext.Initialize | anchor_project/programs/escrow_dapp/src/contexts/initialize.rs:5-27 | A failed account check is the instruction's error, before any effect. A success keeps the mints and adds exactly the record address to the records and the vault address to the token accounts. |
| InitializeContext.InitializeSucceedsIff | anchor_project/programs/escrow_dapp/src/contexts/initialize.rs:5-62 | Initialize succeeds exactly when the initializer signs, both mints exist, the source is the initializer's associated account for mint A, the record and vault are at the initializer's free derived addresses, and the source holds the amount. Neither amount is checked, so zero is accepted. |
| InitializeContext.InitializeRecordFields | anchor_project/programs/escrow_dapp/src/contexts/initialize.rs:10-15 | On success, the new record sits at the initializer's state address, which was free before. It holds the signer, the taker argument, both amounts and both mints. No other record changes. |
| InitializeContext.InitializeMovesExactAmount | anchor_project/programs/escrow_dapp/src/contexts/initialize.rs:17-24 | On success there is a new vault at the initializer's vault address. It holds mint A, its authority is the state address, and its balance is exactly `initializerAmount`. The source loses exactly that amount, and every other token account is unchanged. |
| InitializeContext.InitializeFailsWhileOpen | anchor_project/programs/escrow_dapp/src/contexts/initialize.rs:43-48 | Initialize fails whenever a record for the same initializer exists. |
| InitializeContext.InitializeConflict | anchor_project/programs/escrow_dapp/src/contexts/initialize.rs:43-59 | In a valid ledger, once the earlier checks pass, the result is `AccountAlreadyInUse` exactly when the initializer has an open record. |
| InitializeContext.InitializeAuthorization | anchor_project/programs/escrow_dapp/src/contexts/initialize.rs:31-42 | Without the initializer's signature the result is `AccountNotSigner`. A success locks only from the initializer's own associated account for mint A. |
| InitializeContext.InitializeInsufficientFunds | anchor_project/programs/escrow_dapp/src/contexts/initialize.rs:24 | When the accounts check out but the source holds too little, the whole instruction fails with `InsufficientFunds`. |
| InitializeContext.InitializePreservesValid | anchor_project/programs/escrow_dapp/src/contexts/initialize.rs:43-59 | Initialize keeps the ledger invariant. Every record sits at its initializer's state address and is paired with a vault that holds exactly its locked amount under the record's authority. Every vault has a record. |
| InitializeContext.InitializeConserves | anchor_project/programs/escrow_dapp/src/contexts/initialize.rs:17-24 | Initialize leaves the total supply of every mint unchanged. |
| CancelContext.Constraints | anchor_project/programs/escrow_dapp/src/contexts/cancel.rs:36-61 | Without the initializer's signature the result is `AccountNotSigner`. Once the accounts load, a record address not derived from the signer gives `ConstraintSeeds`, whatever the record holds. The checks pass exactly when the signer signed, the record and vault exist at the signer's derived addresses, the record names the signer as initializer, and the refund account is the signer's associated account for the record's `mint_a`. |
| CancelContext.Cancel | anchor_project/programs/escrow_dapp/src/contexts/cancel.rs:5-34 | A failed account check is the instruction's error, before any effect. A success keeps the mints and removes exactly the record and the vault. |
| CancelContext.CancelRequiresInitializer | anchor_project/programs/escrow_dapp/src/contexts/cancel.rs:38-45 | Cancel succeeds only if the signer's key derives the supplied record address and is the record's `initializer`. |
| CancelContext.CancelRejectsOtherSigner | anchor_project/tests/escrow_dapp.ts:272-290 | In a valid ledger, a signer who is not the record's initializer gets `ConstraintSeeds`, even when passing the real record, vault and refund account. |
| CancelContext.CancelVaultBinding | anchor_project/programs/escrow_dapp/src/contexts/cancel.rs:48-52 | A successful cancel drew on the signer's own vault address, so no other vault can be substituted. |
| CancelContext.CancelRefundDestination | anchor_project/programs/escrow_dapp/src/contexts/cancel.rs:54-58 | The refund goes to the initializer's associated account for the record's `mint_a`. |
| CancelContext.CancelRefundsVault | anchor_project/programs/escrow_dapp/src/contexts/cancel.rs:14-21 | On success the refund account gains the vault's whole balance, the vault is gone, and every other token account is unchanged, the taker's included. |
| CancelContext.CancelCloses | anchor_project/programs/escrow_dapp/src/contexts/cancel.rs:24-45 | On success the vault and the record are both closed. No other record and no mint changes. |
| CancelContext.CancelSucceedsWhenValid | anchor_project/programs/escrow_dapp/src/contexts/cancel.rs:5-34 | In a valid ledger the initializer can always cancel an open escrow, given its mint-A account with room for the refund. |
| CancelContext.CancelPreservesValid | anchor_project/programs/escrow_dapp/src/contexts/cancel.rs:36-61 | Cancel keeps the ledger invariant. |
| CancelContext.CancelConserves | anchor_project/programs/escrow_dapp/src/contexts/cancel.rs:14-31 | Cancel leaves the total supply of every mint unchanged. |
| ExchangeContext.Constraints | anchor_project/programs/escrow_dapp/src/contexts/exchange.rs:46-91 | Without the taker's signature the result is `AccountNotSigner`. The checks pass exactly when the taker signed, both mints, the record and the vault exist, and the three token accounts are the taker's associated accounts for mints A and B and the initializer's for mint B. In addition, the record sits at the initializer's state address and names this taker, initializer and mints, and the vault is at the initializer's vault address. |
| ExchangeContext.Exchange | anchor_project/programs/escrow_dapp/src/contexts/exchange.rs:5-44 | A failed account check is the instruction's error, before any effect. A success keeps the mints and removes exactly the record and the vault. |
| ExchangeContext.ExchangeRequiresTaker | anchor_project/programs/escrow_dapp/src/contexts/exchange.rs:49-76 | Exchange succeeds only if the taker signed and is the record's `taker`. |
| ExchangeContext.ExchangeBindsInitializer | anchor_project/programs/escrow_dapp/src/contexts/exchange.rs:77-89 | The supplied initializer is the record's `initializer`, and the record and vault are at addresses derived from it. |
| ExchangeContext.ExchangeChecksMints | anchor_project/programs/escrow_dapp/src/contexts/exchange.rs:78-79 | The supplied mints are the record's `mint_a` and `mint_b`. |
| ExchangeContext.ExchangeLegs | anchor_project/programs/escrow_dapp/src/contexts/exchange.rs:7-41 | On success the three accounts the legs use are the taker's associated accounts for mints A and B and the initializer's for mint B. The vault held exactly `initializer_amount` and is gone. Every other account's balance is its old balance, less `taker_amount` from the taker's B account, plus `taker_amount` to the initializer's B account, plus `initializer_amount` to the taker's A account. This holds even when some of these accounts are the same account. Mints and owners do not change. |
| ExchangeContext.ExchangeSwaps | anchor_project/tests/escrow_dapp.ts:214-219 | With distinct parties and distinct mints: the initializer's associated account for mint B gains exactly `taker_amount`. The taker's associated account for mint A gains exactly `initializer_amount`, and its account for mint B pays `taker_amount`. No other token account changes. |
| ExchangeContext.ExchangeCloses | anchor_project/programs/escrow_dapp/src/contexts/exchange.rs:33-41 | On success the vault and the record no longer exist. No other record and no mint changes. |
| ExchangeContext.ExchangeAllOrNothing | anchor_project/programs/escrow_dapp/src/contexts/exchange.rs:14-41 | Once the accounts check out, a taker short of mint B makes the whole instruction fail with `InsufficientFunds`. A vault balance other than `initializer_amount` also makes it fail, so neither leg takes effect. |
| ExchangeContext.ExchangeSucceedsWhenValid | anchor_project/programs/escrow_dapp/src/contexts/exchange.rs:5-44 | In a valid ledger the record's taker can complete an open escrow with the parties' associated accounts. It needs `taker_amount` of mint B and room below 2^64 for leg 1's credit to the initializer's mint-B account, which a self-transfer does not need. It also needs room for the taker's mint-A balance after both legs. |
| ExchangeContext.ExchangePreservesValid | anchor_project/programs/escrow_dapp/src/contexts/exchange.rs:46-91 | Exchange keeps the ledger invariant. |
| ExchangeContext.ExchangeConserves | anchor_project/programs/escrow_dapp/src/contexts/exchange.rs:7-31 | For each mint, the total across all token accounts, the vault included, is unchanged. |
| Lifecycle.Execute | anchor_project/programs/escrow_dapp/src/lib.rs:14-28 | A successful transaction never changes the mints. A successful `initialize` adds the record at its record address, and a successful `cancel` or `exchange` removes the named record. |
| Lifecycle.Commit | anchor_project/programs/escrow_dapp/src/lib.rs:14-28 | After a transaction the ledger is either the old one or the one the instruction succeeded with. It is always the latter when the instruction succeeds. The mints never change. |
| Lifecycle.Replay | anchor_project/programs/escrow_dapp/src/lib.rs:10-29 | Transactions run one after another, each committed or discarded. Its own contract is the frame property that the set of mints never changes. Validity and supply over a sequence are `ReplayPreservesValid` and `ReplayConserves`. |
| Lifecycle.ExecutePreservesValid | anchor_project/programs/escrow_dapp/src/lib.rs:14-28 | Every instruction, committed or discarded, keeps the ledger invariant. |
| Lifecycle.ExecuteConserves | anchor_project/programs/escrow_dapp/src/lib.rs:14-28 | No instruction changes the supply of any mint. |
| Lifecycle.RecordsNeverRewritten | anchor_project/programs/escrow_dapp/src/state/escrow.rs:5-10 | No instruction rewrites a record's identities, amounts or mints. A record present before and after a transaction is unchanged, and the mints never change. |
| Lifecycle.ReplayPreservesValid | anchor_project/programs/escrow_dapp/src/state/escrow.rs:4-11 | From a valid ledger, any sequence of transactions leads to a valid ledger. |
| Lifecycle.ReplayConserves | anchor_project/programs/escrow_dapp/src/contexts/exchange.rs:7-31 | No sequence of transactions creates or destroys tokens of any mint. |
| Lifecycle.OneEscrowPerInitializer | anchor_project/programs/escrow_dapp/src/contexts/initialize.rs:43-48 | In a valid ledger, two records with the same initializer are the same record. |
| Lifecycle.OpenIffVault | anchor_project/programs/escrow_dapp/src/state/escrow.rs:4-11 | In a valid ledger an escrow is open, meaning its record exists, exactly when its vault exists. |
| Lifecycle.CancelUndoesInitialize | anchor_project/tests/escrow_dapp.ts:106-141 | Cancelling right after initializing always succeeds and gives back exactly the ledger before initialize. The initializer's balance is restored, and neither the record nor the vault exists. |
| Lifecycle.ExchangeSettlesInitialize | anchor_project/tests/escrow_dapp.ts:143-226 | Initialize followed by a successful exchange, with distinct parties and mints, is a direct swap between the two parties named at initialize. The exchange's initializer, taker and mints are those of the initialize. `initializer_amount` of A goes from the initializer's associated account to the taker's, and `taker_amount` of B from the taker's to the initializer's. No record remains, and no other account changes. |
| Lifecycle.NothingAfterCancel | anchor_project/programs/escrow_dapp/src/contexts/cancel.rs:40-47 | After a successful cancel, a second cancel or an exchange of the same record fails with `AccountNotInitialized`. |
| Lifecycle.NothingAfterExchange | anchor_project/programs/escrow_dapp/src/contexts/exchange.rs:73-83 | After a successful exchange, a cancel or a second exchange of the same record fails with `AccountNotInitialized`. |
| Ledger.Ledger.constructor | anchor_project/tests/escrow_dapp.ts:32-63 | The ledger starts as the given state. |
| Ledger.Ledger.Restore | anchor_project/programs/escrow_dapp/src/contexts/exchange.rs:14-41 | The runtime's rollback when a `?` returns an error: the ledger becomes the snapshot taken before the transaction. |
| Ledger.Ledger.TransferTokens | anchor_project/programs/escrow_dapp/src/contexts/exchange.rs:14 | Applies the token program's transfer to the token accounts on success. On failure it changes nothing. |
| Ledger.Ledger.CloseTokenAccount | anchor_project/programs/escrow_dapp/src/contexts/exchange.rs:41 | Applies the token program's close on success. On failure it changes nothing. |
| Ledger.Ledger.Initialize | anchor_project/programs/escrow_dapp/src/contexts/initialize.rs:5-27 | Validates, creates both accounts, fills in the six record fields one by one, then locks mint A. The new ledger is `InitializeContext.Initialize` of the old one. On any error the ledger is unchanged. |
| Ledger.Ledger.Cancel | anchor_project/programs/escrow_dapp/src/contexts/cancel.rs:5-34 | Validates, refunds the vault's loaded balance, closes the vault, then closes the record. A failed refund rolls back. The close is asserted to pass, because the refund has emptied the vault. The new ledger is `CancelContext.Cancel` of the old one. On any error the ledger is unchanged. |
| Ledger.Ledger.Exchange | anchor_project/programs/escrow_dapp/src/contexts/exchange.rs:5-44 | Validates, runs leg 1, leg 2 and the vault close in order with their early returns, then closes the record. The new ledger is `ExchangeContext.Exchange` of the old one. On any error the ledger is unchanged. |
| Ledger.Ledger.Execute | anchor_project/programs/escrow_dapp/src/lib.rs:10-29 | Dispatches one transaction. The ledger afterwards is the committed one or, on failure, the old one. |
| Scenarios.Genesis | anchor_project/tests/escrow_dapp.ts:43-62 | The test's starting ledger: two mints, the initializer with 500 of A and the taker with 1000 of B. It satisfies the ledger invariant. |
| Scenarios.TestCases | anchor_project/tests/escrow_dapp.ts:66-291 | Runs the test suite on one ledger and ends as follows. Initialize records the terms and locks 500. A stranger's cancel gets `ConstraintSeeds` and changes nothing. The initializer's cancel restores the starting ledger. A new initialize is followed by the taker's exchange, which leaves the taker with 500 of A and the initializer with 1000 of B. |

## Left out

- Lamports are not modelled: rent, the `payer` of `init`, the account `space`, and the lamport refunds of `close`. Closing an account only removes it.
- Anchor's deserialization is not modelled: account discriminators, owner-program checks and `mut` flags. An account of the wrong kind reads as absent (`AccountNotInitialized`).
- The `system_program` and `token_program` accounts are assumed to be the real programs.
- Address derivation is not hashed. `Derive` is a free constructor with the canonical bump, so collisions and the off-curve bump search are out.
- The token program is modelled only as far as the escrow uses it. Frozen accounts, delegates, decimals and native-token accounts are left out. Mint supply is not tracked, so the model keeps an `Overflow` error that a real mint's supply cap would rule out.
- For associated token accounts, Anchor's separate address, owner and mint errors are merged into `ConstraintAssociated`.
- Anchor's exact error order across different accounts is approximated. All account loads run first, then the constraints in field order, with seeds before `has_one` and raw constraints, as the test expects.
- Signatures are a parameter: the set of keys that signed the transaction. For the vault-side calls the program adds the record's address, signing with `["state", initializer]`.
- Deposits into a vault by anything other than this program are not modelled. The invariant `Runtime.Valid` assumes there are none. `ExchangeContext.ExchangeAllOrNothing` states what a surplus would do.
- Signer sets are arbitrary sets of keys, so they may contain program-derived addresses, which no transaction could carry. This does not weaken the lemmas that rule outcomes out. It does let success lemmas such as `CancelSucceedsWhenValid` also cover an initializer that is itself a derived address.
- Concurrency is left out. The runtime runs one transaction at a time (`Lifecycle.Replay`), each all or nothing.
- `lib.rs` and `contexts/mod.rs` are only dispatch and re-exports. Their dispatch is `Lifecycle.Execute`.
- `Scenarios.TestCases` keeps one initializer and one taker for the whole run, and puts the stranger's cancel before the initializer's. The test file uses fresh keypairs for each later case.
- The frontend, any listing of open escrows (a client-side account query) and the test harness setup (airdrops, mint creation) are outside the program.
