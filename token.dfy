/**
 * The token program as the escrow program uses it: token accounts with a mint, an owner and a
 * u64 balance; a checked transfer; and closing an empty account.
 */
module Token {
  import opened Wrappers
  import opened Errors
  import opened Keys

  const U64_LIMIT: int := 0x1_0000_0000_0000_0000

  /** An unsigned 64-bit quantity, as every amount and balance is. */
  type u64 = x: int | 0 <= x < U64_LIMIT

  datatype TokenAccount = TokenAccount(mint: Pubkey, owner: Pubkey, amount: u64)

  /** All token accounts, by address. */
  type TokenMap = map<Pubkey, TokenAccount>

  /** The balance the transfer primitive leaves at `at`: debited if it is the source, credited if it is the destination. */
  function Moved(tokens: TokenMap, at: Pubkey, source: Pubkey, destination: Pubkey, amount: u64): int
    requires at in tokens
  {
    tokens[at].amount - (if at == source then amount else 0) + (if at == destination then amount else 0)
  }

  /**
   * Moves `amount` from `source` to `destination` on the authority of `authority`, in the order
   * the token program checks: both accounts exist, the source holds enough, the mints agree, the
   * authority owns the source and signed. A transfer to the account itself then changes nothing;
   * any other is a debit and a checked credit.
   */
  function Transfer(tokens: TokenMap, source: Pubkey, destination: Pubkey, authority: Pubkey,
                    signers: set<Pubkey>, amount: u64): (r: Result<TokenMap, Error>)
    ensures r.Success? <==>
      && source in tokens && destination in tokens
      && amount <= tokens[source].amount
      && tokens[source].mint == tokens[destination].mint
      && tokens[source].owner == authority && authority in signers
      && (source == destination || tokens[destination].amount + amount < U64_LIMIT)
    ensures r.Success? ==> r.value.Keys == tokens.Keys
    ensures r.Success? ==> forall at :: at in tokens ==>
      && r.value[at].mint == tokens[at].mint
      && r.value[at].owner == tokens[at].owner
      && r.value[at].amount == Moved(tokens, at, source, destination, amount)
  {
    if source !in tokens || destination !in tokens then Failure(AccountNotInitialized)
    else
      var src := tokens[source];
      var dst := tokens[destination];
      if src.amount < amount then Failure(InsufficientFunds)
      else if src.mint != dst.mint then Failure(MintMismatch)
      else if authority != src.owner then Failure(OwnerMismatch)
      else if authority !in signers then Failure(MissingRequiredSignature)
      else if source == destination then Success(tokens)
      else if dst.amount + amount >= U64_LIMIT then Failure(Overflow)
      else
        var debited := tokens[source := src.(amount := src.amount - amount)];
        Success(debited[destination := dst.(amount := dst.amount + amount)])
  }

  /** Closes an empty token account on the authority of its owner, which must have signed. */
  function CloseAccount(tokens: TokenMap, account: Pubkey, authority: Pubkey, signers: set<Pubkey>): (r: Result<TokenMap, Error>)
    ensures r.Success? <==>
      account in tokens && tokens[account].amount == 0 && tokens[account].owner == authority && authority in signers
    ensures r.Success? ==> r.value.Keys == tokens.Keys - {account}
    ensures r.Success? ==> forall at :: at in r.value ==> r.value[at] == tokens[at]
  {
    if account !in tokens then Failure(AccountNotInitialized)
    else if tokens[account].amount != 0 then Failure(NonNativeHasBalance)
    else if authority != tokens[account].owner then Failure(OwnerMismatch)
    else if authority !in signers then Failure(MissingRequiredSignature)
    else Success(tokens - {account})
  }

  /** What `t` contributes to the supply of `mint`. */
  function Held(t: TokenAccount, mint: Pubkey): nat {
    if t.mint == mint then t.amount else 0
  }

  /** The total of `mint` held across all token accounts. */
  ghost function Supply(tokens: TokenMap, mint: Pubkey): nat
    decreases tokens.Keys
  {
    if tokens == map[] then 0
    else
      var k :| k in tokens;
      Held(tokens[k], mint) + Supply(tokens - {k}, mint)
  }

  /** Supply does not depend on the order in which accounts are counted: any one account can be taken out first. */
  lemma {:induction false} SupplyRemove(tokens: TokenMap, k: Pubkey, mint: Pubkey)
    requires k in tokens
    ensures Supply(tokens, mint) == Held(tokens[k], mint) + Supply(tokens - {k}, mint)
    decreases tokens.Keys
  {
    var j :| j in tokens && Supply(tokens, mint) == Held(tokens[j], mint) + Supply(tokens - {j}, mint);
    if j != k {
      var rest := tokens - {j} - {k};
      assert tokens - {k} - {j} == rest;
      SupplyRemove(tokens - {j}, k, mint);
      SupplyRemove(tokens - {k}, j, mint);
    }
  }

  /** Replacing one account changes the supply by the difference of what the two hold. */
  lemma SupplyUpdate(tokens: TokenMap, k: Pubkey, v: TokenAccount, mint: Pubkey)
    requires k in tokens
    ensures Supply(tokens[k := v], mint) == Supply(tokens, mint) - Held(tokens[k], mint) + Held(v, mint)
  {
    SupplyRemove(tokens[k := v], k, mint);
    assert tokens[k := v] - {k} == tokens - {k};
    SupplyRemove(tokens, k, mint);
  }

  /** Adding a new account adds what it holds. */
  lemma SupplyInsert(tokens: TokenMap, k: Pubkey, v: TokenAccount, mint: Pubkey)
    requires k !in tokens
    ensures Supply(tokens[k := v], mint) == Supply(tokens, mint) + Held(v, mint)
  {
    SupplyRemove(tokens[k := v], k, mint);
    assert tokens[k := v] - {k} == tokens;
  }

  /** A successful transfer preserves the supply of every mint. */
  lemma TransferConserves(tokens: TokenMap, source: Pubkey, destination: Pubkey, authority: Pubkey,
                          signers: set<Pubkey>, amount: u64, mint: Pubkey)
    requires Transfer(tokens, source, destination, authority, signers, amount).Success?
    ensures Supply(Transfer(tokens, source, destination, authority, signers, amount).value, mint) == Supply(tokens, mint)
  {
    if source != destination {
      var src := tokens[source];
      var dst := tokens[destination];
      var debited := tokens[source := src.(amount := src.amount - amount)];
      SupplyUpdate(tokens, source, src.(amount := src.amount - amount), mint);
      SupplyUpdate(debited, destination, dst.(amount := dst.amount + amount), mint);
    }
  }

  /** Closing an account preserves the supply of every mint: it held nothing. */
  lemma CloseConserves(tokens: TokenMap, account: Pubkey, authority: Pubkey, signers: set<Pubkey>, mint: Pubkey)
    requires CloseAccount(tokens, account, authority, signers).Success?
    ensures Supply(CloseAccount(tokens, account, authority, signers).value, mint) == Supply(tokens, mint)
  {
    SupplyRemove(tokens, account, mint);
  }
}
