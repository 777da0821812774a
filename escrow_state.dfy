/** The escrow record: the persisted state of one open escrow. */
module EscrowRecord {
  import opened Keys
  import opened Token

  /**
   * Who may settle the escrow and on what terms. There is no status field: an escrow is open
   * exactly while its record exists, and settling or cancelling it closes the record.
   */
  datatype EscrowState = EscrowState(
    initializer: Pubkey,        // created the escrow and locked mint A
    taker: Pubkey,              // the only party that may complete the exchange
    initializerAmount: u64,     // units of mint A locked in the vault, owed to the taker
    takerAmount: u64,           // units of mint B the taker pays the initializer
    mintA: Pubkey,
    mintB: Pubkey)

  /** The all-zero key that a newly created account's key fields hold. */
  const DEFAULT_KEY: Pubkey := Keypair(0)

  /** A record as `init` leaves it, before the handler fills it in. */
  const ZEROED: EscrowState := EscrowState(DEFAULT_KEY, DEFAULT_KEY, 0, 0, DEFAULT_KEY, DEFAULT_KEY)
}
