/**
 * Account addresses and their derivation.
 *
 * An address is either an ordinary key (a point on the curve, held by a user or a mint's keypair),
 * a program-derived address of this program, computed from a seed tag and a base key, or the
 * associated token account address of a wallet and a mint. The real derivations hash their
 * inputs; here each is a free constructor, so it is injective and never yields an ordinary key.
 */
module Keys {

  datatype Pubkey =
    | Keypair(id: nat)
    | ProgramAddress(seed: string, base: Pubkey)
    | AssociatedAddress(wallet: Pubkey, mint: Pubkey)

  /** The seed tags of the escrow program. */
  const STATE_SEED: string := "state"
  const VAULT_SEED: string := "vault"

  /** The program-derived address for the seeds `[seed, base]` (canonical bump). */
  function Derive(seed: string, base: Pubkey): Pubkey {
    ProgramAddress(seed, base)
  }

  /** The address of the escrow record of `initializer`. */
  function StateAddress(initializer: Pubkey): Pubkey {
    Derive(STATE_SEED, initializer)
  }

  /** The address of the custody vault of `initializer`. */
  function VaultAddress(initializer: Pubkey): Pubkey {
    Derive(VAULT_SEED, initializer)
  }

  /** The associated token account address of `wallet` for `mint`. */
  function AssociatedTokenAddress(wallet: Pubkey, mint: Pubkey): Pubkey {
    AssociatedAddress(wallet, mint)
  }

  /** Derivation is deterministic and injective in both the seed and the base key. */
  lemma DeriveInjective(seed1: string, base1: Pubkey, seed2: string, base2: Pubkey)
    ensures Derive(seed1, base1) == Derive(seed2, base2) <==> seed1 == seed2 && base1 == base2
  {
  }

  /** The state and vault addresses of two initializers differ unless the initializers are equal,
      and a state address is never a vault address nor any token account's associated address. */
  lemma EscrowAddressesDistinct(k1: Pubkey, k2: Pubkey, wallet: Pubkey, mint: Pubkey)
    ensures StateAddress(k1) == StateAddress(k2) ==> k1 == k2
    ensures VaultAddress(k1) == VaultAddress(k2) ==> k1 == k2
    ensures StateAddress(k1) != VaultAddress(k2)
    ensures StateAddress(k1) != AssociatedTokenAddress(wallet, mint)
    ensures VaultAddress(k1) != AssociatedTokenAddress(wallet, mint)
  {
  }
}
