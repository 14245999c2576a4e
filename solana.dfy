/** The Solana and SPL Token vocabulary the adapter is written against:
    addresses, raw accounts, instruction account references and decoded token accounts. */
module Solana {

  const U64_MODULUS: int := 0x1_0000_0000_0000_0000
  const U128_MODULUS: int := 0x1_0000_0000_0000_0000_0000_0000_0000_0000

  /** Rust's `u64` and `u128`. */
  type U64 = x: int | 0 <= x < U64_MODULUS
  type U128 = x: int | 0 <= x < U128_MODULUS

  /** A 32-byte address. Only equality matters to the adapter, so the model partitions
      the address space into the three keys the adapter names and every other key:
      `DefaultPubkey` is `Pubkey::default()` (all zero bytes), `SplTokenProgramId` is
      `spl_token::id()`, `HyperplaneProgramId` is `hyperplane::id()`, and `Address(n)`
      is any address that is none of these. */
  datatype Pubkey = DefaultPubkey | SplTokenProgramId | HyperplaneProgramId | Address(n: nat)

  /** Raw account as fetched from the chain; only its data bytes are read here. */
  datatype Account = Account(data: seq<bv8>)

  /** `solana_sdk::instruction::AccountMeta`. */
  datatype AccountMeta = AccountMeta(pubkey: Pubkey, isSigner: bool, isWritable: bool)

  /** `AccountMeta::new`: a writable reference. */
  function NewWritable(pubkey: Pubkey, isSigner: bool): AccountMeta {
    AccountMeta(pubkey, isSigner, true)
  }

  /** `AccountMeta::new_readonly`: a read-only reference. */
  function NewReadonly(pubkey: Pubkey, isSigner: bool): AccountMeta {
    AccountMeta(pubkey, isSigner, false)
  }

  /** The decoded SPL Token account (`anchor_spl::token::TokenAccount`), reduced to the
      fields that identify it and its balance. */
  datatype TokenAccount = TokenAccount(mint: Pubkey, owner: Pubkey, amount: U64)

  /** `TokenAccount::LEN`: the byte length of an SPL Token account. */
  const TOKEN_ACCOUNT_LEN: nat := 165

  /** Rust's `x as u64` on a `u128`: keeps the low 64 bits. */
  function TruncateToU64(x: U128): (r: U64)
    ensures (x - r) % U64_MODULUS == 0
    ensures x < U64_MODULUS ==> r == x
  {
    x % U64_MODULUS
  }
}
