/** The router-side types of the Jupiter `Amm` interface that the adapter implements. */
module Jupiter {
  import opened Solana

  /** A pool address together with its fetched account. */
  datatype KeyedAccount = KeyedAccount(key: Pubkey, account: Account)

  datatype SwapMode = ExactIn | ExactOut

  datatype QuoteParams = QuoteParams(inputMint: Pubkey, outputMint: Pubkey, amount: U64, swapMode: SwapMode)

  /** The quote, reduced to its integer and key fields. */
  datatype Quote = Quote(inAmount: U64, outAmount: U64, feeAmount: U64, feeMint: Pubkey)

  /** `Quote::default()`. */
  const DEFAULT_QUOTE: Quote := Quote(0, 0, 0, DefaultPubkey)

  datatype SwapParams = SwapParams(
    inAmount: U64,
    outAmount: U64,
    sourceMint: Pubkey,
    destinationMint: Pubkey,
    sourceTokenAccount: Pubkey,
    destinationTokenAccount: Pubkey,
    tokenTransferAuthority: Pubkey)

  /** The router's instruction kinds of the token-swap family. */
  datatype Swap = TokenSwap | TokenSwapV2

  datatype SwapAndAccountMetas = SwapAndAccountMetas(swap: Swap, accountMetas: seq<AccountMeta>)
}
