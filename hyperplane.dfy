/** The part of the Hyperplane swap program's library that the adapter consumes:
    the decoded pool account, the curve handle, and the shape of a curve swap.
    The curve's pricing itself belongs to that library and is a parameter of the model. */
module Hyperplane {
  import opened Wrappers
  import opened Solana

  datatype TradeDirection = AtoB | BtoA

  /** The pool's fee schedule (`hyperplane::curve::fees::Fees`): numerator/denominator pairs. */
  datatype Fees = Fees(
    tradeFeeNumerator: U64, tradeFeeDenominator: U64,
    ownerTradeFeeNumerator: U64, ownerTradeFeeDenominator: U64,
    ownerWithdrawFeeNumerator: U64, ownerWithdrawFeeDenominator: U64,
    hostFeeNumerator: U64, hostFeeDenominator: U64)

  /** The decoded pool account (`hyperplane::state::SwapPool`), reduced to the fields the
      adapter reads. A token program equal to `DefaultPubkey` means the pool predates
      per-side token programs. */
  datatype SwapPool = SwapPool(
    poolAuthority: Pubkey,
    tokenAMint: Pubkey, tokenBMint: Pubkey,
    tokenAVault: Pubkey, tokenBVault: Pubkey,
    tokenAFeesVault: Pubkey, tokenBFeesVault: Pubkey,
    tokenAProgram: Pubkey, tokenBProgram: Pubkey,
    swapCurveData: seq<bv8>,
    fees: Fees)

  /** A curve built by the library's `curve!` macro; its parameters are not interpreted here. */
  datatype SwapCurve = SwapCurve(parameters: seq<bv8>)

  /** The arguments of one `SwapCurve::swap` call, in the library's own naming:
      `sourceAmount` is the amount traded in, `swapSourceAmount` and
      `swapDestinationAmount` are the pool's reserves on the two sides of the trade. */
  datatype CurveRequest = CurveRequest(
    curve: SwapCurve,
    sourceAmount: U128,
    swapSourceAmount: U128,
    swapDestinationAmount: U128,
    direction: TradeDirection,
    fees: Fees)

  /** `hyperplane::curve::base::SwapResult`. */
  datatype SwapResult = SwapResult(
    newPoolSourceAmount: U128,
    newPoolDestinationAmount: U128,
    sourceAmountSwapped: U128,
    destinationAmountSwapped: U128,
    tradeFee: U128,
    ownerFee: U128)

  /** An error reported by the curve library; its kinds are not distinguished here. */
  datatype CurveError = CurveError(code: nat)

  /** `SwapCurve::swap`, supplied by the library. */
  type CurveSwap = CurveRequest -> Result<SwapResult, CurveError>

  /** The `curve!` macro: builds the curve from the pool's stored curve data and the pool. */
  type CurveBuilder = (seq<bv8>, SwapPool) -> SwapCurve

  /** Anchor's `AccountDeserialize::try_deserialize` for a byte buffer; `None` is a decode error. */
  type Decoder<T> = seq<bv8> -> Option<T>
}
