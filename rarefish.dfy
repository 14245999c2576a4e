/** The Jupiter `Amm` adapter for a Hyperplane (Rarefish) swap pool: its cached state,
    the refresh of that state from fetched accounts, quoting, and the account list of
    the swap instruction. */
module Rarefish {
  import opened Wrappers
  import opened Solana
  import opened Hyperplane
  import opened Jupiter

  /** The ways the adapter stops. Each is a `panic!` or an `unwrap` in the adapter;
      none of its operations returns an `Err` of its own. */
  datatype Panic =
    | PoolDecodeFailed          // the pool account does not deserialise
    | TokenAccountDataTooShort  // a vault's data is shorter than `TokenAccount::LEN`
    | TokenAccountDecodeFailed  // a vault's data does not deserialise
    | TokenAccountsNotUpdated   // "These token accounts should be updated first"
    | CurveNotUpdated           // "Curve account should be updated first"

  const LABEL: string := "Rarefish"

  // Positions in the account list of the Hyperplane swap instruction.
  const TRANSFER_AUTHORITY: nat := 0
  const POOL: nat := 1
  const POOL_AUTHORITY: nat := 2
  const SOURCE_MINT: nat := 3
  const DESTINATION_MINT: nat := 4
  const SOURCE_VAULT: nat := 5
  const DESTINATION_VAULT: nat := 6
  const SOURCE_FEES_VAULT: nat := 7
  const SOURCE_TOKEN_ACCOUNT: nat := 8
  const DESTINATION_TOKEN_ACCOUNT: nat := 9
  const SOURCE_HOST_FEES_ACCOUNT: nat := 10
  const SOURCE_TOKEN_PROGRAM: nat := 11
  const DESTINATION_TOKEN_PROGRAM: nat := 12
  const SWAP_ACCOUNT_COUNT: nat := 13

  /** The positions the instruction may write to; every other position is read-only. */
  const WRITABLE_POSITIONS: set<nat> :=
    {POOL, SOURCE_VAULT, DESTINATION_VAULT, SOURCE_FEES_VAULT,
     SOURCE_TOKEN_ACCOUNT, DESTINATION_TOKEN_ACCOUNT, SOURCE_HOST_FEES_ACCOUNT}

  /** The (is-signer, is-writable) flags of an account list, position by position. */
  function Flags(metas: seq<AccountMeta>): seq<(bool, bool)> {
    seq(|metas|, i requires 0 <= i < |metas| => (metas[i].isSigner, metas[i].isWritable))
  }

  /** The flags of the swap instruction's accounts, in instruction order. */
  const SWAP_ACCOUNT_FLAGS: seq<(bool, bool)> := [
    (true, false),   // transfer authority
    (false, true),   // pool
    (false, false),  // pool authority
    (false, false),  // source mint
    (false, false),  // destination mint
    (false, true),   // source vault
    (false, true),   // destination vault
    (false, true),   // source fees vault
    (false, true),   // trader's source token account
    (false, true),   // trader's destination token account
    (false, true),   // source host-fees account
    (false, false),  // source token program
    (false, false)   // destination token program
  ]

  /** The refresh of one vault: look the vault up in the fetched accounts and, if it is
      there, decode the first `TokenAccount::LEN` bytes of its data, panicking when the
      data is too short or does not decode. */
  function FetchVault(decode: Decoder<TokenAccount>, accounts: map<Pubkey, Account>, vault: Pubkey)
    : (r: Result<Option<TokenAccount>, Panic>)
    ensures r == Ok(None) <==> vault !in accounts
    ensures r.Ok? && r.value.Some? ==>
      vault in accounts && TOKEN_ACCOUNT_LEN <= |accounts[vault].data| &&
      decode(accounts[vault].data[..TOKEN_ACCOUNT_LEN]) == Some(r.value.value)
    ensures r == Err(TokenAccountDataTooShort) <==>
      vault in accounts && |accounts[vault].data| < TOKEN_ACCOUNT_LEN
    ensures r == Err(TokenAccountDecodeFailed) <==>
      vault in accounts && TOKEN_ACCOUNT_LEN <= |accounts[vault].data| &&
      decode(accounts[vault].data[..TOKEN_ACCOUNT_LEN]).None?
    ensures (vault in accounts && TOKEN_ACCOUNT_LEN <= |accounts[vault].data| &&
             decode(accounts[vault].data[..TOKEN_ACCOUNT_LEN]).Some?) ==>
      r == Ok(decode(accounts[vault].data[..TOKEN_ACCOUNT_LEN]))
  {
    if vault !in accounts then Ok(None)
    else
      var data := accounts[vault].data;
      if |data| < TOKEN_ACCOUNT_LEN then Err(TokenAccountDataTooShort)
      else
        match decode(data[..TOKEN_ACCOUNT_LEN])
        case Some(account) => Ok(Some(account))
        case None => Err(TokenAccountDecodeFailed)
  }

  /** A token program as the instruction receives it: a pool that left the field unset
      (the default key) uses the original SPL Token program. */
  function EffectiveTokenProgram(program: Pubkey): (r: Pubkey)
    ensures r != DefaultPubkey
    ensures program != DefaultPubkey ==> r == program
    ensures program == DefaultPubkey ==> r == SplTokenProgramId
  {
    if program == DefaultPubkey then SplTokenProgramId else program
  }

  /** Which of the pool's accounts play the source and destination roles of a swap. */
  datatype SwapRoles = SwapRoles(
    sourceVault: Pubkey,
    sourceFeesVault: Pubkey,
    sourceTokenProgram: Pubkey,
    destinationVault: Pubkey,
    destinationTokenProgram: Pubkey)

  /** The adapter. The pool, the market key, the label and the program id are fixed when
      the adapter is built; the cached vault balances and the curve are refreshed by `Update`. */
  class JupiterRarefish {
    const marketKey: Pubkey
    const pool: SwapPool
    const ammLabel: string
    const programId: Pubkey
    var tokenAVault: Option<TokenAccount>
    var tokenBVault: Option<TokenAccount>
    var curve: Option<SwapCurve>

    /** An adapter for an already decoded pool, with nothing cached yet. */
    constructor (marketKey: Pubkey, pool: SwapPool)
      ensures this.marketKey == marketKey && this.pool == pool
      ensures ammLabel == LABEL && programId == HyperplaneProgramId
      ensures tokenAVault == None && tokenBVault == None && curve == None
    {
      this.marketKey := marketKey;
      this.pool := pool;
      this.ammLabel := LABEL;
      this.programId := HyperplaneProgramId;
      this.tokenAVault := None;
      this.tokenBVault := None;
      this.curve := None;
    }

    /** Decodes the pool account and builds an adapter for it; a pool that does not
        decode is a panic. */
    static method NewFromKeyedAccount(keyed: KeyedAccount, decodePool: Decoder<SwapPool>)
      returns (r: Result<JupiterRarefish, Panic>)
      ensures r.Err? <==> decodePool(keyed.account.data).None?
      ensures r.Err? ==> r.error == PoolDecodeFailed
      ensures r.Ok? ==>
        && fresh(r.value)
        && r.value.marketKey == keyed.key
        && Some(r.value.pool) == decodePool(keyed.account.data)
        && r.value.ammLabel == LABEL
        && r.value.programId == HyperplaneProgramId
        && r.value.tokenAVault == None && r.value.tokenBVault == None && r.value.curve == None
    {
      match decodePool(keyed.account.data)
      case None =>
        r := Err(PoolDecodeFailed);
      case Some(pool) =>
        var adapter := new JupiterRarefish(keyed.key, pool);
        r := Ok(adapter);
    }

    /** The two tradable mints, A first. */
    function GetReserveMints(): (r: seq<Pubkey>)
      ensures |r| == 2 && r[0] == pool.tokenAMint && r[1] == pool.tokenBMint
    {
      [pool.tokenAMint, pool.tokenBMint]
    }

    /** The accounts the router must fetch before each `Update`: the two vaults, A first. */
    function GetAccountsToUpdate(): (r: seq<Pubkey>)
      ensures |r| == 2 && r[0] == pool.tokenAVault && r[1] == pool.tokenBVault
    {
      [pool.tokenAVault, pool.tokenBVault]
    }

    /** Refreshes the cache from freshly fetched accounts. Each vault is overwritten:
        with its decoded account when the vault is among the fetched accounts, with
        `None` otherwise, whatever was cached before. The curve is rebuilt from the pool.
        A panic while decoding vault B leaves vault A already overwritten. */
    method Update(decode: Decoder<TokenAccount>, buildCurve: CurveBuilder, accounts: map<Pubkey, Account>)
      returns (r: Result<(), Panic>)
      modifies this
      ensures
        var a := FetchVault(decode, accounts, pool.tokenAVault);
        var b := FetchVault(decode, accounts, pool.tokenBVault);
        if a.Err? then
          r == Err(a.error) && unchanged(this)
        else if b.Err? then
          && r == Err(b.error)
          && tokenAVault == a.value && tokenBVault == old(tokenBVault) && curve == old(curve)
        else
          && r == Ok(())
          && tokenAVault == a.value && tokenBVault == b.value
          && curve == Some(buildCurve(pool.swapCurveData, pool))
      ensures r.Ok? ==>
        && (tokenAVault.Some? <==> pool.tokenAVault in accounts)
        && (tokenBVault.Some? <==> pool.tokenBVault in accounts)
        && curve.Some?
    {
      var a := FetchVault(decode, accounts, pool.tokenAVault);
      if a.Err? {
        return Err(a.error);
      }
      tokenAVault := a.value;
      var b := FetchVault(decode, accounts, pool.tokenBVault);
      if b.Err? {
        return Err(b.error);
      }
      tokenBVault := b.value;
      curve := Some(buildCurve(pool.swapCurveData, pool));
      r := Ok(());
    }

    /** The trade direction for an input mint: A to B for mint A, B to A for any other mint. */
    function Direction(inputMint: Pubkey): (d: TradeDirection)
      ensures d == AtoB <==> inputMint == pool.tokenAMint
    {
      if inputMint == pool.tokenAMint then AtoB else BtoA
    }

    /** The curve call a quote makes: the requested amount as it is, the reserves ordered
        source first for the direction of the input mint, and the pool's fees. */
    function CurveRequestFor(inputMint: Pubkey, amount: U64, a: TokenAccount, b: TokenAccount, c: SwapCurve)
      : (req: CurveRequest)
      ensures req.curve == c && req.fees == pool.fees
      ensures req.sourceAmount == amount
      ensures req.direction == Direction(inputMint)
      ensures req.direction == AtoB ==> req.swapSourceAmount == a.amount && req.swapDestinationAmount == b.amount
      ensures req.direction == BtoA ==> req.swapSourceAmount == b.amount && req.swapDestinationAmount == a.amount
    {
      var (direction, source, destination) :=
        if inputMint == pool.tokenAMint then (AtoB, a.amount, b.amount) else (BtoA, b.amount, a.amount);
      CurveRequest(c, amount, source, destination, direction, fees := pool.fees)
    }

    /** Quotes an exact-in trade against the cached state. Both vaults must have been
        refreshed, the curve must be present and the curve must accept the trade; the
        output amount is the curve's output truncated to 64 bits, and every other field
        of the quote keeps its default. */
    function GetQuote(swap: CurveSwap, qp: QuoteParams): (r: Result<Quote, Panic>)
      reads this
      ensures r.Ok? <==>
        && tokenAVault.Some? && tokenBVault.Some? && curve.Some?
        && swap(CurveRequestFor(qp.inputMint, qp.amount, tokenAVault.value, tokenBVault.value, curve.value)).Ok?
      ensures tokenAVault.None? || tokenBVault.None? ==> r == Err(TokenAccountsNotUpdated)
      ensures tokenAVault.Some? && tokenBVault.Some? && r.Err? ==> r == Err(CurveNotUpdated)
      ensures r.Ok? ==>
        var out := swap(CurveRequestFor(qp.inputMint, qp.amount, tokenAVault.value, tokenBVault.value, curve.value));
        && r.value.outAmount == TruncateToU64(out.value.destinationAmountSwapped)
        && r.value.(outAmount := 0) == DEFAULT_QUOTE
    {
      match (tokenAVault, tokenBVault)
      case (Some(a), Some(b)) =>
        (match curve
         case Some(c) =>
           (match swap(CurveRequestFor(qp.inputMint, qp.amount, a, b, c))
            case Ok(result) => Ok(DEFAULT_QUOTE.(outAmount := TruncateToU64(result.destinationAmountSwapped)))
            case Err(_) => Err(CurveNotUpdated))
         case None => Err(CurveNotUpdated))
      case _ => Err(TokenAccountsNotUpdated)
    }

    /** The pool accounts that take the source and destination roles: A's vault, fee vault
        and program when the source mint is A, B's otherwise, with unset programs replaced
        by the SPL Token program. */
    function Roles(sourceMint: Pubkey): (r: SwapRoles)
      ensures sourceMint == pool.tokenAMint ==>
        && r.sourceVault == pool.tokenAVault && r.sourceFeesVault == pool.tokenAFeesVault
        && r.sourceTokenProgram == EffectiveTokenProgram(pool.tokenAProgram)
        && r.destinationVault == pool.tokenBVault
        && r.destinationTokenProgram == EffectiveTokenProgram(pool.tokenBProgram)
      ensures sourceMint != pool.tokenAMint ==>
        && r.sourceVault == pool.tokenBVault && r.sourceFeesVault == pool.tokenBFeesVault
        && r.sourceTokenProgram == EffectiveTokenProgram(pool.tokenBProgram)
        && r.destinationVault == pool.tokenAVault
        && r.destinationTokenProgram == EffectiveTokenProgram(pool.tokenAProgram)
    {
      var stored :=
        if sourceMint == pool.tokenAMint then
          SwapRoles(pool.tokenAVault, pool.tokenAFeesVault, pool.tokenAProgram, pool.tokenBVault, pool.tokenBProgram)
        else
          SwapRoles(pool.tokenBVault, pool.tokenBFeesVault, pool.tokenBProgram, pool.tokenAVault, pool.tokenAProgram);
      stored.(sourceTokenProgram := EffectiveTokenProgram(stored.sourceTokenProgram),
              destinationTokenProgram := EffectiveTokenProgram(stored.destinationTokenProgram))
    }

    /** The swap instruction's kind and account list. The list has a fixed length and a
        fixed order for both directions; only the transfer authority signs; the program's
        own id fills the host-fee slot, meaning no host-fee account. */
    function GetSwapAndAccountMetas(sp: SwapParams): (r: SwapAndAccountMetas)
      ensures r.swap == TokenSwapV2
      ensures |r.accountMetas| == SWAP_ACCOUNT_COUNT
      ensures
        var m, roles := r.accountMetas, Roles(sp.sourceMint);
        && m[TRANSFER_AUTHORITY] == AccountMeta(sp.tokenTransferAuthority, true, false)
        && m[POOL] == AccountMeta(marketKey, false, true)
        && m[POOL_AUTHORITY] == AccountMeta(pool.poolAuthority, false, false)
        && m[SOURCE_MINT] == AccountMeta(sp.sourceMint, false, false)
        && m[DESTINATION_MINT] == AccountMeta(sp.destinationMint, false, false)
        && m[SOURCE_VAULT] == AccountMeta(roles.sourceVault, false, true)
        && m[DESTINATION_VAULT] == AccountMeta(roles.destinationVault, false, true)
        && m[SOURCE_FEES_VAULT] == AccountMeta(roles.sourceFeesVault, false, true)
        && m[SOURCE_TOKEN_ACCOUNT] == AccountMeta(sp.sourceTokenAccount, false, true)
        && m[DESTINATION_TOKEN_ACCOUNT] == AccountMeta(sp.destinationTokenAccount, false, true)
        && m[SOURCE_HOST_FEES_ACCOUNT] == AccountMeta(programId, false, true)
        && m[SOURCE_TOKEN_PROGRAM] == AccountMeta(roles.sourceTokenProgram, false, false)
        && m[DESTINATION_TOKEN_PROGRAM] == AccountMeta(roles.destinationTokenProgram, false, false)
    {
      var roles := Roles(sp.sourceMint);
      var accountMetas := [
        NewReadonly(sp.tokenTransferAuthority, true),
        NewWritable(marketKey, false),
        NewReadonly(pool.poolAuthority, false),
        NewReadonly(sp.sourceMint, false),
        NewReadonly(sp.destinationMint, false),
        NewWritable(roles.sourceVault, false),
        NewWritable(roles.destinationVault, false),
        NewWritable(roles.sourceFeesVault, false),
        NewWritable(sp.sourceTokenAccount, false),
        NewWritable(sp.destinationTokenAccount, false),
        NewWritable(programId, false),
        NewReadonly(roles.sourceTokenProgram, false),
        NewReadonly(roles.destinationTokenProgram, false)
      ];
      SwapAndAccountMetas(TokenSwapV2, accountMetas)
    }
  }
}
