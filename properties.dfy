/** Properties that relate the adapter's operations to each other. */
module RarefishProperties {
  import opened Wrappers
  import opened Solana
  import opened Hyperplane
  import opened Jupiter
  import opened Rarefish

  /** The parameters of the same trade in the opposite direction. */
  function Reversed(sp: SwapParams): SwapParams {
    sp.(sourceMint := sp.destinationMint, destinationMint := sp.sourceMint,
        sourceTokenAccount := sp.destinationTokenAccount, destinationTokenAccount := sp.sourceTokenAccount)
  }

  /** In an A-to-B trade the vaults, the source fee vault and the token programs are A's
      on the source side and B's on the destination side. */
  lemma RolesFromA(a: JupiterRarefish, sp: SwapParams)
    requires sp.sourceMint == a.pool.tokenAMint
    ensures
      var m, pool := a.GetSwapAndAccountMetas(sp).accountMetas, a.pool;
      && m[SOURCE_VAULT].pubkey == pool.tokenAVault
      && m[DESTINATION_VAULT].pubkey == pool.tokenBVault
      && m[SOURCE_FEES_VAULT].pubkey == pool.tokenAFeesVault
      && m[SOURCE_TOKEN_PROGRAM].pubkey == EffectiveTokenProgram(pool.tokenAProgram)
      && m[DESTINATION_TOKEN_PROGRAM].pubkey == EffectiveTokenProgram(pool.tokenBProgram)
  {
  }

  /** In a trade whose source is not mint A, the same roles are filled from B's side. */
  lemma RolesFromB(a: JupiterRarefish, sp: SwapParams)
    requires sp.sourceMint != a.pool.tokenAMint
    ensures
      var m, pool := a.GetSwapAndAccountMetas(sp).accountMetas, a.pool;
      && m[SOURCE_VAULT].pubkey == pool.tokenBVault
      && m[DESTINATION_VAULT].pubkey == pool.tokenAVault
      && m[SOURCE_FEES_VAULT].pubkey == pool.tokenBFeesVault
      && m[SOURCE_TOKEN_PROGRAM].pubkey == EffectiveTokenProgram(pool.tokenBProgram)
      && m[DESTINATION_TOKEN_PROGRAM].pubkey == EffectiveTokenProgram(pool.tokenAProgram)
  {
  }

  /** Reversing an A-to-B trade exchanges the source and destination entries of each pair
      of roles, keeps the authority, pool, pool authority and host-fee entries, and takes
      B's fee vault in place of A's; every entry keeps its flags. */
  lemma ReverseSwapMirrorsPositions(a: JupiterRarefish, sp: SwapParams)
    requires sp.sourceMint == a.pool.tokenAMint && sp.destinationMint == a.pool.tokenBMint
    requires a.pool.tokenAMint != a.pool.tokenBMint
    ensures
      var forward := a.GetSwapAndAccountMetas(sp).accountMetas;
      var backward := a.GetSwapAndAccountMetas(Reversed(sp)).accountMetas;
      && backward[TRANSFER_AUTHORITY] == forward[TRANSFER_AUTHORITY]
      && backward[POOL] == forward[POOL]
      && backward[POOL_AUTHORITY] == forward[POOL_AUTHORITY]
      && backward[SOURCE_MINT] == forward[DESTINATION_MINT] && backward[DESTINATION_MINT] == forward[SOURCE_MINT]
      && backward[SOURCE_VAULT] == forward[DESTINATION_VAULT] && backward[DESTINATION_VAULT] == forward[SOURCE_VAULT]
      && forward[SOURCE_FEES_VAULT].pubkey == a.pool.tokenAFeesVault
      && backward[SOURCE_FEES_VAULT] == forward[SOURCE_FEES_VAULT].(pubkey := a.pool.tokenBFeesVault)
      && backward[SOURCE_TOKEN_ACCOUNT] == forward[DESTINATION_TOKEN_ACCOUNT]
      && backward[DESTINATION_TOKEN_ACCOUNT] == forward[SOURCE_TOKEN_ACCOUNT]
      && backward[SOURCE_HOST_FEES_ACCOUNT] == forward[SOURCE_HOST_FEES_ACCOUNT]
      && backward[SOURCE_TOKEN_PROGRAM] == forward[DESTINATION_TOKEN_PROGRAM]
      && backward[DESTINATION_TOKEN_PROGRAM] == forward[SOURCE_TOKEN_PROGRAM]
  {
  }

  /** The entries of a swap account list other than the source fee vault. */
  function AllButFeesVault<T>(s: seq<T>): seq<T>
    requires |s| == SWAP_ACCOUNT_COUNT
  {
    s[..SOURCE_FEES_VAULT] + s[SOURCE_FEES_VAULT + 1..]
  }

  /** The elements of a concatenation are those of its parts. */
  lemma ConcatElements<T>(a: seq<T>, b: seq<T>, c: seq<T>, d: seq<T>, e: seq<T>, f: seq<T>)
    ensures multiset(a + b + c + d + e + f)
         == multiset(a) + multiset(b) + multiset(c) + multiset(d) + multiset(e) + multiset(f)
  {
  }

  lemma PairOrderIrrelevant<T>(x: T, y: T)
    ensures multiset([x, y]) == multiset([y, x])
  {
  }

  /** Exchanging the entries of four pairs keeps a list's elements. */
  lemma PairSwapsKeepElements<T>(h0: T, h1: T, h2: T, m0: T, m1: T, v0: T, v1: T, t0: T, t1: T, x: T, p0: T, p1: T)
    ensures multiset([h0, h1, h2, m1, m0, v1, v0, t1, t0, x, p1, p0])
         == multiset([h0, h1, h2, m0, m1, v0, v1, t0, t1, x, p0, p1])
  {
    assert [h0, h1, h2, m1, m0, v1, v0, t1, t0, x, p1, p0]
        == [h0, h1, h2] + [m1, m0] + [v1, v0] + [t1, t0] + [x] + [p1, p0];
    assert [h0, h1, h2, m0, m1, v0, v1, t0, t1, x, p0, p1]
        == [h0, h1, h2] + [m0, m1] + [v0, v1] + [t0, t1] + [x] + [p0, p1];
    ConcatElements([h0, h1, h2], [m1, m0], [v1, v0], [t1, t0], [x], [p1, p0]);
    ConcatElements([h0, h1, h2], [m0, m1], [v0, v1], [t0, t1], [x], [p0, p1]);
    PairOrderIrrelevant(m0, m1);
    PairOrderIrrelevant(v0, v1);
    PairOrderIrrelevant(t0, t1);
    PairOrderIrrelevant(p0, p1);
  }

  /** The twelve entries of a 13-entry list other than the source fee vault. */
  lemma AllButFeesVaultOf<T>(s: seq<T>)
    requires |s| == SWAP_ACCOUNT_COUNT
    ensures AllButFeesVault(s) == [s[0], s[1], s[2], s[3], s[4], s[5], s[6], s[8], s[9], s[10], s[11], s[12]]
  {
  }

  /** Running a trade the other way round uses the same accounts with the same flags,
      moved between the source and destination positions, apart from the source fee
      vault, which is the other side's. */
  lemma ReverseSwapUsesSameAccounts(a: JupiterRarefish, sp: SwapParams)
    requires sp.sourceMint == a.pool.tokenAMint && sp.destinationMint == a.pool.tokenBMint
    requires a.pool.tokenAMint != a.pool.tokenBMint
    ensures
      var forward := a.GetSwapAndAccountMetas(sp).accountMetas;
      var backward := a.GetSwapAndAccountMetas(Reversed(sp)).accountMetas;
      multiset(AllButFeesVault(backward)) == multiset(AllButFeesVault(forward))
  {
    var f := a.GetSwapAndAccountMetas(sp).accountMetas;
    var b := a.GetSwapAndAccountMetas(Reversed(sp)).accountMetas;
    ReverseSwapMirrorsPositions(a, sp);
    AllButFeesVaultOf(f);
    AllButFeesVaultOf(b);
    PairSwapsKeepElements(f[0], f[1], f[2], f[3], f[4], f[5], f[6], f[8], f[9], f[10], f[11], f[12]);
  }

  /** Counting the signers of an account list, one entry at a time. */
  function SignerCount(metas: seq<AccountMeta>): nat {
    if metas == [] then 0 else (if metas[0].isSigner then 1 else 0) + SignerCount(metas[1..])
  }

  /** A list in which no entry signs has no signers. */
  lemma {:induction false} NoSignerCountsZero(metas: seq<AccountMeta>)
    requires forall i :: 0 <= i < |metas| ==> !metas[i].isSigner
    ensures SignerCount(metas) == 0
  {
    if metas != [] {
      assert forall i :: 0 <= i < |metas[1..]| ==> metas[1..][i] == metas[i + 1];
      NoSignerCountsZero(metas[1..]);
    }
  }

  /** The swap instruction requires exactly one signature. */
  lemma ExactlyOneSigner(a: JupiterRarefish, sp: SwapParams)
    ensures SignerCount(a.GetSwapAndAccountMetas(sp).accountMetas) == 1
    ensures
      var m := a.GetSwapAndAccountMetas(sp).accountMetas;
      m[TRANSFER_AUTHORITY].isSigner && m[TRANSFER_AUTHORITY].pubkey == sp.tokenTransferAuthority
  {
    var metas := a.GetSwapAndAccountMetas(sp).accountMetas;
    assert metas[0].isSigner;
    NoSignerCountsZero(metas[1..]);
  }

  /** The first reserve mint is the one quoted A to B; when the mints differ, the second
      is quoted B to A. The accounts to update are the vaults in the same order. */
  lemma ReserveMintsOrderTheSides(a: JupiterRarefish)
    ensures a.Direction(a.GetReserveMints()[0]) == AtoB
    ensures a.pool.tokenAMint != a.pool.tokenBMint ==> a.Direction(a.GetReserveMints()[1]) == BtoA
    ensures a.Roles(a.GetReserveMints()[0]).sourceVault == a.GetAccountsToUpdate()[0]
    ensures a.Roles(a.GetReserveMints()[1]).sourceVault == a.GetAccountsToUpdate()[1]
      || a.pool.tokenAMint == a.pool.tokenBMint
  {
  }

  /** Two fetched account maps that agree on the accounts to update refresh both vaults
      identically: `Update` reads nothing else from the map. */
  lemma UpdateReadsOnlyAccountsToUpdate(a: JupiterRarefish, decode: Decoder<TokenAccount>,
                                        m1: map<Pubkey, Account>, m2: map<Pubkey, Account>)
    requires forall k :: k in a.GetAccountsToUpdate() ==> (k in m1 <==> k in m2)
    requires forall k :: k in a.GetAccountsToUpdate() && k in m1 && k in m2 ==> m1[k] == m2[k]
    ensures FetchVault(decode, m1, a.pool.tokenAVault) == FetchVault(decode, m2, a.pool.tokenAVault)
    ensures FetchVault(decode, m1, a.pool.tokenBVault) == FetchVault(decode, m2, a.pool.tokenBVault)
  {
    assert a.pool.tokenAVault == a.GetAccountsToUpdate()[0];
    assert a.pool.tokenBVault == a.GetAccountsToUpdate()[1];
  }

  /** Quoting from A and quoting from B ask the curve the mirrored questions. */
  lemma QuoteDirectionsMirror(a: JupiterRarefish, amount: U64, ta: TokenAccount, tb: TokenAccount, c: SwapCurve)
    requires a.pool.tokenAMint != a.pool.tokenBMint
    ensures
      var fromA := a.CurveRequestFor(a.pool.tokenAMint, amount, ta, tb, c);
      var fromB := a.CurveRequestFor(a.pool.tokenBMint, amount, ta, tb, c);
      && fromA.direction == AtoB && fromB.direction == BtoA
      && fromA.swapSourceAmount == fromB.swapDestinationAmount == ta.amount
      && fromA.swapDestinationAmount == fromB.swapSourceAmount == tb.amount
      && fromA.(direction := BtoA, swapSourceAmount := tb.amount, swapDestinationAmount := ta.amount) == fromB
  {
  }

  /** A mint that is neither of the pool's is quoted exactly as mint B: B to A. */
  lemma ForeignMintQuotedAsB(a: JupiterRarefish, mint: Pubkey, amount: U64, ta: TokenAccount, tb: TokenAccount, c: SwapCurve)
    requires mint != a.pool.tokenAMint && a.pool.tokenBMint != a.pool.tokenAMint
    ensures a.CurveRequestFor(mint, amount, ta, tb, c) == a.CurveRequestFor(a.pool.tokenBMint, amount, ta, tb, c)
    ensures a.CurveRequestFor(mint, amount, ta, tb, c).direction == BtoA
  {
  }

  /** A quote depends on the input mint and the amount only: the output mint and the
      swap mode are not read. */
  lemma QuoteIgnoresOutputMintAndMode(a: JupiterRarefish, swap: CurveSwap, qp: QuoteParams, outputMint: Pubkey, mode: SwapMode)
    ensures a.GetQuote(swap, qp.(outputMint := outputMint, swapMode := mode)) == a.GetQuote(swap, qp)
  {
  }

  /** A curve that never pays out more than the destination reserve. */
  ghost predicate RespectsReserves(swap: CurveSwap) {
    forall req :: swap(req).Ok? ==> swap(req).value.destinationAmountSwapped <= req.swapDestinationAmount
  }

  /** With such a curve, the quoted output is the curve's output, not truncated, and at
      most the balance of the vault the trade draws from. */
  lemma QuoteWithinDestinationReserve(a: JupiterRarefish, swap: CurveSwap, qp: QuoteParams)
    requires RespectsReserves(swap)
    requires a.GetQuote(swap, qp).Ok?
    ensures a.tokenAVault.Some? && a.tokenBVault.Some? && a.curve.Some?
    ensures
      var req := a.CurveRequestFor(qp.inputMint, qp.amount, a.tokenAVault.value, a.tokenBVault.value, a.curve.value);
      var destinationBalance := if qp.inputMint == a.pool.tokenAMint then a.tokenBVault.value.amount else a.tokenAVault.value.amount;
      && a.GetQuote(swap, qp).value.outAmount == swap(req).value.destinationAmountSwapped
      && a.GetQuote(swap, qp).value.outAmount <= destinationBalance
  {
  }

  /** The flags of the instruction's accounts are the fixed table, whatever the trade. */
  lemma SwapAccountFlagsAreFixed(a: JupiterRarefish, sp: SwapParams)
    ensures Flags(a.GetSwapAndAccountMetas(sp).accountMetas) == SWAP_ACCOUNT_FLAGS
  {
  }

  /** Only the transfer authority signs, and exactly the pool, the three vaults, the
      trader's two token accounts and the host-fee slot are writable. */
  lemma OnlyTheTransferAuthoritySigns(a: JupiterRarefish, sp: SwapParams)
    ensures
      var metas := a.GetSwapAndAccountMetas(sp).accountMetas;
      && (forall i :: 0 <= i < |metas| ==> (metas[i].isSigner <==> i == TRANSFER_AUTHORITY))
      && (forall i :: 0 <= i < |metas| ==> (metas[i].isWritable <==> i in WRITABLE_POSITIONS))
  {
  }

  /** The vaults the instruction moves tokens between are the ones whose balances the
      quote for the same input mint gave the curve as source and destination reserves. */
  lemma QuoteAndInstructionAgreeOnVaults(a: JupiterRarefish, sp: SwapParams, amount: U64,
                                         ta: TokenAccount, tb: TokenAccount, c: SwapCurve)
    ensures
      var req := a.CurveRequestFor(sp.sourceMint, amount, ta, tb, c);
      var m := a.GetSwapAndAccountMetas(sp).accountMetas;
      && (req.direction == AtoB ==>
            && m[SOURCE_VAULT].pubkey == a.pool.tokenAVault && req.swapSourceAmount == ta.amount
            && m[DESTINATION_VAULT].pubkey == a.pool.tokenBVault && req.swapDestinationAmount == tb.amount)
      && (req.direction == BtoA ==>
            && m[SOURCE_VAULT].pubkey == a.pool.tokenBVault && req.swapSourceAmount == tb.amount
            && m[DESTINATION_VAULT].pubkey == a.pool.tokenAVault && req.swapDestinationAmount == ta.amount)
  {
  }

  /** The destination side's fee vault plays no part in the instruction: two adapters whose
      pools differ only there build the same account list. */
  lemma DestinationFeesVaultUnused(a1: JupiterRarefish, a2: JupiterRarefish, sp: SwapParams, feesVault: Pubkey)
    requires a1.marketKey == a2.marketKey && a1.programId == a2.programId
    requires
      if sp.sourceMint == a1.pool.tokenAMint then a2.pool == a1.pool.(tokenBFeesVault := feesVault)
      else a2.pool == a1.pool.(tokenAFeesVault := feesVault)
    ensures a1.GetSwapAndAccountMetas(sp) == a2.GetSwapAndAccountMetas(sp)
  {
  }

  /** No token program in the instruction is the default key. */
  lemma TokenProgramsAreSet(a: JupiterRarefish, sp: SwapParams)
    ensures a.GetSwapAndAccountMetas(sp).accountMetas[SOURCE_TOKEN_PROGRAM].pubkey != DefaultPubkey
    ensures a.GetSwapAndAccountMetas(sp).accountMetas[DESTINATION_TOKEN_PROGRAM].pubkey != DefaultPubkey
  {
  }

  /** The router's refresh-then-quote cycle: after a successful refresh in which a vault
      was missing from the fetched accounts, the quote panics for want of token accounts;
      with both vaults present, it succeeds exactly when the curve accepts the trade. */
  method RefreshThenQuote(a: JupiterRarefish, decode: Decoder<TokenAccount>, buildCurve: CurveBuilder,
                          swap: CurveSwap, accounts: map<Pubkey, Account>, qp: QuoteParams)
    returns (refreshed: Result<(), Panic>, quote: Result<Quote, Panic>)
    modifies a
    ensures refreshed.Ok? && (a.pool.tokenAVault !in accounts || a.pool.tokenBVault !in accounts) ==>
      quote == Err(TokenAccountsNotUpdated)
    ensures refreshed.Ok? && a.pool.tokenAVault in accounts && a.pool.tokenBVault in accounts ==>
      && a.tokenAVault.Some? && a.tokenBVault.Some? && a.curve.Some?
      && (quote.Ok? <==>
            swap(a.CurveRequestFor(qp.inputMint, qp.amount, a.tokenAVault.value, a.tokenBVault.value, a.curve.value)).Ok?)
  {
    refreshed := a.Update(decode, buildCurve, accounts);
    quote := a.GetQuote(swap, qp);
  }
}
