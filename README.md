# Rarefish adapter for the Jupiter router, in Dafny

This project models `JupiterRarefish`, the adapter through which the Jupiter swap router
trades against a Hyperplane ("Rarefish") swap pool. The adapter keeps the decoded pool
account, refreshes cached balances of the pool's two vaults and its swap curve from
accounts the router fetches, quotes exact-in trades by handing the right reserves to the
curve, and builds the 13-entry account list of the Hyperplane swap instruction.

Modules:

- `Wrappers` (`wrappers.dfy`): `Option` and `Result`.
- `Solana` (`solana.dfy`): addresses, raw accounts, `AccountMeta`, the decoded SPL token
  account, `u64`/`u128` and Rust's `as u64` truncation.
- `Hyperplane` (`hyperplane.dfy`): the pool account, fees, the curve handle, the arguments
  and result of a curve swap, and the types of the library calls the adapter makes.
- `Jupiter` (`jupiter.dfy`): the router's `KeyedAccount`, `QuoteParams`, `Quote`,
  `SwapParams`, `Swap` and `SwapAndAccountMetas`.
- `Rarefish` (`rarefish.dfy`): the adapter. It is a class. The pool, market key, label and
  program id are `const` fields, because nothing assigns them after construction. The two
  cached vault accounts and the curve are mutable fields. `Update` changes them and has
  `modifies this`. The read-only operations are functions. `GetQuote` reads the cached
  fields and has `reads this`. The others read only `const` fields and need no `reads` clause.
- `RarefishProperties` (`properties.dfy`): lemmas that relate the operations to each other.

Addresses are a datatype with four cases. `DefaultPubkey`, `SplTokenProgramId` and
`HyperplaneProgramId` are the three keys the adapter names. `Address(n)` stands for every
other key. Only equality of keys matters to the adapter.

The pool deserialiser, the token-account deserialiser, the library's `curve!` macro and
`SwapCurve::swap` are code outside this core. Each one is a function-typed parameter of the
operation that calls it: `Decoder<SwapPool>`, `Decoder<TokenAccount>`, `CurveBuilder` and
`CurveSwap`. A panic (`panic!` or a failed `unwrap`) is an `Err(Panic)` result. None of the
adapter's operations returns the `Err` of its own `anyhow::Result`.

Behaviour of the code worth noting:

- `update` keeps no earlier cache and has no Synced/Stale state. A vault missing from the
  fetched accounts becomes `None`. The failure shows up later as a panic in `quote`.
- The curve is rebuilt from the pool alone. No curve account is read from the fetched map.
- `quote` does not deduct transfer fees. It ignores `output_mint` and `swap_mode`, so
  `ExactOut` is not rejected. Any input mint other than A, including a foreign mint, is
  quoted B to A.
- A curve error during a quote panics with the message about the curve not being updated.
  The curve's own error is dropped.

## Model

| member | source | states |
|---|---|---|
| `Solana.TruncateToU64` | src/lib.rs:116 | `as u64` gives the unique u64 congruent to its u128 argument modulo 2^64, and leaves values below 2^64 unchanged |
| `Rarefish.FetchVault` | src/lib.rs:71-78 | refreshing a vault gives `None` exactly when the vault is not among the fetched accounts. Otherwise it gives the decoding of the first 165 bytes. It panics exactly when the data is shorter than 165 bytes or does not decode |
| `Rarefish.EffectiveTokenProgram` | src/lib.rs:155-161 | an unset (default) token program becomes the SPL Token program and any other program is kept, so the result is never the default key |
| `Rarefish.JupiterRarefish.constructor` | src/lib.rs:30-38 | a new adapter stores the key and pool, is labelled "Rarefish", has the Hyperplane program id and caches nothing |
| `Rarefish.JupiterRarefish.NewFromKeyedAccount` | src/lib.rs:27-39 | construction panics exactly when the pool account does not decode. Otherwise it gives a fresh adapter for the decoded pool with an empty cache |
| `Rarefish.JupiterRarefish.GetReserveMints` | src/lib.rs:59-61 | the reserve mints are exactly mint A then mint B |
| `Rarefish.JupiterRarefish.GetAccountsToUpdate` | src/lib.rs:63-68 | the accounts to fetch are exactly vault A then vault B |
| `Rarefish.JupiterRarefish.Update` | src/lib.rs:70-81 | each vault is overwritten with its fetched account, or with `None` when absent, whatever was cached before. The curve is rebuilt from the pool and is always present after success. A panic on vault A changes nothing. A panic on vault B leaves vault A already overwritten. The pool, key, label and program id cannot change |
| `Rarefish.JupiterRarefish.Direction` | src/lib.rs:99-104 | the direction is A to B exactly when the input mint is mint A |
| `Rarefish.JupiterRarefish.CurveRequestFor` | src/lib.rs:84-113 | the curve receives the requested amount unchanged, the pool's curve and fees, and the reserves ordered source first for the direction: (A, B) for A to B and (B, A) for B to A |
| `Rarefish.JupiterRarefish.GetQuote` | src/lib.rs:83-121 | a quote succeeds exactly when both vaults and the curve are cached and the curve accepts the trade. A missing vault panics for token accounts first. Any other failure panics for the curve. On success `out_amount` is the curve's output truncated to 64 bits and every other field is the default |
| `Rarefish.JupiterRarefish.Roles` | src/lib.rs:132-161 | source mint A selects A's vault, fee vault and program as source and B's vault and program as destination. Any other mint selects the mirror. Both programs pass through the unset-program replacement |
| `Rarefish.JupiterRarefish.GetSwapAndAccountMetas` | src/lib.rs:163-182 | the instruction is `TokenSwapV2` with exactly 13 accounts. Only position 0 signs. Exactly positions 1, 5-10 are writable. The keys in order are authority, pool, pool authority, the caller's two mints, source and destination vault, source fee vault, the caller's two token accounts, the program id as the host-fee placeholder, and the two token programs of the roles |
| `RarefishProperties.RolesFromA` | src/lib.rs:132-177 | in an A-to-B trade the listed vaults, source fee vault and token programs are A's on the source side and B's on the destination side |
| `RarefishProperties.RolesFromB` | src/lib.rs:132-177 | in a trade whose source is not mint A the same positions are filled from B's side as source and A's as destination |
| `RarefishProperties.ReverseSwapMirrorsPositions` | src/lib.rs:132-177 | reversing an A-to-B trade exchanges the source and destination entries of the mints, vaults, token accounts and token programs, keeps the authority, pool, pool authority and host-fee entries, and takes B's fee vault for A's; each entry keeps its flags |
| `RarefishProperties.ReverseSwapUsesSameAccounts` | src/lib.rs:132-177 | reversing an A-to-B trade lists the same accounts with the same flags, as a multiset, in every position except the source fee vault |
| `RarefishProperties.OnlyTheTransferAuthoritySigns` | src/lib.rs:163-177 | an entry signs exactly when it is the transfer authority, and is writable exactly when it is the pool, a vault, the source fee vault, a trader token account or the host-fee slot |
| `RarefishProperties.ExactlyOneSigner` | src/lib.rs:164 | the swap instruction needs exactly one signature, that of the transfer authority |
| `RarefishProperties.SwapAccountFlagsAreFixed` | src/lib.rs:163-177 | the signer/writable flags of the list equal one fixed 13-entry table, whatever the trade and direction |
| `RarefishProperties.ReserveMintsOrderTheSides` | src/lib.rs:59-68 | the first reserve mint is quoted A to B and selects the first account to update as source vault. When the mints differ, the second mint is quoted B to A and selects the second account |
| `RarefishProperties.UpdateReadsOnlyAccountsToUpdate` | src/lib.rs:63-78 | two fetched maps that agree on the accounts to update refresh both vaults identically |
| `RarefishProperties.QuoteDirectionsMirror` | src/lib.rs:99-104 | when the mints differ, quoting from A and from B send the curve the same request with the direction and the two reserves swapped |
| `RarefishProperties.ForeignMintQuotedAsB` | src/lib.rs:99-104 | when the two mints differ, a mint that is not mint A is quoted exactly as mint B, B to A |
| `RarefishProperties.QuoteIgnoresOutputMintAndMode` | src/lib.rs:83-121 | the quote does not depend on the output mint or the swap mode |
| `RarefishProperties.QuoteWithinDestinationReserve` | src/lib.rs:105-118 | if the curve never pays out more than the destination reserve, the quoted output equals the curve's output without truncation, and is at most the balance of the vault that pays out |
| `RarefishProperties.QuoteAndInstructionAgreeOnVaults` | src/lib.rs:99-154 | for the same input mint, the instruction's source and destination vaults are the vaults whose balances the quote gave the curve as source and destination reserves |
| `RarefishProperties.DestinationFeesVaultUnused` | src/lib.rs:132-154 | pools that differ only in the destination side's fee vault build identical instructions |
| `RarefishProperties.TokenProgramsAreSet` | src/lib.rs:155-177 | neither token program in the instruction is the default key |
| `RarefishProperties.RefreshThenQuote` | src/lib.rs:221-250 | after a successful refresh missing a vault, the quote panics for token accounts. With both vaults fetched, the quote succeeds exactly when the curve accepts the trade |

## Left out

- Curve pricing: `SwapCurve::swap`, the `curve!` macro and their math belong to the
  Hyperplane library, which is not part of this model. They are parameters. No formula is
  assumed, so no constant-product formula, monotonicity or round-trip property is
  stated. `QuoteWithinDestinationReserve` assumes only that the curve pays out at most the
  destination reserve.
- The `curve!` macro at src/lib.rs:79 is assumed to succeed: `CurveBuilder` is a total
  function, so `Update` never fails or panics while building the curve.
- `pool.fees()` is taken to return the pool's stored `fees` field.
- Byte decoding: Anchor's `try_deserialize` for the pool and for token accounts is a
  parameter that returns `None` on failure. The one layout fact modelled is the 165-byte
  `TokenAccount::LEN` slice. Only the pool fields the adapter reads are modelled.
- Transfer fees: the source has no transfer-fee logic, only a commented-out placeholder.
- Synced/Stale states and merging with an earlier cache: the source has neither.
- `program_id`, `label`, `key`, `from_keyed_account` and `clone_amm` are accessors,
  delegation or boxing. The fields they return are the class's `const` fields.
  `from_keyed_account` is `NewFromKeyedAccount`.
- The `Quote` fields that hold decimals or options (fee and price-impact percentages,
  minimum amounts) are not modelled. The model keeps `in_amount`, `out_amount`,
  `fee_amount` and `fee_mint`, which the adapter leaves at their defaults apart from
  `out_amount`.
- On a panic, `Update` is modelled as stopping where the panic happens, with earlier field
  assignments kept. Whether the process aborts or unwinds is outside the model.
- The tests (network calls, keypair files, transaction simulation, floating-point printing)
  are I/O. Only their refresh-then-quote sequence appears, as `RefreshThenQuote`.
- Concurrency: the adapter is used from one thread at a time and the model is sequential.
