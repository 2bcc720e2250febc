# Solana staking ledger, modelled in Dafny

This project models the on-chain part of an Anchor program for Solana that
lets users stake an SPL token and earn a second SPL token as reward. The
program has six instructions: `initialize`, `stake`, `unstake`,
`claim_rewards`, `add_to_blacklist` and `remove_from_blacklist`. Together
they maintain four kinds of data:

- one `GlobalState` account, the configuration (admin, mints, vaults,
  daily `reward_rate` in basis points) plus `total_staked`;
- one `UserStakeInfo` position per user;
- at most one `BlacklistEntry` per address;
- the SPL token balances of the two vaults and of the users' accounts.

Each instruction is an atomic transition. Anchor loads every account into a
value, first checks the account constraints, then runs the handler. The
runtime writes the values back only when the whole instruction succeeds, so
any `?` or `require!` failure leaves every account unchanged. The model
follows that structure:

- The records are datatypes, collected in a `Store` snapshot
  (`State.Store`).
- Each instruction is a method over a `Store`, in its own module. It first
  checks the constraints (`StakeIx.Stake`), then hands over to a handler
  method (`StakeIx.StakeHandler`) that reassigns local copies of the
  records as the Rust code does.
- Each instruction returns `Ok(new store)` or one error, as stated by a
  ghost predicate `…Outcome`. That predicate says when the instruction
  succeeds and the exact new value of every record on success. It also
  fixes the error of the first check that fails, in the order they run.
  Anchor loads every account first, so a missing one fails with
  `AccountNotInitialized` before any constraint is checked. Next come the
  account constraints (`has_one`, `token::mint`, `token::authority`,
  `constraint`), in field order. Then the handler runs, with the
  program's own `require!` errors, `ArithmeticOverflow` from the checked
  arithmetic, and the token program's error from a failed transfer.
- `State.ProgramAccounts` is the durable account store, a class whose fields
  the runtime reassigns. `Program.Step` dispatches one instruction, using
  `Program.Execute` (the `#[program]` module of `lib.rs`), and commits the
  result only on success.

Two invariants are proved. `State.Inv` says that `total_staked` is always
the sum of all positions, that the reward rate stays in `1..=1000`, and that
each record sits under its own key. `State.Wired` says that the vaults are
the derived token accounts, owned by the state account. Both hold after any
instruction (`Program.StepPreservesInv`) and along any sequence of
instructions (`Program.RunPreservesInv`). The staking vault always covers
`total_staked` (`Program.RunPreservesSolvency`).

Reward arithmetic is modelled at its real widths:

- `u64` amounts, `i64` timestamps and a `u128` intermediate;
- `checked_add` and `checked_sub`;
- `(end - start) as u64`, which wraps a negative difference.

`Rewards.CalculateRewards` is proved equal to
`floor(amount * rate * d / 864_000_000)`, where `d` is the wrapped
duration. The proof includes both overflow errors and the worked examples
from the test suite.

Inputs the program takes from its environment are parameters instead:

- the transaction time `now` (the Clock sysvar);
- the program-derived-address derivation `derive` (a function from seeds to
  address and bump).

Two behaviours of the code are reported under "## Findings":

- `claim_rewards` accrues from `stake_timestamp`, resets it, and never
  writes `last_claim_time`, while `stake` and `unstake` accrue from
  `last_claim_time`. The repository's own `claim_pending_rewards` in
  `utils.rs` moves `last_claim_time` instead.
- `(end - start) as u64` wraps a negative elapsed time to nearly 2^64
  seconds.

Other points of the code the model keeps as they are:

- `reward_debt` rises by every reward paid, in `stake`, `unstake` and
  `claim_rewards`.
- `stake` and `unstake` pay out the pending reward before they change the
  position.
- A non-admin signer of a blacklist instruction fails with Anchor's
  `has_one` constraint error.
- No handler in this program reads a blacklist record, yet
  `blacklist.test.ts` expects stake, unstake and claim by a blacklisted
  address to fail with `AddressBlacklisted`. That gate is modelled
  separately, as `Program.GatedExecute`.

## Model

| member | source | states |
|---|---|---|
| Constants.SeedsOfInjective | solana-staking/programs/solana-staking/src/constants.rs:1-6 | the seed lists of the state account, the two vaults, the stake records and the blacklist records are pairwise distinct, so distinct records never share a derived address |
| Token.Transfer | solana-staking/programs/solana-staking/src/instructions/stake.rs:103-110 | the SPL transfer succeeds exactly when both accounts exist, the source covers `amount`, and the credit does not overflow; a missing account gives `AccountNotInitialized`, a short balance `InsufficientFunds`, an overflowing credit `TokenOverflow` |
| Token.TransferEffect | solana-staking/programs/solana-staking/src/instructions/stake.rs:103-110 | a successful transfer keeps all accounts, mints and owners, moves exactly `amount` between two distinct accounts, and leaves every other account unchanged |
| Token.TransferBalanceAt | solana-staking/programs/solana-staking/src/instructions/unstake.rs:102-109 | the balance of any one account after a transfer between two distinct accounts |
| Token.TransferRoundTrip | solana-staking/programs/solana-staking/src/instructions/unstake.rs:102-109 | transferring the same amount back restores the ledger exactly (unstaking undoes staking) |
| State.TotalStakedUpdate | solana-staking/programs/solana-staking/src/state.rs:18-25 | writing one position changes the sum of all amounts by exactly the change in that position's amount |
| State.PositionAtMostTotal | solana-staking/programs/solana-staking/src/state.rs:18-25 | no single position exceeds the sum of all positions |
| State.PositionAtMostTotalStaked | solana-staking/programs/solana-staking/src/state.rs:5-14 | under the invariant, no position exceeds `total_staked` |
| State.ProgramAccounts.constructor | solana-staking/programs/solana-staking/src/instructions/initialize.rs:11-18 | before `initialize` the store holds no program record, only the given token accounts, and is valid |
| State.ProgramAccounts.Commit | solana-staking/programs/solana-staking/src/lib.rs:18-40 | the runtime writes back exactly the store an instruction produced, and the result is valid |
| Rewards.Duration | solana-staking/programs/solana-staking/src/instructions/stake.rs:142 | `(end - start) as u64`: the difference itself when non-negative, the difference plus 2^64 when negative |
| Rewards.CalculateRewards | solana-staking/programs/solana-staking/src/instructions/stake.rs:136-167 | every failure is `ArithmeticOverflow` |
| Rewards.CalculateRewardsExact | solana-staking/programs/solana-staking/src/instructions/stake.rs:136-167 | the result is `floor(amount*rate*d / 864000000)` with `d` the wrapped duration; it fails with `ArithmeticOverflow` exactly when `amount*rate*d >= 2^128` or the quotient is `>= 2^64`; `amount*rate` never overflows |
| Rewards.CalculateRewardsZero | solana-staking/programs/solana-staking/src/instructions/stake.rs:150-163 | an empty position, or zero elapsed seconds, earns exactly 0 |
| Rewards.CalculateRewardsMonotoneInAmount | solana-staking/programs/solana-staking/src/instructions/stake.rs:150-163 | a smaller amount never earns more, and never overflows where a larger one did not |
| Rewards.CalculateRewardsMonotoneInDuration | solana-staking/programs/solana-staking/src/instructions/stake.rs:142-163 | for any end times whose wrapped durations are ordered, the shorter one never earns more and never overflows where the longer one did not |
| Rewards.CalculateRewardsMonotoneInEnd | solana-staking/programs/solana-staking/src/instructions/stake.rs:150-163 | the corollary for `start <= e1 <= e2`, where no wrap-around occurs: a later end time never earns less |
| Rewards.FiveDayReward | solana-staking/tests/solana-staking-litesvm.test.ts:551-557 | 100e9 units at rate 500 for 432000 s earn exactly 25e9 |
| Rewards.TwelveHourReward | solana-staking/tests/solana-staking-litesvm.test.ts:762-789 | 100e9 units at rate 500 for 43200 s earn exactly 2.5e9 |
| Rewards.SplitIntervalNoGain | solana-staking/programs/solana-staking/src/instructions/stake.rs:136-167 | paying an interval in two parts pays at most the formula for the whole interval |
| Rewards.PendingRewardExact | solana-staking/programs/solana-staking/src/instructions/stake.rs:68-81 | the reward pending on a position: 0 when it is empty, otherwise `ArithmeticOverflow` or the formula over the wrapped time since `last_claim_time` (else `stake_timestamp`) |
| Rewards.PayRewardBalanceAt | solana-staking/programs/solana-staking/src/instructions/unstake.rs:81-92 | the balance of any one account after a payout from the vault to a distinct account |
| Rewards.NegativeElapsedWraps | solana-staking/programs/solana-staking/src/instructions/stake.rs:142 | as written, one second of negative elapsed time is read as 2^64-1 seconds and pays 10675199116730064592 units on a 1e6-unit position |
| Rewards.CalculateRewardsClamped | solana-staking/programs/solana-staking/src/instructions/stake.rs:136-167 | the corrected accrual: nothing is owed unless time moved forward, else the formula on the true elapsed time |
| Rewards.ClampedMonotoneInEnd | solana-staking/programs/solana-staking/src/instructions/stake.rs:136-167 | with the clamp, the reward never shrinks as the end time advances, for any end times |
| InitializeIx.Initialize | solana-staking/programs/solana-staking/src/instructions/initialize.rs:6-63 | succeeds exactly when no state account exists, both vault addresses are free, and `0 < reward_rate <= 1000`; a second initialize fails with `AccountAlreadyInUse`, a bad rate with `InvalidRewardRate`; on success `GlobalState` holds the admin, mints, derived vaults, the rate and `total_staked = 0`, and both vaults are new empty accounts owned by the state |
| InitializeIx.InitializePreservesInv | solana-staking/programs/solana-staking/src/instructions/initialize.rs:48-63 | after `initialize` the invariants hold, nothing is staked, and the staking vault covers it |
| StakeIx.Stake | solana-staking/programs/solana-staking/src/instructions/stake.rs:6-134 | succeeds exactly when every account loads, both user accounts match, `amount > 0`, the reward computes and is paid, and the debt, the stake transfer, the position and the total all stay in range; each failure gives the error of the first failing check, with Anchor's loads before its constraints and the handler after both (`AccountNotInitialized` for any missing account, then the user token account's and the reward account's `ConstraintTokenMint`/`ConstraintTokenOwner`, `InvalidStakeAmount`, `ArithmeticOverflow`, the payout's token error, `ArithmeticOverflow`, the stake transfer's token error, `ArithmeticOverflow`); on success `amount` and `total_staked` rise by exactly `amount`, `stake_timestamp` is set on the first stake only, `last_claim_time := now`, `reward_debt` rises by the reward paid, and the tokens move reward-then-stake |
| StakeIx.MissingAccountFailsFirst | solana-staking/programs/solana-staking/src/instructions/stake.rs:26-52 | a missing reward account gives `AccountNotInitialized` even when the token account has the wrong mint: Anchor loads every account before any constraint |
| StakeIx.StakeHandler | solana-staking/programs/solana-staking/src/instructions/stake.rs:60-134 | the same outcome, once the account constraints have passed |
| StakeIx.PayPendingReward | solana-staking/programs/solana-staking/src/instructions/stake.rs:67-99 | the pending reward of a nonempty position is paid from the reward vault and added to `reward_debt`; an empty position is untouched; the timestamps are not written |
| StakeIx.StakePreservesInv | solana-staking/programs/solana-staking/src/instructions/stake.rs:112-129 | after a stake, `total_staked` is still the sum of the positions and the vaults are still wired |
| StakeIx.StakeMovesTokens | solana-staking/programs/solana-staking/src/instructions/stake.rs:83-110 | the staking vault gains `amount` and the reward vault loses the reward; when the user's token account and reward account are distinct, the token account loses `amount` and the reward account gains the reward; when one account fills both slots, it ends `reward - amount` away from where it started |
| StakeIx.StakePreservesSolvency | solana-staking/programs/solana-staking/src/instructions/stake.rs:102-129 | the staking vault still covers `total_staked` after a stake |
| StakeIx.FirstStakeOpensPosition | solana-staking/programs/solana-staking/src/instructions/stake.rs:116-125 | a first stake opens `(user, amount, now, now, 0, bump)` and moves only the staked tokens |
| StakeIx.StakeAdditionsCannotOverflow | solana-staking/programs/solana-staking/src/instructions/stake.rs:110-129 | from a consistent, solvent store, once the stake transfer succeeds neither `checked_add` on the position nor the one on `total_staked` can fail |
| StakeIx.FirstStakeBeyondBalanceFails | solana-staking/programs/solana-staking/src/instructions/stake.rs:103-110 | a first stake of more than the user's token balance fails with `InsufficientFunds` |
| StakeIx.StakeRestartsAccrual | solana-staking/programs/solana-staking/src/instructions/stake.rs:116-124 | after a successful stake at a positive `now`, the position accrues from `now`, so nothing is pending at `now` |
| UnstakeIx.Unstake | solana-staking/programs/solana-staking/src/instructions/unstake.rs:7-126 | succeeds exactly when every account loads, both user accounts match, `0 < amount <= position`, the reward computes and is paid, the debt stays in range, the withdrawal transfer succeeds and `amount <= total_staked`; each failure gives the error of the first failing check, loads before constraints (`AccountNotInitialized` for a missing state, position or token account, then the two token constraints' errors, `InvalidUnstakeAmount`, `InsufficientStakedAmount`, `ArithmeticOverflow`, the payout's token error, `ArithmeticOverflow`, the transfer's token error, `ArithmeticOverflow`); on success `amount` and `total_staked` drop by exactly `amount`, `stake_timestamp` is kept, `last_claim_time := now`, and the reward on the pre-unstake amount is paid and added to `reward_debt` |
| UnstakeIx.UnstakeHandler | solana-staking/programs/solana-staking/src/instructions/unstake.rs:58-126 | the same outcome, once the account constraints have passed |
| UnstakeIx.UnstakeTotalCannotUnderflow | solana-staking/programs/solana-staking/src/instructions/unstake.rs:119-120 | under the invariant, the `checked_sub` on `total_staked` never fails |
| UnstakeIx.UnstakeRestartsAccrual | solana-staking/programs/solana-staking/src/instructions/unstake.rs:111-116 | after a successful unstake at a positive `now`, the position accrues from `now` and keeps its `stake_timestamp` |
| UnstakeIx.UnstakePreservesInv | solana-staking/programs/solana-staking/src/instructions/unstake.rs:111-120 | after an unstake, `total_staked` is still the sum of the positions and the vaults are still wired |
| UnstakeIx.UnstakeMovesTokens | solana-staking/programs/solana-staking/src/instructions/unstake.rs:81-109 | the staking vault loses `amount` and the reward vault the reward; when the user's token account and reward account are distinct, they gain `amount` and the reward; one account filling both slots gains `reward + amount` |
| UnstakeIx.UnstakePreservesSolvency | solana-staking/programs/solana-staking/src/instructions/unstake.rs:98-120 | the staking vault still covers `total_staked` after an unstake |
| ClaimRewardsIx.ClaimRewards | solana-staking/programs/solana-staking/src/instructions/claim_rewards.rs:6-77 | the reward accrues from `stake_timestamp`; a positive reward moves from the reward vault, raises `reward_debt` and sets `stake_timestamp := now`; a zero reward changes nothing; `GlobalState`, `amount` and `last_claim_time` are never written; failures give, loads before constraints, `AccountNotInitialized` for a missing state, position, reward account or reward vault, then the reward account's `ConstraintTokenMint`/`ConstraintTokenOwner`, `ArithmeticOverflow`, the payout's token error, `ArithmeticOverflow` |
| ClaimRewardsIx.ClaimRewardsHandler | solana-staking/programs/solana-staking/src/instructions/claim_rewards.rs:42-77 | the same outcome, once the account constraints have passed |
| ClaimRewardsIx.ClaimRewardsPreservesInv | solana-staking/programs/solana-staking/src/instructions/claim_rewards.rs:42-77 | a claim leaves every amount alone and keeps the invariants |
| ClaimRewardsIx.ClaimRewardsPreservesSolvency | solana-staking/programs/solana-staking/src/instructions/claim_rewards.rs:58-65 | a claim leaves the staking vault's balance unchanged, so solvency is kept |
| Utils.ClaimPendingRewards | contract/solana-staking/programs/solana-staking/src/utils.rs:7-61 | accrues from `last_claim_time` (else `stake_timestamp`); a positive reward is transferred, added to `reward_debt`, and sets `last_claim_time := now`; a zero reward leaves the position unchanged; `amount` and `stake_timestamp` are never written; the value returned is the amount transferred; failures give `ArithmeticOverflow` or the payout's token error |
| Utils.ClaimPendingRestartsAccrual | contract/solana-staking/programs/solana-staking/src/utils.rs:38-58 | after a payout at a positive `now`, the next accrual starts at `now` |
| AddToBlacklistIx.AddToBlacklist | solana-staking/programs/solana-staking/src/instructions/add_to_blacklist.rs:6-49 | a missing state gives `AccountNotInitialized`, a non-admin signer `ConstraintHasOne`, the zero address `CannotBlacklistZeroAddress`, an existing record `AddressAlreadyBlacklisted`; on success only the record of `address` is written, as `(address, now, bump)` |
| AddToBlacklistIx.AddToBlacklistHandler | solana-staking/programs/solana-staking/src/instructions/add_to_blacklist.rs:31-49 | the same outcome for the admin, given the loaded or zeroed record |
| AddToBlacklistIx.AlreadyBlacklistedIffPresent | solana-staking/programs/solana-staking/src/instructions/add_to_blacklist.rs:19-43 | under the invariant, the loaded record has a nonzero address exactly when a record exists |
| AddToBlacklistIx.AddToBlacklistPreservesInv | solana-staking/programs/solana-staking/src/instructions/add_to_blacklist.rs:37-49 | a successful add creates a record that did not exist, stamped `now`, and keeps the invariants |
| RemoveFromBlacklistIx.RemoveFromBlacklist | solana-staking/programs/solana-staking/src/instructions/remove_from_blacklist.rs:6-42 | a missing state or record gives `AccountNotInitialized` (both load before any constraint), then a non-admin `ConstraintHasOne`, then a record for another address `AddressNotBlacklisted`; success deletes exactly that record and nothing else |
| RemoveFromBlacklistIx.MissingRecordFailsFirst | solana-staking/programs/solana-staking/src/instructions/remove_from_blacklist.rs:12-26 | with no record for the address, every signer, admin or not, gets `AccountNotInitialized` |
| RemoveFromBlacklistIx.RemoveFailsOnlyWhenAbsent | solana-staking/programs/solana-staking/src/instructions/remove_from_blacklist.rs:19-24 | for the admin, under the invariant, removal succeeds exactly when the address has a record |
| RemoveFromBlacklistIx.RemoveFromBlacklistPreservesInv | solana-staking/programs/solana-staking/src/instructions/remove_from_blacklist.rs:21 | removal deletes only that record and keeps the invariants |
| Program.Execute | solana-staking/programs/solana-staking/src/lib.rs:18-40 | each instruction is forwarded to its one handler, with its payload unchanged |
| Program.StepPreservesInv | solana-staking/programs/solana-staking/src/lib.rs:18-40 | whatever is dispatched, the committed store keeps the invariants |
| Program.StepPreservesSolvency | solana-staking/programs/solana-staking/src/lib.rs:18-40 | whatever is dispatched, the staking vault keeps covering `total_staked` |
| Program.Step | solana-staking/programs/solana-staking/src/lib.rs:18-40 | one transaction: the durable store becomes the handler's result on success and is unchanged on failure |
| Program.RunPreservesInv | solana-staking/programs/solana-staking/src/lib.rs:22-32 | along any sequence of dispatched instructions, `total_staked` equals the sum of all positions at every step |
| Program.RunPreservesSolvency | solana-staking/programs/solana-staking/src/lib.rs:22-32 | along any sequence, the staking vault covers `total_staked` at every step |
| Program.GatedExecute | solana-staking/tests/blacklist.test.ts:237-346 | the expected gate: a blacklisted signer's stake, unstake and claim fail with `AddressBlacklisted`; every other instruction is dispatched unchanged |
| Program.AddedAddressIsBlocked | solana-staking/tests/blacklist.test.ts:237-255 | after a successful add, the gate refuses that address's value-moving instructions and nothing changes |
| Program.RemovalRestoresAccess | solana-staking/tests/blacklist.test.ts:285-313 | after a successful removal, the gate lets that address's instructions through to their handlers |
| Program.ReAddAfterRemoval | solana-staking/tests/blacklist.test.ts:305-313 | after a removal, the admin can add the address again |
| Codec.GlobalStateRoundTrip | solana-staking/programs/solana-staking/src/state.rs:5-14 | decoding the Borsh encoding of a `GlobalState` (177 bytes, then anything) gives back exactly the values written |
| Codec.GlobalStateCanonical | solana-staking/programs/solana-staking/src/state.rs:5-14 | every 177-byte prefix is the encoding of what it decodes to |
| Codec.UserStakeRoundTrip | solana-staking/programs/solana-staking/src/state.rs:18-25 | decoding the 65-byte encoding of a `UserStakeInfo` gives back exactly its values, negative timestamps included |
| Codec.UserStakeCanonical | solana-staking/programs/solana-staking/src/state.rs:18-25 | every 65-byte prefix is the encoding of what it decodes to |
| Codec.U64RoundTrip | solana-staking/programs/solana-staking/src/state.rs:11-12 | a little-endian u64 decodes to the value encoded |
| Codec.I64RoundTrip | solana-staking/programs/solana-staking/src/state.rs:21-22 | a two's-complement little-endian i64 decodes to the value encoded |
| Findings.ClaimThenUnstakeDoublePays | solana-staking/programs/solana-staking/src/instructions/claim_rewards.rs:47-69 | as written: a claim after five days and a full unstake after ten leave `reward_debt = 75e9`, where ten days earn `50e9` |
| Findings.PendingClaimThenUnstakePaysOnce | contract/solana-staking/programs/solana-staking/src/utils.rs:16-58 | with `claim_pending_rewards`, a claim and a later unstake together pay at most the formula for the whole interval |

## Left out

- Program-derived addresses: the SHA-256 derivation and the bump search are a parameter `derive`. The model only assumes that no signer is the state account, which has no private key; the solvency lemmas use this.
- The seed lists in `contract/solana-staking/programs/solana-staking/src/utils.rs:40` and in its test helper differ from those in the instruction files. Both files sit in a second copy of the program, under `contract/solana-staking/`, in the same repository. The model uses the instruction files' seeds.
- The `seeds = [...]` / `bump` checks: a transaction passing a wrong account in a seeds-checked slot (`state`, `user_stake_info`, either vault, `blacklist_entry`) fails with `ConstraintSeeds`. The model's instructions name those accounts implicitly, through `derive` and the state record, so this error never arises and `Errors.Error` has no `ConstraintSeeds`.
- `calculate_rewards` in `utils.rs:63-103` is the same formula as the one in `stake.rs:136-167`, with the same wrap and the same overflow checks, so the model defines it once (`Rewards.CalculateRewards`).
- SPL token program internals: the transfer authority's signature, and the check that both accounts hold the same mint. The account constraints make every transfer in this program use matching mints.
- `Mint` accounts are not checked by `initialize` beyond recording their keys.
- The Anchor runtime's rent and lamports, account space, the refund on `close = admin`, and the 8-byte discriminator. The codec covers the account body after the discriminator.
- `init_if_needed` charging the payer.
- An `i64` subtraction overflow in `end - start` (which panics in a debug build). The model treats it as the release build's wrap.
- Logging and events (`msg!`, `emit!`, `events.rs`), including the `f64` percentage in the initialize log.
- The Clock sysvar: `now` is a parameter.
- Transaction scheduling and concurrency in the runtime: instructions run one at a time.
- The `BlacklistEntry` byte layout: the record is not declared in `state.rs` (its fields are known only from `add_to_blacklist.rs:47-49`), so its field order is unknown and there is no codec for it.
- The front-end, the deployment scripts and the test harnesses. The tests serve only as the source of the expected values cited above.
- A corrected `claim_rewards` instruction: the dispatcher keeps `claim_rewards` as written. The corrected payout is the repository's own `claim_pending_rewards` (`Utils.ClaimPendingRewards`), which no instruction in this program calls.

## Findings

| source | as written | input that shows it | evidently intended | confidence | as-written member | corrected member |
|---|---|---|---|---|---|---|
| solana-staking/programs/solana-staking/src/instructions/claim_rewards.rs:47-69 | `claim_rewards` accrues from `stake_timestamp` and resets it, but never moves `last_claim_time`; `stake` and `unstake` accrue from `last_claim_time`, so a claimed interval is paid again | position of 100e9 staked at t=1000, rate 500: claim at t=433000 pays 25e9, unstake at t=865000 pays 50e9 more; 75e9 total for ten days worth 50e9 | every second is paid once: the claim moves `last_claim_time`, as `claim_pending_rewards` does | high, not executed | Findings.ClaimThenUnstakeDoublePays | Findings.PendingClaimThenUnstakePaysOnce |
| solana-staking/programs/solana-staking/src/instructions/stake.rs:142 | `(end - start) as u64` wraps a negative elapsed time to nearly 2^64 seconds | amount 1e6, rate 500, start 1000, end 999: reward 10675199116730064592 | no reward unless time has moved forward | medium (needs a clock that goes backwards), not executed | Rewards.NegativeElapsedWraps | Rewards.CalculateRewardsClamped |
