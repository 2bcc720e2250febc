/**
 * `claim_pending_rewards`: the shared payout helper that accrues from
 * `last_claim_time` (falling back to `stake_timestamp`) and moves only
 * `last_claim_time` forward.
 */
module Utils {
  import opened Primitives
  import opened Errors
  import opened State
  import opened Rewards
  import Token

  /** What `claim_pending_rewards` returns: the updated position and ledger, and the reward paid. */
  ghost predicate ClaimPendingOutcome(state: GlobalState, rewardVault: Pubkey, userStake: UserStakeInfo,
                                       tokens: Token.Ledger, userRewardAccount: Pubkey, now: i64,
                                       r: Result<(UserStakeInfo, Token.Ledger, u64)>)
  {
    var reward := CalculateRewards(userStake.amount, AccrualStart(userStake), now, state.rewardRate);
    && (r.Ok? <==>
          && reward.Ok?
          && PayReward(tokens, rewardVault, userRewardAccount, reward.value).Ok?
          && userStake.rewardDebt + reward.value < U64_LIMIT)
    && (reward.Err? ==> r == Err(Program(ArithmeticOverflow)))
    && (reward.Ok? ==>
          var paid := PayReward(tokens, rewardVault, userRewardAccount, reward.value);
          && (paid.Err? ==> r == Err(paid.error))
          && (paid.Ok? && userStake.rewardDebt + reward.value >= U64_LIMIT ==> r == Err(Program(ArithmeticOverflow))))
    && (r.Ok? ==>
          var (position, ledger, paid) := r.value;
          // The value returned is exactly the amount transferred.
          && paid == reward.value
          && ledger == PayReward(tokens, rewardVault, userRewardAccount, paid).value
          // `amount` and `stake_timestamp` are never written.
          && position == (if paid > 0
                          then userStake.(rewardDebt := userStake.rewardDebt + paid, lastClaimTime := now)
                          else userStake))
  }

  method ClaimPendingRewards(state: GlobalState, userStake: UserStakeInfo, rewardVault: Pubkey,
                             tokens: Token.Ledger, userRewardAccount: Pubkey, now: i64)
    returns (r: Result<(UserStakeInfo, Token.Ledger, u64)>)
    ensures ClaimPendingOutcome(state, rewardVault, userStake, tokens, userRewardAccount, now, r)
  {
    var position, ledger := userStake, tokens;
    var lastClaim := if userStake.lastClaimTime > 0 then userStake.lastClaimTime else userStake.stakeTimestamp;
    var rewards :- CalculateRewards(userStake.amount, lastClaim, now, state.rewardRate);
    if rewards > 0 {
      ledger :- Token.Transfer(ledger, rewardVault, userRewardAccount, rewards);
      var debt :- CheckedAdd(position.rewardDebt, rewards);
      position := position.(rewardDebt := debt, lastClaimTime := now);
    }
    return Ok((position, ledger, rewards));
  }

  /**
   * After a payout the next accrual starts exactly at `now` (for a positive
   * `now`), so the helper never pays the same interval twice.
   */
  lemma ClaimPendingRestartsAccrual(state: GlobalState, rewardVault: Pubkey, userStake: UserStakeInfo,
                                    tokens: Token.Ledger, userRewardAccount: Pubkey, now: i64,
                                    r: Result<(UserStakeInfo, Token.Ledger, u64)>)
    requires ClaimPendingOutcome(state, rewardVault, userStake, tokens, userRewardAccount, now, r)
    requires r.Ok? && r.value.2 > 0 && now > 0
    ensures AccrualStart(r.value.0) == now
    ensures r.value.0.amount == userStake.amount && r.value.0.stakeTimestamp == userStake.stakeTimestamp
  {
  }
}
