/**
 * The two payout paths side by side. `claim_rewards` restarts accrual at
 * `stake_timestamp`, while `stake` and `unstake` accrue from
 * `last_claim_time`, which `claim_rewards` never moves: an interval already
 * paid by a claim is paid again by the next unstake. The shared helper
 * `claim_pending_rewards` moves `last_claim_time` instead and pays every
 * second at most once.
 */
module Findings {
  import opened Primitives
  import opened Errors
  import opened State
  import opened Rewards
  import ClaimRewardsIx
  import UnstakeIx
  import Utils

  const STAKED: u64 := 100_000_000_000

  /**
   * As written: 100 tokens staked at t = 1000 with a 5% daily rate, claimed
   * after five days and fully unstaked after ten. Ten days earn 50 tokens,
   * but the position is paid 75.
   */
  lemma ClaimThenUnstakeDoublePays(s0: Store, user: Pubkey, userTokenAccount: Pubkey, userRewardAccount: Pubkey,
                                   r1: Result<Store>, r2: Result<Store>)
    requires s0.global.Some? && s0.global.value.rewardRate == 500
    requires user in s0.stakes
    requires s0.stakes[user].amount == STAKED && s0.stakes[user].rewardDebt == 0
    requires s0.stakes[user].stakeTimestamp == 1000 && s0.stakes[user].lastClaimTime == 1000
    requires ClaimRewardsIx.ClaimRewardsOutcome(s0, user, userRewardAccount, 433_000, r1) && r1.Ok?
    requires UnstakeIx.UnstakeOutcome(r1.value, user, userTokenAccount, userRewardAccount, STAKED, 865_000, r2) && r2.Ok?
    ensures r2.value.stakes[user].rewardDebt == 75_000_000_000
    ensures RewardFormula(STAKED, 500, 865_000 - 1000) == 50_000_000_000
  {
    FiveDayReward(1000);
    var p1 := r1.value.stakes[user];
    assert p1.lastClaimTime == 1000 && p1.rewardDebt == 25_000_000_000;
    CalculateRewardsExact(STAKED, 1000, 865_000, 500);
    assert UnstakeIx.UnstakeReward(r1.value, user, 865_000) == Ok(50_000_000_000);
  }

  /**
   * Corrected: a payout through `claim_pending_rewards` at `t1` followed by
   * an unstake at `t2` pays together no more than the formula allows for
   * the whole interval from the start of accrual to `t2`.
   */
  lemma PendingClaimThenUnstakePaysOnce(s0: Store, user: Pubkey, userTokenAccount: Pubkey, userRewardAccount: Pubkey,
                                        t1: i64, t2: i64, amount: u64,
                                        c: Result<(UserStakeInfo, Token.Ledger, u64)>, r2: Result<Store>)
    requires s0.global.Some? && user in s0.stakes
    requires AccrualStart(s0.stakes[user]) <= t1 <= t2 && 0 < t1
    requires Utils.ClaimPendingOutcome(s0.global.value, s0.global.value.rewardVault, s0.stakes[user],
                                       s0.tokens, userRewardAccount, t1, c) && c.Ok?
    requires UnstakeIx.UnstakeOutcome(s0.(stakes := s0.stakes[user := c.value.0], tokens := c.value.1),
                                      user, userTokenAccount, userRewardAccount, amount, t2, r2) && r2.Ok?
    ensures r2.value.stakes[user].rewardDebt - s0.stakes[user].rewardDebt
            <= RewardFormula(s0.stakes[user].amount, s0.global.value.rewardRate, t2 - AccrualStart(s0.stakes[user]))
  {
    var pos, rate := s0.stakes[user], s0.global.value.rewardRate;
    var s1 := s0.(stakes := s0.stakes[user := c.value.0], tokens := c.value.1);
    var second := UnstakeIx.UnstakeReward(s1, user, t2).value;
    assert r2.value.stakes[user].rewardDebt == c.value.0.rewardDebt + second;
    if c.value.2 > 0 {
      assert AccrualStart(c.value.0) == t1;
      SplitIntervalNoGain(pos.amount, AccrualStart(pos), t1, t2, rate);
    } else {
      assert c.value.0 == pos;
      CalculateRewardsExact(pos.amount, AccrualStart(pos), t2, rate);
    }
  }
}
