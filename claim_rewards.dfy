/**
 * `claim_rewards`: pays the reward accrued since `stake_timestamp` and
 * restarts the accrual there. The state account is read only.
 */
module ClaimRewardsIx {
  import opened Primitives
  import opened Errors
  import opened Constants
  import opened State
  import opened Rewards
  import Token

  /**
   * Anchor loads every account of `ClaimRewards` before it runs any
   * constraint; the two token accounts must exist.
   */
  predicate ClaimTokensLoaded(s: Store, userRewardAccount: Pubkey)
    requires s.global.Some?
  {
    userRewardAccount in s.tokens && s.global.value.rewardVault in s.tokens
  }

  /** The account constraints of `ClaimRewards`: every account loads and the reward account matches. */
  predicate ClaimAccountsOk(s: Store, user: Pubkey, userRewardAccount: Pubkey) {
    && s.global.Some?
    && user in s.stakes
    && ClaimTokensLoaded(s, userRewardAccount)
    && IsTokenAccountOf(s.tokens, userRewardAccount, s.global.value.rewardMint, user)
  }

  /** The reward accrued on the position since its `stake_timestamp`. */
  function ClaimReward(s: Store, user: Pubkey, now: i64): Result<u64>
    requires s.global.Some? && user in s.stakes
  {
    var pos := s.stakes[user];
    CalculateRewards(pos.amount, pos.stakeTimestamp, now, s.global.value.rewardRate)
  }

  ghost predicate ClaimSucceeds(s: Store, user: Pubkey, userRewardAccount: Pubkey, now: i64) {
    && ClaimAccountsOk(s, user, userRewardAccount)
    && var g, pos, reward := s.global.value, s.stakes[user], ClaimReward(s, user, now);
    && reward.Ok?
    && PayReward(s.tokens, g.rewardVault, userRewardAccount, reward.value).Ok?
    && pos.rewardDebt + reward.value < U64_LIMIT
  }

  /** What `claim_rewards` returns: an error, or the store the runtime commits. */
  ghost predicate ClaimRewardsOutcome(pre: Store, user: Pubkey, userRewardAccount: Pubkey, now: i64, r: Result<Store>) {
    && (r.Ok? <==> ClaimSucceeds(pre, user, userRewardAccount, now))
    && (pre.global.None? || user !in pre.stakes ==> r == Err(AccountNotInitialized))
    && (pre.global.Some? && user in pre.stakes && !ClaimTokensLoaded(pre, userRewardAccount) ==>
          r == Err(AccountNotInitialized))
    && (pre.global.Some? && user in pre.stakes && ClaimTokensLoaded(pre, userRewardAccount) ==>
          var rewardCheck := TokenConstraint(pre.tokens, userRewardAccount, pre.global.value.rewardMint, user);
          && (rewardCheck.Err? ==> r == Err(rewardCheck.error))
          && (rewardCheck.Ok? ==>
                var reward := ClaimReward(pre, user, now);
                && (reward.Err? ==> r == Err(Program(ArithmeticOverflow)))
                && (reward.Ok? ==>
                      var paid := PayReward(pre.tokens, pre.global.value.rewardVault, userRewardAccount, reward.value);
                      // An empty or failing reward vault aborts the claim.
                      && (paid.Err? ==> r == Err(paid.error))
                      && (paid.Ok? && pre.stakes[user].rewardDebt + reward.value >= U64_LIMIT ==>
                            r == Err(Program(ArithmeticOverflow))))))
    && (r.Ok? ==>
          var pos, reward := pre.stakes[user], ClaimReward(pre, user, now).value;
          // `GlobalState`, `amount` and `last_claim_time` are never written.
          && r.value.global == pre.global
          && r.value.stakes == (if reward > 0
                                then pre.stakes[user := pos.(rewardDebt := pos.rewardDebt + reward, stakeTimestamp := now)]
                                else pre.stakes)
          && r.value.blacklist == pre.blacklist
          && r.value.tokens == PayReward(pre.tokens, pre.global.value.rewardVault, userRewardAccount, reward).value)
  }

  /** The `claim_rewards` instruction: the account constraints of `ClaimRewards`, then `claim_rewards_handler`. */
  method ClaimRewards(s: Store, user: Pubkey, userRewardAccount: Pubkey, now: i64) returns (r: Result<Store>)
    ensures ClaimRewardsOutcome(s, user, userRewardAccount, now, r)
  {
    if s.global.None? || user !in s.stakes {
      return Err(AccountNotInitialized);
    }
    if !ClaimTokensLoaded(s, userRewardAccount) {
      return Err(AccountNotInitialized);
    }
    var ok :- TokenConstraint(s.tokens, userRewardAccount, s.global.value.rewardMint, user);
    r := ClaimRewardsHandler(s, user, userRewardAccount, now);
  }

  /** `claim_rewards_handler`, called once the accounts are validated. */
  method ClaimRewardsHandler(s: Store, user: Pubkey, userRewardAccount: Pubkey, now: i64) returns (r: Result<Store>)
    requires ClaimAccountsOk(s, user, userRewardAccount)
    ensures ClaimRewardsOutcome(s, user, userRewardAccount, now, r)
  {
    var state := s.global.value;
    var userStake := s.stakes[user];
    var tokens := s.tokens;
    var rewards :- CalculateRewards(userStake.amount, userStake.stakeTimestamp, now, state.rewardRate);
    if rewards > 0 {
      tokens :- Token.Transfer(tokens, state.rewardVault, userRewardAccount, rewards);
      var debt :- CheckedAdd(userStake.rewardDebt, rewards);
      userStake := userStake.(rewardDebt := debt, stakeTimestamp := now);
      return Ok(s.(stakes := s.stakes[user := userStake], tokens := tokens));
    }
    // "No rewards to claim": nothing is written.
    return Ok(s);
  }

  /** `claim_rewards` leaves every amount and `total_staked` alone, and keeps the invariants. */
  lemma ClaimRewardsPreservesInv(pre: Store, derive: Deriver, user: Pubkey, userRewardAccount: Pubkey,
                                 now: i64, r: Result<Store>)
    requires Inv(pre) && Wired(pre, derive)
    requires ClaimRewardsOutcome(pre, user, userRewardAccount, now, r)
    requires r.Ok?
    ensures Inv(r.value) && Wired(r.value, derive)
    ensures forall u | u in pre.stakes :: u in r.value.stakes && r.value.stakes[u].amount == pre.stakes[u].amount
  {
    var g, post := pre.global.value, r.value;
    var reward := ClaimReward(pre, user, now).value;
    if reward > 0 {
      TotalStakedUpdate(pre.stakes, user, post.stakes[user]);
      Token.TransferEffect(pre.tokens, g.rewardVault, userRewardAccount, reward);
    }
  }

  /** Only the reward vault pays; the staking vault is untouched, so solvency is kept. */
  lemma ClaimRewardsPreservesSolvency(pre: Store, derive: Deriver, user: Pubkey, userRewardAccount: Pubkey,
                                      now: i64, r: Result<Store>)
    requires Inv(pre) && Wired(pre, derive) && Solvent(pre) && user != StateAddress(derive)
    requires ClaimRewardsOutcome(pre, user, userRewardAccount, now, r)
    requires r.Ok?
    ensures Solvent(r.value)
    ensures Token.Balance(r.value.tokens, pre.global.value.stakingVault) == Token.Balance(pre.tokens, pre.global.value.stakingVault)
  {
    var g := pre.global.value;
    var reward := ClaimReward(pre, user, now).value;
    assert userRewardAccount != g.stakingVault;
    PayRewardBalanceAt(pre.tokens, g.rewardVault, userRewardAccount, reward, g.stakingVault);
  }
}
