/**
 * `unstake`: pays the pending reward, returns part of the stake from the
 * vault, and shrinks the position and the global total.
 */
module UnstakeIx {
  import opened Primitives
  import opened Errors
  import opened Constants
  import opened State
  import opened Rewards
  import Token
  import StakeIx

  /**
   * The account constraints of `Unstake`: the state, the position and the
   * four token accounts load, and both user accounts match.
   */
  predicate UnstakeAccountsOk(s: Store, user: Pubkey, userTokenAccount: Pubkey, userRewardAccount: Pubkey) {
    && s.global.Some?
    && user in s.stakes
    && StakeIx.StakeTokensLoaded(s, userTokenAccount, userRewardAccount)
    && IsTokenAccountOf(s.tokens, userTokenAccount, s.global.value.stakingMint, user)
    && IsTokenAccountOf(s.tokens, userRewardAccount, s.global.value.rewardMint, user)
  }

  /** The reward paid on the position as it was before the withdrawal. */
  function UnstakeReward(s: Store, user: Pubkey, now: i64): Result<u64>
    requires s.global.Some? && user in s.stakes
  {
    var pos := s.stakes[user];
    CalculateRewards(pos.amount, AccrualStart(pos), now, s.global.value.rewardRate)
  }

  ghost predicate UnstakeSucceeds(s: Store, user: Pubkey, userTokenAccount: Pubkey, userRewardAccount: Pubkey,
                                  amount: u64, now: i64)
  {
    && UnstakeAccountsOk(s, user, userTokenAccount, userRewardAccount)
    && 0 < amount <= s.stakes[user].amount
    && var g, pos, reward := s.global.value, s.stakes[user], UnstakeReward(s, user, now);
    && reward.Ok?
    && PayReward(s.tokens, g.rewardVault, userRewardAccount, reward.value).Ok?
    && pos.rewardDebt + reward.value < U64_LIMIT
    && Token.Transfer(PayReward(s.tokens, g.rewardVault, userRewardAccount, reward.value).value,
                      g.stakingVault, userTokenAccount, amount).Ok?
    && amount <= g.totalStaked
  }

  /**
   * The error of a failing `unstake`, check by check in the order Anchor and
   * the code run them: the token account loads (`Unstake` has the same
   * four as `Stake`), the two token constraints, the zero amount, the
   * position bound, the reward computation, the payout, the debt update,
   * the withdrawal transfer, and the `checked_sub` on `total_staked`.
   */
  ghost predicate UnstakeErrors(pre: Store, user: Pubkey, userTokenAccount: Pubkey, userRewardAccount: Pubkey,
                                amount: u64, now: i64, r: Result<Store>)
    requires pre.global.Some? && user in pre.stakes
  {
    var g := pre.global.value;
    && (!StakeIx.StakeTokensLoaded(pre, userTokenAccount, userRewardAccount) ==> r == Err(AccountNotInitialized))
    && (StakeIx.StakeTokensLoaded(pre, userTokenAccount, userRewardAccount) ==>
          var tokenCheck := TokenConstraint(pre.tokens, userTokenAccount, g.stakingMint, user);
          var rewardCheck := TokenConstraint(pre.tokens, userRewardAccount, g.rewardMint, user);
          && (tokenCheck.Err? ==> r == Err(tokenCheck.error))
          && (tokenCheck.Ok? && rewardCheck.Err? ==> r == Err(rewardCheck.error))
          && (tokenCheck.Ok? && rewardCheck.Ok? ==>
                UnstakeHandlerErrors(pre, user, userTokenAccount, userRewardAccount, amount, now, r)))
  }

  /** The errors of `unstake_handler`, once the accounts are validated. */
  ghost predicate UnstakeHandlerErrors(pre: Store, user: Pubkey, userTokenAccount: Pubkey, userRewardAccount: Pubkey,
                                       amount: u64, now: i64, r: Result<Store>)
    requires pre.global.Some? && user in pre.stakes
  {
    var g, pos := pre.global.value, pre.stakes[user];
    && (amount == 0 ==> r == Err(Program(InvalidUnstakeAmount)))
    && (0 < amount && pos.amount < amount ==> r == Err(Program(InsufficientStakedAmount)))
    && (0 < amount <= pos.amount ==>
          var reward := UnstakeReward(pre, user, now);
          && (reward.Err? ==> r == Err(Program(ArithmeticOverflow)))
          && (reward.Ok? ==>
                var paid := PayReward(pre.tokens, g.rewardVault, userRewardAccount, reward.value);
                && (paid.Err? ==> r == Err(paid.error))
                && (paid.Ok? && pos.rewardDebt + reward.value >= U64_LIMIT ==>
                      r == Err(Program(ArithmeticOverflow)))
                && (paid.Ok? && pos.rewardDebt + reward.value < U64_LIMIT ==>
                      var moved := Token.Transfer(paid.value, g.stakingVault, userTokenAccount, amount);
                      && (moved.Err? ==> r == Err(moved.error))
                      && (moved.Ok? && g.totalStaked < amount ==> r == Err(Program(ArithmeticOverflow))))))
  }

  /** What `unstake` returns: an error, or the store the runtime commits. */
  ghost predicate UnstakeOutcome(pre: Store, user: Pubkey, userTokenAccount: Pubkey, userRewardAccount: Pubkey,
                                 amount: u64, now: i64, r: Result<Store>)
  {
    && (r.Ok? <==> UnstakeSucceeds(pre, user, userTokenAccount, userRewardAccount, amount, now))
    && (pre.global.None? || user !in pre.stakes ==> r == Err(AccountNotInitialized))
    && (pre.global.Some? && user in pre.stakes ==>
          UnstakeErrors(pre, user, userTokenAccount, userRewardAccount, amount, now, r))
    && (r.Ok? ==>
          var g, pos, reward := pre.global.value, pre.stakes[user], UnstakeReward(pre, user, now).value;
          && r.value.global == Some(g.(totalStaked := g.totalStaked - amount))
          // `stake_timestamp` is kept; the reward is settled up to `now`.
          && r.value.stakes == pre.stakes[user := pos.(amount := pos.amount - amount,
                                                       lastClaimTime := now,
                                                       rewardDebt := pos.rewardDebt + reward)]
          && r.value.blacklist == pre.blacklist
          && r.value.tokens == Token.Transfer(PayReward(pre.tokens, g.rewardVault, userRewardAccount, reward).value,
                                              g.stakingVault, userTokenAccount, amount).value)
  }

  /** The `unstake` instruction: the account constraints of `Unstake`, then `unstake_handler`. */
  method Unstake(s: Store, user: Pubkey, userTokenAccount: Pubkey, userRewardAccount: Pubkey,
                 amount: u64, now: i64) returns (r: Result<Store>)
    ensures UnstakeOutcome(s, user, userTokenAccount, userRewardAccount, amount, now, r)
  {
    if s.global.None? || user !in s.stakes {
      return Err(AccountNotInitialized);
    }
    var state := s.global.value;
    if !StakeIx.StakeTokensLoaded(s, userTokenAccount, userRewardAccount) {
      return Err(AccountNotInitialized);
    }
    var ok :- TokenConstraint(s.tokens, userTokenAccount, state.stakingMint, user);
    ok :- TokenConstraint(s.tokens, userRewardAccount, state.rewardMint, user);
    r := UnstakeHandler(s, user, userTokenAccount, userRewardAccount, amount, now);
  }

  /** `unstake_handler`, called once the accounts are validated. */
  method UnstakeHandler(s: Store, user: Pubkey, userTokenAccount: Pubkey, userRewardAccount: Pubkey,
                        amount: u64, now: i64) returns (r: Result<Store>)
    requires UnstakeAccountsOk(s, user, userTokenAccount, userRewardAccount)
    ensures UnstakeOutcome(s, user, userTokenAccount, userRewardAccount, amount, now, r)
  {
    var ok :- Require(amount > 0, InvalidUnstakeAmount);
    var state := s.global.value;
    var userStake := s.stakes[user];
    var tokens := s.tokens;
    ok :- Require(userStake.amount >= amount, InsufficientStakedAmount);

    // The position is nonempty here, so the guarded payout of `stake` computes
    // exactly the unconditional `calculate_rewards` of `unstake_handler`.
    var settled :- StakeIx.PayPendingReward(state, userStake, tokens, userRewardAccount, now);
    userStake, tokens := settled.0, settled.1;
    assert UnstakeReward(s, user, now) == Ok(settled.2);

    tokens :- Token.Transfer(tokens, state.stakingVault, userTokenAccount, amount);

    // `checked_sub` on the position cannot fail after the bound checked above.
    userStake := userStake.(amount := userStake.amount - amount, lastClaimTime := now);

    var newTotal :- CheckedSub(state.totalStaked, amount);
    state := state.(totalStaked := newTotal);

    r := Ok(s.(global := Some(state), stakes := s.stakes[user := userStake], tokens := tokens));
  }

  /**
   * Under the invariant the `checked_sub` on `total_staked` never fails: a
   * withdrawal the position covers is covered by the total.
   */
  lemma UnstakeTotalCannotUnderflow(s: Store, user: Pubkey, amount: u64)
    requires Inv(s) && s.global.Some? && user in s.stakes
    requires amount <= s.stakes[user].amount
    ensures amount <= s.global.value.totalStaked
  {
    PositionAtMostTotalStaked(s, user);
  }

  /** `unstake` keeps `total_staked` equal to the sum of the positions, and the other invariants. */
  lemma UnstakePreservesInv(pre: Store, derive: Deriver, user: Pubkey,
                            userTokenAccount: Pubkey, userRewardAccount: Pubkey,
                            amount: u64, now: i64, r: Result<Store>)
    requires Inv(pre) && Wired(pre, derive)
    requires UnstakeOutcome(pre, user, userTokenAccount, userRewardAccount, amount, now, r)
    requires r.Ok?
    ensures Inv(r.value) && Wired(r.value, derive)
  {
    var g, post := pre.global.value, r.value;
    TotalStakedUpdate(pre.stakes, user, post.stakes[user]);
    assert Inv(post);
    var reward := UnstakeReward(pre, user, now).value;
    var paid := PayReward(pre.tokens, g.rewardVault, userRewardAccount, reward).value;
    if reward > 0 {
      Token.TransferEffect(pre.tokens, g.rewardVault, userRewardAccount, reward);
    }
    Token.TransferEffect(paid, g.stakingVault, userTokenAccount, amount);
  }

  /**
   * The token movements of a successful `unstake`: the reward leaves the
   * reward vault for the user's reward account, and `amount` leaves the
   * staking vault for the user's token account; one account playing both
   * parts gains both.
   */
  lemma UnstakeMovesTokens(pre: Store, derive: Deriver, user: Pubkey,
                           userTokenAccount: Pubkey, userRewardAccount: Pubkey,
                           amount: u64, now: i64, r: Result<Store>)
    requires Inv(pre) && Wired(pre, derive) && user != StateAddress(derive)
    requires UnstakeOutcome(pre, user, userTokenAccount, userRewardAccount, amount, now, r)
    requires r.Ok?
    ensures
      var g, reward, t, t' := pre.global.value, UnstakeReward(pre, user, now).value, pre.tokens, r.value.tokens;
      && Token.Balance(t', g.stakingVault) == Token.Balance(t, g.stakingVault) - amount
      && Token.Balance(t', g.rewardVault) == Token.Balance(t, g.rewardVault) - reward
      && (userTokenAccount != userRewardAccount ==>
            && Token.Balance(t', userTokenAccount) == Token.Balance(t, userTokenAccount) + amount
            && Token.Balance(t', userRewardAccount) == Token.Balance(t, userRewardAccount) + reward)
      && (userTokenAccount == userRewardAccount ==>
            Token.Balance(t', userTokenAccount) == Token.Balance(t, userTokenAccount) + reward + amount)
  {
    var g, reward := pre.global.value, UnstakeReward(pre, user, now).value;
    var paid := PayReward(pre.tokens, g.rewardVault, userRewardAccount, reward).value;
    assert userRewardAccount != g.stakingVault && userRewardAccount != g.rewardVault;
    assert userTokenAccount != g.stakingVault && userTokenAccount != g.rewardVault;
    PayRewardBalanceAt(pre.tokens, g.rewardVault, userRewardAccount, reward, g.stakingVault);
    PayRewardBalanceAt(pre.tokens, g.rewardVault, userRewardAccount, reward, g.rewardVault);
    PayRewardBalanceAt(pre.tokens, g.rewardVault, userRewardAccount, reward, userTokenAccount);
    PayRewardBalanceAt(pre.tokens, g.rewardVault, userRewardAccount, reward, userRewardAccount);
    Token.TransferBalanceAt(paid, g.stakingVault, userTokenAccount, amount, g.stakingVault);
    Token.TransferBalanceAt(paid, g.stakingVault, userTokenAccount, amount, g.rewardVault);
    Token.TransferBalanceAt(paid, g.stakingVault, userTokenAccount, amount, userTokenAccount);
    Token.TransferBalanceAt(paid, g.stakingVault, userTokenAccount, amount, userRewardAccount);
  }


  /** After a successful unstake at a positive time, the position accrues from that time on. */
  lemma UnstakeRestartsAccrual(pre: Store, user: Pubkey, userTokenAccount: Pubkey, userRewardAccount: Pubkey,
                               amount: u64, now: i64, r: Result<Store>)
    requires UnstakeOutcome(pre, user, userTokenAccount, userRewardAccount, amount, now, r)
    requires r.Ok? && now > 0
    ensures AccrualStart(r.value.stakes[user]) == now
    ensures r.value.stakes[user].stakeTimestamp == pre.stakes[user].stakeTimestamp
    ensures PendingReward(r.value.stakes[user], now, pre.global.value.rewardRate) == Ok(0)
  {
    var p := r.value.stakes[user];
    CalculateRewardsZero(p.amount, now, now, pre.global.value.rewardRate);
  }

  /** `unstake` keeps the staking vault covering `total_staked`. */
  lemma UnstakePreservesSolvency(pre: Store, derive: Deriver, user: Pubkey,
                                 userTokenAccount: Pubkey, userRewardAccount: Pubkey,
                                 amount: u64, now: i64, r: Result<Store>)
    requires Inv(pre) && Wired(pre, derive) && Solvent(pre) && user != StateAddress(derive)
    requires UnstakeOutcome(pre, user, userTokenAccount, userRewardAccount, amount, now, r)
    requires r.Ok?
    ensures Solvent(r.value)
  {
    UnstakeMovesTokens(pre, derive, user, userTokenAccount, userRewardAccount, amount, now, r);
  }
}
