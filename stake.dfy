/**
 * `stake`: pays the reward pending on an existing position, moves the new
 * stake into the vault, and grows the position and the global total.
 */
module StakeIx {
  import opened Primitives
  import opened Errors
  import opened Constants
  import opened State
  import opened Rewards
  import Token

  /**
   * Anchor loads every account of `Stake`, in field order, before it runs
   * any constraint; a token account that does not exist fails the load with
   * `AccountNotInitialized`. `user_stake_info` is `init_if_needed`, so it
   * always loads.
   */
  predicate StakeTokensLoaded(s: Store, userTokenAccount: Pubkey, userRewardAccount: Pubkey)
    requires s.global.Some?
  {
    && userTokenAccount in s.tokens
    && s.global.value.stakingVault in s.tokens
    && s.global.value.rewardVault in s.tokens
    && userRewardAccount in s.tokens
  }

  /** The account constraints of `Stake`: every account loads and both user accounts match. */
  predicate StakeAccountsOk(s: Store, user: Pubkey, userTokenAccount: Pubkey, userRewardAccount: Pubkey) {
    && s.global.Some?
    && StakeTokensLoaded(s, userTokenAccount, userRewardAccount)
    && IsTokenAccountOf(s.tokens, userTokenAccount, s.global.value.stakingMint, user)
    && IsTokenAccountOf(s.tokens, userRewardAccount, s.global.value.rewardMint, user)
  }

  /** The reward paid before the new stake is added: none on an empty position. */
  function StakeReward(s: Store, user: Pubkey, now: i64): Result<u64>
    requires s.global.Some?
  {
    PendingReward(PositionOf(s.stakes, user), now, s.global.value.rewardRate)
  }

  ghost predicate StakeSucceeds(s: Store, user: Pubkey, userTokenAccount: Pubkey, userRewardAccount: Pubkey,
                                amount: u64, now: i64)
  {
    && StakeAccountsOk(s, user, userTokenAccount, userRewardAccount)
    && amount > 0
    && var g, pos, reward := s.global.value, PositionOf(s.stakes, user), StakeReward(s, user, now);
    && reward.Ok?
    && PayReward(s.tokens, g.rewardVault, userRewardAccount, reward.value).Ok?
    && pos.rewardDebt + reward.value < U64_LIMIT
    && Token.Transfer(PayReward(s.tokens, g.rewardVault, userRewardAccount, reward.value).value,
                      userTokenAccount, g.stakingVault, amount).Ok?
    && pos.amount + amount < U64_LIMIT
    && g.totalStaked + amount < U64_LIMIT
  }

  /**
   * The error of a failing `stake`, check by check in the order Anchor and
   * the code run them: the account loads, the two token constraints, the
   * zero amount, the reward computation, the payout, the debt update, the
   * stake transfer, and the two checked additions.
   */
  ghost predicate StakeErrors(pre: Store, user: Pubkey, userTokenAccount: Pubkey, userRewardAccount: Pubkey,
                              amount: u64, now: i64, r: Result<Store>)
    requires pre.global.Some?
  {
    var g, pos := pre.global.value, PositionOf(pre.stakes, user);
    && (!StakeTokensLoaded(pre, userTokenAccount, userRewardAccount) ==> r == Err(AccountNotInitialized))
    && (StakeTokensLoaded(pre, userTokenAccount, userRewardAccount) ==>
          var tokenCheck := TokenConstraint(pre.tokens, userTokenAccount, g.stakingMint, user);
          var rewardCheck := TokenConstraint(pre.tokens, userRewardAccount, g.rewardMint, user);
          && (tokenCheck.Err? ==> r == Err(tokenCheck.error))
          && (tokenCheck.Ok? && rewardCheck.Err? ==> r == Err(rewardCheck.error))
          && (tokenCheck.Ok? && rewardCheck.Ok? ==> StakeHandlerErrors(pre, user, userTokenAccount, userRewardAccount, amount, now, r)))
  }

  /** The errors of `stake_handler`, once the accounts are validated. */
  ghost predicate StakeHandlerErrors(pre: Store, user: Pubkey, userTokenAccount: Pubkey, userRewardAccount: Pubkey,
                                     amount: u64, now: i64, r: Result<Store>)
    requires pre.global.Some?
  {
    var g, pos := pre.global.value, PositionOf(pre.stakes, user);
    && (amount == 0 ==> r == Err(Program(InvalidStakeAmount)))
    && (amount > 0 ==>
          var reward := StakeReward(pre, user, now);
          && (reward.Err? ==> r == Err(Program(ArithmeticOverflow)))
          && (reward.Ok? ==>
                var paid := PayReward(pre.tokens, g.rewardVault, userRewardAccount, reward.value);
                && (paid.Err? ==> r == Err(paid.error))
                && (paid.Ok? && pos.rewardDebt + reward.value >= U64_LIMIT ==>
                      r == Err(Program(ArithmeticOverflow)))
                && (paid.Ok? && pos.rewardDebt + reward.value < U64_LIMIT ==>
                      var moved := Token.Transfer(paid.value, userTokenAccount, g.stakingVault, amount);
                      && (moved.Err? ==> r == Err(moved.error))
                      && (moved.Ok? && (pos.amount + amount >= U64_LIMIT || g.totalStaked + amount >= U64_LIMIT) ==>
                            r == Err(Program(ArithmeticOverflow))))))
  }

  /** What `stake` returns: an error, or the store the runtime commits. */
  ghost predicate StakeOutcome(pre: Store, derive: Deriver, user: Pubkey,
                               userTokenAccount: Pubkey, userRewardAccount: Pubkey,
                               amount: u64, now: i64, r: Result<Store>)
  {
    && (r.Ok? <==> StakeSucceeds(pre, user, userTokenAccount, userRewardAccount, amount, now))
    && (pre.global.None? ==> r == Err(AccountNotInitialized))
    && (pre.global.Some? ==> StakeErrors(pre, user, userTokenAccount, userRewardAccount, amount, now, r))
    && (r.Ok? ==>
          var g, pos, reward := pre.global.value, PositionOf(pre.stakes, user), StakeReward(pre, user, now).value;
          && r.value.global == Some(g.(totalStaked := g.totalStaked + amount))
          && r.value.stakes == pre.stakes[user := UserStakeInfo(
               user,
               pos.amount + amount,
               // Only the first stake sets `stake_timestamp`; every stake resets `last_claim_time`.
               if pos.stakeTimestamp == 0 then now else pos.stakeTimestamp,
               now,
               pos.rewardDebt + reward,
               BumpOf(derive, UserStake(user)))]
          && r.value.blacklist == pre.blacklist
          && r.value.tokens == Token.Transfer(PayReward(pre.tokens, g.rewardVault, userRewardAccount, reward).value,
                                              userTokenAccount, g.stakingVault, amount).value)
  }

  /** The `stake` instruction: the account constraints of `Stake`, then `stake_handler`. */
  method Stake(s: Store, derive: Deriver, user: Pubkey, userTokenAccount: Pubkey, userRewardAccount: Pubkey,
               amount: u64, now: i64) returns (r: Result<Store>)
    ensures StakeOutcome(s, derive, user, userTokenAccount, userRewardAccount, amount, now, r)
  {
    if s.global.None? {
      return Err(AccountNotInitialized);
    }
    var state := s.global.value;
    if !StakeTokensLoaded(s, userTokenAccount, userRewardAccount) {
      return Err(AccountNotInitialized);
    }
    var ok :- TokenConstraint(s.tokens, userTokenAccount, state.stakingMint, user);
    ok :- TokenConstraint(s.tokens, userRewardAccount, state.rewardMint, user);
    r := StakeHandler(s, derive, user, userTokenAccount, userRewardAccount, amount, now);
  }

  /**
   * `stake_handler`, called once the accounts are validated; the position
   * is the existing record or the zeroed one `init_if_needed` creates.
   */
  method StakeHandler(s: Store, derive: Deriver, user: Pubkey, userTokenAccount: Pubkey, userRewardAccount: Pubkey,
                      amount: u64, now: i64) returns (r: Result<Store>)
    requires StakeAccountsOk(s, user, userTokenAccount, userRewardAccount)
    ensures StakeOutcome(s, derive, user, userTokenAccount, userRewardAccount, amount, now, r)
  {
    var ok :- Require(amount > 0, InvalidStakeAmount);
    var state := s.global.value;
    var userStake := PositionOf(s.stakes, user);  // `init_if_needed`
    var tokens := s.tokens;

    var settled :- PayPendingReward(state, userStake, tokens, userRewardAccount, now);
    userStake, tokens := settled.0, settled.1;
    assert StakeReward(s, user, now) == Ok(settled.2);

    tokens :- Token.Transfer(tokens, userTokenAccount, state.stakingVault, amount);

    var newAmount :- CheckedAdd(userStake.amount, amount);
    userStake := userStake.(owner := user, amount := newAmount);
    if userStake.stakeTimestamp == 0 {
      userStake := userStake.(stakeTimestamp := now, lastClaimTime := now);
    } else {
      userStake := userStake.(lastClaimTime := now);
    }
    userStake := userStake.(bump := BumpOf(derive, UserStake(user)));

    var newTotal :- CheckedAdd(state.totalStaked, amount);
    state := state.(totalStaked := newTotal);

    r := Ok(s.(global := Some(state), stakes := s.stakes[user := userStake], tokens := tokens));
  }

  /**
   * "If user already has a stake, claim rewards first": the reward pending
   * on a nonempty position moves from the reward vault to the user's reward
   * account and is added to `reward_debt`. Returns the updated position,
   * ledger and the reward paid.
   */
  method PayPendingReward(state: GlobalState, userStake: UserStakeInfo, tokens: Token.Ledger,
                          userRewardAccount: Pubkey, now: i64)
    returns (r: Result<(UserStakeInfo, Token.Ledger, u64)>)
    ensures var reward := PendingReward(userStake, now, state.rewardRate);
      && (r.Ok? <==>
            && reward.Ok?
            && PayReward(tokens, state.rewardVault, userRewardAccount, reward.value).Ok?
            && userStake.rewardDebt + reward.value < U64_LIMIT)
      && (reward.Err? ==> r == Err(Program(ArithmeticOverflow)))
      && (reward.Ok? && PayReward(tokens, state.rewardVault, userRewardAccount, reward.value).Err? ==>
            r == Err(PayReward(tokens, state.rewardVault, userRewardAccount, reward.value).error))
      && (reward.Ok? && PayReward(tokens, state.rewardVault, userRewardAccount, reward.value).Ok? &&
          userStake.rewardDebt + reward.value >= U64_LIMIT ==>
            r == Err(Program(ArithmeticOverflow)))
      && (r.Ok? ==> r.value == (userStake.(rewardDebt := userStake.rewardDebt + reward.value),
                                PayReward(tokens, state.rewardVault, userRewardAccount, reward.value).value,
                                reward.value))
  {
    var position, ledger := userStake, tokens;
    var rewards: u64 := 0;
    if userStake.amount > 0 {
      rewards :- CalculateRewards(userStake.amount, AccrualStart(userStake), now, state.rewardRate);
      if rewards > 0 {
        ledger :- Token.Transfer(ledger, state.rewardVault, userRewardAccount, rewards);
        var debt :- CheckedAdd(position.rewardDebt, rewards);
        position := position.(rewardDebt := debt);
      }
    }
    return Ok((position, ledger, rewards));
  }

  /** `stake` keeps `total_staked` equal to the sum of the positions, and the other invariants. */
  lemma StakePreservesInv(pre: Store, derive: Deriver, user: Pubkey,
                          userTokenAccount: Pubkey, userRewardAccount: Pubkey,
                          amount: u64, now: i64, r: Result<Store>)
    requires Inv(pre) && Wired(pre, derive)
    requires StakeOutcome(pre, derive, user, userTokenAccount, userRewardAccount, amount, now, r)
    requires r.Ok?
    ensures Inv(r.value) && Wired(r.value, derive)
  {
    var g, post := pre.global.value, r.value;
    TotalStakedUpdate(pre.stakes, user, post.stakes[user]);
    assert Inv(post);
    var reward := StakeReward(pre, user, now).value;
    var paid := PayReward(pre.tokens, g.rewardVault, userRewardAccount, reward).value;
    if reward > 0 {
      Token.TransferEffect(pre.tokens, g.rewardVault, userRewardAccount, reward);
    }
    Token.TransferEffect(paid, userTokenAccount, g.stakingVault, amount);
  }

  /**
   * The token movements of a successful `stake`: the reward leaves the
   * reward vault for the user's reward account, and `amount` leaves the
   * user's token account for the staking vault, netted when one account
   * plays both parts. A signer is never the state account, which holds no
   * private key.
   */
  lemma StakeMovesTokens(pre: Store, derive: Deriver, user: Pubkey,
                         userTokenAccount: Pubkey, userRewardAccount: Pubkey,
                         amount: u64, now: i64, r: Result<Store>)
    requires Inv(pre) && Wired(pre, derive) && user != StateAddress(derive)
    requires StakeOutcome(pre, derive, user, userTokenAccount, userRewardAccount, amount, now, r)
    requires r.Ok?
    ensures
      var g, reward, t, t' := pre.global.value, StakeReward(pre, user, now).value, pre.tokens, r.value.tokens;
      && Token.Balance(t', g.stakingVault) == Token.Balance(t, g.stakingVault) + amount
      && Token.Balance(t', g.rewardVault) == Token.Balance(t, g.rewardVault) - reward
      && (userTokenAccount != userRewardAccount ==>
            && Token.Balance(t', userTokenAccount) == Token.Balance(t, userTokenAccount) - amount
            && Token.Balance(t', userRewardAccount) == Token.Balance(t, userRewardAccount) + reward)
      // Nothing stops the two mints from being the same, and then one account can fill both slots.
      && (userTokenAccount == userRewardAccount ==>
            Token.Balance(t', userTokenAccount) == Token.Balance(t, userTokenAccount) + reward - amount)
  {
    var g, reward := pre.global.value, StakeReward(pre, user, now).value;
    var paid := PayReward(pre.tokens, g.rewardVault, userRewardAccount, reward).value;
    assert userRewardAccount != g.stakingVault && userRewardAccount != g.rewardVault;
    assert userTokenAccount != g.stakingVault && userTokenAccount != g.rewardVault;
    PayRewardBalanceAt(pre.tokens, g.rewardVault, userRewardAccount, reward, g.stakingVault);
    PayRewardBalanceAt(pre.tokens, g.rewardVault, userRewardAccount, reward, g.rewardVault);
    PayRewardBalanceAt(pre.tokens, g.rewardVault, userRewardAccount, reward, userTokenAccount);
    PayRewardBalanceAt(pre.tokens, g.rewardVault, userRewardAccount, reward, userRewardAccount);
    Token.TransferBalanceAt(paid, userTokenAccount, g.stakingVault, amount, g.stakingVault);
    Token.TransferBalanceAt(paid, userTokenAccount, g.stakingVault, amount, g.rewardVault);
    Token.TransferBalanceAt(paid, userTokenAccount, g.stakingVault, amount, userTokenAccount);
    Token.TransferBalanceAt(paid, userTokenAccount, g.stakingVault, amount, userRewardAccount);
  }


  /** `stake` keeps the staking vault covering `total_staked`. */
  lemma StakePreservesSolvency(pre: Store, derive: Deriver, user: Pubkey,
                               userTokenAccount: Pubkey, userRewardAccount: Pubkey,
                               amount: u64, now: i64, r: Result<Store>)
    requires Inv(pre) && Wired(pre, derive) && Solvent(pre) && user != StateAddress(derive)
    requires StakeOutcome(pre, derive, user, userTokenAccount, userRewardAccount, amount, now, r)
    requires r.Ok?
    ensures Solvent(r.value)
  {
    StakeMovesTokens(pre, derive, user, userTokenAccount, userRewardAccount, amount, now, r);
  }

  /**
   * From a consistent, solvent store the two `checked_add`s on the position
   * and on `total_staked` never fail once the stake transfer has gone
   * through: the staking vault already holds `total_staked`, and the token
   * program refuses a credit that would take it past 2^64.
   */
  lemma StakeAdditionsCannotOverflow(pre: Store, derive: Deriver, user: Pubkey,
                                     userTokenAccount: Pubkey, userRewardAccount: Pubkey,
                                     amount: u64, now: i64)
    requires Inv(pre) && Wired(pre, derive) && Solvent(pre) && user != StateAddress(derive)
    requires StakeAccountsOk(pre, user, userTokenAccount, userRewardAccount)
    requires StakeReward(pre, user, now).Ok?
    requires PayReward(pre.tokens, pre.global.value.rewardVault, userRewardAccount, StakeReward(pre, user, now).value).Ok?
    requires Token.Transfer(PayReward(pre.tokens, pre.global.value.rewardVault, userRewardAccount,
                                      StakeReward(pre, user, now).value).value,
                            userTokenAccount, pre.global.value.stakingVault, amount).Ok?
    ensures PositionOf(pre.stakes, user).amount + amount < U64_LIMIT
    ensures pre.global.value.totalStaked + amount < U64_LIMIT
  {
    var g, reward := pre.global.value, StakeReward(pre, user, now).value;
    var paid := PayReward(pre.tokens, g.rewardVault, userRewardAccount, reward).value;
    assert userRewardAccount != g.stakingVault && userTokenAccount != g.stakingVault;
    PayRewardBalanceAt(pre.tokens, g.rewardVault, userRewardAccount, reward, g.stakingVault);
    assert paid[g.stakingVault].amount + amount < U64_LIMIT;
    if user in pre.stakes {
      PositionAtMostTotalStaked(pre, user);
    }
  }

  /**
   * A missing token account fails the load with `AccountNotInitialized`
   * whatever the other accounts hold: no constraint runs before every
   * account has loaded.
   */
  lemma MissingAccountFailsFirst(pre: Store, derive: Deriver, user: Pubkey,
                                 userTokenAccount: Pubkey, userRewardAccount: Pubkey,
                                 amount: u64, now: i64, r: Result<Store>)
    requires StakeOutcome(pre, derive, user, userTokenAccount, userRewardAccount, amount, now, r)
    requires pre.global.Some? && userRewardAccount !in pre.tokens
    ensures r == Err(AccountNotInitialized)
  {
  }

  /**
   * A first stake of more than the user's token balance fails with the
   * token program's `InsufficientFunds`, and so changes nothing.
   */
  lemma FirstStakeBeyondBalanceFails(pre: Store, derive: Deriver, user: Pubkey,
                                     userTokenAccount: Pubkey, userRewardAccount: Pubkey,
                                     amount: u64, now: i64, r: Result<Store>)
    requires Wired(pre, derive)
    requires StakeOutcome(pre, derive, user, userTokenAccount, userRewardAccount, amount, now, r)
    requires StakeAccountsOk(pre, user, userTokenAccount, userRewardAccount) && user !in pre.stakes
    requires 0 < amount && pre.tokens[userTokenAccount].amount < amount
    ensures r == Err(InsufficientFunds)
  {
    assert StakeReward(pre, user, now) == Ok(0);
  }

  /** After a successful stake at a positive time, the position accrues from that time on. */
  lemma StakeRestartsAccrual(pre: Store, derive: Deriver, user: Pubkey,
                             userTokenAccount: Pubkey, userRewardAccount: Pubkey,
                             amount: u64, now: i64, r: Result<Store>)
    requires StakeOutcome(pre, derive, user, userTokenAccount, userRewardAccount, amount, now, r)
    requires r.Ok? && now > 0
    ensures AccrualStart(r.value.stakes[user]) == now
    ensures PendingReward(r.value.stakes[user], now, pre.global.value.rewardRate) == Ok(0)
  {
    var p := r.value.stakes[user];
    CalculateRewardsZero(p.amount, now, now, pre.global.value.rewardRate);
  }

  /**
   * A first stake opens the position at `now` with no reward paid and no
   * reward debt.
   */
  lemma FirstStakeOpensPosition(pre: Store, derive: Deriver, user: Pubkey,
                                userTokenAccount: Pubkey, userRewardAccount: Pubkey,
                                amount: u64, now: i64, r: Result<Store>)
    requires StakeOutcome(pre, derive, user, userTokenAccount, userRewardAccount, amount, now, r)
    requires user !in pre.stakes && r.Ok?
    ensures r.value.stakes[user] == UserStakeInfo(user, amount, now, now, 0, BumpOf(derive, UserStake(user)))
    ensures r.value.tokens == Token.Transfer(pre.tokens, userTokenAccount, pre.global.value.stakingVault, amount).value
  {
    assert StakeReward(pre, user, now) == Ok(0);
  }
}
