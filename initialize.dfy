/**
 * `initialize`: creates the singleton state account and the two vaults it
 * is the authority of, and records the configuration.
 */
module InitializeIx {
  import opened Primitives
  import opened Errors
  import opened Constants
  import opened State
  import Token

  const MAX_REWARD_RATE: int := 1000

  /** `init` on an address fails when some account already lives there. */
  predicate VaultsFree(s: Store, derive: Deriver) {
    var sv, rv := AddressOf(derive, StakingVault), AddressOf(derive, RewardVault);
    && sv != StateAddress(derive) && sv !in s.tokens
    && rv != StateAddress(derive) && rv !in s.tokens && rv != sv
  }

  ghost predicate InitializeSucceeds(s: Store, derive: Deriver, rewardRate: u64) {
    && s.global.None?
    && VaultsFree(s, derive)
    && 0 < rewardRate <= MAX_REWARD_RATE
  }

  /** What `initialize` returns: an error, or the store the runtime commits. */
  ghost predicate InitializeOutcome(pre: Store, derive: Deriver, admin: Pubkey, stakingMint: Pubkey,
                                    rewardMint: Pubkey, rewardRate: u64, r: Result<Store>)
  {
    && (r.Ok? <==> InitializeSucceeds(pre, derive, rewardRate))
    // The state account can be created once only.
    && (pre.global.Some? ==> r == Err(AccountAlreadyInUse))
    && (pre.global.None? && !VaultsFree(pre, derive) ==> r == Err(AccountAlreadyInUse))
    && (pre.global.None? && VaultsFree(pre, derive) && (rewardRate == 0 || rewardRate > MAX_REWARD_RATE) ==>
          r == Err(Program(InvalidRewardRate)))
    && (r.Ok? ==>
          var sv, rv, st := AddressOf(derive, StakingVault), AddressOf(derive, RewardVault), StateAddress(derive);
          && r.value.global == Some(GlobalState(admin, stakingMint, rewardMint, sv, rv, rewardRate, 0,
                                                BumpOf(derive, StateAccount)))
          && r.value.stakes == pre.stakes
          && r.value.blacklist == pre.blacklist
          // Both vaults are new, empty, and owned by the state account.
          && r.value.tokens == pre.tokens[sv := Token.TokenAccount(stakingMint, st, 0)]
                                         [rv := Token.TokenAccount(rewardMint, st, 0)])
  }

  /** `initialize_handler` together with the `init` constraints of `Initialize`. */
  method Initialize(s: Store, derive: Deriver, admin: Pubkey, stakingMint: Pubkey, rewardMint: Pubkey,
                    rewardRate: u64) returns (r: Result<Store>)
    ensures InitializeOutcome(s, derive, admin, stakingMint, rewardMint, rewardRate, r)
  {
    var stateAddress := StateAddress(derive);
    if s.global.Some? {
      return Err(AccountAlreadyInUse);
    }
    var stakingVault := AddressOf(derive, StakingVault);
    if stakingVault == stateAddress || stakingVault in s.tokens {
      return Err(AccountAlreadyInUse);
    }
    var tokens := s.tokens[stakingVault := Token.TokenAccount(stakingMint, stateAddress, 0)];
    var rewardVault := AddressOf(derive, RewardVault);
    if rewardVault == stateAddress || rewardVault in tokens {
      return Err(AccountAlreadyInUse);
    }
    tokens := tokens[rewardVault := Token.TokenAccount(rewardMint, stateAddress, 0)];

    var ok :- Require(0 < rewardRate <= MAX_REWARD_RATE, InvalidRewardRate);
    var state := GlobalState(admin, stakingMint, rewardMint, stakingVault, rewardVault,
                             rewardRate, 0, BumpOf(derive, StateAccount));
    return Ok(s.(global := Some(state), tokens := tokens));
  }

  /**
   * `initialize` keeps the store consistent and starts it solvent: nothing
   * is staked and the new staking vault is empty.
   */
  lemma InitializePreservesInv(pre: Store, derive: Deriver, admin: Pubkey, stakingMint: Pubkey,
                               rewardMint: Pubkey, rewardRate: u64, r: Result<Store>)
    requires Inv(pre) && Wired(pre, derive)
    requires InitializeOutcome(pre, derive, admin, stakingMint, rewardMint, rewardRate, r)
    requires r.Ok?
    ensures Inv(r.value) && Wired(r.value, derive) && Solvent(r.value)
    ensures r.value.global.value.totalStaked == 0
  {
    var post := r.value;
    var sv, rv, st := AddressOf(derive, StakingVault), AddressOf(derive, RewardVault), StateAddress(derive);
    assert post.stakes == map[] && post.blacklist == map[];
    assert TotalStaked(post.stakes) == 0;
    assert Inv(post);
    assert post.tokens[sv].amount == 0 && post.tokens[rv].owner == st;
  }
}
