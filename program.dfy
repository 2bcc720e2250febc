/**
 * The program's entry points: six instructions, each forwarded to one
 * handler, and the runtime that commits a success and discards a failure.
 */
module Program {
  import opened Primitives
  import opened Errors
  import opened Constants
  import opened State
  import InitializeIx
  import StakeIx
  import UnstakeIx
  import ClaimRewardsIx
  import AddToBlacklistIx
  import RemoveFromBlacklistIx

  /** One instruction with its signer, the accounts it names and its payload. */
  datatype Instruction =
    | Initialize(admin: Pubkey, stakingMint: Pubkey, rewardMint: Pubkey, rewardRate: u64)
    | Stake(user: Pubkey, userTokenAccount: Pubkey, userRewardAccount: Pubkey, amount: u64)
    | Unstake(user: Pubkey, userTokenAccount: Pubkey, userRewardAccount: Pubkey, amount: u64)
    | ClaimRewards(user: Pubkey, userRewardAccount: Pubkey)
    | AddToBlacklist(admin: Pubkey, address: Pubkey)
    | RemoveFromBlacklist(admin: Pubkey, address: Pubkey)

  /** The account that signs the instruction. */
  function Signer(ix: Instruction): Pubkey {
    match ix
    case Initialize(admin, _, _, _) => admin
    case Stake(user, _, _, _) => user
    case Unstake(user, _, _, _) => user
    case ClaimRewards(user, _) => user
    case AddToBlacklist(admin, _) => admin
    case RemoveFromBlacklist(admin, _) => admin
  }

  /** What the handler of `ix` returns. */
  ghost predicate StepOutcome(pre: Store, derive: Deriver, ix: Instruction, now: i64, r: Result<Store>) {
    match ix
    case Initialize(admin, stakingMint, rewardMint, rewardRate) =>
      InitializeIx.InitializeOutcome(pre, derive, admin, stakingMint, rewardMint, rewardRate, r)
    case Stake(user, userTokenAccount, userRewardAccount, amount) =>
      StakeIx.StakeOutcome(pre, derive, user, userTokenAccount, userRewardAccount, amount, now, r)
    case Unstake(user, userTokenAccount, userRewardAccount, amount) =>
      UnstakeIx.UnstakeOutcome(pre, user, userTokenAccount, userRewardAccount, amount, now, r)
    case ClaimRewards(user, userRewardAccount) =>
      ClaimRewardsIx.ClaimRewardsOutcome(pre, user, userRewardAccount, now, r)
    case AddToBlacklist(admin, address) =>
      AddToBlacklistIx.AddToBlacklistOutcome(pre, derive, admin, address, now, r)
    case RemoveFromBlacklist(admin, address) =>
      RemoveFromBlacklistIx.RemoveFromBlacklistOutcome(pre, admin, address, r)
  }

  /** The store after `ix`: the returned store on success, the old one on failure. */
  function Committed(pre: Store, r: Result<Store>): Store {
    if r.Ok? then r.value else pre
  }

  /** The `#[program]` dispatcher: each entry point calls its handler with its payload unchanged. */
  method Execute(s: Store, derive: Deriver, ix: Instruction, now: i64) returns (r: Result<Store>)
    ensures StepOutcome(s, derive, ix, now, r)
  {
    match ix
    case Initialize(admin, stakingMint, rewardMint, rewardRate) =>
      r := InitializeIx.Initialize(s, derive, admin, stakingMint, rewardMint, rewardRate);
    case Stake(user, userTokenAccount, userRewardAccount, amount) =>
      r := StakeIx.Stake(s, derive, user, userTokenAccount, userRewardAccount, amount, now);
    case Unstake(user, userTokenAccount, userRewardAccount, amount) =>
      r := UnstakeIx.Unstake(s, user, userTokenAccount, userRewardAccount, amount, now);
    case ClaimRewards(user, userRewardAccount) =>
      r := ClaimRewardsIx.ClaimRewards(s, user, userRewardAccount, now);
    case AddToBlacklist(admin, address) =>
      r := AddToBlacklistIx.AddToBlacklist(s, derive, admin, address, now);
    case RemoveFromBlacklist(admin, address) =>
      r := RemoveFromBlacklistIx.RemoveFromBlacklist(s, admin, address);
  }

  /** Every instruction keeps the invariants, so a commit always lands on a consistent store. */
  lemma StepPreservesInv(pre: Store, derive: Deriver, ix: Instruction, now: i64, r: Result<Store>)
    requires Inv(pre) && Wired(pre, derive)
    requires StepOutcome(pre, derive, ix, now, r)
    ensures Inv(Committed(pre, r)) && Wired(Committed(pre, r), derive)
  {
    if r.Ok? {
      match ix
      case Initialize(admin, stakingMint, rewardMint, rewardRate) =>
        InitializeIx.InitializePreservesInv(pre, derive, admin, stakingMint, rewardMint, rewardRate, r);
      case Stake(user, userTokenAccount, userRewardAccount, amount) =>
        StakeIx.StakePreservesInv(pre, derive, user, userTokenAccount, userRewardAccount, amount, now, r);
      case Unstake(user, userTokenAccount, userRewardAccount, amount) =>
        UnstakeIx.UnstakePreservesInv(pre, derive, user, userTokenAccount, userRewardAccount, amount, now, r);
      case ClaimRewards(user, userRewardAccount) =>
        ClaimRewardsIx.ClaimRewardsPreservesInv(pre, derive, user, userRewardAccount, now, r);
      case AddToBlacklist(admin, address) =>
        AddToBlacklistIx.AddToBlacklistPreservesInv(pre, derive, admin, address, now, r);
      case RemoveFromBlacklist(admin, address) =>
        RemoveFromBlacklistIx.RemoveFromBlacklistPreservesInv(pre, derive, admin, address, r);
    }
  }

  /** The staking vault always covers `total_staked`, whatever is dispatched. */
  lemma StepPreservesSolvency(pre: Store, derive: Deriver, ix: Instruction, now: i64, r: Result<Store>)
    requires Inv(pre) && Wired(pre, derive) && Solvent(pre)
    requires Signer(ix) != StateAddress(derive)
    requires StepOutcome(pre, derive, ix, now, r)
    ensures Solvent(Committed(pre, r))
  {
    if r.Ok? {
      match ix
      case Initialize(admin, stakingMint, rewardMint, rewardRate) =>
        InitializeIx.InitializePreservesInv(pre, derive, admin, stakingMint, rewardMint, rewardRate, r);
      case Stake(user, userTokenAccount, userRewardAccount, amount) =>
        StakeIx.StakePreservesSolvency(pre, derive, user, userTokenAccount, userRewardAccount, amount, now, r);
      case Unstake(user, userTokenAccount, userRewardAccount, amount) =>
        UnstakeIx.UnstakePreservesSolvency(pre, derive, user, userTokenAccount, userRewardAccount, amount, now, r);
      case ClaimRewards(user, userRewardAccount) =>
        ClaimRewardsIx.ClaimRewardsPreservesSolvency(pre, derive, user, userRewardAccount, now, r);
      case AddToBlacklist(admin, address) =>
        AddToBlacklistIx.AddToBlacklistPreservesInv(pre, derive, admin, address, now, r);
      case RemoveFromBlacklist(admin, address) =>
        RemoveFromBlacklistIx.RemoveFromBlacklistPreservesInv(pre, derive, admin, address, r);
    }
  }

  /** One transaction against the durable accounts: run the instruction, then commit it or drop it. */
  method Step(p: ProgramAccounts, ix: Instruction, now: i64) returns (r: Result<Store>)
    requires p.Valid()
    modifies p
    ensures p.Valid()
    ensures StepOutcome(old(p.Snap()), p.derive, ix, now, r)
    ensures p.Snap() == Committed(old(p.Snap()), r)
  {
    r := Execute(p.Snap(), p.derive, ix, now);
    StepPreservesInv(p.Snap(), p.derive, ix, now, r);
    if r.Ok? {
      p.Commit(r.value);
    }
  }

  /**
   * A run: `states[i + 1]` is what the runtime keeps after dispatching
   * `ixs[i]` at time `times[i]` to `states[i]`, with handler result `results[i]`.
   */
  ghost predicate Run(derive: Deriver, states: seq<Store>, ixs: seq<Instruction>, times: seq<i64>,
                      results: seq<Result<Store>>)
  {
    && |states| == |ixs| + 1 && |times| == |ixs| && |results| == |ixs|
    && forall i | 0 <= i < |ixs| ::
         && StepOutcome(states[i], derive, ixs[i], times[i], results[i])
         && states[i + 1] == Committed(states[i], results[i])
  }

  /**
   * Over any run from a consistent store, every intermediate store keeps
   * the invariants; in particular `total_staked` is always the sum of the
   * positions.
   */
  lemma {:induction false} RunPreservesInv(derive: Deriver, states: seq<Store>, ixs: seq<Instruction>,
                                           times: seq<i64>, results: seq<Result<Store>>, k: nat)
    requires Run(derive, states, ixs, times, results)
    requires Inv(states[0]) && Wired(states[0], derive)
    requires k < |states|
    ensures Inv(states[k]) && Wired(states[k], derive)
    ensures states[k].global.Some? ==> states[k].global.value.totalStaked == TotalStaked(states[k].stakes)
  {
    if k > 0 {
      RunPreservesInv(derive, states, ixs, times, results, k - 1);
      StepPreservesInv(states[k - 1], derive, ixs[k - 1], times[k - 1], results[k - 1]);
    }
  }

  /** Solvency holds along a run as long as no instruction is signed by the state address. */
  lemma {:induction false} RunPreservesSolvency(derive: Deriver, states: seq<Store>, ixs: seq<Instruction>,
                                                times: seq<i64>, results: seq<Result<Store>>, k: nat)
    requires Run(derive, states, ixs, times, results)
    requires Inv(states[0]) && Wired(states[0], derive) && Solvent(states[0])
    requires forall i | 0 <= i < |ixs| :: Signer(ixs[i]) != StateAddress(derive)
    requires k < |states|
    ensures Solvent(states[k])
  {
    if k > 0 {
      RunPreservesSolvency(derive, states, ixs, times, results, k - 1);
      RunPreservesInv(derive, states, ixs, times, results, k - 1);
      StepPreservesSolvency(states[k - 1], derive, ixs[k - 1], times[k - 1], results[k - 1]);
    }
  }

  // ---------------------------------------------------------------------
  // The blacklist gate. The handlers never read a blacklist record, but the
  // expected behaviour is that a blacklisted signer cannot stake, unstake or
  // claim. The gate below is that expectation, kept apart from the handlers.
  // ---------------------------------------------------------------------

  /** `ix` moves value for a signer that has a blacklist record. */
  predicate Blocked(s: Store, ix: Instruction) {
    (ix.Stake? || ix.Unstake? || ix.ClaimRewards?) && ix.user in s.blacklist
  }

  /** The expected behaviour: blocked instructions fail with `AddressBlacklisted`, others run as dispatched. */
  ghost predicate GatedOutcome(pre: Store, derive: Deriver, ix: Instruction, now: i64, r: Result<Store>) {
    if Blocked(pre, ix) then r == Err(Program(AddressBlacklisted)) else StepOutcome(pre, derive, ix, now, r)
  }

  /** The dispatcher behind the blacklist gate. */
  method GatedExecute(s: Store, derive: Deriver, ix: Instruction, now: i64) returns (r: Result<Store>)
    ensures GatedOutcome(s, derive, ix, now, r)
  {
    if Blocked(s, ix) {
      return Err(Program(AddressBlacklisted));
    }
    r := Execute(s, derive, ix, now);
  }

  /** Once an address is added, every value-moving instruction it signs is refused and changes nothing. */
  lemma AddedAddressIsBlocked(pre: Store, derive: Deriver, admin: Pubkey, address: Pubkey, now: i64,
                              r: Result<Store>, ix: Instruction, later: i64, r2: Result<Store>)
    requires AddToBlacklistIx.AddToBlacklistOutcome(pre, derive, admin, address, now, r) && r.Ok?
    requires (ix.Stake? || ix.Unstake? || ix.ClaimRewards?) && ix.user == address
    requires GatedOutcome(r.value, derive, ix, later, r2)
    ensures r2 == Err(Program(AddressBlacklisted))
    ensures Committed(r.value, r2) == r.value
  {
    assert address in r.value.blacklist;
  }

  /** After removal the gate is transparent again for that address. */
  lemma RemovalRestoresAccess(pre: Store, admin: Pubkey, address: Pubkey, r: Result<Store>,
                              derive: Deriver, ix: Instruction, later: i64, r2: Result<Store>)
    requires RemoveFromBlacklistIx.RemoveFromBlacklistOutcome(pre, admin, address, r) && r.Ok?
    requires Signer(ix) == address
    requires GatedOutcome(r.value, derive, ix, later, r2)
    ensures StepOutcome(r.value, derive, ix, later, r2)
  {
    assert address !in r.value.blacklist;
  }

  /** After removal the same admin can add the address again. */
  lemma ReAddAfterRemoval(pre: Store, derive: Deriver, admin: Pubkey, address: Pubkey, r: Result<Store>,
                          now: i64, r2: Result<Store>)
    requires Inv(pre)
    requires RemoveFromBlacklistIx.RemoveFromBlacklistOutcome(pre, admin, address, r) && r.Ok?
    requires AddToBlacklistIx.AddToBlacklistOutcome(r.value, derive, admin, address, now, r2)
    ensures r2.Ok? && r2.value.blacklist[address].addedAt == now
  {
    assert address !in r.value.blacklist;
    assert EntryOf(r.value.blacklist, address) == EMPTY_ENTRY;
  }
}
