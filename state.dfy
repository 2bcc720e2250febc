/**
 * The program's persistent records and the store that holds them.
 *
 * Anchor loads each account into a value, the handler edits that value,
 * and the runtime writes it back only if the whole instruction succeeds.
 * The records are therefore datatypes, and `ProgramAccounts` is the
 * durable storage whose fields the handlers reassign on success.
 */
module State {
  import opened Primitives
  import opened Constants
  import Token
  import opened Errors

  /** The singleton configuration and ledger total (`GlobalState`). */
  datatype GlobalState = GlobalState(
    admin: Pubkey,
    stakingMint: Pubkey,
    rewardMint: Pubkey,
    stakingVault: Pubkey,
    rewardVault: Pubkey,
    rewardRate: u64,      // basis points per day: 100 is 1%
    totalStaked: u64,
    bump: u8)

  /** One depositor's position (`UserStakeInfo`). */
  datatype UserStakeInfo = UserStakeInfo(
    owner: Pubkey,
    amount: u64,
    stakeTimestamp: i64,
    lastClaimTime: i64,
    rewardDebt: u64,
    bump: u8)

  /** A blacklist record; its existence is the denial. */
  datatype BlacklistEntry = BlacklistEntry(address: Pubkey, addedAt: i64, bump: u8)

  /** The zeroed record `init_if_needed` creates for a first stake. */
  const EMPTY_POSITION: UserStakeInfo := UserStakeInfo(ZERO_KEY, 0, 0, 0, 0, 0)

  /** The zeroed record `init_if_needed` creates for a new blacklist entry. */
  const EMPTY_ENTRY: BlacklistEntry := BlacklistEntry(ZERO_KEY, 0, 0)

  /** A snapshot of every account the instructions read or write. */
  datatype Store = Store(
    global: Option<GlobalState>,
    stakes: map<Pubkey, UserStakeInfo>,      // the record derived from [b"stake", user]
    blacklist: map<Pubkey, BlacklistEntry>,  // the record derived from [b"blacklist", address]
    tokens: Token.Ledger)

  /** The position of `user`, or what `init_if_needed` would create. */
  function PositionOf(stakes: map<Pubkey, UserStakeInfo>, user: Pubkey): UserStakeInfo {
    if user in stakes then stakes[user] else EMPTY_POSITION
  }

  /** The sum of `amount` over all positions. */
  ghost function TotalStaked(m: map<Pubkey, UserStakeInfo>): nat
    decreases |m|
  {
    if m == map[] then 0
    else
      var u := AnyUser(m);
      assert |m - {u}| == |m| - 1 by { assert (m - {u}).Keys == m.Keys - {u}; }
      m[u].amount + TotalStaked(m - {u})
  }

  ghost function AnyUser(m: map<Pubkey, UserStakeInfo>): (u: Pubkey)
    requires m != map[]
    ensures u in m
  {
    var u :| u in m; u
  }

  /** The sum does not depend on which position is taken out first. */
  lemma {:induction false} TotalStakedRemove(m: map<Pubkey, UserStakeInfo>, u: Pubkey)
    requires u in m
    ensures TotalStaked(m) == m[u].amount + TotalStaked(m - {u})
    decreases |m|
  {
    var v := AnyUser(m);
    if v != u {
      assert |m - {v}| == |m| - 1 by { assert (m - {v}).Keys == m.Keys - {v}; }
      assert |m - {u}| == |m| - 1 by { assert (m - {u}).Keys == m.Keys - {u}; }
      TotalStakedRemove(m - {v}, u);
      TotalStakedRemove(m - {u}, v);
      assert (m - {v}) - {u} == (m - {u}) - {v};
    }
  }

  /** Writing one position changes the sum by exactly the change in its amount. */
  lemma TotalStakedUpdate(m: map<Pubkey, UserStakeInfo>, u: Pubkey, p: UserStakeInfo)
    ensures TotalStaked(m[u := p]) == TotalStaked(m) - PositionOf(m, u).amount + p.amount
  {
    TotalStakedRemove(m[u := p], u);
    assert m[u := p] - {u} == m - {u};
    if u in m {
      TotalStakedRemove(m, u);
    } else {
      assert m - {u} == m;
    }
  }

  /** No position holds more than the sum of all positions. */
  lemma PositionAtMostTotal(m: map<Pubkey, UserStakeInfo>, u: Pubkey)
    requires u in m
    ensures m[u].amount <= TotalStaked(m)
  {
    TotalStakedRemove(m, u);
  }

  /**
   * What every instruction preserves: `total_staked` is the sum of all
   * positions, the reward rate stays in its validated range, and each
   * record sits under the key its address was derived from.
   */
  ghost predicate Inv(s: Store) {
    && (s.global.None? ==> s.stakes == map[] && s.blacklist == map[])
    && (s.global.Some? ==>
          && s.global.value.totalStaked == TotalStaked(s.stakes)
          && 0 < s.global.value.rewardRate <= 1000)
    && (forall u | u in s.stakes :: s.stakes[u].owner == u)
    && (forall a | a in s.blacklist :: s.blacklist[a].address == a && a != ZERO_KEY)
  }

  /** Under the invariant no single position exceeds `total_staked`. */
  lemma PositionAtMostTotalStaked(s: Store, u: Pubkey)
    requires Inv(s) && s.global.Some? && u in s.stakes
    ensures s.stakes[u].amount <= s.global.value.totalStaked
  {
    PositionAtMostTotal(s.stakes, u);
  }

  /** The blacklist record of `address`, or what `init_if_needed` would create. */
  function EntryOf(blacklist: map<Pubkey, BlacklistEntry>, address: Pubkey): BlacklistEntry {
    if address in blacklist then blacklist[address] else EMPTY_ENTRY
  }

  /** The address of the state account, derived from `[b"state"]`. */
  function StateAddress(derive: Deriver): Pubkey {
    derive(SeedsOf(StateAccount, ZERO_KEY)).address
  }

  /** The derived address of one of the program's accounts. */
  function AddressOf(derive: Deriver, k: AccountKind): Pubkey {
    derive(SeedsOf(k, StateAddress(derive))).address
  }

  /** The bump `ctx.bumps` reports for one of the program's accounts. */
  function BumpOf(derive: Deriver, k: AccountKind): u8 {
    derive(SeedsOf(k, StateAddress(derive))).bump
  }

  /**
   * Once initialised, the recorded vaults are the two distinct token
   * accounts at their derived addresses, holding the recorded mints, with
   * the state account as their authority.
   */
  ghost predicate Wired(s: Store, derive: Deriver) {
    s.global.Some? ==>
      var g := s.global.value;
      && g.stakingVault == AddressOf(derive, StakingVault)
      && g.rewardVault == AddressOf(derive, RewardVault)
      && g.stakingVault != g.rewardVault
      && IsTokenAccountOf(s.tokens, g.stakingVault, g.stakingMint, StateAddress(derive))
      && IsTokenAccountOf(s.tokens, g.rewardVault, g.rewardMint, StateAddress(derive))
  }

  /** The staking vault holds at least every staked token. */
  ghost predicate Solvent(s: Store) {
    s.global.Some? ==> Token.Balance(s.tokens, s.global.value.stakingVault) >= s.global.value.totalStaked
  }

  predicate IsTokenAccountOf(t: Token.Ledger, a: Pubkey, mint: Pubkey, authority: Pubkey) {
    a in t && t[a].mint == mint && t[a].owner == authority
  }

  /** `token::mint = mint, token::authority = authority` on a loaded account: the mint is checked first. */
  function TokenConstraint(t: Token.Ledger, a: Pubkey, mint: Pubkey, authority: Pubkey): Result<()>
    requires a in t
  {
    if t[a].mint != mint then Err(ConstraintTokenMint)
    else if t[a].owner != authority then Err(ConstraintTokenOwner)
    else Ok(())
  }

  /**
   * Durable account storage. `derive` stands for the runtime's address
   * derivation, fixed for the lifetime of the program.
   */
  class ProgramAccounts {
    const derive: Deriver
    var global: Option<GlobalState>
    var stakes: map<Pubkey, UserStakeInfo>
    var blacklist: map<Pubkey, BlacklistEntry>
    var tokens: Token.Ledger

    /** The accounts as the runtime loads them for an instruction. */
    function Snap(): Store
      reads this
    {
      Store(global, stakes, blacklist, tokens)
    }

    ghost predicate Valid()
      reads this
    {
      Inv(Snap()) && Wired(Snap(), derive)
    }

    /** Before `initialize`: no program records, only pre-existing token accounts. */
    constructor (derive: Deriver, tokens: Token.Ledger)
      ensures Valid()
      ensures this.derive == derive
      ensures Snap() == Store(None, map[], map[], tokens)
    {
      this.derive := derive;
      this.global := None;
      this.stakes := map[];
      this.blacklist := map[];
      this.tokens := tokens;
    }

    /** The runtime writes back every account of an instruction that succeeded. */
    method Commit(s: Store)
      requires Inv(s) && Wired(s, derive)
      modifies this
      ensures Valid() && Snap() == s
    {
      global, stakes, blacklist, tokens := s.global, s.stakes, s.blacklist, s.tokens;
    }
  }
}
