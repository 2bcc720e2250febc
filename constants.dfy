/**
 * Seed names under which the program derives its accounts, and the seed
 * list of each kind of account. The derivation itself (a hash plus an
 * off-curve bump search) is not modelled: it is the parameter `Deriver`,
 * a pure function from seed lists to an address and a bump.
 */
module Constants {
  import opened Primitives

  type Seeds = seq<seq<u8>>

  /** Result of `find_program_address`: the derived address and its bump. */
  datatype Derived = Derived(address: Pubkey, bump: u8)

  type Deriver = Seeds -> Derived

  /** The seed literals, as the bytes of the ASCII strings `b"..."`. */
  const STATE_SEED: seq<u8> := [115, 116, 97, 116, 101]                                            // b"state"
  const STAKE_SEED: seq<u8> := [115, 116, 97, 107, 101]                                            // b"stake"
  const STAKING_VAULT_SEED: seq<u8> := [115, 116, 97, 107, 105, 110, 103, 95, 118, 97, 117, 108, 116] // b"staking_vault"
  const REWARD_VAULT_SEED: seq<u8> := [114, 101, 119, 97, 114, 100, 95, 118, 97, 117, 108, 116]       // b"reward_vault"
  const BLACKLIST_SEED: seq<u8> := [98, 108, 97, 99, 107, 108, 105, 115, 116]                      // b"blacklist"

  /** The accounts the program derives. */
  datatype AccountKind =
    | StateAccount
    | StakingVault
    | RewardVault
    | UserStake(user: Pubkey)
    | BlacklistRecord(address: Pubkey)

  /**
   * The seeds each account is derived from; the vaults are salted with the
   * address of the state account.
   */
  function SeedsOf(k: AccountKind, stateAddress: Pubkey): Seeds {
    match k
    case StateAccount => [STATE_SEED]
    case StakingVault => [STAKING_VAULT_SEED, stateAddress]
    case RewardVault => [REWARD_VAULT_SEED, stateAddress]
    case UserStake(user) => [STAKE_SEED, user]
    case BlacklistRecord(address) => [BLACKLIST_SEED, address]
  }

  /**
   * No two accounts share a seed list, so an injective derivation gives
   * every record its own address: a stake record and a blacklist entry of
   * the same key never collide, nor do the records of two different users.
   */
  lemma {:induction false} SeedsOfInjective(k1: AccountKind, k2: AccountKind, stateAddress: Pubkey)
    requires SeedsOf(k1, stateAddress) == SeedsOf(k2, stateAddress)
    ensures k1 == k2
  {
    var s1, s2 := SeedsOf(k1, stateAddress), SeedsOf(k2, stateAddress);
    assert s1[0] == s2[0];
    assert s1[0][0] == s2[0][0];
    if k1.StakingVault? || k2.StakingVault? || k1.UserStake? || k2.UserStake? {
      // "staking_vault" and "stake" share their first letters.
      assert s1[0][4] == s2[0][4];
    }
  }
}
