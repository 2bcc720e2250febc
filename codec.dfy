/**
 * The Borsh layout of the two records declared in `state.rs`: fields in
 * declaration order, keys as 32 raw bytes, integers little-endian, `i64`
 * in two's complement. The 8-byte account discriminator that precedes the
 * body is not part of this encoding.
 */
module Codec {
  import opened Primitives
  import opened State

  /** `GlobalState::INIT_SPACE`: five keys, two `u64`s and a `u8`. */
  const GLOBAL_STATE_SPACE: nat := 5 * 32 + 8 + 8 + 1

  /** `UserStakeInfo::INIT_SPACE`: one key, four 8-byte integers and a `u8`. */
  const USER_STAKE_SPACE: nat := 32 + 8 + 8 + 8 + 8 + 1

  function Pow256(n: nat): (p: nat)
    ensures p > 0
  {
    if n == 0 then 1 else 256 * Pow256(n - 1)
  }

  /** The lowest `n` bytes of `x`, least significant first. */
  function LeBytes(x: nat, n: nat): (b: seq<u8>)
    ensures |b| == n
  {
    if n == 0 then [] else [(x % 256) as u8] + LeBytes(x / 256, n - 1)
  }

  /** The number a little-endian byte string denotes. */
  function LeValue(b: seq<u8>): (v: nat)
    ensures v < Pow256(|b|)
  {
    if |b| == 0 then 0 else b[0] as nat + 256 * LeValue(b[1..])
  }

  lemma {:induction false} LeValueOfBytes(x: nat, n: nat)
    requires x < Pow256(n)
    ensures LeValue(LeBytes(x, n)) == x
  {
    if n > 0 {
      LeValueOfBytes(x / 256, n - 1);
      assert LeBytes(x, n)[1..] == LeBytes(x / 256, n - 1);
    }
  }

  lemma {:induction false} LeBytesOfValue(b: seq<u8>)
    ensures LeBytes(LeValue(b), |b|) == b
  {
    if |b| > 0 {
      LeBytesOfValue(b[1..]);
      var v := LeValue(b[1..]);
      assert (b[0] as nat + 256 * v) / 256 == v;
      assert [b[0]] + b[1..] == b;
    }
  }

  lemma Pow256Of8()
    ensures Pow256(8) == U64_LIMIT
  {
  }

  function EncodeU64(x: u64): (b: seq<u8>)
    ensures |b| == 8
  {
    LeBytes(x, 8)
  }

  function DecodeU64(b: seq<u8>): u64
    requires |b| == 8
  {
    Pow256Of8();
    LeValue(b)
  }

  /** Two's complement: negative values take the upper half of the unsigned range. */
  function EncodeI64(x: i64): (b: seq<u8>)
    ensures |b| == 8
  {
    LeBytes(if x < 0 then x + U64_LIMIT else x, 8)
  }

  function DecodeI64(b: seq<u8>): i64
    requires |b| == 8
  {
    Pow256Of8();
    var v := LeValue(b);
    if v > I64_MAX then v - U64_LIMIT else v
  }

  lemma U64RoundTrip(x: u64)
    ensures DecodeU64(EncodeU64(x)) == x
  {
    Pow256Of8();
    LeValueOfBytes(x, 8);
  }

  lemma I64RoundTrip(x: i64)
    ensures DecodeI64(EncodeI64(x)) == x
  {
    Pow256Of8();
    LeValueOfBytes(if x < 0 then x + U64_LIMIT else x, 8);
  }

  lemma U64Canonical(b: seq<u8>)
    requires |b| == 8
    ensures EncodeU64(DecodeU64(b)) == b
  {
    LeBytesOfValue(b);
  }

  lemma I64Canonical(b: seq<u8>)
    requires |b| == 8
    ensures EncodeI64(DecodeI64(b)) == b
  {
    Pow256Of8();
    LeBytesOfValue(b);
  }

  function EncodeGlobalState(g: GlobalState): (b: seq<u8>)
    ensures |b| == GLOBAL_STATE_SPACE
  {
    g.admin + g.stakingMint + g.rewardMint + g.stakingVault + g.rewardVault
      + EncodeU64(g.rewardRate) + EncodeU64(g.totalStaked) + [g.bump]
  }

  /** Reads a `GlobalState` from the front of `b`; bytes past the record are ignored. */
  function DecodeGlobalState(b: seq<u8>): (r: Option<GlobalState>)
    ensures r.None? <==> |b| < GLOBAL_STATE_SPACE
  {
    if |b| < GLOBAL_STATE_SPACE then None
    else Some(GlobalState(b[0..32], b[32..64], b[64..96], b[96..128], b[128..160],
                          DecodeU64(b[160..168]), DecodeU64(b[168..176]), b[176]))
  }

  /** Reading back a stored `GlobalState` yields exactly the values written. */
  lemma GlobalStateRoundTrip(g: GlobalState, rest: seq<u8>)
    ensures DecodeGlobalState(EncodeGlobalState(g) + rest) == Some(g)
  {
    var b := EncodeGlobalState(g) + rest;
    assert b[0..32] == g.admin;
    assert b[32..64] == g.stakingMint;
    assert b[64..96] == g.rewardMint;
    assert b[96..128] == g.stakingVault;
    assert b[128..160] == g.rewardVault;
    assert b[160..168] == EncodeU64(g.rewardRate);
    assert b[168..176] == EncodeU64(g.totalStaked);
    U64RoundTrip(g.rewardRate);
    U64RoundTrip(g.totalStaked);
  }

  /** Every decodable prefix is the encoding of what it decodes to. */
  lemma GlobalStateCanonical(b: seq<u8>)
    requires |b| >= GLOBAL_STATE_SPACE
    ensures EncodeGlobalState(DecodeGlobalState(b).value) == b[..GLOBAL_STATE_SPACE]
  {
    U64Canonical(b[160..168]);
    U64Canonical(b[168..176]);
    assert b[0..64] == b[0..32] + b[32..64];
    assert b[0..96] == b[0..64] + b[64..96];
    assert b[0..128] == b[0..96] + b[96..128];
    assert b[0..160] == b[0..128] + b[128..160];
    assert b[0..168] == b[0..160] + b[160..168];
    assert b[0..176] == b[0..168] + b[168..176];
    assert b[..GLOBAL_STATE_SPACE] == b[0..176] + [b[176]];
  }

  function EncodeUserStake(u: UserStakeInfo): (b: seq<u8>)
    ensures |b| == USER_STAKE_SPACE
  {
    u.owner + EncodeU64(u.amount) + EncodeI64(u.stakeTimestamp) + EncodeI64(u.lastClaimTime)
      + EncodeU64(u.rewardDebt) + [u.bump]
  }

  /** Reads a `UserStakeInfo` from the front of `b`; bytes past the record are ignored. */
  function DecodeUserStake(b: seq<u8>): (r: Option<UserStakeInfo>)
    ensures r.None? <==> |b| < USER_STAKE_SPACE
  {
    if |b| < USER_STAKE_SPACE then None
    else Some(UserStakeInfo(b[0..32], DecodeU64(b[32..40]), DecodeI64(b[40..48]), DecodeI64(b[48..56]),
                            DecodeU64(b[56..64]), b[64]))
  }

  /** Reading back a stored position yields exactly the values written, negative timestamps included. */
  lemma UserStakeRoundTrip(u: UserStakeInfo, rest: seq<u8>)
    ensures DecodeUserStake(EncodeUserStake(u) + rest) == Some(u)
  {
    var b := EncodeUserStake(u) + rest;
    assert b[0..32] == u.owner;
    assert b[32..40] == EncodeU64(u.amount);
    assert b[40..48] == EncodeI64(u.stakeTimestamp);
    assert b[48..56] == EncodeI64(u.lastClaimTime);
    assert b[56..64] == EncodeU64(u.rewardDebt);
    U64RoundTrip(u.amount);
    I64RoundTrip(u.stakeTimestamp);
    I64RoundTrip(u.lastClaimTime);
    U64RoundTrip(u.rewardDebt);
  }

  /** Every decodable prefix is the encoding of what it decodes to. */
  lemma UserStakeCanonical(b: seq<u8>)
    requires |b| >= USER_STAKE_SPACE
    ensures EncodeUserStake(DecodeUserStake(b).value) == b[..USER_STAKE_SPACE]
  {
    U64Canonical(b[32..40]);
    I64Canonical(b[40..48]);
    I64Canonical(b[48..56]);
    U64Canonical(b[56..64]);
    assert b[..USER_STAKE_SPACE] == b[0..32] + b[32..40] + b[40..48] + b[48..56] + b[56..64] + [b[64]];
  }
}
