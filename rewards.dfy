/**
 * The reward accrual engine: `calculate_rewards` and the rules around it
 * that stake, unstake and both claim variants share.
 */
module Rewards {
  import opened Primitives
  import opened Errors
  import opened State
  import Token

  const SECONDS_PER_DAY: int := 86400
  const BASIS_POINTS: int := 10000
  const REWARD_DENOMINATOR: int := 864_000_000  // SECONDS_PER_DAY * BASIS_POINTS

  /**
   * The reference definition: `amount` accrues `rate` basis points per day,
   * pro rata per second, rounded down.
   */
  function RewardFormula(amount: nat, rate: nat, duration: nat): nat {
    amount * rate * duration / REWARD_DENOMINATOR
  }

  /**
   * `(end_timestamp - start_timestamp) as u64`: the i64 difference
   * reinterpreted as an unsigned 64-bit value, so a negative difference
   * wraps to a duration close to 2^64 seconds.
   */
  function Duration(start: i64, end: i64): (d: u64)
    ensures start <= end ==> d == end - start
    ensures end < start ==> d == end - start + U64_LIMIT
  {
    (end - start) % U64_LIMIT
  }

  function CheckedMulU128(a: u128, b: u128): (r: Result<u128>) {
    if a * b < U128_LIMIT then Ok(a * b) else Err(Program(ArithmeticOverflow))
  }

  /** `u64::try_from(x)`, mapped to `ArithmeticOverflow`. */
  function TryIntoU64(x: u128): (r: Result<u64>) {
    if x < U64_LIMIT then Ok(x) else Err(Program(ArithmeticOverflow))
  }

  /** `calculate_rewards(amount, start_timestamp, end_timestamp, reward_rate)`. */
  function CalculateRewards(amount: u64, start: i64, end: i64, rate: u64): (r: Result<u64>)
    ensures r.Err? ==> r.error == Program(ArithmeticOverflow)
  {
    var duration := Duration(start, end);
    var amountRate :- CheckedMulU128(amount, rate);
    var numerator :- CheckedMulU128(amountRate, duration);
    // `checked_div` by the nonzero constant denominator cannot fail.
    var rewards := numerator / REWARD_DENOMINATOR;
    TryIntoU64(rewards)
  }

  lemma MulMonotone(a: nat, b: nat, c: nat)
    requires b <= c
    ensures a * b <= a * c
  {
    assert a * c == a * b + a * (c - b);
  }

  lemma DivMonotone(x: nat, y: nat, k: nat)
    requires 0 < k && x <= y
    ensures x / k <= y / k
  {
    var qx, qy := x / k, y / k;
    assert qx * k <= x && y < qy * k + k;
    if qx > qy {
      MulMonotone(k, qy + 1, qx);
      assert false;
    }
  }

  /** Rounding down twice never yields more than rounding down once. */
  lemma DivSuperadditive(x: nat, y: nat, k: nat)
    requires 0 < k
    ensures x / k + y / k <= (x + y) / k
  {
    var q := x / k + y / k;
    assert q * k == (x / k) * k + (y / k) * k;
    assert q * k <= x + y;
    if (x + y) / k < q {
      assert ((x + y) / k + 1) * k <= q * k by { MulMonotone(k, (x + y) / k + 1, q); }
    }
  }

  lemma ProductOfU64Fits(a: u64, b: u64)
    ensures a * b < U128_LIMIT
  {
    MulMonotone(a, b, U64_LIMIT - 1);
    MulMonotone(U64_LIMIT - 1, a, U64_LIMIT - 1);
  }

  /**
   * The exact result: `floor(amount * rate * d / 864_000_000)` with
   * `d = (end - start) mod 2^64`, failing with `ArithmeticOverflow` exactly
   * when the u128 numerator overflows or the quotient does not fit in u64.
   * The first u128 product `amount * rate` can never overflow.
   */
  lemma CalculateRewardsExact(amount: u64, start: i64, end: i64, rate: u64)
    ensures
      var n := amount * rate * Duration(start, end);
      CalculateRewards(amount, start, end, rate) ==
        if n >= U128_LIMIT || n / REWARD_DENOMINATOR >= U64_LIMIT
        then Err(Program(ArithmeticOverflow))
        else Ok(n / REWARD_DENOMINATOR)
  {
    ProductOfU64Fits(amount, rate);
    assert CheckedMulU128(amount, rate) == Ok(amount * rate);
  }

  /** Nothing accrues on an empty position or over zero seconds. */
  lemma CalculateRewardsZero(amount: u64, start: i64, end: i64, rate: u64)
    requires amount == 0 || start == end
    ensures CalculateRewards(amount, start, end, rate) == Ok(0)
  {
    CalculateRewardsExact(amount, start, end, rate);
  }

  /** A smaller position never earns more, and never overflows where a larger one did not. */
  lemma CalculateRewardsMonotoneInAmount(a1: u64, a2: u64, start: i64, end: i64, rate: u64)
    requires a1 <= a2
    requires CalculateRewards(a2, start, end, rate).Ok?
    ensures CalculateRewards(a1, start, end, rate).Ok?
    ensures CalculateRewards(a1, start, end, rate).value <= CalculateRewards(a2, start, end, rate).value
  {
    var d := Duration(start, end);
    CalculateRewardsExact(a1, start, end, rate);
    CalculateRewardsExact(a2, start, end, rate);
    MulMonotone(rate, a1, a2);
    MulMonotone(d, a1 * rate, a2 * rate);
    DivMonotone(a1 * rate * d, a2 * rate * d, REWARD_DENOMINATOR);
  }

  /**
   * A longer wrapped duration never earns less, and never overflows where
   * the longer one did not.
   */
  lemma CalculateRewardsMonotoneInDuration(amount: u64, start: i64, e1: i64, e2: i64, rate: u64)
    requires Duration(start, e1) <= Duration(start, e2)
    requires CalculateRewards(amount, start, e2, rate).Ok?
    ensures CalculateRewards(amount, start, e1, rate).Ok?
    ensures CalculateRewards(amount, start, e1, rate).value <= CalculateRewards(amount, start, e2, rate).value
  {
    var d1, d2 := Duration(start, e1), Duration(start, e2);
    CalculateRewardsExact(amount, start, e1, rate);
    CalculateRewardsExact(amount, start, e2, rate);
    MulMonotone(amount * rate, d1, d2);
    DivMonotone(amount * rate * d1, amount * rate * d2, REWARD_DENOMINATOR);
  }

  /** In particular, while no wrap-around occurs, a later end time never earns less. */
  lemma CalculateRewardsMonotoneInEnd(amount: u64, start: i64, e1: i64, e2: i64, rate: u64)
    requires start <= e1 <= e2
    requires CalculateRewards(amount, start, e2, rate).Ok?
    ensures CalculateRewards(amount, start, e1, rate).Ok?
    ensures CalculateRewards(amount, start, e1, rate).value <= CalculateRewards(amount, start, e2, rate).value
  {
    CalculateRewardsMonotoneInDuration(amount, start, e1, e2, rate);
  }

  /** 100 tokens (9 decimals) at 500 basis points for five days earn exactly 25 tokens. */
  lemma FiveDayReward(start: i64)
    requires start + 432000 <= I64_MAX
    ensures CalculateRewards(100_000_000_000, start, start + 432000, 500) == Ok(25_000_000_000)
  {
    CalculateRewardsExact(100_000_000_000, start, start + 432000, 500);
  }

  /** The same stake for twelve hours earns exactly 2.5 tokens. */
  lemma TwelveHourReward(start: i64)
    requires start + 43200 <= I64_MAX
    ensures CalculateRewards(100_000_000_000, start, start + 43200, 500) == Ok(2_500_000_000)
  {
    CalculateRewardsExact(100_000_000_000, start, start + 43200, 500);
  }

  /**
   * Paying an interval in two parts never pays more than paying it at once:
   * each part rounds down separately.
   */
  lemma SplitIntervalNoGain(amount: u64, start: i64, mid: i64, end: i64, rate: u64)
    requires start <= mid <= end
    requires CalculateRewards(amount, start, mid, rate).Ok?
    requires CalculateRewards(amount, mid, end, rate).Ok?
    ensures CalculateRewards(amount, start, mid, rate).value + CalculateRewards(amount, mid, end, rate).value
            <= RewardFormula(amount, rate, end - start)
  {
    var ar := amount * rate;
    assert ar * (mid - start) + ar * (end - mid) == ar * (end - start);
    DivSuperadditive(ar * (mid - start), ar * (end - mid), REWARD_DENOMINATOR);
  }

  /**
   * Where a position accrues from: `last_claim_time` once it is positive,
   * otherwise `stake_timestamp`.
   */
  function AccrualStart(pos: UserStakeInfo): i64 {
    if pos.lastClaimTime > 0 then pos.lastClaimTime else pos.stakeTimestamp
  }

  /** The reward a position has pending at `now`; an empty position has none. */
  function PendingReward(pos: UserStakeInfo, now: i64, rate: u64): Result<u64> {
    if pos.amount > 0 then CalculateRewards(pos.amount, AccrualStart(pos), now, rate) else Ok(0)
  }

  /**
   * The pending reward in closed form: for a nonempty position it is the
   * formula over the wrapped time since the accrual start, or an overflow.
   */
  lemma PendingRewardExact(pos: UserStakeInfo, now: i64, rate: u64)
    ensures var r := PendingReward(pos, now, rate);
      && (pos.amount == 0 ==> r == Ok(0))
      && (r.Err? ==> r.error == Program(ArithmeticOverflow))
      && (r.Ok? ==> r.value == RewardFormula(pos.amount, rate, Duration(AccrualStart(pos), now)))
  {
    CalculateRewardsExact(pos.amount, AccrualStart(pos), now, rate);
  }

  /** `if rewards > 0 { token::transfer(reward_vault -> user, rewards)? }`. */
  function PayReward(t: Token.Ledger, vault: Pubkey, to: Pubkey, reward: u64): Result<Token.Ledger> {
    if reward > 0 then Token.Transfer(t, vault, to, reward) else Ok(t)
  }

  /** The balance of one account after a successful payout from `vault` to another account. */
  lemma PayRewardBalanceAt(t: Token.Ledger, vault: Pubkey, to: Pubkey, reward: u64, a: Pubkey)
    requires PayReward(t, vault, to, reward).Ok? && vault != to
    ensures Token.Balance(PayReward(t, vault, to, reward).value, a) ==
      if a == vault then Token.Balance(t, a) - reward
      else if a == to then Token.Balance(t, a) + reward
      else Token.Balance(t, a)
  {
    if reward > 0 {
      Token.TransferBalanceAt(t, vault, to, reward, a);
    }
  }

  /** `checked_add` on u64, mapped to `ArithmeticOverflow`. */
  function CheckedAdd(a: u64, b: u64): Result<u64> {
    if a + b < U64_LIMIT then Ok(a + b) else Err(Program(ArithmeticOverflow))
  }

  /** `checked_sub` on u64, mapped to `ArithmeticOverflow`. */
  function CheckedSub(a: u64, b: u64): Result<u64> {
    if b <= a then Ok(a - b) else Err(Program(ArithmeticOverflow))
  }

  // ----- Negative elapsed time -----

  /**
   * As written, one second of negative elapsed time wraps to 2^64 - 1
   * seconds: a 0.001-token position at 500 basis points is owed about
   * 10.7 billion tokens, while the same position at elapsed time zero is
   * owed nothing.
   */
  lemma NegativeElapsedWraps()
    ensures Duration(1000, 999) == U64_LIMIT - 1
    ensures CalculateRewards(1_000_000, 1000, 999, 500) == Ok(10_675_199_116_730_064_592)
    ensures CalculateRewards(1_000_000, 1000, 1000, 500) == Ok(0)
  {
    CalculateRewardsExact(1_000_000, 1000, 999, 500);
    CalculateRewardsExact(1_000_000, 1000, 1000, 500);
  }

  /** The intended accrual: nothing is owed unless time has moved forward. */
  function CalculateRewardsClamped(amount: u64, start: i64, end: i64, rate: u64): (r: Result<u64>)
    ensures end <= start ==> r == Ok(0)
    ensures r.Ok? ==> r.value == RewardFormula(amount, rate, if end <= start then 0 else end - start)
  {
    if end <= start then Ok(0) else CalculateRewards(amount, start, end, rate)
  }

  /** With the clamp, a reward never shrinks as the end time advances. */
  lemma ClampedMonotoneInEnd(amount: u64, start: i64, e1: i64, e2: i64, rate: u64)
    requires e1 <= e2
    requires CalculateRewardsClamped(amount, start, e2, rate).Ok?
    ensures CalculateRewardsClamped(amount, start, e1, rate).Ok?
    ensures CalculateRewardsClamped(amount, start, e1, rate).value <= CalculateRewardsClamped(amount, start, e2, rate).value
  {
    if start < e1 {
      CalculateRewardsMonotoneInEnd(amount, start, e1, e2, rate);
    }
  }
}
