/**
  The token policy arithmetic of a transfer: Python's `round(x, 4)` on
  fixed-point amounts, the burn taken from ordinary transfers, the
  anti-whale cap, and the staking reward.
 */
module Policy {
  import opened Wrappers
  import opened Types

  /**
    n / d rounded to the nearest integer, ties to the even neighbour: what
    Python's `round` does to an exact value. With amounts in units of 10^-4,
    `round(a * r, 4)` is RoundHalfEven of the exact product.
   */
  function RoundHalfEven(n: int, d: int): (r: int)
    requires d > 0
    ensures 2 * (r * d - n) <= d && 2 * (n - r * d) <= d
    ensures 2 * (r * d - n) == d || 2 * (n - r * d) == d ==> r % 2 == 0
  {
    var q, rem := n / d, n % d;
    assert n == q * d + rem;
    if 2 * rem < d then q
    else if 2 * rem > d then (assert (q + 1) * d == q * d + d; q + 1)
    else if q % 2 == 0 then q
    else (assert (q + 1) * d == q * d + d; q + 1)
  }

  /** `burned`: the coin's burn rate applies to ordinary transfers only. */
  function Burned(amount: int, coin: Coin, kind: TradeKind): int
    requires CoinOk(coin)
  {
    if kind == Transfer then RoundHalfEven(amount * coin.burnNum, coin.burnDen) else 0
  }

  /** A cap of NULL or 0 means no anti-whale limit (the test is on truthiness). */
  predicate CapActive(coin: Coin) {
    coin.maxHolding.Some? && coin.maxHolding.value != 0
  }

  /** The anti-whale rule: the recipient's amount after the credit would pass the cap. */
  predicate CapExceeded(coin: Coin, current: int, received: int) {
    CapActive(coin) && current + received > coin.maxHolding.value
  }

  /** STAKING_RATE, 2% per claim, as a fraction. */
  const StakingRateNum: nat := 2
  const StakingRateDen: nat := 100

  /** `round(staked * STAKING_RATE, 4)`. */
  function StakingReward(staked: int): int {
    RoundHalfEven(staked * StakingRateNum, StakingRateDen)
  }

  lemma MulStrict(a: int, b: int, d: int)
    requires a < b && d > 0
    ensures a * d < b * d
  {
  }

  /** Dividing both sides of `a * d <= b * d` by a positive `d`. */
  lemma MulCancel(a: int, b: int, d: int)
    requires d > 0 && a * d <= b * d
    ensures a <= b
  {
    if a > b {
      MulStrict(b, a, d);
    }
  }

  /** Multiplying both sides of `a <= b` by a positive `d`. */
  lemma MulMono(a: int, b: int, d: int)
    requires a <= b && d > 0
    ensures a * d <= b * d
  {
    if a < b {
      MulStrict(a, b, d);
    }
  }

  /** Rounding `n / d` for 0 <= n <= m * d / 2 lands in [0, m] when m >= 0. */
  lemma RoundHalfEvenWithin(n: int, d: int, m: int)
    requires d > 0 && m >= 0 && 0 <= 2 * n <= m * d
    ensures 0 <= RoundHalfEven(n, d) <= m
  {
    var r := RoundHalfEven(n, d);
    var x := r * d;
    assert 2 * (n - x) <= d && 2 * (x - n) <= d;
    if r < 0 {
      // Then x <= -d, so n - x >= d, against the rounding bound.
      MulMono(r, -1, d);
      assert false;
    }
    if r > m {
      // Then x >= (m + 1) * d = m * d + d, so 2 * (x - n) >= m * d + 2 * d > d.
      assert (m + 1) * d == m * d + d;
      MulMono(m + 1, r, d);
      assert false;
    }
  }

  /**
    The burn never exceeds the amount and is never negative, so the
    recipient's share `amount - burned` lies between 0 and `amount`.
   */
  lemma BurnedWithinAmount(amount: int, coin: Coin, kind: TradeKind)
    requires CoinOk(coin) && amount >= 0
    ensures 0 <= Burned(amount, coin, kind) <= amount
  {
    if kind == Transfer {
      var num, den := coin.burnNum, coin.burnDen;
      assert 2 * (amount * num) == amount * (2 * num);
      assert amount * (2 * num) <= amount * den;
      RoundHalfEvenWithin(amount * num, den, amount);
    }
  }

  /** Non-transfer trades (airdrops, rewards, welcome bonuses) burn nothing. */
  lemma NoBurnOutsideTransfers(amount: int, coin: Coin, kind: TradeKind)
    requires CoinOk(coin) && kind != Transfer
    ensures Burned(amount, coin, kind) == 0 && amount - Burned(amount, coin, kind) == amount
  {
  }

  /** The worked example: a 10% burn on 100.0000 burns 10.0000 and delivers 90.0000. */
  lemma TenPercentBurnExample(coin: Coin)
    requires coin.burnNum == 1 && coin.burnDen == 10
    ensures Burned(1000000, coin, Transfer) == 100000
    ensures 1000000 - Burned(1000000, coin, Transfer) == 900000
  {
  }

  /** A stake of 0.0025 or less earns a reward that rounds to zero. */
  lemma TinyStakeEarnsNothing(staked: int)
    requires 0 < staked <= 25
    ensures StakingReward(staked) == 0
  {
  }

  /** The reward is never negative and never more than the stake. */
  lemma StakingRewardBounds(staked: int)
    requires staked >= 0
    ensures 0 <= StakingReward(staked) <= staked
  {
    var r := StakingReward(staked);
    assert 2 * (r * 100 - staked * 2) <= 100;
    assert 2 * (staked * 2 - r * 100) <= 100;
  }
}
