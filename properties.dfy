/** Properties of the liquidity/amount conversions of zuniV3Math.py that relate
    several calls: order of the bounds, round trips, monotonicity and truncation. */
module LiquidityProperties {
  import Whitepaper
  import opened ZuniV3Math

  /** Every conversion first sorts its two bounds, so swapping them changes nothing,
      not even whether it fails. */
  lemma BoundOrderIrrelevant(v: real, pa: int, pb: int)
    ensures CalculateLiquidity0(v, pa, pb) == CalculateLiquidity0(v, pb, pa)
    ensures CalculateLiquidity1(v, pa, pb) == CalculateLiquidity1(v, pb, pa)
    ensures CalculateX(v, pa, pb) == CalculateX(v, pb, pa)
    ensures CalculateY(v, pa, pb) == CalculateY(v, pb, pa)
  {
  }

  /** In exact arithmetic, the liquidity that an amount of token0 provides holds
      exactly that amount. */
  lemma Token0ExactRoundTrip(amount: real, pa: int, pb: int)
    requires pa != 0 && pb != 0 && pa != pb
    ensures CalculateLiquidity0(amount, pa, pb).Ok?
    ensures AmountXExact(CalculateLiquidity0(amount, pa, pb).value, pa, pb) == amount
  {
    var (lo, hi) := Ascending(pa, pb);
    Whitepaper.AmountXOfLiquidityX(amount, SqrtPrice(lo), SqrtPrice(hi));
  }

  /** Token0 round trip: the liquidity that an amount of token0 provides holds that
      amount again, up to the truncation of `calculate_x`. */
  lemma Token0RoundTrip(amount: real, pa: int, pb: int)
    requires pa != 0 && pb != 0 && pa != pb
    ensures CalculateLiquidity0(amount, pa, pb).Ok?
    ensures CalculateX(CalculateLiquidity0(amount, pa, pb).value, pa, pb) == Ok(Trunc(amount))
  {
    Token0ExactRoundTrip(amount, pa, pb);
  }

  /** For a whole number of token0 the round trip is exact. */
  lemma Token0RoundTripInteger(amount: int, pa: int, pb: int)
    requires pa != 0 && pb != 0 && pa != pb
    ensures CalculateX(CalculateLiquidity0(amount as real, pa, pb).value, pa, pb) == Ok(amount)
  {
    Token0RoundTrip(amount as real, pa, pb);
  }

  /** In exact arithmetic, the liquidity that an amount of token1 provides holds
      exactly that amount. */
  lemma Token1ExactRoundTrip(amount: real, pa: int, pb: int)
    requires pa != pb
    ensures CalculateLiquidity1(amount, pa, pb).Ok?
    ensures AmountYExact(CalculateLiquidity1(amount, pa, pb).value, pa, pb) == amount
  {
    var (lo, hi) := Ascending(pa, pb);
    Whitepaper.AmountYOfLiquidityY(amount, SqrtPrice(lo), SqrtPrice(hi));
  }

  /** Token1 round trip: the liquidity that an amount of token1 provides holds that
      amount again, up to the truncation of `calculate_y`. */
  lemma Token1RoundTrip(amount: real, pa: int, pb: int)
    requires pa != pb
    ensures CalculateLiquidity1(amount, pa, pb).Ok?
    ensures CalculateY(CalculateLiquidity1(amount, pa, pb).value, pa, pb) == Trunc(amount)
  {
    Token1ExactRoundTrip(amount, pa, pb);
  }

  /** For a whole number of token1 the round trip is exact. */
  lemma Token1RoundTripInteger(amount: int, pa: int, pb: int)
    requires pa != pb
    ensures CalculateY(CalculateLiquidity1(amount as real, pa, pb).value, pa, pb) == amount
  {
    Token1RoundTrip(amount as real, pa, pb);
  }

  /** The other direction of the token0 inverse pair: the liquidity that the exact
      amount of token0 of `l` provides is `l` again. */
  lemma Liquidity0OfAmountXExact(l: real, pa: int, pb: int)
    requires pa != 0 && pb != 0 && pa != pb
    ensures CalculateLiquidity0(AmountXExact(l, pa, pb), pa, pb) == Ok(l)
  {
    var (lo, hi) := Ascending(pa, pb);
    SqrtPriceStrictlyIncreasing(lo, hi);
    Whitepaper.LiquidityXOfAmountX(l, SqrtPrice(lo), SqrtPrice(hi));
  }

  /** The other direction of the token1 inverse pair: the liquidity that the exact
      amount of token1 of `l` provides is `l` again. */
  lemma Liquidity1OfAmountYExact(l: real, pa: int, pb: int)
    requires pa != pb
    ensures CalculateLiquidity1(AmountYExact(l, pa, pb), pa, pb) == Ok(l)
  {
    var (lo, hi) := Ascending(pa, pb);
    SqrtPriceStrictlyIncreasing(lo, hi);
    Whitepaper.LiquidityYOfAmountY(l, SqrtPrice(lo), SqrtPrice(hi));
  }

  /** Equal bounds hold nothing: `calculate_y` gives 0, and so does `calculate_x` when
      the common bound is non-zero (a zero bound makes it fail instead). */
  lemma EqualBoundsGiveZero(l: real, p: int)
    ensures CalculateY(l, p, p) == 0
    ensures p != 0 ==> CalculateX(l, p, p) == Ok(0)
  {
  }

  /** Over a range of non-negative prices, more token0 never gives less liquidity. */
  lemma Liquidity0Monotone(a1: real, a2: real, pa: int, pb: int)
    requires 0 <= pa && 0 <= pb && pa != pb && a1 <= a2
    ensures CalculateLiquidity0(a1, pa, pb).value <= CalculateLiquidity0(a2, pa, pb).value
  {
    var (lo, hi) := Ascending(pa, pb);
    Whitepaper.LiquidityXMonotone(a1, a2, SqrtPrice(lo), SqrtPrice(hi));
  }

  /** More token1 never gives less liquidity. */
  lemma Liquidity1Monotone(a1: real, a2: real, pa: int, pb: int)
    requires pa != pb && a1 <= a2
    ensures CalculateLiquidity1(a1, pa, pb).value <= CalculateLiquidity1(a2, pa, pb).value
  {
    var (lo, hi) := Ascending(pa, pb);
    Whitepaper.LiquidityYMonotone(a1, a2, SqrtPrice(lo), SqrtPrice(hi));
  }

  /** `calculate_x` returns the integer part of the exact amount of token0:
      r ≤ exact < r + 1, and r is not negative. */
  lemma CalculateXTruncation(liquidity: real, pa: int, pb: int)
    requires 0.0 <= liquidity && 0 < pa && 0 < pb
    ensures CalculateX(liquidity, pa, pb).Ok?
    ensures var r := CalculateX(liquidity, pa, pb).value;
      0 <= r && r as real <= AmountXExact(liquidity, pa, pb) < r as real + 1.0
  {
  }

  /** `calculate_y` returns the integer part of the exact amount of token1:
      r ≤ exact < r + 1, and r is not negative. */
  lemma CalculateYTruncation(liquidity: real, pa: int, pb: int)
    requires 0.0 <= liquidity
    ensures var r := CalculateY(liquidity, pa, pb);
      0 <= r && r as real <= AmountYExact(liquidity, pa, pb) < r as real + 1.0
  {
    var (lo, hi) := Ascending(pa, pb);
    Whitepaper.AmountYNonNegative(liquidity, SqrtPrice(lo), SqrtPrice(hi));
  }

  /** The exact amount of token0 does not decrease with liquidity. */
  lemma AmountXExactMonotone(l1: real, l2: real, pa: int, pb: int)
    requires 0 < pa && 0 < pb && l1 <= l2
    ensures AmountXExact(l1, pa, pb) <= AmountXExact(l2, pa, pb)
  {
    var (lo, hi) := Ascending(pa, pb);
    if l1 < l2 && lo < hi {
      Whitepaper.AmountXStrictlyIncreasing(l1, l2, SqrtPrice(lo), SqrtPrice(hi));
    }
  }

  /** Over a non-empty range of positive prices, more liquidity holds strictly more
      token0 in exact arithmetic. */
  lemma AmountXExactStrictlyIncreasing(l1: real, l2: real, pa: int, pb: int)
    requires 0 < pa && 0 < pb && pa != pb && l1 < l2
    ensures AmountXExact(l1, pa, pb) < AmountXExact(l2, pa, pb)
  {
    var (lo, hi) := Ascending(pa, pb);
    Whitepaper.AmountXStrictlyIncreasing(l1, l2, SqrtPrice(lo), SqrtPrice(hi));
  }

  /** Over a non-empty range, more liquidity holds strictly more token1 in exact
      arithmetic. */
  lemma AmountYExactStrictlyIncreasing(l1: real, l2: real, pa: int, pb: int)
    requires pa != pb && l1 < l2
    ensures AmountYExact(l1, pa, pb) < AmountYExact(l2, pa, pb)
  {
    var (lo, hi) := Ascending(pa, pb);
    Whitepaper.AmountYStrictlyIncreasing(l1, l2, SqrtPrice(lo), SqrtPrice(hi));
  }

  /** `calculate_x` does not decrease with liquidity, for fixed positive bounds. */
  lemma CalculateXMonotone(l1: real, l2: real, pa: int, pb: int)
    requires 0 < pa && 0 < pb && l1 <= l2
    ensures CalculateX(l1, pa, pb).value <= CalculateX(l2, pa, pb).value
  {
    AmountXExactMonotone(l1, l2, pa, pb);
    TruncMonotone(AmountXExact(l1, pa, pb), AmountXExact(l2, pa, pb));
  }

  /** `calculate_y` does not decrease with liquidity, for any fixed bounds. */
  lemma CalculateYMonotone(l1: real, l2: real, pa: int, pb: int)
    requires l1 <= l2
    ensures CalculateY(l1, pa, pb) <= CalculateY(l2, pa, pb)
  {
    var (lo, hi) := Ascending(pa, pb);
    var sa, sb := SqrtPrice(lo), SqrtPrice(hi);
    if l1 < l2 && lo < hi {
      Whitepaper.AmountYStrictlyIncreasing(l1, l2, sa, sb);
    }
    TruncMonotone(AmountYExact(l1, pa, pb), AmountYExact(l2, pa, pb));
  }
}
