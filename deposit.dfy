/** The deposit computed at the end of zuniV3Math.py: 1 ETH and 5000 USDC offered to a
    position around the current price. Each amount is turned into liquidity over its
    side of the range (token0 above the current price, token1 below it), the position
    takes the smaller of the two liquidities, truncated to an integer, and the amounts
    it actually draws are computed back from that liquidity. */
module DepositScript {
  import opened ZuniV3Math
  import LiquidityProperties

  /** 10^18, one whole token in its smallest unit. */
  const Eth: int := 1_000_000_000_000_000_000

  /** The token0 (ETH) offered: one ETH. */
  const AmountEth: int := 1 * Eth

  /** The token1 (USDC) offered: 5000 USDC, in 18-decimal units. */
  const AmountUsdc: int := 5000 * Eth

  /** The offered amounts are one ETH and 5000 USDC at 10^18 units per token. */
  lemma ScriptAmounts()
    ensures Eth == Pow(10, 18)
    ensures AmountEth == Pow(10, 18) && AmountUsdc == 5000 * Pow(10, 18)
  {
    assert Pow(10, 6) == 1_000_000;
    PowAdd(10, 6, 6);
    PowAdd(10, 12, 6);
  }

  /** The position's liquidity and the two amounts recomputed from it. */
  datatype Deposit = Deposit(liquidity: int, amount0: int, amount1: int)

  /** Python's `min` on two numbers. */
  function Min(x: real, y: real): (r: real)
    ensures r <= x && r <= y
    ensures r == x || r == y
  {
    if y < x then y else x
  }

  /** The deposit of `amountEth` of token0 and `amountUsdc` of token1 over the range
      [sqrtpLow, sqrtpUpper] around `sqrtpCurr`. It fails exactly when one of the four
      conversions divides by zero. */
  function ComputeDeposit(amountEth: real, amountUsdc: real,
                          sqrtpLow: int, sqrtpCurr: int, sqrtpUpper: int): (r: Result<Deposit>)
    ensures r.DivisionByZero? <==>
      sqrtpCurr == sqrtpUpper || sqrtpCurr == sqrtpLow || sqrtpCurr == 0 || sqrtpUpper == 0
  {
    var liq0 :- CalculateLiquidity0(amountEth, sqrtpCurr, sqrtpUpper);
    var liq1 :- CalculateLiquidity1(amountUsdc, sqrtpCurr, sqrtpLow);
    var liq := Trunc(Min(liq0, liq1));
    var amount0 :- CalculateX(liq as real, sqrtpUpper, sqrtpCurr);
    var amount1 := CalculateY(liq as real, sqrtpLow, sqrtpCurr);
    Ok(Deposit(liq, amount0, amount1))
  }

  /** The script's own deposit, for the three square-root prices it derives. */
  function ScriptDeposit(sqrtpLow: int, sqrtpCurr: int, sqrtpUpper: int): (r: Result<Deposit>)
    ensures r.DivisionByZero? <==>
      sqrtpCurr == sqrtpUpper || sqrtpCurr == sqrtpLow || sqrtpCurr == 0 || sqrtpUpper == 0
  {
    ComputeDeposit(AmountEth as real, AmountUsdc as real, sqrtpLow, sqrtpCurr, sqrtpUpper)
  }

  /** Whether liquidity `l` holds, in exact arithmetic, no more token0 over
      [sqrtpCurr, sqrtpUpper] than `amountEth` and no more token1 over
      [sqrtpLow, sqrtpCurr] than `amountUsdc`. */
  predicate Fits(l: real, amountEth: real, amountUsdc: real,
                 sqrtpLow: int, sqrtpCurr: int, sqrtpUpper: int)
    requires sqrtpCurr != 0 && sqrtpUpper != 0
  {
    && AmountXExact(l, sqrtpCurr, sqrtpUpper) <= amountEth
    && AmountYExact(l, sqrtpLow, sqrtpCurr) <= amountUsdc
  }

  /** The two liquidities of the min rule are non-negative, and their minimum, truncated,
      is no larger than either. */
  lemma MinRuleLiquidity(amountEth: real, amountUsdc: real,
                         sqrtpLow: int, sqrtpCurr: int, sqrtpUpper: int)
    requires 0.0 <= amountEth && 0.0 <= amountUsdc
    requires 0 < sqrtpLow && 0 < sqrtpCurr && 0 < sqrtpUpper
    requires sqrtpCurr != sqrtpLow && sqrtpCurr != sqrtpUpper
    ensures var r := ComputeDeposit(amountEth, amountUsdc, sqrtpLow, sqrtpCurr, sqrtpUpper);
      var liq0 := CalculateLiquidity0(amountEth, sqrtpCurr, sqrtpUpper).value;
      var liq1 := CalculateLiquidity1(amountUsdc, sqrtpCurr, sqrtpLow).value;
      && r.Ok?
      && 0.0 <= liq0 && 0.0 <= liq1
      && r.value.liquidity == Min(liq0, liq1).Floor
      && 0 <= r.value.liquidity
      && r.value.liquidity as real <= liq0
      && r.value.liquidity as real <= liq1
  {
  }

  /** The min rule never over-draws: the amounts recomputed from the position's
      liquidity are non-negative and no larger than the amounts offered. */
  lemma DepositNeverOverdraws(amountEth: real, amountUsdc: real,
                              sqrtpLow: int, sqrtpCurr: int, sqrtpUpper: int)
    requires 0.0 <= amountEth && 0.0 <= amountUsdc
    requires 0 < sqrtpLow && 0 < sqrtpCurr && 0 < sqrtpUpper
    requires sqrtpCurr != sqrtpLow && sqrtpCurr != sqrtpUpper
    ensures var r := ComputeDeposit(amountEth, amountUsdc, sqrtpLow, sqrtpCurr, sqrtpUpper);
      && r.Ok?
      && 0 <= r.value.amount0 && r.value.amount0 as real <= amountEth
      && 0 <= r.value.amount1 && r.value.amount1 as real <= amountUsdc
  {
    MinRuleLiquidity(amountEth, amountUsdc, sqrtpLow, sqrtpCurr, sqrtpUpper);
    var liq0 := CalculateLiquidity0(amountEth, sqrtpCurr, sqrtpUpper).value;
    var liq1 := CalculateLiquidity1(amountUsdc, sqrtpCurr, sqrtpLow).value;
    var liq := ComputeDeposit(amountEth, amountUsdc, sqrtpLow, sqrtpCurr, sqrtpUpper).value.liquidity;
    LiquidityProperties.BoundOrderIrrelevant(liq as real, sqrtpCurr, sqrtpUpper);
    LiquidityProperties.BoundOrderIrrelevant(liq as real, sqrtpCurr, sqrtpLow);
    LiquidityProperties.BoundOrderIrrelevant(liq1, sqrtpCurr, sqrtpLow);
    LiquidityProperties.CalculateXTruncation(liq as real, sqrtpCurr, sqrtpUpper);
    LiquidityProperties.CalculateYTruncation(liq as real, sqrtpCurr, sqrtpLow);
    LiquidityProperties.CalculateXMonotone(liq as real, liq0, sqrtpCurr, sqrtpUpper);
    LiquidityProperties.CalculateYMonotone(liq as real, liq1, sqrtpCurr, sqrtpLow);
    LiquidityProperties.Token0RoundTrip(amountEth, sqrtpCurr, sqrtpUpper);
    LiquidityProperties.Token1RoundTrip(amountUsdc, sqrtpCurr, sqrtpLow);
  }

  /** The position's liquidity is the largest whole liquidity that the offered amounts
      can pay for: in exact arithmetic, an integer liquidity fits within both amounts
      exactly when it is at most the position's. */
  lemma DepositIsLargestFit(amountEth: real, amountUsdc: real,
                            sqrtpLow: int, sqrtpCurr: int, sqrtpUpper: int, l: int)
    requires 0.0 <= amountEth && 0.0 <= amountUsdc
    requires 0 < sqrtpLow && 0 < sqrtpCurr && 0 < sqrtpUpper
    requires sqrtpCurr != sqrtpLow && sqrtpCurr != sqrtpUpper
    ensures var r := ComputeDeposit(amountEth, amountUsdc, sqrtpLow, sqrtpCurr, sqrtpUpper);
      r.Ok? &&
      (Fits(l as real, amountEth, amountUsdc, sqrtpLow, sqrtpCurr, sqrtpUpper) <==> l <= r.value.liquidity)
  {
    MinRuleLiquidity(amountEth, amountUsdc, sqrtpLow, sqrtpCurr, sqrtpUpper);
    var liq0 := CalculateLiquidity0(amountEth, sqrtpCurr, sqrtpUpper).value;
    var liq1 := CalculateLiquidity1(amountUsdc, sqrtpCurr, sqrtpLow).value;
    var liq := ComputeDeposit(amountEth, amountUsdc, sqrtpLow, sqrtpCurr, sqrtpUpper).value.liquidity;
    LiquidityProperties.Token0ExactRoundTrip(amountEth, sqrtpCurr, sqrtpUpper);
    LiquidityProperties.Token1ExactRoundTrip(amountUsdc, sqrtpCurr, sqrtpLow);
    LiquidityProperties.BoundOrderIrrelevant(liq1, sqrtpCurr, sqrtpLow);
    assert AmountYExact(liq1, sqrtpLow, sqrtpCurr) == amountUsdc;
    if l <= liq {
      LiquidityProperties.AmountXExactMonotone(l as real, liq0, sqrtpCurr, sqrtpUpper);
      LiquidityProperties.CalculateYMonotone(l as real, liq1, sqrtpLow, sqrtpCurr);
      assert AmountYExact(l as real, sqrtpLow, sqrtpCurr) <= amountUsdc by {
        if l as real < liq1 {
          LiquidityProperties.AmountYExactStrictlyIncreasing(l as real, liq1, sqrtpLow, sqrtpCurr);
        }
      }
    }
    if Fits(l as real, amountEth, amountUsdc, sqrtpLow, sqrtpCurr, sqrtpUpper) {
      if liq0 < l as real {
        LiquidityProperties.AmountXExactStrictlyIncreasing(liq0, l as real, sqrtpCurr, sqrtpUpper);
      }
      if liq1 < l as real {
        LiquidityProperties.AmountYExactStrictlyIncreasing(liq1, l as real, sqrtpLow, sqrtpCurr);
      }
      assert l as real <= Min(liq0, liq1);
    }
  }

  /** The script's deposit of 1 ETH and 5000 USDC succeeds for any three positive
      square-root prices sqrtpLow < sqrtpCurr < sqrtpUpper and draws at most what was
      offered. */
  lemma ScriptNeverOverdraws(sqrtpLow: int, sqrtpCurr: int, sqrtpUpper: int)
    requires 0 < sqrtpLow < sqrtpCurr < sqrtpUpper
    ensures var r := ScriptDeposit(sqrtpLow, sqrtpCurr, sqrtpUpper);
      && r.Ok?
      && 0 <= r.value.amount0 <= AmountEth
      && 0 <= r.value.amount1 <= AmountUsdc
  {
    DepositNeverOverdraws(AmountEth as real, AmountUsdc as real, sqrtpLow, sqrtpCurr, sqrtpUpper);
  }
}
