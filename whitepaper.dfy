/** The relations between liquidity and token amounts of a concentrated-liquidity
    position in the Uniswap v3 Core whitepaper (equations 6.29 and 6.30), stated on
    real square-root prices. A position of liquidity L over the square-root price
    range [sa, sb] holds
      x = L·(sb − sa)/(sa·sb)  of token0, and
      y = L·(sb − sa)          of token1.
    This module is the reference the fixed-point code is proved against. */
module Whitepaper {
  import RealArith

  /** Token0 held by liquidity `l` over [sa, sb]. */
  function AmountX(l: real, sa: real, sb: real): real
    requires sa != 0.0 && sb != 0.0
  {
    RealArith.MulNonZero(sa, sb);
    l * (sb - sa) / (sa * sb)
  }

  /** Token1 held by liquidity `l` over [sa, sb]. */
  function AmountY(l: real, sa: real, sb: real): real
  {
    l * (sb - sa)
  }

  /** The liquidity that holds exactly `x` of token0 over [sa, sb]. */
  function LiquidityX(x: real, sa: real, sb: real): real
    requires sa != sb
  {
    x * (sa * sb) / (sb - sa)
  }

  /** The liquidity that holds exactly `y` of token1 over [sa, sb]. */
  function LiquidityY(y: real, sa: real, sb: real): real
    requires sa != sb
  {
    y / (sb - sa)
  }

  /** Equation 6.30 solved for L and put back gives the amount of token0 again. */
  lemma AmountXOfLiquidityX(x: real, sa: real, sb: real)
    requires sa != 0.0 && sb != 0.0 && sa != sb
    ensures AmountX(LiquidityX(x, sa, sb), sa, sb) == x
  {
    RealArith.MulNonZero(sa, sb);
    RealArith.DivMulCancel(x * (sa * sb), sb - sa);
    RealArith.QuotEq(LiquidityX(x, sa, sb) * (sb - sa), x * (sa * sb), sa * sb, sa * sb);
    RealArith.MulDivCancel(x, sa * sb);
  }

  /** Equation 6.29 solved for L and put back gives the amount of token1 again. */
  lemma AmountYOfLiquidityY(y: real, sa: real, sb: real)
    requires sa != sb
    ensures AmountY(LiquidityY(y, sa, sb), sa, sb) == y
  {
    RealArith.DivMulCancel(y, sb - sa);
  }

  /** Equation 6.30 put into its solution for L gives the liquidity back: the
      liquidity that holds the amount of token0 of `l` is `l`. */
  lemma LiquidityXOfAmountX(l: real, sa: real, sb: real)
    requires sa != 0.0 && sb != 0.0 && sa != sb
    ensures LiquidityX(AmountX(l, sa, sb), sa, sb) == l
  {
    RealArith.MulNonZero(sa, sb);
    RealArith.DivMulCancel(l * (sb - sa), sa * sb);
    RealArith.QuotEq(AmountX(l, sa, sb) * (sa * sb), l * (sb - sa), sb - sa, sb - sa);
    RealArith.MulDivCancel(l, sb - sa);
  }

  /** Equation 6.29 put into its solution for L gives the liquidity back. */
  lemma LiquidityYOfAmountY(l: real, sa: real, sb: real)
    requires sa != sb
    ensures LiquidityY(AmountY(l, sa, sb), sa, sb) == l
  {
    RealArith.MulDivCancel(l, sb - sa);
  }

  /** Over a positive range, more liquidity holds strictly more token0. */
  lemma AmountXStrictlyIncreasing(l1: real, l2: real, sa: real, sb: real)
    requires 0.0 < sa < sb && l1 < l2
    ensures AmountX(l1, sa, sb) < AmountX(l2, sa, sb)
  {
    RealArith.MulPositive(sa, sb);
    RealArith.MulStrictlyMonotone(l1, l2, sb - sa);
    RealArith.DivStrictlyMonotone(l1 * (sb - sa), l2 * (sb - sa), sa * sb);
  }

  /** Over a non-empty range, more liquidity holds strictly more token1. */
  lemma AmountYStrictlyIncreasing(l1: real, l2: real, sa: real, sb: real)
    requires sa < sb && l1 < l2
    ensures AmountY(l1, sa, sb) < AmountY(l2, sa, sb)
  {
    RealArith.MulStrictlyMonotone(l1, l2, sb - sa);
  }

  /** Over a positive range, non-negative liquidity holds a non-negative amount of
      token0. */
  lemma AmountXNonNegative(l: real, sa: real, sb: real)
    requires sa != 0.0 && sb != 0.0
    ensures 0.0 <= l && 0.0 < sa <= sb ==> 0.0 <= AmountX(l, sa, sb)
  {
    if 0.0 <= l && 0.0 < sa <= sb {
      RealArith.MulPositive(sa, sb);
      RealArith.MulNonNegative(l, sb - sa);
      RealArith.DivNonNegative(l * (sb - sa), sa * sb);
    }
  }

  /** Over an ordered range, non-negative liquidity holds a non-negative amount of
      token1. */
  lemma AmountYNonNegative(l: real, sa: real, sb: real)
    ensures 0.0 <= l && sa <= sb ==> 0.0 <= AmountY(l, sa, sb)
  {
    if 0.0 <= l && sa <= sb {
      RealArith.MulNonNegative(l, sb - sa);
    }
  }

  /** Over a non-negative range, more token0 never needs less liquidity. */
  lemma LiquidityXMonotone(x1: real, x2: real, sa: real, sb: real)
    requires 0.0 <= sa < sb && x1 <= x2
    ensures LiquidityX(x1, sa, sb) <= LiquidityX(x2, sa, sb)
  {
    RealArith.MulNonNegative(sa, sb);
    RealArith.MulMonotone(x1, x2, sa * sb);
    RealArith.DivMonotone(x1 * (sa * sb), x2 * (sa * sb), sb - sa);
  }

  /** Over a non-empty range, more token1 never needs less liquidity. */
  lemma LiquidityYMonotone(y1: real, y2: real, sa: real, sb: real)
    requires sa < sb && y1 <= y2
    ensures LiquidityY(y1, sa, sb) <= LiquidityY(y2, sa, sb)
  {
    RealArith.DivMonotone(y1, y2, sb - sa);
  }
}
