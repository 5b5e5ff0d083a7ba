# Concentrated-liquidity arithmetic of zuniswapV3, in Dafny

This project models `zuniV3Math.py`, the only piece of arithmetic in the zuniswapV3
repository. The file converts between a position's liquidity `L` and its token amounts
over a range of square-root prices `[√Pa, √Pb]`. Square-root prices are held in Q64.96
fixed point: the integer `p` stands for the price `√P = p / 2^96`. The relations are the
position amounts of the Uniswap v3 Core whitepaper, equations 6.29 and 6.30:

- token0: `x = L·(√Pb − √Pa)/(√Pa·√Pb)`
- token1: `y = L·(√Pb − √Pa)`

Files:

- `real_arith.dfy` (module `RealArith`): one-step facts about exact division and
  multiplication. The longer calculations below are built from them.
- `whitepaper.dfy` (module `Whitepaper`): the two whitepaper relations on real
  square-root prices, the liquidity that solves each, and the facts that each
  amount formula and its liquidity formula are inverses in both directions and that
  amounts increase with `L`. This is the independent reference the code is proved
  against.
- `zuni_v3_math.dfy` (module `ZuniV3Math`): the four functions of the source,
  `calculate_liquidity_0`, `calculate_liquidity_1`, `calculate_x` and `calculate_y`. Each
  first sorts its bounds. A division by zero, which raises `ZeroDivisionError` in Python,
  is the `DivisionByZero` result. Python's `int(...)` is `Trunc`, truncation toward zero.
  Each function's contract states exactly when it fails. It also states that its value is
  the whitepaper formula at the decoded prices `p / 2^96`.
- `properties.dfy` (module `LiquidityProperties`): lemmas that relate several calls.
  They cover the order of the bounds, both round trips, monotonicity, non-negativity and
  the truncation bounds.
- `deposit.dfy` (module `DepositScript`): the script at the end of the file
  (1 ETH and 5000 USDC). Each amount is turned into liquidity over its side of the
  range, the minimum is taken and truncated, and the drawn amounts are computed back.
  The lemmas prove that this never draws more than was offered. They also prove that the
  chosen liquidity is the largest integer liquidity whose exact amounts fit the offer.

Modelling choices:

- Python's `/` on these numbers yields a float. The model uses exact rational
  arithmetic (`real`) for it, which is what the formulas mean.
- Square-root prices are `int`, as `price_to_q96` produces them. Amounts and liquidities
  are `real`.
- Error conditions follow the code. `calculate_liquidity_0` and `calculate_liquidity_1`
  fail exactly when the bounds are equal. `calculate_x` fails exactly when a bound is
  zero; with equal non-zero bounds it returns 0. `calculate_y` divides only by `2^96`,
  so it never fails; with equal bounds it returns 0.
- The token0 round trip is proved for any non-zero, distinct bounds, and the token1
  round trip for any distinct bounds; negative bounds are included. For real amounts they return `Trunc(amount)`; for whole amounts they return the
  amount itself.

## Model

| member | source | states |
|---|---|---|
| `ZuniV3Math.Trunc` | zuniV3Math.py:30 | Python's `int()`: for x ≥ 0 the result r is non-negative with r ≤ x < r + 1; for x < 0 it is non-positive with r − 1 < x ≤ r (truncation toward zero) |
| `ZuniV3Math.TruncMonotone` | zuniV3Math.py:36 | `int()` is non-decreasing |
| `ZuniV3Math.PowAdd` | zuniV3Math.py:3 | Python's `**` on naturals obeys b^(m+n) = b^m·b^n |
| `ZuniV3Math.Q96IsTwoToThe96` | zuniV3Math.py:3 | the constant `Q96` is `2 ** 96` |
| `ZuniV3Math.SqrtPrice` | zuniV3Math.py:3 | decoding a Q64.96 value p gives the real r with r·2^96 = p; r has the sign of p |
| `ZuniV3Math.SqrtPriceStrictlyIncreasing` | zuniV3Math.py:3 | decoding keeps the strict order of Q64.96 values |
| `ZuniV3Math.Ascending` | zuniV3Math.py:17-18 | the swap puts the bounds in ascending order and keeps the same two values |
| `ZuniV3Math.AmountXExact` | zuniV3Math.py:27-30 | the untruncated token0 amount over the sorted bounds: 0 for equal bounds, non-negative for non-negative liquidity over positive bounds |
| `ZuniV3Math.AmountYExact` | zuniV3Math.py:33-36 | the untruncated token1 amount over the sorted bounds: 0 for equal bounds, non-negative for non-negative liquidity |
| `ZuniV3Math.CalculateLiquidity0` | zuniV3Math.py:16-19 | fails exactly when pa = pb; otherwise equals the whitepaper liquidity x·√Pa·√Pb/(√Pb − √Pa) at the decoded, sorted prices; non-negative for a non-negative amount and non-negative bounds |
| `ZuniV3Math.Liquidity0Scaling` | zuniV3Math.py:19 | the Q64.96 expression `amount·(pa·pb)/Q96/(pb − pa)` equals the whitepaper liquidity at prices pa/Q96 and pb/Q96 |
| `ZuniV3Math.Liquidity0ScaledNonNegative` | zuniV3Math.py:19 | that expression is non-negative for a non-negative amount and non-negative bounds pa < pb |
| `ZuniV3Math.CalculateLiquidity1` | zuniV3Math.py:22-25 | fails exactly when pa = pb; otherwise equals the whitepaper liquidity y/(√Pb − √Pa) at the decoded, sorted prices; non-negative for a non-negative amount |
| `ZuniV3Math.Liquidity1Scaling` | zuniV3Math.py:25 | the Q64.96 expression `amount·Q96/(pb − pa)` equals the whitepaper liquidity at prices pa/Q96 and pb/Q96 |
| `ZuniV3Math.CalculateX` | zuniV3Math.py:27-30 | fails exactly when a bound is zero; otherwise is the truncation of the exact whitepaper amount of token0 at the decoded, sorted prices |
| `ZuniV3Math.AmountXScaling` | zuniV3Math.py:30 | the Q64.96 expression `L·Q96·(pb − pa)/pa/pb` equals the whitepaper amount of token0 at prices pa/Q96 and pb/Q96 |
| `ZuniV3Math.CalculateY` | zuniV3Math.py:33-36 | never fails; is the truncation of the exact whitepaper amount of token1 at the decoded, sorted prices |
| `ZuniV3Math.AmountYScaling` | zuniV3Math.py:36 | the Q64.96 expression `L·(pb − pa)/Q96` equals the whitepaper amount of token1 at prices pa/Q96 and pb/Q96 |
| `LiquidityProperties.BoundOrderIrrelevant` | zuniV3Math.py:16-36 | each of the four conversions gives the same result, failure included, for (pa, pb) and (pb, pa) |
| `LiquidityProperties.Token0ExactRoundTrip` | zuniV3Math.py:16-30 | for non-zero distinct bounds, the liquidity of an amount of token0 holds exactly that amount in exact arithmetic |
| `LiquidityProperties.Token0RoundTrip` | zuniV3Math.py:16-30 | for non-zero distinct bounds, `calculate_x(calculate_liquidity_0(a))` succeeds with `int(a)` |
| `LiquidityProperties.Token0RoundTripInteger` | zuniV3Math.py:16-30 | for a whole amount a, `calculate_x(calculate_liquidity_0(a))` returns a |
| `LiquidityProperties.Token1ExactRoundTrip` | zuniV3Math.py:22-36 | for distinct bounds, the liquidity of an amount of token1 holds exactly that amount in exact arithmetic |
| `LiquidityProperties.Token1RoundTrip` | zuniV3Math.py:22-36 | for distinct bounds, `calculate_y(calculate_liquidity_1(a))` is `int(a)` |
| `LiquidityProperties.Token1RoundTripInteger` | zuniV3Math.py:22-36 | for a whole amount a, `calculate_y(calculate_liquidity_1(a))` returns a |
| `LiquidityProperties.Liquidity0OfAmountXExact` | zuniV3Math.py:16-30 | the other direction of the token0 pair: for non-zero distinct bounds, `calculate_liquidity_0` of the exact token0 amount of l succeeds with l |
| `LiquidityProperties.Liquidity1OfAmountYExact` | zuniV3Math.py:22-36 | the other direction of the token1 pair: for distinct bounds, `calculate_liquidity_1` of the exact token1 amount of l succeeds with l |
| `LiquidityProperties.EqualBoundsGiveZero` | zuniV3Math.py:27-36 | with equal bounds `calculate_y` returns 0, and `calculate_x` returns 0 when the bound is non-zero |
| `LiquidityProperties.Liquidity0Monotone` | zuniV3Math.py:16-19 | over distinct non-negative bounds, a larger amount of token0 never gives smaller liquidity |
| `LiquidityProperties.Liquidity1Monotone` | zuniV3Math.py:22-25 | over distinct bounds, a larger amount of token1 never gives smaller liquidity |
| `LiquidityProperties.CalculateXTruncation` | zuniV3Math.py:27-30 | for liquidity ≥ 0 and positive bounds, `calculate_x` succeeds with r ≥ 0 and r ≤ exact amount < r + 1 |
| `LiquidityProperties.CalculateYTruncation` | zuniV3Math.py:33-36 | for liquidity ≥ 0, `calculate_y` returns r ≥ 0 with r ≤ exact amount < r + 1 |
| `LiquidityProperties.AmountXExactStrictlyIncreasing` | zuniV3Math.py:27-30 | over distinct positive bounds, more liquidity holds strictly more token0 in exact arithmetic |
| `LiquidityProperties.AmountYExactStrictlyIncreasing` | zuniV3Math.py:33-36 | over distinct bounds, more liquidity holds strictly more token1 in exact arithmetic |
| `LiquidityProperties.AmountXExactMonotone` | zuniV3Math.py:27-30 | over positive bounds, the exact amount of token0 is non-decreasing in liquidity |
| `LiquidityProperties.CalculateXMonotone` | zuniV3Math.py:27-30 | over positive bounds, `calculate_x` is non-decreasing in liquidity |
| `LiquidityProperties.CalculateYMonotone` | zuniV3Math.py:33-36 | for any bounds, `calculate_y` is non-decreasing in liquidity |
| `DepositScript.ComputeDeposit` | zuniV3Math.py:45-52 | the deposit fails exactly when the current price equals a range bound, or the current or upper price is zero |
| `DepositScript.Min` | zuniV3Math.py:47 | Python's `min`: the result is at most both arguments and is one of them |
| `DepositScript.ScriptAmounts` | zuniV3Math.py:41-43 | `eth` is 10^18, the offered amounts are 1·10^18 of token0 and 5000·10^18 of token1 |
| `DepositScript.ScriptDeposit` | zuniV3Math.py:41-52 | the script's own deposit fails exactly when the current price equals a bound, or the current or upper price is zero |
| `DepositScript.MinRuleLiquidity` | zuniV3Math.py:45-47 | for non-negative amounts and positive prices, both liquidities are non-negative and the position's liquidity is the floor of their minimum, so it is at most each of them |
| `DepositScript.DepositNeverOverdraws` | zuniV3Math.py:45-52 | for non-negative amounts and positive prices with the current price distinct from both bounds, the recomputed amounts are non-negative and at most the amounts offered |
| `DepositScript.DepositIsLargestFit` | zuniV3Math.py:45-47 | an integer liquidity fits within both offered amounts in exact arithmetic if and only if it is at most the position's liquidity |
| `DepositScript.ScriptNeverOverdraws` | zuniV3Math.py:41-52 | the script's deposit of 1 ETH and 5000 USDC succeeds for any prices 0 < low < current < upper and draws at most 10^18 of token0 and 5000·10^18 of token1 |

## Left out

- `price_to_tick` and `price_to_q96` (zuniV3Math.py:5-9), and the three prices built
  from them (lines 12-14): they use floating-point `math.log` and `math.sqrt`. The three
  square-root prices are parameters of `DepositScript.ScriptDeposit` instead.
- Floating-point semantics of Python's `/` (lines 19, 25, 30, 36): rounding, and the
  `OverflowError` raised when a quotient falls outside the float range. The model uses
  exact rationals. So `int()` at lines 30, 36 and 47 truncates an exact value here. In
  Python it truncates a rounded float, and a round trip can come back one unit short.
- The `print` calls (zuniV3Math.py:48, 53): output only.
- `my-project/src/app/liquidity.tsx`, `my-project/src/app/page.tsx`,
  `my-project/src/app/components/SwapModule.tsx` and
  `my-project/src/app/components/Connect.tsx`: form markup, static UI and wallet I/O.
  They contain no arithmetic; their only logic calls external wallet and contract
  libraries.
