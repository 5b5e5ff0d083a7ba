/** The concentrated-liquidity arithmetic of zuniV3Math.py: conversions between a
    position's liquidity and its token amounts, for a range of square-root prices
    held in Q64.96 fixed point (a price √P is stored as the integer √P·2^96).

    Python's `/` is modelled as exact rational division on `real`; a division by
    zero, which raises ZeroDivisionError in Python, is the `DivisionByZero` result. */
module ZuniV3Math {
  import Whitepaper
  import RealArith

  /** 2^96, the scale of a Q64.96 square-root price. */
  const Q96: int := 0x1_0000_0000_0000_0000_0000_0000

  /** Python's `b ** e` on natural numbers. */
  function Pow(b: nat, e: nat): nat
  {
    if e == 0 then 1 else b * Pow(b, e - 1)
  }

  /** Exponents add when powers of the same base are multiplied. */
  lemma {:induction false} PowAdd(b: nat, m: nat, n: nat)
    ensures Pow(b, m + n) == Pow(b, m) * Pow(b, n)
  {
    if m > 0 {
      PowAdd(b, m - 1, n);
    }
  }

  /** The scale constant is `2 ** 96`. */
  lemma Q96IsTwoToThe96()
    ensures Q96 == Pow(2, 96)
  {
    assert Pow(2, 6) == 64;
    PowAdd(2, 6, 6);
    PowAdd(2, 12, 12);
    PowAdd(2, 24, 24);
    PowAdd(2, 48, 48);
  }

  /** The result of a computation that may divide by zero. */
  datatype Result<T> = Ok(value: T) | DivisionByZero
  {
    predicate IsFailure() { DivisionByZero? }

    function PropagateFailure<U>(): Result<U>
      requires IsFailure()
    {
      DivisionByZero
    }

    function Extract(): T
      requires Ok?
    {
      value
    }
  }

  /** The real square-root price that the Q64.96 value `p` stands for. */
  function SqrtPrice(p: int): (r: real)
    ensures r * Q96 as real == p as real
    ensures (0.0 < r <==> 0 < p) && (r == 0.0 <==> p == 0)
  {
    p as real / Q96 as real
  }

  /** Decoding keeps the order of Q64.96 values, strictly. */
  lemma SqrtPriceStrictlyIncreasing(p1: int, p2: int)
    requires p1 < p2
    ensures SqrtPrice(p1) < SqrtPrice(p2)
  {
    RealArith.DivStrictlyMonotone(p1 as real, p2 as real, Q96 as real);
  }

  /** Python's `int(x)` on a number: truncation toward zero. */
  function Trunc(x: real): (r: int)
    ensures 0.0 <= x ==> 0 <= r && r as real <= x < r as real + 1.0
    ensures x < 0.0 ==> r <= 0 && r as real - 1.0 < x <= r as real
  {
    if 0.0 <= x then x.Floor else -((-x).Floor)
  }

  /** Truncation never decreases: a larger number truncates to a larger or equal integer. */
  lemma TruncMonotone(x: real, y: real)
    requires x <= y
    ensures Trunc(x) <= Trunc(y)
  {
  }

  /** The two bounds of a range, swapped into ascending order if need be. */
  function Ascending(pa: int, pb: int): (r: (int, int))
    ensures r.0 <= r.1
    ensures multiset{r.0, r.1} == multiset{pa, pb}
  {
    if pa > pb then (pb, pa) else (pa, pb)
  }

  /** The exact amount of token0 held by `liquidity` over the range between the
      Q64.96 prices `pa` and `pb`, in either order. */
  function AmountXExact(liquidity: real, pa: int, pb: int): (r: real)
    requires pa != 0 && pb != 0
    ensures pa == pb ==> r == 0.0
    ensures 0.0 <= liquidity && 0 < pa && 0 < pb ==> 0.0 <= r
  {
    var (lo, hi) := Ascending(pa, pb);
    Whitepaper.AmountXNonNegative(liquidity, SqrtPrice(lo), SqrtPrice(hi));
    Whitepaper.AmountX(liquidity, SqrtPrice(lo), SqrtPrice(hi))
  }

  /** The exact amount of token1 held by `liquidity` over the range between `pa` and `pb`. */
  function AmountYExact(liquidity: real, pa: int, pb: int): (r: real)
    ensures pa == pb ==> r == 0.0
    ensures 0.0 <= liquidity ==> 0.0 <= r
  {
    var (lo, hi) := Ascending(pa, pb);
    Whitepaper.AmountYNonNegative(liquidity, SqrtPrice(lo), SqrtPrice(hi));
    Whitepaper.AmountY(liquidity, SqrtPrice(lo), SqrtPrice(hi))
  }

  /** `calculate_liquidity_0`: the liquidity that `amount` of token0 provides over
      the range. It divides by the width of the range, so equal bounds fail; for
      bounds of one sign a non-negative amount gives non-negative liquidity. */
  function CalculateLiquidity0(amount: real, pa: int, pb: int): (r: Result<real>)
    ensures r.DivisionByZero? <==> pa == pb
    ensures r.Ok? ==>
      var (lo, hi) := Ascending(pa, pb);
      r.value == Whitepaper.LiquidityX(amount, SqrtPrice(lo), SqrtPrice(hi))
    ensures r.Ok? && 0.0 <= amount && 0 <= pa && 0 <= pb ==> 0.0 <= r.value
  {
    var (lo, hi) := Ascending(pa, pb);
    if hi - lo == 0 then DivisionByZero
    else
      var q, a, b := Q96 as real, lo as real, hi as real;
      Liquidity0Scaling(amount, a, b, q);
      Liquidity0ScaledNonNegative(amount, a, b, q);
      Ok((amount * (a * b) / q) / (b - a))
  }

  /** The fixed-point form of `calculate_liquidity_0` is the whitepaper's formula
      applied to the prices a/q and b/q. */
  lemma Liquidity0Scaling(amount: real, a: real, b: real, q: real)
    requires 0.0 < q && a < b
    ensures (amount * (a * b) / q) / (b - a) == Whitepaper.LiquidityX(amount, a / q, b / q)
  {
    // numerator: amount·(a/q)·(b/q) == amount·a·b/q/q
    RealArith.MulOfQuotients(a, b, q);
    RealArith.MulEq(amount, (a / q) * (b / q), a * b / q / q);
    RealArith.MulQuotient(amount, a * b / q, q);
    RealArith.MulQuotient(amount, a * b, q);
    RealArith.QuotEq(amount * (a * b / q), amount * (a * b) / q, q, q);
    // denominator: b/q − a/q == (b − a)/q
    RealArith.SubOfQuotients(a, b, q);
    RealArith.QuotEq(amount * ((a / q) * (b / q)), amount * (a * b) / q / q,
                     b / q - a / q, (b - a) / q);
    RealArith.CancelQuotients(amount * (a * b) / q, b - a, q);
  }

  /** For a non-negative amount and non-negative bounds a < b, the fixed-point form
      of `calculate_liquidity_0` is non-negative. */
  lemma Liquidity0ScaledNonNegative(amount: real, a: real, b: real, q: real)
    requires 0.0 < q && a < b
    ensures 0.0 <= amount && 0.0 <= a ==> 0.0 <= (amount * (a * b) / q) / (b - a)
  {
    if 0.0 <= amount && 0.0 <= a {
      RealArith.MulNonNegative(a, b);
      RealArith.MulNonNegative(amount, a * b);
      RealArith.DivNonNegative(amount * (a * b), q);
      RealArith.DivNonNegative(amount * (a * b) / q, b - a);
    }
  }

  /** `calculate_liquidity_1`: the liquidity that `amount` of token1 provides over
      the range. Equal bounds fail; a non-negative amount gives non-negative liquidity. */
  function CalculateLiquidity1(amount: real, pa: int, pb: int): (r: Result<real>)
    ensures r.DivisionByZero? <==> pa == pb
    ensures r.Ok? ==>
      var (lo, hi) := Ascending(pa, pb);
      r.value == Whitepaper.LiquidityY(amount, SqrtPrice(lo), SqrtPrice(hi))
    ensures r.Ok? && 0.0 <= amount ==> 0.0 <= r.value
  {
    var (lo, hi) := Ascending(pa, pb);
    if hi - lo == 0 then DivisionByZero
    else
      var q, a, b := Q96 as real, lo as real, hi as real;
      Liquidity1Scaling(amount, a, b, q);
      Ok(amount * q / (b - a))
  }

  /** The fixed-point form of `calculate_liquidity_1` is the whitepaper's formula
      applied to the prices a/q and b/q. */
  lemma Liquidity1Scaling(amount: real, a: real, b: real, q: real)
    requires 0.0 < q && a < b
    ensures amount * q / (b - a) == Whitepaper.LiquidityY(amount, a / q, b / q)
  {
    RealArith.SubOfQuotients(a, b, q);
    RealArith.QuotEq(amount, amount, b / q - a / q, (b - a) / q);
    RealArith.DivByQuotient(amount, b - a, q);
  }

  /** `calculate_x`: the amount of token0 that `liquidity` holds over the range,
      truncated to an integer. It divides by both bounds, so a zero bound fails;
      equal non-zero bounds give 0. */
  function CalculateX(liquidity: real, pa: int, pb: int): (r: Result<int>)
    ensures r.DivisionByZero? <==> pa == 0 || pb == 0
    ensures r.Ok? ==> r.value == Trunc(AmountXExact(liquidity, pa, pb))
  {
    var (lo, hi) := Ascending(pa, pb);
    if lo == 0 || hi == 0 then DivisionByZero
    else
      var q, a, b := Q96 as real, lo as real, hi as real;
      var exact := liquidity * q * (b - a) / a / b;
      AmountXScaling(liquidity, a, b, q);
      assert exact == AmountXExact(liquidity, pa, pb);
      Ok(Trunc(exact))
  }

  /** The fixed-point form of `calculate_x` is the whitepaper's formula applied to
      the prices a/q and b/q. */
  lemma AmountXScaling(l: real, a: real, b: real, q: real)
    requires 0.0 < q && a != 0.0 && b != 0.0
    ensures l * q * (b - a) / a / b == Whitepaper.AmountX(l, a / q, b / q)
  {
    // numerator: l·(b/q − a/q) == l·(b − a)/q
    RealArith.SubOfQuotients(a, b, q);
    RealArith.MulEq(l, b / q - a / q, (b - a) / q);
    RealArith.MulQuotient(l, b - a, q);
    // denominator: (a/q)·(b/q) == a·b/q/q
    RealArith.MulOfQuotients(a, b, q);
    RealArith.MulNonZero(a, b);
    RealArith.MulNonZero(a / q, b / q);
    RealArith.QuotEq(l * (b / q - a / q), l * (b - a) / q, (a / q) * (b / q), a * b / q / q);
    RealArith.Rescale(l * (b - a), a * b, q);
    RealArith.QuotEq(l * (b - a) * q, l * q * (b - a), a * b, a * b);
    RealArith.DivDiv(l * q * (b - a), a, b);
  }

  /** `calculate_y`: the amount of token1 that `liquidity` holds over the range,
      truncated to an integer. It only divides by the constant 2^96, so it never fails. */
  function CalculateY(liquidity: real, pa: int, pb: int): (r: int)
    ensures r == Trunc(AmountYExact(liquidity, pa, pb))
  {
    var (lo, hi) := Ascending(pa, pb);
    var q, a, b := Q96 as real, lo as real, hi as real;
    var exact := liquidity * (b - a) / q;
    AmountYScaling(liquidity, a, b, q);
    assert exact == AmountYExact(liquidity, pa, pb);
    Trunc(exact)
  }

  /** The fixed-point form of `calculate_y` is the whitepaper's formula applied to
      the prices a/q and b/q. */
  lemma AmountYScaling(l: real, a: real, b: real, q: real)
    requires 0.0 < q
    ensures l * (b - a) / q == Whitepaper.AmountY(l, a / q, b / q)
  {
    RealArith.SubOfQuotients(a, b, q);
    RealArith.MulEq(l, b / q - a / q, (b - a) / q);
    RealArith.MulQuotient(l, b - a, q);
  }
}
