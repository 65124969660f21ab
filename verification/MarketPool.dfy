/** The Do pool over runs of swaps and end-block replenishments. */
module MarketPool {
  import opened Decimals
  import opened MarketSwap
  import opened MarketModule

  // ---- exact arithmetic

  datatype Step =
    | SellAsset(x: real)            // another asset offered for Do, worth `x` Do at the oracle price
    | SellDo(x: real, rate: real)   // `x` Do offered for an asset trading at `rate`
    | OtherPair                     // a swap without Do on either side
    | Replenish(period: nat)

  predicate ValidStep(s: Step) {
    match s
    case SellAsset(x) => x > 0.0
    case SellDo(x, rate) => x > 0.0 && rate > 0.0
    case OtherPair => true
    case Replenish(period) => period >= 1
  }

  function Times(a: real, b: real): (p: real)
    ensures a > 0.0 && b > 0.0 ==> p > 0.0
  {
    a * b
  }

  lemma PositiveQuotient(a: real, b: real)
    requires a > 0.0 && b > 0.0
    ensures a / b > 0.0
  {
    var q := a / b;
    assert q * b == a;
  }

  /** The constant-product spread on selling `x` Do into a pool of `d`, at least `min`. */
  function ExactSpread(base: real, d: real, x: real, min: real): real
    requires base > 0.0 && d > 0.0 && x > 0.0
  {
    var cp := Times(base, base);
    PositiveQuotient(cp, d);
    var s := (x - (d - cp / (cp / d + x))) / x;
    if s < min then min else s
  }

  /** The pool delta after one step, with nothing rounded. */
  function ExactDelta(base: real, delta: real, min: real, s: Step): real
    requires base > 0.0 && base + delta > 0.0 && ValidStep(s)
  {
    match s
    case SellAsset(x) => delta + x
    case SellDo(x, rate) =>
      var price := x * rate;
      var paid := price - ExactSpread(base, base + delta, x, min) * price;
      delta - paid / rate
    case OtherPair => delta
    case Replenish(period) => delta - delta / (period as real)
  }

  lemma WithdrawnBelowPool(base: real, d: real, x: real, min: real)
    requires base > 0.0 && d > 0.0 && x > 0.0
    ensures x - ExactSpread(base, d, x, min) * x < d
  {
    var cp := Times(base, base);
    PositiveQuotient(cp, d);
    var left := cp / (cp / d + x);
    PositiveQuotient(cp, cp / d + x);
    var s := (x - (d - left)) / x;
    assert s * x == x - (d - left);
    assert ExactSpread(base, d, x, min) * x >= s * x;
  }

  lemma SameAmountBack(x: real, rate: real, s: real)
    requires rate > 0.0
    ensures (x * rate - s * (x * rate)) / rate == x - s * x
  {
    assert x * rate - s * (x * rate) == (x - s * x) * rate;
  }

  lemma ReplenishTowardsBase(base: real, delta: real, period: nat)
    requires base > 0.0 && base + delta > 0.0 && period >= 1
    ensures base + (delta - delta / (period as real)) > 0.0
  {
    var n := period as real;
    var q := delta / n;
    assert q * n == delta;
    assert n >= 1.0;
    ShareOf(q, n);
  }

  lemma ShareOf(q: real, n: real)
    requires n >= 1.0
    ensures q >= 0.0 ==> q * n >= q
    ensures q <= 0.0 ==> q * n <= q
  {
    assert q * n - q == q * (n - 1.0);
  }

  lemma SellDoStep(base: real, delta: real, min: real, x: real, rate: real)
    requires base > 0.0 && base + delta > 0.0 && x > 0.0 && rate > 0.0
    ensures base + ExactDelta(base, delta, min, SellDo(x, rate)) > 0.0
  {
    var spread := ExactSpread(base, base + delta, x, min);
    WithdrawnBelowPool(base, base + delta, x, min);
    SameAmountBack(x, rate, spread);
    assert ExactDelta(base, delta, min, SellDo(x, rate)) == delta - (x * rate - spread * (x * rate)) / rate;
  }

  lemma StepKeepsPoolPositive(base: real, delta: real, min: real, s: Step)
    requires base > 0.0 && base + delta > 0.0 && ValidStep(s)
    ensures base + ExactDelta(base, delta, min, s) > 0.0
  {
    match s
    case SellDo(x, rate) =>
      SellDoStep(base, delta, min, x, rate);
    case Replenish(period) => ReplenishTowardsBase(base, delta, period);
    case _ =>
  }

  ghost function Run(base: real, delta: real, min: real, steps: seq<Step>): real
    requires base > 0.0 && base + delta > 0.0 && forall s :: s in steps ==> ValidStep(s)
    decreases |steps|
  {
    if steps == [] then delta
    else
      StepKeepsPoolPositive(base, delta, min, steps[0]);
      Run(base, ExactDelta(base, delta, min, steps[0]), min, steps[1..])
  }

  /** In exact arithmetic no run of swaps and replenishments, at any prices, empties the Do pool. */
  lemma {:induction false} RunKeepsPoolPositive(base: real, delta: real, min: real, steps: seq<Step>)
    requires base > 0.0 && base + delta > 0.0 && forall s :: s in steps ==> ValidStep(s)
    ensures base + Run(base, delta, min, steps) > 0.0
    decreases |steps|
  {
    if steps != [] {
      StepKeepsPoolPositive(base, delta, min, steps[0]);
      RunKeepsPoolPositive(base, ExactDelta(base, delta, min, steps[0]), min, steps[1..]);
    }
  }

  // ---- fixed point: replenishment

  function Replenished(delta: Dec, period: nat): Dec
    requires period >= 1
  {
    delta - QuoInt(delta, period)
  }

  function Abs(x: int): nat { if x < 0 then -x else x }

  /** Replenishing never crosses zero, and moves exactly while the gap is at least the period in last-place units. */
  lemma ReplenishShrinksIff(delta: Dec, period: nat)
    requires period >= 1
    ensures delta >= 0 ==> 0 <= Replenished(delta, period) <= delta
    ensures delta <= 0 ==> delta <= Replenished(delta, period) <= 0
    ensures Replenished(delta, period) != delta <==> Abs(delta) >= period
  {
    var a := Abs(delta);
    DivisionBounds(a, period);
    assert a / period <= a by { DivAtMost(a, period, a); }
    if a < period { DivAtMost(a, period, 0); }
    else { assert a / period >= 1; }
  }

  /** A block leaves one part less of the gap than the period has parts, up to a last-place unit. */
  lemma ReplenishIs(delta: Dec, period: nat)
    requires period >= 1
    ensures 0 - period < Replenished(delta, period) * period - delta * (period - 1) < period
  {
    TruncDivIs(delta, period);
    var q := TruncDiv(delta, period);
    assert (delta - q) * period == delta * period - q * period;
    assert delta * (period - 1) == delta * period - delta;
  }

  function ReplenishedFor(delta: Dec, period: nat, blocks: nat): Dec
    requires period >= 1
  {
    if blocks == 0 then delta else Replenished(ReplenishedFor(delta, period, blocks - 1), period)
  }

  /** Left alone, the gap falls by at least one unit a block until it is below the period, and stays there. */
  lemma {:induction false} ReplenishConverges(delta: Dec, period: nat, blocks: nat)
    requires period >= 1
    ensures var d := ReplenishedFor(delta, period, blocks);
            && (d >= 0 || delta < 0) && (d <= 0 || delta > 0)
            && (Abs(d) < period || Abs(d) + blocks <= Abs(delta))
            && Abs(d) <= Abs(delta)
  {
    if blocks > 0 {
      ReplenishConverges(delta, period, blocks - 1);
      ReplenishShrinksIff(ReplenishedFor(delta, period, blocks - 1), period);
    }
  }

  // ---- fixed point: selling Do

  /** What the constant product leaves in the Do pool when `n` Do are offered. */
  function LeftInPool(p: Pricing, n: nat): Dec
    requires PoolOpen(p) && n > 0
  {
    p.basePool + p.delta - ConstantProductPays(p, true, FromInt(n))
  }

  lemma WholePrice(p: Pricing, n: nat, ask: Denom, r: Dec)
    requires n > 0 && ask != MicroDo && Rate(p, ask) == Ok(r) && r > 0
    ensures ComputeInternalSwap(p, DecCoin(MicroDo, FromInt(n)), ask) == Ok(DecCoin(ask, n * r))
  {
    assert FromInt(n) * r == (n * r) * ONE;
    RoundExact(n * r);
    assert n * r > 0;
    QuoByOne(n * r);
  }

  /**
   * Selling `n` Do in fixed point leaves at least what the constant product leaves, less one unit for
   * each Do offered, one more, and half a unit scaled by the inverse price.
   */
  lemma SellDoBound(p: Pricing, n: nat, ask: Denom, r: Dec, price: Dec, fee: Dec, delta': Dec)
    requires PoolOpen(p) && n > 0 && ask != MicroDo && Rate(p, ask) == Ok(r) && r > 0
    requires Priced(p, Coin(MicroDo, n), ask, price, fee) && p.minSpread >= 0
    requires DeltaAfter(p, Coin(MicroDo, n), DecCoin(ask, price - fee)) == Ok(delta')
    ensures 2 * r * (p.basePool + delta') >= 2 * r * (LeftInPool(p, n) - n - 1) - ONE
  {
    PaidInDo(p, n, ask, r, price, fee);
    SoldDelta(p, n, ask, r, price - fee, delta');
    SellDoArithmetic(r, Quo(price - fee, r), ConstantProductPays(p, true, FromInt(n)), n, p.basePool + p.delta, p.basePool + delta');
  }

  lemma SoldDelta(p: Pricing, n: nat, ask: Denom, r: Dec, paid: Dec, delta': Dec)
    requires ask != MicroDo && Rate(p, ask) == Ok(r) && r > 0
    requires DeltaAfter(p, Coin(MicroDo, n), DecCoin(ask, paid)) == Ok(delta')
    ensures delta' == p.delta - Quo(paid, r)
  {
    MulByOne(paid);
  }

  lemma PaidInDo(p: Pricing, n: nat, ask: Denom, r: Dec, price: Dec, fee: Dec)
    requires PoolOpen(p) && n > 0 && ask != MicroDo && Rate(p, ask) == Ok(r) && r > 0
    requires Priced(p, Coin(MicroDo, n), ask, price, fee) && p.minSpread >= 0
    ensures Quo(price - fee, r) * r <= (ConstantProductPays(p, true, FromInt(n)) + n) * r + HALF + r
  {
    var x := FromInt(n);
    var pays := ConstantProductPays(p, true, x);
    PricedFromPool(p, n, ask, r, price, fee);
    var s := PoolSpread(p, true, x).value;
    ChargesConstantProduct(p, true, x);
    PoolSpreadIs(p, true, x);
    KeptShare(n, s, pays);
    PaidOut(n, r, s, price, fee, pays);
    QuoError(price - fee, r);
  }

  lemma PricedFromPool(p: Pricing, n: nat, ask: Denom, r: Dec, price: Dec, fee: Dec)
    requires PoolOpen(p) && n > 0 && ask != MicroDo && Rate(p, ask) == Ok(r) && r > 0
    requires Priced(p, Coin(MicroDo, n), ask, price, fee)
    ensures price == n * r && PoolSpread(p, true, FromInt(n)).Ok?
    ensures fee == Fee(price, PoolSpread(p, true, FromInt(n)).value)
  {
    WholePrice(p, n, ask, r);
  }

  lemma KeptShare(n: nat, s: Dec, pays: Dec)
    requires n > 0 && FromInt(n) * (ONE - s) <= ONE * pays + FromInt(n)
    ensures n * (ONE - s) <= pays + n
  {
    assert FromInt(n) * (ONE - s) == ONE * (n * (ONE - s));
  }

  lemma PaidOut(n: nat, r: Dec, s: Dec, price: Dec, fee: Dec, pays: Dec)
    requires n > 0 && r > 0 && s >= 0 && price == n * r && fee == Fee(price, s)
    requires n * (ONE - s) <= pays + n
    ensures (price - fee) * ONE <= (pays + n) * r + HALF
  {
    RoundError(s * price);
    assert fee * ONE >= s * price - HALF;
    Reassociate(n, r, ONE - s);
    MulAtLeast(pays + n, n * (ONE - s), r);
    Complement(price, s);
  }

  lemma Reassociate(n: int, r: int, k: int)
    ensures (n * r) * k == (n * k) * r
  {
  }

  lemma Complement(price: Dec, s: Dec)
    ensures price * (ONE - s) == price * ONE - s * price
  {
  }

  lemma SellDoArithmetic(r: Dec, base: Dec, pays: Dec, n: int, pool: Dec, pool': Dec)
    requires r > 0 && base * r <= (pays + n) * r + HALF + r && pool' == pool - base
    ensures 2 * r * pool' >= 2 * r * (pool - pays - n - 1) - ONE
  {
    assert r * pool' == r * pool - base * r;
    assert r * (pool - pays - n - 1) == r * pool - r * (pays + n) - r;
  }

  // ---- fixed point: exactly when the pool stays positive

  lemma RoundBelowIff(q: nat, pool: nat)
    requires pool > 0
    ensures Round(q) < pool <==> q < Limit(pool)
  {
    assert pool * ONE == (pool - 1) * ONE + ONE;
    if q < (pool - 1) * ONE {
      assert q / ONE < pool - 1;
    } else if q >= pool * ONE {
      assert q / ONE >= pool;
    } else {
      assert q / ONE == pool - 1 && q % ONE == q - (pool - 1) * ONE;
    }
  }

  /** The least quotient, with 18 more digits, that rounds to the pool: half a unit below it, ties going to even. */
  function Limit(pool: nat): int {
    (pool - 1) * ONE + HALF + (if pool % 2 == 1 then 1 else 0)
  }

  lemma DivBelowIff(a: nat, b: nat, c: nat)
    requires b > 0
    ensures a / b < c <==> a < c * b
  {
    DivisionBounds(a, b);
    if a / b < c { MulAtLeast(c, a / b + 1, b); } else { MulAtLeast(a / b, c, b); }
  }

  lemma QuoBelowIff(out: Dec, r: Dec, pool: nat)
    requires r > 0 && pool > 0
    ensures Quo(out, r) < pool <==> out * ONE * ONE < Limit(pool) * r
  {
    if out >= 0 {
      var n, q := QuoIs(out, r);
      RoundBelowIff(q, pool);
      DivBelowIff(n, r, Limit(pool));
    } else {
      QuoNegative(out, r);
      PositiveLimit(pool, r);
    }
  }

  lemma QuoNegative(out: Dec, r: Dec)
    requires out < 0 && r > 0
    ensures Quo(out, r) <= 0
  {
    var t := TruncDiv(out * ONE * ONE, r);
    assert t <= 0;
    RoundMonotone(t, 0);
  }

  lemma PositiveLimit(pool: nat, r: Dec)
    requires pool > 0 && r > 0
    ensures Limit(pool) * r > 0
  {
    assert Limit(pool) > 0;
    MulAtLeast(Limit(pool), 1, r);
  }

  /** The pool stays positive exactly if what is paid out converts to less than it. */
  lemma PayoutBelowPoolIff(p: Pricing, n: nat, ask: Denom, r: Dec, price: Dec, fee: Dec, delta': Dec)
    requires PoolOpen(p) && n > 0 && ask != MicroDo && Rate(p, ask) == Ok(r) && r > 0
    requires Priced(p, Coin(MicroDo, n), ask, price, fee)
    requires DeltaAfter(p, Coin(MicroDo, n), DecCoin(ask, price - fee)) == Ok(delta')
    ensures p.basePool + delta' > 0 <==> (price - fee) * ONE * ONE < Limit(p.basePool + p.delta) * r
  {
    MulByOne(price - fee);
    QuoBelowIff(price - fee, r, p.basePool + p.delta);
  }

  /** The least fee that keeps a payout of `price` below the pool. */
  function NeededFee(price: Dec, r: Dec, pool: nat): int
  {
    price - (Limit(pool) * r - 1) / (ONE * ONE)
  }

  lemma FeeIff(price: Dec, fee: Dec, r: Dec, pool: nat)
    requires pool > 0 && r > 0
    ensures (price - fee) * ONE * ONE < Limit(pool) * r <==> fee >= NeededFee(price, r, pool)
  {
    PositiveLimit(pool, r);
    BelowIff(price - fee, Limit(pool) * r, ONE * ONE);
  }

  lemma BelowIff(out: int, l: nat, c: nat)
    requires l > 0 && c > 0
    ensures out * c < l <==> out <= (l - 1) / c
  {
    DivisionBounds(l - 1, c);
    if out <= (l - 1) / c { MulAtLeast((l - 1) / c, out, c); } else { MulAtLeast(out, (l - 1) / c + 1, c); }
  }

  /** The least spread whose fee on `price`, rounded, comes to `fee`. */
  function NeededSpread(price: Dec, fee: nat): int
    requires price > 0 && fee > 0
  {
    (Limit(fee) - 1) / price + 1
  }

  lemma SpreadIff(price: Dec, s: Dec, fee: nat)
    requires price > 0 && fee > 0
    ensures Fee(price, s) >= fee <==> s >= NeededSpread(price, fee)
  {
    PositiveLimit(fee, 1);
    assert NeededSpread(price, fee) > 0;
    if s > 0 {
      RoundBelowIff(TimesOf(s, price), fee);
      BelowIff(s, Limit(fee), price);
    }
  }

  function TimesOf(s: Dec, price: Dec): (q: nat)
    requires s > 0 && price > 0
    ensures q == s * price
  {
    MulAtLeast(s, 1, price);
    s * price
  }

  /** The spread of the constant product reaches a given one exactly if the payment falls that short. */
  lemma ChargedIff(p: Pricing, x: Dec, s: nat)
    requires PoolOpen(p) && x > 0 && s > 0
    ensures PoolSpread(p, true, x).Ok?
    ensures PoolSpread(p, true, x).value >= s <==>
            p.minSpread >= s || (x - ConstantProductPays(p, true, x)) * ONE * ONE >= Limit(s) * x
  {
    PoolSpreadIs(p, true, x);
    QuoBelowIff(x - ConstantProductPays(p, true, x), x, s);
  }

  /**
   * Whether an offer of `n` Do leaves the pool positive, from the offer, the oracle rate and the pool:
   * no fee is needed, or the minimum spread is enough, or the constant product falls short by enough.
   */
  predicate LeavesPoolPositive(p: Pricing, n: nat, r: Dec)
    requires PoolOpen(p) && n > 0 && r > 0
  {
    var x, fee := FromInt(n), NeededFee(n * r, r, p.basePool + p.delta);
    MulAtLeast(n, 1, r);
    fee <= 0 || p.minSpread >= NeededSpread(n * r, fee)
    || (SpreadPositive(n * r, fee);
        (x - ConstantProductPays(p, true, x)) * ONE * ONE >= Limit(NeededSpread(n * r, fee)) * x)
  }

  lemma SpreadPositive(price: Dec, fee: nat)
    requires price > 0 && fee > 0
    ensures NeededSpread(price, fee) > 0
  {
    PositiveLimit(fee, 1);
  }

  /** Selling Do in fixed point leaves the pool positive exactly under that condition on the offer. */
  lemma SellDoPositiveIff(p: Pricing, n: nat, ask: Denom, r: Dec, price: Dec, fee: Dec, delta': Dec)
    requires PoolOpen(p) && n > 0 && ask != MicroDo && Rate(p, ask) == Ok(r) && r > 0
    requires Priced(p, Coin(MicroDo, n), ask, price, fee)
    requires DeltaAfter(p, Coin(MicroDo, n), DecCoin(ask, price - fee)) == Ok(delta')
    ensures p.basePool + delta' > 0 <==> LeavesPoolPositive(p, n, r)
  {
    var pool, x := p.basePool + p.delta, FromInt(n);
    var needed := NeededFee(n * r, r, pool);
    PricedFromPool(p, n, ask, r, price, fee);
    PayoutBelowPoolIff(p, n, ask, r, price, fee, delta');
    FeeIff(price, fee, r, pool);
    if needed > 0 {
      SpreadIff(price, PoolSpread(p, true, x).value, needed);
      SpreadPositive(price, needed);
      ChargedIff(p, x, NeededSpread(price, needed));
    }
  }

  /**
   * In fixed point the Do pool stays positive whenever the constant product leaves more than one
   * last-place unit per Do offered, one more, and half a unit scaled by the inverse price.
   */
  lemma SellDoKeepsPoolPositive(p: Pricing, n: nat, ask: Denom, r: Dec, price: Dec, fee: Dec, delta': Dec)
    requires PoolOpen(p) && n > 0 && ask != MicroDo && Rate(p, ask) == Ok(r) && r > 0
    requires Priced(p, Coin(MicroDo, n), ask, price, fee) && p.minSpread >= 0
    requires DeltaAfter(p, Coin(MicroDo, n), DecCoin(ask, price - fee)) == Ok(delta')
    requires 2 * r * (LeftInPool(p, n) - n - 1) > ONE
    ensures p.basePool + delta' > 0
  {
    SellDoBound(p, n, ask, r, price, fee, delta');
    PositiveFactor(2 * r, p.basePool + delta');
  }

  lemma PositiveFactor(a: int, b: int)
    requires a > 0 && a * b > 0
    ensures b > 0
  {
  }

  const Sdr: Denom := [0x75, 0x73, 0x64, 0x72]

  /** A pool of a million Do at equilibrium, a 2% minimum spread and an asset at par. */
  const Example: Pricing := Pricing(map[Sdr := ONE], map[], 1_000_000 * ONE, 20_000_000_000_000_000, 0)

  const Huge: nat := 1_600_000_000_000_000_000_000_000

  /**
   * In fixed point the pool can be driven below zero: the spread on a huge offer, rounded to 18
   * digits, leaves more for the trader than the pool holds.
   */
  lemma HugeOfferOverdrawsPool()
    ensures PoolOpen(Example) && Huge < MaxOffer
    ensures PoolSpread(Example, true, FromInt(Huge)) == Ok(ONE - 1)
    ensures Priced(Example, Coin(MicroDo, Huge), Sdr, FromInt(Huge), FromInt(Huge) - 1_600_000 * ONE)
    ensures DeltaAfter(Example, Coin(MicroDo, Huge), DecCoin(Sdr, 1_600_000 * ONE)) == Ok(-1_600_000 * ONE)
    ensures Example.basePool - 1_600_000 * ONE < 0
  {
    assert MicroDo != Sdr;
    var x := FromInt(Huge);
    assert Mul(Example.basePool, Example.basePool) == 1_000_000_000_000 * ONE;
    assert Quo(1_000_000_000_000 * ONE, 1_000_000 * ONE) == 1_000_000 * ONE;
    assert Quo(1_000_000_000_000 * ONE, 1_000_000 * ONE + x) == 625_000;
    assert Quo(x - (1_000_000 * ONE - 625_000), x) == ONE - 1;
    WholePrice(Example, Huge, Sdr, ONE);
    assert Mul(ONE - 1, x) == x - 1_600_000 * ONE;
    MulByOne(1_600_000 * ONE);
    QuoByOne(1_600_000 * ONE);
  }
}
