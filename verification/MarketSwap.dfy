/** Swap pricing of the market module: oracle conversion and the constant-product spread. */
module MarketSwap {
  import opened Bytes
  import opened Decimals

  type Denom = Bytes

  const MicroDo: Denom := [0x75, 0x64, 0x6f]

  datatype Error =
    | RecursiveSwap | NoEffectivePrice | InvalidCoins | NoTobinTax | ZeroSwapCoin | InsufficientFunds
    | Panic

  datatype Result<+T> = Ok(value: T) | Fail(error: Error) {
    predicate IsFailure() { Fail? }
    function PropagateFailure<U>(): Result<U>
      requires Fail?
    {
      Fail(error)
    }
    function Extract(): T
      requires Ok?
    {
      value
    }
  }

  datatype DecCoin = DecCoin(denom: Denom, amount: Dec)
  datatype Coin = Coin(denom: Denom, amount: int)

  /** What a swap is priced from: the oracle's rates and taxes, the parameters and the pool delta. */
  datatype Pricing = Pricing(
    rates: map<Denom, Dec>, taxes: map<Denom, Dec>, basePool: Dec, minSpread: Dec, delta: Dec)

  function Rate(p: Pricing, d: Denom): Result<Dec> {
    if d == MicroDo then Ok(ONE) else if d in p.rates then Ok(p.rates[d]) else Fail(NoEffectivePrice)
  }

  function Tax(p: Pricing, d: Denom): Result<Dec> {
    if d in p.taxes then Ok(p.taxes[d]) else Fail(NoTobinTax)
  }

  function SafeQuo(a: Dec, b: Dec): Result<Dec> {
    if b == 0 then Fail(Panic) else Ok(Quo(a, b))
  }

  /** Conversion at the oracle price, without a spread. */
  function ComputeInternalSwap(p: Pricing, offer: DecCoin, ask: Denom): Result<DecCoin> {
    if offer.denom == ask then Ok(offer)
    else
      var offerRate :- Rate(p, offer.denom);
      var askRate :- Rate(p, ask);
      var amount :- SafeQuo(Mul(offer.amount, askRate), offerRate);
      if amount <= 0 then Fail(InvalidCoins) else Ok(DecCoin(ask, amount))
  }

  /** The spread of a swap with Do on one side, `x` being the offer in Do. */
  function PoolSpread(p: Pricing, offerIsDo: bool, x: Dec): Result<Dec> {
    var cp := Mul(p.basePool, p.basePool);
    var doPool := p.basePool + p.delta;
    var assetPool :- SafeQuo(cp, doPool);
    var offerPool, askPool := if offerIsDo then assetPool else doPool, if offerIsDo then doPool else assetPool;
    var left :- SafeQuo(cp, offerPool + x);
    var spread :- SafeQuo(x - (askPool - left), x);
    Ok(if spread < p.minSpread then p.minSpread else spread)
  }

  /** The oracle-priced amount and the spread to charge on it. */
  function ComputeSwap(p: Pricing, offer: Coin, ask: Denom): Result<(DecCoin, Dec)> {
    if offer.denom == ask then Fail(RecursiveSwap)
    else
      var base :- ComputeInternalSwap(p, DecCoin(offer.denom, FromInt(offer.amount)), MicroDo);
      var ret :- ComputeInternalSwap(p, base, ask);
      if offer.denom != MicroDo && ask != MicroDo then
        var offerTax :- Tax(p, offer.denom);
        var askTax :- Tax(p, ask);
        Ok((ret, if askTax > offerTax then askTax else offerTax))
      else
        var spread :- PoolSpread(p, offer.denom == MicroDo, base.amount);
        Ok((ret, spread))
  }

  // ---- prices and taxes

  /** A swap without Do is charged the higher of the two tobin taxes. */
  lemma TobinTaxCharged(p: Pricing, offer: Coin, ask: Denom)
    requires offer.denom != MicroDo && ask != MicroDo && ComputeSwap(p, offer, ask).Ok?
    ensures offer.denom in p.taxes && ask in p.taxes
    ensures var spread := ComputeSwap(p, offer, ask).value.1;
            && spread >= p.taxes[offer.denom] && spread >= p.taxes[ask]
            && (spread == p.taxes[offer.denom] || spread == p.taxes[ask])
  {
  }

  /** What the oracle says one Do is worth, Do itself being worth one. */
  function RateIn(p: Pricing, d: Denom): Dec
    requires d == MicroDo || d in p.rates
  {
    if d == MicroDo then ONE else p.rates[d]
  }

  predicate Quoted(p: Pricing, d: Denom) {
    d == MicroDo || (d in p.rates && p.rates[d] > 0)
  }

  lemma QuoByOne(a: Dec)
    ensures Quo(a, ONE) == a
  {
    assert TruncDiv(a * ONE * ONE, ONE) == a * ONE;
    RoundExact(a);
  }

  lemma MulByOne(a: Dec)
    ensures Mul(a, ONE) == a
  {
    RoundExact(a);
  }

  lemma QuoOfNegative(a: Dec, b: Dec)
    requires a >= 0 && b < 0
    ensures Quo(a, b) <= 0
  {
    var n := a * ONE * ONE;
    assert TruncDiv(n, b) == -(n / -b);
    RoundMonotone(TruncDiv(n, b), 0);
  }

  /** Converting an offer to Do: the offer over its rate. */
  lemma InDo(p: Pricing, d: Denom, n: nat)
    requires n > 0
    ensures var base := ComputeInternalSwap(p, DecCoin(d, FromInt(n)), MicroDo);
            if Quoted(p, d) && Quo(FromInt(n), RateIn(p, d)) > 0 then base == Ok(DecCoin(MicroDo, Quo(FromInt(n), RateIn(p, d))))
            else base.Fail?
  {
    MulByOne(FromInt(n));
    QuoByOne(FromInt(n));
    if d != MicroDo && d in p.rates && p.rates[d] < 0 { QuoOfNegative(FromInt(n), p.rates[d]); }
  }

  /** Converting Do to what is asked for: the amount times the rate. */
  lemma FromDo(p: Pricing, x: Dec, ask: Denom)
    requires x > 0
    ensures var ret := ComputeInternalSwap(p, DecCoin(MicroDo, x), ask);
            if Quoted(p, ask) && Mul(x, RateIn(p, ask)) > 0 then ret == Ok(DecCoin(ask, Mul(x, RateIn(p, ask))))
            else ret.Fail?
  {
    MulByOne(x);
    if ask != MicroDo && ask in p.rates {
      QuoByOne(Mul(x, p.rates[ask]));
      if p.rates[ask] <= 0 {
        MulAtLeast(0, p.rates[ask], x);
        RoundMonotone(x * p.rates[ask], 0);
      }
    }
  }

  /** The offer in Do and the oracle price of it. */
  function OfferInDo(p: Pricing, offer: Coin): Dec
    requires Quoted(p, offer.denom)
  {
    Quo(FromInt(offer.amount), RateIn(p, offer.denom))
  }

  function OraclePrice(p: Pricing, offer: Coin, ask: Denom): Dec
    requires Quoted(p, offer.denom) && Quoted(p, ask)
  {
    Mul(OfferInDo(p, offer), RateIn(p, ask))
  }

  /**
   * Exactly which swaps are priced: different denoms with positive rates, an offer and a price that do
   * not round to nothing, and without Do both taxes known.
   */
  lemma PricedIff(p: Pricing, offer: Coin, ask: Denom)
    requires offer.amount > 0 && PoolOpen(p)
    ensures ComputeSwap(p, offer, ask).Ok? <==>
            && offer.denom != ask && Quoted(p, offer.denom) && Quoted(p, ask)
            && OfferInDo(p, offer) > 0 && OraclePrice(p, offer, ask) > 0
            && (offer.denom == MicroDo || ask == MicroDo || (offer.denom in p.taxes && ask in p.taxes))
    ensures ComputeSwap(p, offer, ask).Ok? ==>
            ComputeSwap(p, offer, ask).value.0 == DecCoin(ask, OraclePrice(p, offer, ask))
  {
    InDo(p, offer.denom, offer.amount);
    if Quoted(p, offer.denom) && OfferInDo(p, offer) > 0 {
      FromDo(p, OfferInDo(p, offer), ask);
      PoolSpreadIs(p, offer.denom == MicroDo, OfferInDo(p, offer));
    }
  }

  /** Up to the roundings, the price over the rate of what is asked for is the offer over its own. */
  lemma ValueKept(p: Pricing, offer: Coin, ask: Denom)
    requires offer.amount > 0 && Quoted(p, offer.denom) && Quoted(p, ask)
    ensures var sold, bought := RateIn(p, offer.denom), RateIn(p, ask);
            -((HALF + bought) * sold)
            <= OraclePrice(p, offer, ask) * ONE * sold - offer.amount * ONE * ONE * bought
            <= (HALF + bought) * sold
  {
    var sold, bought, x := RateIn(p, offer.denom), RateIn(p, ask), OfferInDo(p, offer);
    QuoError(FromInt(offer.amount), sold);
    RoundError(x * bought);
    ValueStep(offer.amount, sold, bought, x, OraclePrice(p, offer, ask));
  }

  lemma ValueStep(n: int, sold: int, bought: int, x: int, price: int)
    requires sold > 0 && bought > 0
    requires -sold <= FromInt(n) * ONE - x * sold <= sold && -HALF <= x * bought - ONE * price <= HALF
    ensures -((HALF + bought) * sold) <= price * ONE * sold - n * ONE * ONE * bought <= (HALF + bought) * sold
  {
    var e, f := FromInt(n) * ONE - x * sold, x * bought - ONE * price;
    MulAtLeast(sold, e, bought);
    MulAtLeast(e, -sold, bought);
    MulAtLeast(HALF, f, sold);
    MulAtLeast(f, -HALF, sold);
    assert e * bought == n * ONE * ONE * bought - x * sold * bought;
    assert f * sold == x * bought * sold - ONE * price * sold;
    assert x * sold * bought == x * bought * sold;
    assert price * ONE * sold == ONE * price * sold;
    assert price * ONE * sold - n * ONE * ONE * bought == -(e * bought) - f * sold;
    assert (HALF + bought) * sold == HALF * sold + bought * sold && sold * bought == bought * sold;
    assert (-sold) * bought == -(sold * bought) && (-HALF) * sold == -(HALF * sold);
  }

  // ---- the spread lies between the minimum and one

  /** A share of at most the whole is at most one. */
  lemma QuoAtMostOne(a: Dec, b: Dec)
    requires b > 0 && a <= b
    ensures Quo(a, b) <= ONE
  {
    var t := TruncDiv(a * ONE * ONE, b);
    if a >= 0 {
      assert a * ONE * ONE < (ONE * ONE + 1) * b;
      DivAtMost(a * ONE * ONE, b, ONE * ONE);
    } else {
      DivisionBounds(-(a * ONE * ONE), b);
    }
    RoundMonotone(t, ONE * ONE);
    RoundExact(ONE);
  }

  /**
   * The pool recomputed from a rounded quotient: dividing by `cp / d` and at least one last-place
   * unit more never gives back more than `d`.
   */
  lemma QuoOfQuo(cp: Dec, d: Dec, x: Dec)
    requires cp >= 0 && d > 0 && x > 0
    ensures Quo(cp, d) >= 0 && Quo(cp, Quo(cp, d) + x) <= d
  {
    var n := cp * ONE * ONE;
    var a := Quo(cp, d);
    QuoAntitone(cp, d, d);
    RoundError(n / d);
    DivisionBounds(n, d);
    assert ONE * (a + x) >= n / d + 1;
    assert (ONE * (a + x)) * d >= (n / d + 1) * d by { MulAtLeast(ONE * (a + x), n / d + 1, d); }
    assert (d * ONE) * (a + x) == (ONE * (a + x)) * d;
    assert n < (d * ONE + 1) * (a + x);
    DivAtMost(n, a + x, d * ONE);
    RoundMonotone(n / (a + x), d * ONE);
    RoundExact(d);
  }

  /** The base pool may be zero, but the pool itself must be positive. */
  predicate PoolOpen(p: Pricing) {
    p.basePool >= 0 && p.basePool + p.delta > 0
  }

  lemma SquareNonNegative(b: Dec)
    requires b >= 0
    ensures Mul(b, b) >= 0
  {
    assert b * b >= 0;
  }

  /** The two pools, the offered side first: Do itself, and the other asset valued in Do. */
  function Pools(p: Pricing, offerIsDo: bool): (Dec, Dec)
    requires p.basePool + p.delta > 0
  {
    var doPool := p.basePool + p.delta;
    var assetPool := Quo(Mul(p.basePool, p.basePool), doPool);
    if offerIsDo then (assetPool, doPool) else (doPool, assetPool)
  }

  /** The Do the constant product pays for an offer of `x`. */
  function ConstantProductPays(p: Pricing, offerIsDo: bool, x: Dec): Dec
    requires PoolOpen(p) && x > 0
  {
    var (offerPool, askPool) := Pools(p, offerIsDo);
    SquareNonNegative(p.basePool);
    QuoAntitone(Mul(p.basePool, p.basePool), p.basePool + p.delta, p.basePool + p.delta);
    askPool - Quo(Mul(p.basePool, p.basePool), offerPool + x)
  }

  lemma PaysNonNegative(p: Pricing, offerIsDo: bool, x: Dec)
    requires PoolOpen(p) && x > 0
    ensures ConstantProductPays(p, offerIsDo, x) >= 0
  {
    var cp, d := Mul(p.basePool, p.basePool), p.basePool + p.delta;
    SquareNonNegative(p.basePool);
    if offerIsDo { QuoOfQuo(cp, d, x); } else { QuoAntitone(cp, d, d + x); }
  }

  lemma PoolSpreadIs(p: Pricing, offerIsDo: bool, x: Dec)
    requires PoolOpen(p) && x > 0
    ensures var s := Quo(x - ConstantProductPays(p, offerIsDo, x), x);
            PoolSpread(p, offerIsDo, x) == Ok(if s < p.minSpread then p.minSpread else s)
  {
    SquareNonNegative(p.basePool);
    QuoAntitone(Mul(p.basePool, p.basePool), p.basePool + p.delta, p.basePool + p.delta);
  }

  /**
   * With every rounding as the chain does it, the spread in either direction lies between the
   * configured minimum and one, for any positive offer down to a single last-place unit.
   */
  lemma SpreadInRange(p: Pricing, offerIsDo: bool, x: Dec)
    requires PoolOpen(p) && 0 <= p.minSpread <= ONE && x > 0
    ensures PoolSpread(p, offerIsDo, x).Ok? && p.minSpread <= PoolSpread(p, offerIsDo, x).value <= ONE
  {
    PaysNonNegative(p, offerIsDo, x);
    PoolSpreadIs(p, offerIsDo, x);
    QuoAtMostOne(x - ConstantProductPays(p, offerIsDo, x), x);
  }

  /**
   * What is left of an offer after the spread is at most what the constant product pays for it, plus
   * one last-place unit for each whole unit offered; and no less by more than that, unless the minimum
   * spread is charged.
   */
  lemma ChargesConstantProduct(p: Pricing, offerIsDo: bool, x: Dec)
    requires PoolOpen(p) && x > 0
    ensures PoolSpread(p, offerIsDo, x).Ok?
    ensures x * (ONE - PoolSpread(p, offerIsDo, x).value) <= ONE * ConstantProductPays(p, offerIsDo, x) + x
    ensures PoolSpread(p, offerIsDo, x).value > p.minSpread ==>
              x * (ONE - PoolSpread(p, offerIsDo, x).value) >= ONE * ConstantProductPays(p, offerIsDo, x) - x
  {
    PoolSpreadIs(p, offerIsDo, x);
    SpreadCharges(x, ConstantProductPays(p, offerIsDo, x), PoolSpread(p, offerIsDo, x).value);
  }

  lemma SpreadCharges(x: Dec, pays: Dec, s: Dec)
    requires x > 0 && s >= Quo(x - pays, x)
    ensures x * (ONE - s) <= ONE * pays + x
    ensures s == Quo(x - pays, x) ==> x * (ONE - s) >= ONE * pays - x
  {
    var s0 := Quo(x - pays, x);
    QuoError(x - pays, x);
    MulAtLeast(s, s0, x);
    assert x * (ONE - s) == x * ONE - s * x;
  }

  /**
   * The pools keep their product: a Do offer is added to the pool of the other asset and paid for out of
   * the Do pool, any other offer the other way round, each division rounded once.
   */
  lemma ProductKept(p: Pricing, offerIsDo: bool, x: Dec) returns (asset: Dec)
    requires PoolOpen(p) && x > 0
    ensures var cp, pool, pays := Mul(p.basePool, p.basePool), p.basePool + p.delta, ConstantProductPays(p, offerIsDo, x);
            && -pool <= cp * ONE - asset * pool <= pool
            && (if offerIsDo then -(asset + x) <= cp * ONE - (pool - pays) * (asset + x) <= asset + x
                else -(pool + x) <= cp * ONE - (asset - pays) * (pool + x) <= pool + x)
  {
    var cp, pool := Mul(p.basePool, p.basePool), p.basePool + p.delta;
    asset := Quo(cp, pool);
    SquareNonNegative(p.basePool);
    QuoAntitone(cp, pool, pool);
    QuoError(cp, pool);
    QuoError(cp, if offerIsDo then asset + x else pool + x);
  }

  /** Every priced swap between Do and another asset has its spread in range. */
  lemma ComputeSwapSpreadInRange(p: Pricing, offer: Coin, ask: Denom)
    requires PoolOpen(p) && 0 <= p.minSpread <= ONE && offer.amount >= 1
    requires offer.denom == MicroDo || ask == MicroDo
    requires ComputeSwap(p, offer, ask).Ok?
    ensures var (ret, spread) := ComputeSwap(p, offer, ask).value;
            ret.denom == ask && ret.amount > 0 && p.minSpread <= spread <= ONE
  {
    var base := ComputeInternalSwap(p, DecCoin(offer.denom, FromInt(offer.amount)), MicroDo).value;
    SpreadInRange(p, offer.denom == MicroDo, base.amount);
  }

  // ---- splitting the priced amount

  /** The fee charged on the priced amount, in decimals. */
  function Fee(ret: Dec, spread: Dec): Dec {
    if spread > 0 then Mul(spread, ret) else 0
  }

  /** It is the spread's share of the amount, up to half a last-place unit. */
  lemma FeeIs(ret: Dec, spread: Dec)
    requires spread >= 0
    ensures -HALF <= spread * ret - Fee(ret, spread) * ONE <= HALF
  {
    RoundError(spread * ret);
  }

  /** What the receiver gets of a priced amount after a fee. */
  function SwapAmount(ret: Dec, fee: Dec): int { Whole(ret - fee) }

  /** What the oracle account gets: the fee and the fraction cut from the receiver's share. */
  function FeeAmount(ret: Dec, fee: Dec): int { Whole(fee + Remainder(ret - fee)) }

  /** However large the fee, the two whole amounts add up to the whole part of the price. */
  lemma SplitIsExact(ret: Dec, fee: Dec)
    requires 0 <= fee <= ret
    ensures SwapAmount(ret, fee) + FeeAmount(ret, fee) == Whole(ret)
    ensures 0 <= SwapAmount(ret, fee) && 0 <= FeeAmount(ret, fee)
  {
    var w := Whole(ret - fee);
    assert fee + Remainder(ret - fee) == ret - w * ONE;
    assert w * ONE <= ret - fee;
    assert (ret - w * ONE) / ONE == ret / ONE - w;
  }
}
