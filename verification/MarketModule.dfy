/** Executing a swap: pool update, burn, mint and the two payouts. */
module MarketModule {
  import opened Bytes
  import opened Decimals
  import opened MarketSwap

  type Account = Bytes

  const MarketAccount: Account := [0x6d, 0x61, 0x72, 0x6b, 0x65, 0x74]
  const OracleAccount: Account := [0x6f, 0x72, 0x61, 0x63, 0x6c, 0x65]

  // ---- the bank

  datatype Bank = Bank(balances: map<(Account, Denom), int>, supply: map<Denom, int>)

  function Balance(b: Bank, a: Account, d: Denom): int {
    if (a, d) in b.balances then b.balances[(a, d)] else 0
  }

  function Supply(b: Bank, d: Denom): int {
    if d in b.supply then b.supply[d] else 0
  }

  function Credit(b: Bank, a: Account, c: Coin): Bank {
    b.(balances := b.balances[(a, c.denom) := Balance(b, a, c.denom) + c.amount])
  }

  function AddSupply(b: Bank, c: Coin): Bank {
    b.(supply := b.supply[c.denom := Supply(b, c.denom) + c.amount])
  }

  function Negate(c: Coin): Coin { Coin(c.denom, -c.amount) }

  function Send(b: Bank, sender: Account, receiver: Account, c: Coin): Result<Bank> {
    if Balance(b, sender, c.denom) < c.amount then Fail(InsufficientFunds)
    else Ok(Credit(Credit(b, sender, Negate(c)), receiver, c))
  }

  function Mint(b: Bank, a: Account, c: Coin): Bank {
    AddSupply(Credit(b, a, c), c)
  }

  function Burn(b: Bank, a: Account, c: Coin): Result<Bank> {
    if Balance(b, a, c.denom) < c.amount then Fail(InsufficientFunds)
    else Ok(Mint(b, a, Negate(c)))
  }

  lemma CreditEffect(b: Bank, who: Account, c: Coin)
    ensures forall a, d :: Balance(Credit(b, who, c), a, d) == Balance(b, a, d) + Share(a, d, who, c)
    ensures forall d :: Supply(Credit(b, who, c), d) == Supply(b, d)
  {
  }

  lemma SendEffect(b: Bank, sender: Account, receiver: Account, c: Coin)
    requires Send(b, sender, receiver, c).Ok?
    ensures var b' := Send(b, sender, receiver, c).value;
            && (forall a, d :: Balance(b', a, d) ==
                  Balance(b, a, d) + Share(a, d, sender, Negate(c)) + Share(a, d, receiver, c))
            && (forall d :: Supply(b', d) == Supply(b, d))
  {
    CreditEffect(b, sender, Negate(c));
    CreditEffect(Credit(b, sender, Negate(c)), receiver, c);
  }

  /** Minting, and with a negative amount burning. */
  lemma MintEffect(b: Bank, who: Account, c: Coin)
    ensures var b' := Mint(b, who, c);
            && (forall a, d :: Balance(b', a, d) == Balance(b, a, d) + Share(a, d, who, c))
            && (forall d :: Supply(b', d) == Supply(b, d) + (if d == c.denom then c.amount else 0))
  {
    CreditEffect(b, who, c);
  }

  // ---- the module

  /** The pool delta after a swap that offers `offer` and pays `paid` before rounding. */
  function DeltaAfter(p: Pricing, offer: Coin, paid: DecCoin): Result<Dec> {
    if offer.denom != MicroDo && paid.denom != MicroDo then Ok(p.delta)
    else if offer.denom != MicroDo && paid.denom == MicroDo then
      var base :- ComputeInternalSwap(p, DecCoin(offer.denom, FromInt(offer.amount)), MicroDo);
      Ok(p.delta + base.amount)
    else if offer.denom == MicroDo && paid.denom != MicroDo then
      var base :- ComputeInternalSwap(p, paid, MicroDo);
      Ok(p.delta - base.amount)
    else Ok(p.delta)
  }

  predicate PoolAfter(p: Pricing, offer: Coin, ask: Denom, paid: Dec, delta': Dec) {
    DeltaAfter(p, offer, DecCoin(ask, paid)) == Ok(delta')
  }

  const MaxOffer: int := 1_267_650_600_228_229_401_496_703_205_376  // 2^100

  /** The coin the swap query quotes. */
  function SimulateSwap(p: Pricing, offer: Coin, ask: Denom): Result<Coin> {
    if ask == offer.denom then Fail(RecursiveSwap)
    else if offer.amount >= MaxOffer || offer.amount <= -MaxOffer then Fail(InvalidCoins)
    else
      var (ret, spread) :- ComputeSwap(p, offer, ask);
      var fee := Fee(ret.amount, spread);
      if fee > 0 && fee > ret.amount then Fail(Panic)
      else Ok(Coin(ret.denom, Whole(if fee > 0 then ret.amount - fee else ret.amount)))
  }

  ghost predicate Funded(b: Bank) {
    forall a, d :: Balance(b, a, d) >= 0
  }

  function Share(a: Account, d: Denom, who: Account, c: Coin): int {
    if a == who && d == c.denom then c.amount else 0
  }

  /** One account changes by `c` and another by `c'`, out of or into the supply; no other account changes. */
  ghost predicate Moved(b: Bank, b': Bank, who: Account, c: Coin, who': Account, c': Coin)
    requires c.denom == c'.denom
  {
    && (forall a, d :: Balance(b', a, d) == Balance(b, a, d) + Share(a, d, who, c) + Share(a, d, who', c'))
    && (forall d :: Supply(b', d) == Supply(b, d) + (if d == c.denom then c.amount + c'.amount else 0))
  }

  /** What each account and each supply changes by in a completed swap. */
  ghost predicate Settled(b: Bank, b': Bank, trader: Account, receiver: Account, offer: Coin, swap: Coin, fee: Coin) {
    && (forall a, d :: Balance(b', a, d) == Balance(b, a, d)
          - (if a == trader && d == offer.denom then offer.amount else 0)
          + (if a == receiver && d == swap.denom then swap.amount else 0)
          + (if a == OracleAccount && d == swap.denom then fee.amount else 0))
    && (forall d :: Supply(b', d) == Supply(b, d)
          - (if d == offer.denom then offer.amount else 0)
          + (if d == swap.denom then swap.amount + fee.amount else 0))
  }

  class Market {
    var pricing: Pricing
    var bank: Bank

    constructor (pricing: Pricing, bank: Bank)
      ensures this.pricing == pricing && this.bank == bank
    {
      this.pricing, this.bank := pricing, bank;
    }

    method ApplySwapToPool(offer: Coin, paid: DecCoin) returns (r: Result<()>)
      modifies this`pricing
      ensures r.Ok? ==> DeltaAfter(old(pricing), offer, paid) == Ok(pricing.delta)
      ensures r.Fail? ==> DeltaAfter(old(pricing), offer, paid) == Fail(r.error) && r.error != InsufficientFunds
      ensures pricing == old(pricing).(delta := pricing.delta)
    {
      if offer.denom != MicroDo && paid.denom != MicroDo {
        return Ok(());
      }
      var delta := pricing.delta;
      if offer.denom != MicroDo && paid.denom == MicroDo {
        var base := ComputeInternalSwap(pricing, DecCoin(offer.denom, FromInt(offer.amount)), MicroDo);
        if base.Fail? { return Fail(base.error); }
        delta := delta + base.value.amount;
      }
      if offer.denom == MicroDo && paid.denom != MicroDo {
        var base := ComputeInternalSwap(pricing, paid, MicroDo);
        if base.Fail? { return Fail(base.error); }
        delta := delta - base.value.amount;
      }
      pricing := pricing.(delta := delta);
      return Ok(());
    }

    /** The trader's offer moves to the market account and is burnt there. */
    method TakeOffer(trader: Account, offer: Coin) returns (r: Result<()>)
      requires offer.amount > 0 && Funded(bank)
      modifies this`bank
      ensures r.Ok? <==> old(Balance(bank, trader, offer.denom)) >= offer.amount
      ensures r.Ok? ==> Funded(bank) && Moved(old(bank), bank, trader, Negate(offer), MarketAccount, Coin(offer.denom, 0))
      ensures r.Fail? ==> r.error == InsufficientFunds
    {
      var sent := Send(bank, trader, MarketAccount, offer);
      if sent.Fail? { return Fail(sent.error); }
      SendEffect(bank, trader, MarketAccount, offer);
      bank := sent.value;
      var burnt := Burn(bank, MarketAccount, offer);
      if burnt.Fail? { return Fail(InsufficientFunds); }
      MintEffect(bank, MarketAccount, Negate(offer));
      bank := burnt.value;
      return Ok(());
    }

    /** The priced amount is minted to the market account and paid out of it; the account cannot run short. */
    method PayOut(receiver: Account, swap: Coin, fee: Coin) returns (r: Result<()>)
      requires swap.amount > 0 && fee.amount >= 0 && swap.denom == fee.denom && Funded(bank)
      modifies this`bank
      ensures r.Ok? && Funded(bank) && Moved(old(bank), bank, receiver, swap, OracleAccount, fee)
    {
      var minted := Coin(swap.denom, swap.amount + fee.amount);
      MintEffect(bank, MarketAccount, minted);
      bank := Mint(bank, MarketAccount, minted);
      var paidOut := Send(bank, MarketAccount, receiver, swap);
      if paidOut.Fail? { return Fail(InsufficientFunds); }
      SendEffect(bank, MarketAccount, receiver, swap);
      bank := paidOut.value;
      if fee.amount > 0 {
        var feeSent := Send(bank, MarketAccount, OracleAccount, fee);
        if feeSent.Fail? { return Fail(InsufficientFunds); }
        SendEffect(bank, MarketAccount, OracleAccount, fee);
        bank := feeSent.value;
      }
      return Ok(());
    }

    /** Pricing a swap, taking the fee off and moving the pool. */
    method PriceAndPool(offer: Coin, ask: Denom) returns (r: Result<(Dec, Dec)>)
      requires offer.amount > 0
      modifies this`pricing
      ensures r.Ok? <==> Sellable(old(pricing), offer, ask)
      ensures r.Ok? ==> Priced(old(pricing), offer, ask, r.value.0, r.value.1)
                        && PoolAfter(old(pricing), offer, ask, r.value.0 - r.value.1, pricing.delta)
                        && pricing == old(pricing).(delta := pricing.delta)
      ensures r.Fail? ==> r.error != InsufficientFunds
    {
      var q := ComputeSwap(pricing, offer, ask);
      PricedAmount(pricing, offer, ask);
      if q.Fail? { return Fail(q.error); }
      var (ret, spread) := q.value;
      var fee := Fee(ret.amount, spread);
      var applied := ApplySwapToPool(offer, DecCoin(ret.denom, ret.amount - fee));
      if applied.Fail? { return Fail(applied.error); }
      return Ok((ret.amount, fee));
    }

    /**
     * A completed swap burns exactly the offer, mints exactly the whole part of the oracle-priced
     * amount whatever the spread, and splits it between the receiver and the oracle account; the
     * market account ends as it began.  It lacks funds only if the trader does.
     */
    method HandleSwap(trader: Account, receiver: Account, offer: Coin, ask: Denom)
      returns (r: Result<(Coin, Coin)>, ghost price: Dec, ghost charged: Dec)
      requires offer.amount > 0 && Funded(bank)
      modifies this
      ensures r.Ok? ==>
                var (swap, fee) := r.value;
                && Priced(old(pricing), offer, ask, price, charged)
                && swap == Coin(ask, Whole(price - charged)) && swap.amount > 0 && fee.amount >= 0
                && fee == Coin(ask, Whole(price) - swap.amount)
                && Settled(old(bank), bank, trader, receiver, offer, swap, fee)
                && PoolAfter(old(pricing), offer, ask, price - charged, pricing.delta)
      ensures r.Ok? ==> pricing == old(pricing).(delta := pricing.delta)
      ensures r.Ok? <==> Completes(old(pricing), old(bank), trader, offer, ask)
      ensures r.Ok? ==> MovesPool(offer.denom, ask, old(pricing.delta), pricing.delta)
      ensures r.Ok? && offer.amount < MaxOffer ==> SimulateSwap(old(pricing), offer, ask) == Ok(r.value.0)
      ensures r == Fail(InsufficientFunds) ==> old(Balance(bank, trader, offer.denom)) < offer.amount
    {
      price, charged := 0, 0;
      var priced := PriceAndPool(offer, ask);
      if priced.Fail? { return Fail(priced.error), 0, 0; }
      var (ret, feeDec) := priced.value;
      price, charged := ret, feeDec;
      SwapFacts(old(pricing), old(bank), trader, offer, ask, ret, feeDec, pricing.delta);
      r := Settle(trader, receiver, offer, ask, ret, feeDec);
    }

    /** Burning the offer, minting the priced amount and splitting it. */
    method Settle(trader: Account, receiver: Account, offer: Coin, ask: Denom, price: Dec, charged: Dec)
      returns (r: Result<(Coin, Coin)>)
      requires offer.amount > 0 && Funded(bank) && price > 0 && charged >= 0
      modifies this`bank
      ensures r.Ok? <==> old(Balance(bank, trader, offer.denom)) >= offer.amount && Whole(price - charged) > 0
      ensures r.Ok? ==>
                var (swap, fee) := r.value;
                && swap == Coin(ask, Whole(price - charged)) && swap.amount > 0 && fee.amount >= 0
                && fee == Coin(ask, Whole(price) - swap.amount)
                && Settled(old(bank), bank, trader, receiver, offer, swap, fee)
      ensures r == Fail(InsufficientFunds) ==> old(Balance(bank, trader, offer.denom)) < offer.amount
    {
      var taken := TakeOffer(trader, offer);
      if taken.Fail? { return Fail(taken.error); }

      var swap := Coin(ask, Whole(price - charged));
      if swap.amount <= 0 { return Fail(ZeroSwapCoin); }
      var fee := Coin(ask, Whole(charged + Remainder(price - charged)));
      SplitIsExact(price, charged);

      ghost var between := bank;
      var paidOut := PayOut(receiver, swap, fee);
      MovesSettle(old(bank), between, bank, trader, receiver, offer, swap, fee);
      r := Ok((swap, fee));
    }
  }

  lemma MovesSettle(b0: Bank, b1: Bank, b2: Bank, trader: Account, receiver: Account, offer: Coin, swap: Coin, fee: Coin)
    requires swap.denom == fee.denom
    requires Moved(b0, b1, trader, Negate(offer), MarketAccount, Coin(offer.denom, 0))
    requires Moved(b1, b2, receiver, swap, OracleAccount, fee)
    ensures Settled(b0, b2, trader, receiver, offer, swap, fee)
  {
  }

  /** The oracle price of a swap and the fee charged on it. */
  predicate Priced(p: Pricing, offer: Coin, ask: Denom, price: Dec, fee: Dec) {
    match ComputeSwap(p, offer, ask)
    case Fail(_) => false
    case Ok((ret, spread)) => ret == DecCoin(ask, price) && price > 0 && fee == Fee(price, spread) >= 0
  }

  /** Do bought from the pool with another asset widens it, Do sold narrows it, other swaps leave it. */
  predicate MovesPool(offer: Denom, ask: Denom, delta: Dec, delta': Dec) {
    if offer == MicroDo then delta' < delta else if ask == MicroDo then delta' > delta else delta' == delta
  }

  /** What follows once a priced swap pays at least one coin. */
  lemma SwapFacts(p: Pricing, b: Bank, trader: Account, offer: Coin, ask: Denom, price: Dec, fee: Dec, delta': Dec)
    requires offer.amount > 0 && Priced(p, offer, ask, price, fee) && PoolAfter(p, offer, ask, price - fee, delta')
    ensures Completes(p, b, trader, offer, ask) <==> Balance(b, trader, offer.denom) >= offer.amount && Whole(price - fee) > 0
    ensures Whole(price - fee) > 0 ==> MovesPool(offer.denom, ask, p.delta, delta')
    ensures Whole(price - fee) > 0 && offer.amount < MaxOffer ==> SimulateSwap(p, offer, ask) == Ok(Coin(ask, Whole(price - fee)))
  {
    if Whole(price - fee) > 0 {
      SwapMovesPool(p, offer, ask, price - fee, delta');
      if offer.amount < MaxOffer { QuoteIsDelivered(p, offer, ask, price, fee); }
    }
  }

  lemma SwapMovesPool(p: Pricing, offer: Coin, ask: Denom, paid: Dec, delta': Dec)
    requires offer.amount > 0 && offer.denom != ask && Whole(paid) > 0
    requires DeltaAfter(p, offer, DecCoin(ask, paid)) == Ok(delta')
    ensures MovesPool(offer.denom, ask, p.delta, delta')
  {
    PoolMoves(p, offer, DecCoin(ask, paid), delta');
  }

  lemma PricedAmount(p: Pricing, offer: Coin, ask: Denom)
    requires offer.amount > 0
    ensures match ComputeSwap(p, offer, ask)
            case Fail(e) => e != InsufficientFunds
            case Ok((ret, spread)) => ret.denom == ask && ret.amount > 0 && Fee(ret.amount, spread) >= 0
  {
    var q := ComputeSwap(p, offer, ask);
    if q.Ok? { FeeNonNegative(q.value.0.amount, q.value.1); }
  }

  lemma FeeNonNegative(price: Dec, spread: Dec)
    ensures price > 0 ==> Fee(price, spread) >= 0
  {
    if price > 0 && spread > 0 { assert spread * price > 0; }
  }

  /** Whether a swap goes through: it is priced, moves the pool, is funded, and pays at least one coin. */
  predicate Completes(p: Pricing, b: Bank, trader: Account, offer: Coin, ask: Denom) {
    Sellable(p, offer, ask) && Balance(b, trader, offer.denom) >= offer.amount && Whole(Paid(p, offer, ask)) > 0
  }

  /** What a priced swap pays before it is cut to whole coins. */
  function Paid(p: Pricing, offer: Coin, ask: Denom): Dec
    requires ComputeSwap(p, offer, ask).Ok?
  {
    var (ret, spread) := ComputeSwap(p, offer, ask).value;
    ret.amount - Fee(ret.amount, spread)
  }

  predicate Sellable(p: Pricing, offer: Coin, ask: Denom) {
    ComputeSwap(p, offer, ask).Ok? && DeltaAfter(p, offer, DecCoin(ask, Paid(p, offer, ask))).Ok?
  }

  /** The pool grows by the offer in Do when Do is bought, shrinks by the payout in Do when it is sold. */
  lemma PoolMoves(p: Pricing, offer: Coin, paid: DecCoin, delta': Dec)
    requires offer.amount > 0 && DeltaAfter(p, offer, paid) == Ok(delta')
    ensures offer.denom != MicroDo && paid.denom != MicroDo ==> delta' == p.delta
    ensures offer.denom != MicroDo && paid.denom == MicroDo ==>
              && Quoted(p, offer.denom) && delta' > p.delta
              && -RateIn(p, offer.denom) <= FromInt(offer.amount) * ONE - (delta' - p.delta) * RateIn(p, offer.denom) <= RateIn(p, offer.denom)
    ensures offer.denom == MicroDo && paid.denom != MicroDo && paid.amount > 0 ==>
              && Quoted(p, paid.denom) && delta' < p.delta
              && -RateIn(p, paid.denom) <= paid.amount * ONE - (p.delta - delta') * RateIn(p, paid.denom) <= RateIn(p, paid.denom)
  {
    if offer.denom != MicroDo && paid.denom == MicroDo {
      InDo(p, offer.denom, offer.amount);
      QuoError(FromInt(offer.amount), RateIn(p, offer.denom));
    }
    if offer.denom == MicroDo && paid.denom != MicroDo && paid.amount > 0 {
      MulByOne(paid.amount);
      if p.rates[paid.denom] < 0 { QuoOfNegative(paid.amount, p.rates[paid.denom]); }
      QuoError(paid.amount, RateIn(p, paid.denom));
    }
  }

  /** When the query answers, and with what: the whole coins of the price less the fee. */
  lemma QuoteIff(p: Pricing, offer: Coin, ask: Denom)
    ensures var q, r := ComputeSwap(p, offer, ask), SimulateSwap(p, offer, ask);
            && (r.Ok? <==> -0x10_0000_0000_0000_0000_0000_0000 < offer.amount < 0x10_0000_0000_0000_0000_0000_0000
                           && q.Ok? && (Fee(q.value.0.amount, q.value.1) > 0 ==> Fee(q.value.0.amount, q.value.1) <= q.value.0.amount))
            && (r.Ok? && q.value.0.amount > 0 && Fee(q.value.0.amount, q.value.1) >= 0 ==>
                  0 <= q.value.0.amount - Fee(q.value.0.amount, q.value.1) - r.value.amount * ONE < ONE)
  {
    var q := ComputeSwap(p, offer, ask);
    if q.Ok? { TruncDivIs(q.value.0.amount - Fee(q.value.0.amount, q.value.1), ONE); }
  }

  /** The query quotes exactly the coin a swap from the same state delivers. */
  lemma QuoteIsDelivered(p: Pricing, offer: Coin, ask: Denom, price: Dec, fee: Dec)
    requires Priced(p, offer, ask, price, fee) && -MaxOffer < offer.amount < MaxOffer
    requires Whole(price - fee) > 0
    ensures SimulateSwap(p, offer, ask) == Ok(Coin(ask, Whole(price - fee)))
  {
  }
}
