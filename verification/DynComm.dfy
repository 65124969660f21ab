/** Dynamic commissions: the minimum rate by voting power and how validators are held to it. */
module DynComm {
  import opened Decimals

  // ---- the formula

  datatype Params = Params(maxZero: Dec, slopeBase: Dec, slopeVpImpact: Dec, cap: Dec)

  predicate ValidParams(p: Params) {
    p.slopeBase >= 0 && p.slopeVpImpact > 0 && 0 <= p.cap <= ONE && 0 <= p.maxZero <= ONE
  }

  /** The share of the total power, in percent. */
  function VotingPower(tokens: int, reduction: int, total: int): Dec
    requires reduction != 0 && total != 0
  {
    MulInt(QuoInt(FromInt(TruncDiv(tokens, reduction)), total), 100)
  }

  function Slope(p: Params, x: Dec): Dec
    requires ValidParams(p)
  {
    Mul(x - p.maxZero, Quo(x, p.slopeVpImpact) + p.slopeBase)
  }

  function DynCommission(p: Params, minCommission: Dec, x: Dec): Dec
    requires ValidParams(p)
  {
    var d, m, y := MulInt(p.cap, 100), MulInt(minCommission, 100), Slope(p, x);
    var capped := if y > d then d else y;
    QuoInt(if m > capped then m else capped, 100)
  }

  lemma MulMonotone(a: int, b: int, a': int, b': int)
    requires 0 <= a <= a' && 0 <= b <= b'
    ensures 0 <= a * b <= a' * b'
  {
    MulAtLeast(a', a, b);
    MulAtLeast(b', b, a');
    assert a' * b == b * a' && a' * b' == b' * a';
  }

  lemma NegativeSlope(p: Params, x: Dec)
    requires ValidParams(p) && 0 <= x < p.maxZero
    ensures Slope(p, x) <= 0
  {
    QuoMonotone(0, x, p.slopeVpImpact);
    var f := Quo(x, p.slopeVpImpact) + p.slopeBase;
    MulAtLeast(0, x - p.maxZero, f);
    RoundMonotone((x - p.maxZero) * f, 0);
  }

  lemma SlopeMonotone(p: Params, x: Dec, x': Dec)
    requires ValidParams(p) && p.maxZero <= x <= x'
    ensures 0 <= Slope(p, x) <= Slope(p, x')
  {
    QuoMonotone(x, x', p.slopeVpImpact);
    var f, f' := Quo(x, p.slopeVpImpact) + p.slopeBase, Quo(x', p.slopeVpImpact) + p.slopeBase;
    MulMonotone(x - p.maxZero, f, x' - p.maxZero, f');
    RoundMonotone((x - p.maxZero) * f, (x' - p.maxZero) * f');
    RoundMonotone(0, (x - p.maxZero) * f);
  }

  /** The minimum lies between the chain's minimum and the larger of that and the cap. */
  lemma CommissionBounds(p: Params, minCommission: Dec, x: Dec)
    requires ValidParams(p) && minCommission >= 0
    ensures minCommission <= DynCommission(p, minCommission, x) <= (if p.cap > minCommission then p.cap else minCommission)
  {
  }

  /** More voting power never means a lower minimum, although the slope itself may fall at first. */
  lemma CommissionMonotone(p: Params, minCommission: Dec, x: Dec, x': Dec)
    requires ValidParams(p) && minCommission >= 0 && 0 <= x <= x'
    ensures DynCommission(p, minCommission, x) <= DynCommission(p, minCommission, x')
  {
    if x < p.maxZero {
      NegativeSlope(p, x);
      CommissionBounds(p, minCommission, x');
    } else {
      SlopeMonotone(p, x, x');
    }
  }

  /** Where neither the cap nor the chain's minimum binds, the minimum is the slope in percent, cut below its last digit. */
  lemma CommissionIsSlope(p: Params, minCommission: Dec, x: Dec)
    requires ValidParams(p) && 0 <= MulInt(minCommission, 100) <= Slope(p, x) <= MulInt(p.cap, 100)
    ensures 0 <= Slope(p, x) - 100 * DynCommission(p, minCommission, x) < 100
  {
    TruncDivIs(Slope(p, x), 100);
  }

  /** Above the cap it is the cap, below the chain's minimum it is that, unless the minimum is above the cap. */
  lemma CommissionIsBound(p: Params, minCommission: Dec, x: Dec)
    requires ValidParams(p)
    ensures Slope(p, x) >= MulInt(p.cap, 100) && p.cap >= minCommission ==> DynCommission(p, minCommission, x) == p.cap
    ensures Slope(p, x) <= MulInt(minCommission, 100) || p.cap <= minCommission ==> DynCommission(p, minCommission, x) == minCommission
  {
    QuoIntExact(p.cap, 100);
    QuoIntExact(minCommission, 100);
  }

  lemma QuoIntExact(a: Dec, n: nat)
    requires n > 0
    ensures QuoInt(MulInt(a, n), n) == a
  {
    TruncDivIs(a * n, n);
    var q := TruncDiv(a * n, n);
    assert a * n - q * n == (a - q) * n;
    if a > q { MulAtLeast(a - q, 1, n); }
    if a < q { MulAtLeast(-1, a - q, n); }
  }

  /** The slope is (x - A) (x / C + B), with A where it starts, B its base and C its impact, up to the roundings. */
  lemma SlopeIs(p: Params, x: Dec)
    requires ValidParams(p)
    ensures var a, exact := x - p.maxZero, (x - p.maxZero) * (x * ONE + p.slopeBase * p.slopeVpImpact);
            var slack := (HALF + (if a < 0 then -a else a)) * p.slopeVpImpact;
            -slack <= exact - Slope(p, x) * ONE * p.slopeVpImpact <= slack
  {
    var a, c, q := x - p.maxZero, p.slopeVpImpact, Quo(x, p.slopeVpImpact);
    QuoError(x, c);
    RoundError(a * (q + p.slopeBase));
    SlopeStep(a, x, p.slopeBase, c, q, Slope(p, x));
  }

  lemma SlopeStep(a: int, x: int, b: int, c: int, q: int, y: int)
    requires c > 0 && -c <= x * ONE - q * c <= c && -HALF <= a * (q + b) - ONE * y <= HALF
    ensures var slack := (HALF + (if a < 0 then -a else a)) * c;
            -slack <= a * (x * ONE + b * c) - y * ONE * c <= slack
  {
    var e, f, m := x * ONE - q * c, a * (q + b) - ONE * y, if a < 0 then -a else a;
    SlopeSplit(a, x, b, c, q, y, e, f);
    WithinTimes(f, HALF, c);
    WithinTimes(e, c, m);
    assert a * e == e * m || a * e == -(e * m);
    assert (HALF + m) * c == HALF * c + m * c && c * m == m * c;
  }

  lemma SlopeSplit(a: int, x: int, b: int, c: int, q: int, y: int, e: int, f: int)
    requires e == x * ONE - q * c && f == a * (q + b) - ONE * y
    ensures a * (x * ONE + b * c) - y * ONE * c == a * e + f * c
  {
    assert x * ONE + b * c == e + (q + b) * c by { assert (q + b) * c == q * c + b * c; }
    assert a * (e + (q + b) * c) == a * e + (a * (q + b)) * c by { assert a * ((q + b) * c) == (a * (q + b)) * c; }
    assert f * c == (a * (q + b)) * c - y * ONE * c by { assert ONE * y * c == y * ONE * c; }
  }

  lemma WithinTimes(e: int, bound: int, m: nat)
    requires -bound <= e <= bound
    ensures -(bound * m) <= e * m <= bound * m
  {
    MulAtLeast(bound, e, m);
    MulAtLeast(e, -bound, m);
  }

  /** The share of the total in percent, cut below its last digit. */
  lemma VotingPowerIs(tokens: nat, reduction: nat, total: nat)
    requires reduction > 0 && total > 0
    ensures 0 <= 100 * FromInt(tokens / reduction) - VotingPower(tokens, reduction, total) * total < 100 * total
  {
    var n := FromInt(tokens / reduction);
    TruncDivIs(n, total);
    var q := TruncDiv(n, total);
    assert q * 100 * total == 100 * (q * total);
  }

  lemma VotingPowerMonotone(tokens: nat, tokens': nat, reduction: nat, total: nat)
    requires tokens <= tokens' && reduction > 0 && total > 0
    ensures 0 <= VotingPower(tokens, reduction, total) <= VotingPower(tokens', reduction, total)
  {
    DivMonotone(tokens, tokens', reduction);
    DivMonotone(FromInt(tokens / reduction), FromInt(tokens' / reduction), total);
  }

  // ---- validators and stored rates

  datatype Validator = Validator(rate: Dec, maxRate: Dec, bonded: bool, power: Dec)

  /** The minimum set by the last weekly update and the rate the operator last asked for. */
  datatype Stored = Stored(min: Dec, target: Dec)

  function StoredOf<K>(rates: map<K, Stored>, op: K): Stored {
    if op in rates then rates[op] else Stored(0, 0)
  }

  /** The rate is between the stored minimum and the maximum, and so is what the operator asked for at most. */
  predicate Held(v: Validator, s: Stored) {
    s.min <= v.rate <= v.maxRate && s.target <= v.maxRate
  }

  /** A validator after its weekly update. */
  function Updated(v: Validator, target: Dec, min: Dec): Validator {
    v.(rate := if target < min then min else target, maxRate := if v.maxRate < min then min else v.maxRate)
  }

  /** An update holds a validator to its new minimum exactly if its target is within the new maximum. */
  lemma UpdateHoldsIff(v: Validator, s: Stored, min: Dec)
    ensures Held(Updated(v, s.target, min), s.(min := min)) <==> s.target <= v.maxRate || s.target <= min
  {
  }

  ghost predicate AllHeld<K(!new)>(validators: map<K, Validator>, rates: map<K, Stored>) {
    forall op :: op in validators ==> Held(validators[op], StoredOf(rates, op))
  }

  lemma OneChanged<K(!new)>(validators: map<K, Validator>, rates: map<K, Stored>, op: K, v: Validator, rates': map<K, Stored>)
    requires forall o :: o in validators && o != op ==> Held(validators[o], StoredOf(rates, o))
    requires forall o :: o != op ==> StoredOf(rates', o) == StoredOf(rates, o)
    ensures AllHeld(validators[op := v], rates') <==> Held(v, StoredOf(rates', op))
  {
    var vs := validators[op := v];
    assert op in vs;
    forall o | o in vs && o != op ensures Held(vs[o], StoredOf(rates', o)) {
      assert StoredOf(rates', o) == StoredOf(rates, o);
    }
  }

  class Keeper<K(==, !new)> {
    var validators: map<K, Validator>
    var rates: map<K, Stored>

    ghost predicate Valid()
      reads this
    {
      AllHeld(validators, rates)
    }

    constructor ()
      ensures Valid() && validators == map[] && rates == map[]
    {
      validators, rates := map[], map[];
    }

    method SetDynCommissionRate(op: K, rate: Dec)
      modifies `rates
      ensures rates == old(rates)[op := StoredOf(old(rates), op).(min := rate)]
    {
      var target := 0;
      if op in rates {
        target := rates[op].target;
      }
      rates := rates[op := Stored(rate, target)];
    }

    method SetTargetCommissionRate(op: K, rate: Dec)
      modifies `rates
      ensures rates == old(rates)[op := StoredOf(old(rates), op).(target := rate)]
    {
      var min := 0;
      if op in rates {
        min := rates[op].min;
      }
      rates := rates[op := Stored(min, rate)];
    }

    /**
     * A validator is created. Only a creation that is itself a message of the transaction is seen
     * afterwards and sets the target. Rates stored for an earlier validator of the operator are still
     * there, so the new one is held to them exactly when its rate is not below the old minimum and, if
     * nothing sets the target, its maximum is not below the old target.
     */
    method CreateValidator(op: K, rate: Dec, maxRate: Dec, bonded: bool, power: Dec, direct: bool)
      requires op !in validators
      modifies this
      ensures validators == old(validators)[op := Validator(rate, maxRate, bonded, power)]
      ensures var s := StoredOf(old(rates), op);
              && rates == (if direct then old(rates)[op := s.(target := rate)] else old(rates))
              && (old(Valid()) ==> (Valid() <==> s.min <= rate <= maxRate && (direct || s.target <= maxRate)))
    {
      var v := Validator(rate, maxRate, bonded, power);
      validators := validators[op := v];
      if direct {
        SetTargetCommissionRate(op, rate);
      }
      if old(Valid()) { OneChanged(old(validators), old(rates), op, v, rates); }
    }

    /**
     * An edit carried out. All stay held exactly when the new rate is between the stored minimum and
     * the maximum. One wrapped in another message does not change the target.
     */
    method EditValidator(op: K, rate: Dec, direct: bool)
      requires op in validators
      modifies this
      ensures validators == old(validators)[op := old(validators)[op].(rate := rate)]
      ensures rates == if direct then old(rates)[op := StoredOf(old(rates), op).(target := rate)] else old(rates)
      ensures old(Valid()) ==> (Valid() <==> StoredOf(old(rates), op).min <= rate <= old(validators)[op].maxRate)
    {
      var v := validators[op].(rate := rate);
      validators := validators[op := v];
      if direct {
        SetTargetCommissionRate(op, rate);
      }
      if old(Valid()) { OneChanged(old(validators), old(rates), op, v, rates); }
    }

    /** Staking removes a validator; what is stored for its operator stays. */
    method RemoveValidator(op: K)
      modifies `validators
      ensures validators == old(validators) - {op} && (old(Valid()) ==> Valid())
    {
      validators := validators - {op};
    }

    /** The weekly update of one validator. */
    method UpdateValidatorMinRates(op: K, params: Params, minCommission: Dec)
      requires ValidParams(params) && op in validators
      modifies this
      ensures var s, v := StoredOf(old(rates), op), old(validators)[op];
              var min := DynCommission(params, minCommission, v.power);
              && validators == old(validators)[op := Updated(v, s.target, min)]
              && rates == old(rates)[op := s.(min := min)]
              && AsAsked(params, minCommission, v, s, validators[op], rates[op])
    {
      var v := validators[op];
      var minRate := DynCommission(params, minCommission, v.power);
      var newMaxRate := v.maxRate;
      var newRate := StoredOf(rates, op).target;
      if newRate < minRate {
        newRate := minRate;
      }
      if newMaxRate < minRate {
        newMaxRate := minRate;
      }
      validators := validators[op := v.(rate := newRate, maxRate := newMaxRate)];
      SetDynCommissionRate(op, minRate);
    }

    /**
     * Every bonded validator is updated once and the others are as they were: its rate becomes what its
     * operator asked for, or the new minimum if that is more. Whatever the state
     * before, all are held afterwards exactly if each bonded one's target is within its maximum or
     * the new minimum and each other one was held already.
     */
    method UpdateAllBondedValidatorRates(params: Params, minCommission: Dec, order: seq<K>)
      requires ValidParams(params)
      requires forall op :: op in order <==> op in validators
      requires forall i, j :: 0 <= i < j < |order| ==> order[i] != order[j]
      modifies this
      ensures Weekly(params, minCommission, old(validators), old(rates), validators, rates, old(validators).Keys)
      ensures forall op :: op in old(validators) && old(validators)[op].bonded ==>
                op in validators && AsAsked(params, minCommission, old(validators)[op], StoredOf(old(rates), op), validators[op], StoredOf(rates, op))
      ensures Valid() <==> forall op :: op in old(validators) ==>
                             HeldAfterUpdate(params, minCommission, old(validators)[op], StoredOf(old(rates), op))
      ensures old(Valid()) ==> Valid()
    {
      ghost var vs, rs := validators, rates;
      for i := 0 to |order|
        invariant Weekly(params, minCommission, vs, rs, validators, rates, Seen(order, i))
      {
        var op := order[i];
        assert op in validators && op !in order[..i];
        WeeklyNext(params, minCommission, vs, rs, validators, rates, order, i);
        if validators[op].bonded {
          UpdateValidatorMinRates(op, params, minCommission);
        }
      }
      assert order[..|order|] == order;
      assert Seen(order, |order|) == vs.Keys;
      WeeklyHeldIff(params, minCommission, vs, rs, validators, rates);
    }
  }

  /**
   * The new minimum follows from the voting power; the rate is the target where that is at least the
   * minimum, and the minimum otherwise; the maximum moves only if it was below the minimum, and then to it.
   */
  predicate AsAsked(params: Params, minCommission: Dec, v: Validator, s: Stored, v': Validator, s': Stored)
    requires ValidParams(params)
  {
    && s'.min == DynCommission(params, minCommission, v.power) && s'.target == s.target
    && (s.target >= s'.min ==> v'.rate == s.target)
    && (s.target < s'.min ==> v'.rate == s'.min)
    && (v.maxRate >= s'.min ==> v'.maxRate == v.maxRate)
    && (v.maxRate < s'.min ==> v'.maxRate == s'.min)
    && v'.bonded == v.bonded && v'.power == v.power
  }

  predicate HeldAfterUpdate(params: Params, minCommission: Dec, v: Validator, s: Stored)
    requires ValidParams(params)
  {
    if v.bonded then s.target <= v.maxRate || s.target <= DynCommission(params, minCommission, v.power) else Held(v, s)
  }

  lemma WeeklyHeldIff<K(!new)>(params: Params, minCommission: Dec, vs: map<K, Validator>, rs: map<K, Stored>,
                               vs': map<K, Validator>, rs': map<K, Stored>)
    requires ValidParams(params) && Weekly(params, minCommission, vs, rs, vs', rs', vs.Keys)
    ensures AllHeld(vs', rs') <==> forall op :: op in vs ==> HeldAfterUpdate(params, minCommission, vs[op], StoredOf(rs, op))
  {
    forall op | op in vs
      ensures Held(vs'[op], StoredOf(rs', op)) <==> HeldAfterUpdate(params, minCommission, vs[op], StoredOf(rs, op))
    {
      UpdateHoldsIff(vs[op], StoredOf(rs, op), DynCommission(params, minCommission, vs[op].power));
    }
  }

  /** The weekly update of some validators. */
  ghost predicate Weekly<K(!new)>(params: Params, minCommission: Dec, vs: map<K, Validator>, rs: map<K, Stored>,
                                  vs': map<K, Validator>, rs': map<K, Stored>, done: set<K>)
    requires ValidParams(params)
  {
    && vs'.Keys == vs.Keys
    && forall op :: op in vs ==>
         UpdatedTo(params, minCommission, op in done, vs[op], StoredOf(rs, op), vs'[op], StoredOf(rs', op))
  }

  predicate UpdatedTo(params: Params, minCommission: Dec, done: bool, v: Validator, s: Stored, v': Validator, s': Stored)
    requires ValidParams(params)
  {
    if done && v.bonded then
      var min := DynCommission(params, minCommission, v.power);
      v' == Updated(v, s.target, min) && s' == s.(min := min)
    else v' == v && s' == s
  }

  function Seen<K>(order: seq<K>, i: nat): set<K>
    requires i <= |order|
  {
    set op | op in order[..i]
  }

  lemma WeeklyNext<K(!new)>(params: Params, minCommission: Dec, vs: map<K, Validator>, rs: map<K, Stored>,
                            vs': map<K, Validator>, rs': map<K, Stored>, order: seq<K>, i: nat)
    requires ValidParams(params) && i < |order| && order[i] in vs && order[i] !in order[..i]
    requires Weekly(params, minCommission, vs, rs, vs', rs', Seen(order, i))
    ensures var op, min := order[i], DynCommission(params, minCommission, vs[order[i]].power);
            var v, s := Updated(vs'[op], StoredOf(rs', op).target, min), StoredOf(rs', op).(min := min);
            if vs'[op].bonded then
              && vs'[op].power == vs[op].power
              && Weekly(params, minCommission, vs, rs, vs'[op := v], rs'[op := s], Seen(order, i + 1))
            else Weekly(params, minCommission, vs, rs, vs', rs', Seen(order, i + 1))
  {
    var op, min := order[i], DynCommission(params, minCommission, vs[order[i]].power);
    assert order[..i + 1] == order[..i] + [op];
    assert Seen(order, i + 1) == Seen(order, i) + {op} && op !in Seen(order, i);
    assert UpdatedTo(params, minCommission, false, vs[op], StoredOf(rs, op), vs'[op], StoredOf(rs', op));
    if vs'[op].bonded {
      var v, s := Updated(vs'[op], StoredOf(rs', op).target, min), StoredOf(rs', op).(min := min);
      forall o | o in vs
        ensures UpdatedTo(params, minCommission, o in Seen(order, i + 1), vs[o], StoredOf(rs, o),
                          vs'[op := v][o], StoredOf(rs'[op := s], o))
      {
        assert UpdatedTo(params, minCommission, o in Seen(order, i), vs[o], StoredOf(rs, o), vs'[o], StoredOf(rs', o));
      }
    }
  }

  const PARAMS := Params(ONE / 2, 2 * ONE, 10 * ONE, ONE / 5)

  /** With ten percent of the power the minimum is the cap. */
  lemma CappedExample()
    ensures ValidParams(PARAMS) && DynCommission(PARAMS, 0, 10 * ONE) == ONE / 5
  {
    assert Quo(10 * ONE, 10 * ONE) == ONE;
    assert Slope(PARAMS, 10 * ONE) == Round((10 * ONE - ONE / 2) * (3 * ONE));
    assert (10 * ONE - ONE / 2) * (3 * ONE) == (57 * (ONE / 2)) * ONE;
    RoundExact(57 * (ONE / 2));
  }

  /**
   * A validator with ten percent of the power gets a minimum of one fifth in the weekly update. It is
   * removed, its operator starts again at one hundredth, and the new validator is below the minimum.
   */
  method StartsBelowOldMinimum() returns (k: Keeper<int>)
    ensures fresh(k) && !k.Valid()
    ensures k.validators == map[0 := Validator(ONE / 100, ONE, true, 0)] && StoredOf(k.rates, 0) == Stored(ONE / 5, ONE / 100)
  {
    k := new Keeper();
    k.CreateValidator(0, ONE / 100, ONE, true, 10 * ONE, true);
    CappedExample();
    k.UpdateAllBondedValidatorRates(PARAMS, 0, [0]);
    assert StoredOf(k.rates, 0) == Stored(ONE / 5, ONE / 100);
    k.RemoveValidator(0);
    k.CreateValidator(0, ONE / 100, ONE, true, 0, true);
  }
}
