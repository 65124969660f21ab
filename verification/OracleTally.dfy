/** Tallying all surviving ballots against the reference and crediting the validators. */
module OracleTally {
  import opened Decimals
  import opened Sums
  import opened OracleBallot
  import opened OracleCross
  import opened OracleRound

  // ---- one vote per voter

  function CastBy(k: Voter): Vote -> int {
    (v: Vote) => if v.voter == k then 1 else 0
  }

  ghost predicate AtMostOnce(b: Ballot) {
    forall k :: Sum(b, CastBy(k)) <= 1
  }

  lemma OnceMeansOneVote(b: Ballot)
    requires AtMostOnce(b)
    ensures OneVotePerVoter(b)
  {
    forall i, j | 0 <= i < j < |b| ensures b[i].voter != b[j].voter {
      SumAtLeastTwo(b, i, j, CastBy(b[i].voter));
      assert Sum(b, CastBy(b[i].voter)) <= 1;
    }
  }

  lemma OnceInAnyArrangement(b: Ballot, c: Ballot)
    requires multiset(b) == multiset(c) && AtMostOnce(b)
    ensures AtMostOnce(c)
  {
    forall k ensures Sum(c, CastBy(k)) <= 1 {
      SumOfPermutation(b, c, CastBy(k));
      assert Sum(b, CastBy(k)) <= 1;
    }
  }

  lemma {:induction false} CrossRatesKeepVoters(b: Ballot, bases: map<Voter, Dec>, k: Voter)
    ensures Sum(CrossRates(b, bases), CastBy(k)) == Sum(b, CastBy(k))
  {
    if b != [] { CrossRatesKeepVoters(b[1..], bases, k); }
  }

  lemma CrossRatesKeepShape(b: Ballot, bases: map<Voter, Dec>)
    ensures NonNegative(b) ==> NonNegative(CrossRates(b, bases))
    ensures forall keys :: VotersIn(b, keys) ==> VotersIn(CrossRates(b, bases), keys)
  {
    EachIs(b, CrossVote(bases));
    forall c | c in CrossRates(b, bases) ensures exists v :: v in b && v.voter == c.voter && (c.power == v.power || c.power == 0) {
      var i :| 0 <= i < |b| && CrossRates(b, bases)[i] == c;
      assert b[i] in b;
    }
  }

  // ---- a ballot as it is tallied

  /** The reference ballot as it is, any other in cross rates. */
  function TalliedBallot(ballots: map<Denom, Ballot>, ref: Denom, d: Denom): Ballot
    requires ref in ballots && d in ballots
  {
    if d == ref then ballots[d] else SortVotes(CrossRates(ballots[d], ToMap(ballots[ref])))
  }

  function MedianOf(ballots: map<Denom, Ballot>, ref: Denom, d: Denom): Dec
    requires ref in ballots && d in ballots
  {
    WeightedMedian(TalliedBallot(ballots, ref, d))
  }

  /** The reference's own median, or the reference median over the cross rate. */
  function RateOf(ballots: map<Denom, Ballot>, ref: Denom, d: Denom): Dec
    requires ref in ballots && d in ballots
    requires d != ref ==> MedianOf(ballots, ref, d) != 0
  {
    if d == ref then MedianOf(ballots, ref, ref) else Quo(MedianOf(ballots, ref, ref), MedianOf(ballots, ref, d))
  }

  function SpreadOf(ballots: map<Denom, Ballot>, ref: Denom, band: Dec, root: Dec -> Dec, d: Denom): Dec
    requires ref in ballots && d in ballots
  {
    RewardSpread(TalliedBallot(ballots, ref, d), MedianOf(ballots, ref, d), band, root)
  }

  /** A validator's wins in one ballot, as a function of the denom. */
  function WinsIn(ballots: map<Denom, Ballot>, ref: Denom, band: Dec, root: Dec -> Dec, k: Voter): Denom -> int {
    (d: Denom) =>
      if ref in ballots && d in ballots then
        Sum(TalliedBallot(ballots, ref, d),
            WinFlag(k, MedianOf(ballots, ref, d), SpreadOf(ballots, ref, band, root, d)))
      else 0
  }

  function WeightIn(ballots: map<Denom, Ballot>, ref: Denom, band: Dec, root: Dec -> Dec, k: Voter): Denom -> int {
    (d: Denom) =>
      if ref in ballots && d in ballots then
        Sum(TalliedBallot(ballots, ref, d),
            WinWeight(k, MedianOf(ballots, ref, d), SpreadOf(ballots, ref, band, root, d)))
      else 0
  }

  ghost predicate Sound(ballots: map<Denom, Ballot>) {
    forall d :: d in ballots ==> SortedByRate(ballots[d]) && NonNegative(ballots[d]) && AtMostOnce(ballots[d])
  }

  /** Whatever sort puts the cross rates in order, every validator's credit is the same. */
  lemma AnySortWillDo(ballots: map<Denom, Ballot>, ref: Denom, band: Dec, root: Dec -> Dec, d: Denom, b: Ballot, k: Voter)
    requires Sound(ballots) && ref in ballots && d in ballots && IsTallied(ballots, ref, d, b)
    ensures WeightedMedian(b) == MedianOf(ballots, ref, d)
    ensures RewardSpread(b, WeightedMedian(b), band, root) == SpreadOf(ballots, ref, band, root, d)
    ensures var m := WeightedMedian(b);
            && Sum(b, WinFlag(k, m, RewardSpread(b, m, band, root))) == WinsIn(ballots, ref, band, root, k)(d)
            && Sum(b, WinWeight(k, m, RewardSpread(b, m, band, root))) == WeightIn(ballots, ref, band, root, k)(d)
  {
    if d != ref {
      var c := CrossRates(ballots[d], ToMap(ballots[ref]));
      CrossRatesKeepShape(ballots[d], ToMap(ballots[ref]));
      SortVotesSorts(c);
      SameMembers(SortVotes(c), c);
      TallyIgnoresArrangement(SortVotes(c), b, band, root, k);
    }
  }

  // ---- all ballots

  /** The claims after some of the ballots, in whatever order. */
  ghost predicate CreditedFor(ballots: map<Denom, Ballot>, ref: Denom, band: Dec, root: Dec -> Dec,
                              claims: map<Voter, Claim>, claims': map<Voter, Claim>, done: seq<Denom>) {
    && claims'.Keys == claims.Keys
    && forall k :: AddsTo(ClaimOf(claims, k), ClaimOf(claims', k),
                          Sum(done, WeightIn(ballots, ref, band, root, k)), Sum(done, WinsIn(ballots, ref, band, root, k)))
  }

  /** A ballot as `TalliedBallot`, up to the order of equal rates. */
  ghost predicate IsTallied(ballots: map<Denom, Ballot>, ref: Denom, d: Denom, b: Ballot)
    requires ref in ballots && d in ballots
  {
    if d == ref then b == ballots[d]
    else SortedByRate(b) && multiset(b) == multiset(CrossRates(ballots[d], ToMap(ballots[ref])))
  }

  lemma CreditNextFor(ballots: map<Denom, Ballot>, ref: Denom, band: Dec, root: Dec -> Dec, b: Ballot,
                      a: Claim, before: Claim, after: Claim, order: seq<Denom>, i: nat, k: Voter)
    requires i < |order| && Sound(ballots) && ref in ballots && order[i] in ballots
    requires IsTallied(ballots, ref, order[i], b)
    requires AddsTo(a, before, Sum(order[..i], WeightIn(ballots, ref, band, root, k)),
                    Sum(order[..i], WinsIn(ballots, ref, band, root, k)))
    requires var m := WeightedMedian(b);
             var s := RewardSpread(b, m, band, root);
             AddsTo(before, after, Sum(b, WinWeight(k, m, s)), Sum(b, WinFlag(k, m, s)))
    ensures AddsTo(a, after, Sum(order[..i + 1], WeightIn(ballots, ref, band, root, k)),
                   Sum(order[..i + 1], WinsIn(ballots, ref, band, root, k)))
  {
    AnySortWillDo(ballots, ref, band, root, order[i], b, k);
    SumSnoc(order, i, WeightIn(ballots, ref, band, root, k));
    SumSnoc(order, i, WinsIn(ballots, ref, band, root, k));
  }

  lemma CreditNext(ballots: map<Denom, Ballot>, ref: Denom, band: Dec, root: Dec -> Dec, b: Ballot,
                   claims: map<Voter, Claim>, before: map<Voter, Claim>, after: map<Voter, Claim>, order: seq<Denom>, i: nat)
    requires i < |order| && Sound(ballots) && ref in ballots && order[i] in ballots
    requires IsTallied(ballots, ref, order[i], b) && VotersIn(b, claims.Keys)
    requires CreditedFor(ballots, ref, band, root, claims, before, order[..i])
    requires Credited(before, after, b, WeightedMedian(b), RewardSpread(b, WeightedMedian(b), band, root))
    ensures CreditedFor(ballots, ref, band, root, claims, after, order[..i + 1])
  {
    forall k
      ensures AddsTo(ClaimOf(claims, k), ClaimOf(after, k),
                     Sum(order[..i + 1], WeightIn(ballots, ref, band, root, k)),
                     Sum(order[..i + 1], WinsIn(ballots, ref, band, root, k)))
    {
      CreditNextFor(ballots, ref, band, root, b, ClaimOf(claims, k), ClaimOf(before, k), ClaimOf(after, k), order, i, k);
    }
  }

  /** Only validators with a claim have a vote in a ballot. */
  ghost predicate VotersClaim(ballots: map<Denom, Ballot>, claims: map<Voter, Claim>) {
    forall d :: d in ballots ==> VotersIn(ballots[d], claims.Keys)
  }

  /** No cross median is zero; the division by one that is panics. */
  ghost predicate NoZeroMedian(ballots: map<Denom, Ballot>, ref: Denom)
    requires ref in ballots
  {
    forall d :: d in ballots && d != ref ==> MedianOf(ballots, ref, d) != 0
  }

  ghost predicate RatesOf(ballots: map<Denom, Ballot>, ref: Denom, rates: map<Denom, Dec>)
    requires ref in ballots
  {
    forall d :: d in rates ==>
      && d in ballots
      && (d != ref ==> MedianOf(ballots, ref, d) != 0)
      && rates[d] == RateOf(ballots, ref, d)
  }

  lemma RatesNext(ballots: map<Denom, Ballot>, ref: Denom, rates: map<Denom, Dec>, order: seq<Denom>, i: nat, rate: Dec)
    requires ref in ballots && RatesOf(ballots, ref, rates)
    requires i < |order| && forall j, k :: 0 <= j < k < |order| ==> order[j] != order[k]
    requires order[i] in ballots && (order[i] != ref ==> MedianOf(ballots, ref, order[i]) != 0)
    requires rate == RateOf(ballots, ref, order[i])
    requires rates.Keys == ballots.Keys - From(order, i)
    ensures RatesOf(ballots, ref, rates[order[i] := rate])
    ensures rates[order[i] := rate].Keys == ballots.Keys - From(order, i + 1)
  {
    FromNext(order, i);
  }

  /** One turn of the loop over the ballots. */
  method TallyOne(ballots: map<Denom, Ballot>, ref: Denom, denom: Denom, sort: Ballot -> Ballot,
                  band: Dec, root: Dec -> Dec, claims: map<Voter, Claim>)
    returns (ok: bool, rate: Dec, claims': map<Voter, Claim>, ghost ballot: Ballot)
    requires Sound(ballots) && ref in ballots && denom in ballots && IsSorting(sort)
    ensures ok <==> (denom != ref ==> MedianOf(ballots, ref, denom) != 0)
    ensures ok ==> rate == RateOf(ballots, ref, denom)
    ensures IsTallied(ballots, ref, denom, ballot)
    ensures VotersIn(ballots[denom], claims.Keys) ==> VotersIn(ballot, claims.Keys)
    ensures Credited(claims, claims', ballot, WeightedMedian(ballot),
                     RewardSpread(ballot, WeightedMedian(ballot), band, root))
  {
    var b := ballots[denom];
    if denom != ref {
      var c := CrossRates(b, ToMap(ballots[ref]));
      CrossRatesKeepShape(b, ToMap(ballots[ref]));
      SameMembers(c, sort(c));
      b := sort(c);
    }
    ballot := b;
    rate, claims' := Tally(b, band, root, claims);
    AnySortWillDo(ballots, ref, band, root, denom, b, []);
    ok := true;
    if denom != ref {
      if rate == 0 {
        return false, 0, claims', b;
      }
      var rateRT := ComputeWeightedMedian(ballots[ref]);
      rate := Quo(rateRT, rate);
    }
  }

  /**
   * Neither the order in which the ballots are ranged over nor how equal rates are sorted shows in
   * the result: the rates, the claims, or whether the round panics.
   */
  method TallyAll(ballots: map<Denom, Ballot>, ref: Denom, order: seq<Denom>, sort: Ballot -> Ballot,
                  band: Dec, root: Dec -> Dec, claims: map<Voter, Claim>)
    returns (ok: bool, rates: map<Denom, Dec>, claims': map<Voter, Claim>)
    requires Sound(ballots) && ref in ballots && VotersClaim(ballots, claims)
    requires IsOrder(order, ballots.Keys) && IsSorting(sort)
    ensures ok <==> NoZeroMedian(ballots, ref)
    ensures ok ==> rates.Keys == ballots.Keys && RatesOf(ballots, ref, rates)
    ensures ok ==> CreditedFor(ballots, ref, band, root, claims, claims', order)
  {
    OrderFacts(order, ballots.Keys);
    FromStart(order, ballots.Keys);
    assert order[..|order|] == order;
    rates, claims' := map[], claims;
    for i := 0 to |order|
      invariant CreditedFor(ballots, ref, band, root, claims, claims', order[..i])
      invariant rates.Keys == ballots.Keys - From(order, i)
      invariant RatesOf(ballots, ref, rates)
    {
      ghost var before := claims';
      ghost var ballot;
      var rate;
      ok, rate, claims', ballot := TallyOne(ballots, ref, order[i], sort, band, root, claims');
      if !ok {
        return;
      }
      CreditNext(ballots, ref, band, root, ballot, claims, before, claims', order, i);
      RatesNext(ballots, ref, rates, order, i, rate);
      rates := rates[order[i] := rate];
    }
    ok := true;
  }
}
