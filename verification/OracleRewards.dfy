/** What follows a tally: the rewards paid from the pool and the vote targets of the next period. */
module OracleRewards {
  import opened Bytes
  import opened Decimals
  import opened Sums
  import opened OracleBallot
  import opened OracleRound

  // ---- rewards

  /** The part of a denom's reward pool given out in a period. */
  function PeriodReward(pool: int, votePeriod: int, window: int): Dec
    requires window != 0
  {
    Mul(FromInt(pool), QuoInt(FromInt(votePeriod), window))
  }

  /** A winner's share of it, in whole coins. */
  function Share(period: Dec, weight: int, total: int): int
    requires total != 0
  {
    Whole(Mul(period, QuoInt(FromInt(weight), total)))
  }

  function WeightOf(claims: map<Voter, Claim>): Voter -> int {
    (k: Voter) => ClaimOf(claims, k).weight
  }

  /** What a winner is paid; one whose validator is gone gets nothing. */
  function PaidTo(claims: map<Voter, Claim>, present: set<Voter>, period: Dec, total: int): Voter -> int {
    (k: Voter) => if k in present && total != 0 then Share(period, ClaimOf(claims, k).weight, total) else 0
  }

  /** Do first, then every vote target, each denom once. */
  method RewardDenoms<K(==)>(micro: K, targets: seq<K>) returns (denoms: seq<K>)
    ensures forall d :: d in denoms <==> d == micro || d in targets
    ensures forall i, j :: 0 <= i < j < |denoms| ==> denoms[i] != denoms[j]
  {
    denoms := [micro];
    var seen := {micro};
    for i := 0 to |targets|
      invariant seen == set d | d in denoms
      invariant forall d :: d in denoms <==> d == micro || d in targets[..i]
      invariant forall j, k :: 0 <= j < k < |denoms| ==> denoms[j] != denoms[k]
    {
      assert targets[..i + 1] == targets[..i] + [targets[i]];
      if targets[i] in seen {
        continue;
      }
      denoms := denoms + [targets[i]];
      seen := seen + {targets[i]};
    }
    assert targets[..|targets|] == targets;
  }

  /** What the pools give out in a period, denoms with an empty pool left out. */
  method PeriodRewards<K(==, !new)>(denoms: seq<K>, pools: map<K, int>, votePeriod: int, window: int) returns (period: map<K, Dec>)
    requires window != 0 && forall i, j :: 0 <= i < j < |denoms| ==> denoms[i] != denoms[j]
    ensures forall d :: AmountOf(period, d) == if d in denoms then PeriodReward(AmountOf(pools, d), votePeriod, window) else 0
  {
    period := map[];
    for i := 0 to |denoms|
      invariant forall d :: AmountOf(period, d)
                         == if d in denoms[..i] then PeriodReward(AmountOf(pools, d), votePeriod, window) else 0
    {
      var d := denoms[i];
      assert denoms[..i + 1] == denoms[..i] + [d] && d !in denoms[..i];
      var pool := AmountOf(pools, d);
      NoPoolNoReward(votePeriod, window);
      if pool != 0 {
        period := period[d := AmountOf(period, d) + PeriodReward(pool, votePeriod, window)];
      }
    }
    assert denoms[..|denoms|] == denoms;
  }

  lemma NoPoolNoReward(votePeriod: int, window: int)
    requires window != 0
    ensures PeriodReward(0, votePeriod, window) == 0
  {
    RoundExact(0);
  }

  lemma NoPeriodNoShare(weight: int, total: int)
    requires total != 0
    ensures Share(0, weight, total) == 0
  {
    RoundExact(0);
  }

  method TotalWeight(claims: map<Voter, Claim>, range: seq<Voter>) returns (total: int)
    requires IsOrder(range, claims.Keys)
    ensures total == SetSum(claims.Keys, WeightOf(claims))
  {
    total := 0;
    for i := 0 to |range|
      invariant total == Sum(range[..i], WeightOf(claims))
    {
      SumSnoc(range, i, WeightOf(claims));
      total := total + ClaimOf(claims, range[i]).weight;
    }
    assert range[..|range|] == range;
    SumInAnyOrder(range, claims.Keys, WeightOf(claims));
  }

  /** Adding one winner's share of every denom. */
  function WithShares<K>(distributed: map<K, int>, period: map<K, Dec>, weight: int, total: int): map<K, int>
    requires total != 0
  {
    map d | d in period :: AmountOf(distributed, d) + Share(period[d], weight, total)
  }

  ghost predicate SharesOf<K(!new)>(claims: map<Voter, Claim>, present: set<Voter>, period: map<K, Dec>, total: int,
                                    winners: seq<Voter>, distributed: map<K, int>) {
    forall d :: AmountOf(distributed, d) == Sum(winners, PaidTo(claims, present, AmountOf(period, d), total))
  }

  lemma SharesNext<K(!new)>(claims: map<Voter, Claim>, present: set<Voter>, period: map<K, Dec>, total: int,
                            winners: seq<Voter>, i: nat, distributed: map<K, int>)
    requires total != 0 && i < |winners| && SharesOf(claims, present, period, total, winners[..i], distributed)
    ensures SharesOf(claims, present, period, total, winners[..i + 1],
                     if winners[i] in present then WithShares(distributed, period, ClaimOf(claims, winners[i]).weight, total)
                     else distributed)
  {
    var weight := ClaimOf(claims, winners[i]).weight;
    NoPeriodNoShare(weight, total);
    forall d
      ensures AmountOf(if winners[i] in present then WithShares(distributed, period, weight, total) else distributed, d)
           == Sum(winners[..i + 1], PaidTo(claims, present, AmountOf(period, d), total))
    {
      var paid := PaidTo(claims, present, AmountOf(period, d), total);
      SumSnoc(winners, i, paid);
      assert AmountOf(distributed, d) == Sum(winners[..i], paid);
      if d !in period { NothingPaid(claims, present, total, winners[..i]); }
    }
  }

  lemma NothingPaid(claims: map<Voter, Claim>, present: set<Voter>, total: int, winners: seq<Voter>)
    ensures Sum(winners, PaidTo(claims, present, 0, total)) == 0
  {
    forall k | k in winners ensures PaidTo(claims, present, 0, total)(k) == 0 {
      if total != 0 { NoPeriodNoShare(ClaimOf(claims, k).weight, total); }
    }
    SumZero(winners, PaidTo(claims, present, 0, total));
  }

  /**
   * Of every rewarded denom, what is distributed is the sum of the shares of the winners whose
   * validator is there; no order of ranging matters, and no denom is given out twice.
   */
  method RewardBallotWinners(pools: map<Denom, int>, micro: Denom, votePeriod: int, window: int, targets: seq<Denom>,
                             claims: map<Voter, Claim>, present: set<Voter>, rangeWeights: seq<Voter>, rangeWinners: seq<Voter>)
    returns (distributed: map<Denom, int>)
    requires window != 0 && IsOrder(rangeWeights, claims.Keys) && IsOrder(rangeWinners, claims.Keys)
    ensures forall d :: AmountOf(distributed, d) == if d == micro || d in targets then
                          SetSum(claims.Keys, PaidTo(claims, present, PeriodReward(AmountOf(pools, d), votePeriod, window),
                                                     SetSum(claims.Keys, WeightOf(claims))))
                        else 0
  {
    var denoms := RewardDenoms(micro, targets);
    var total := TotalWeight(claims, rangeWeights);
    distributed := map[];
    if total == 0 {
      forall p ensures SetSum(claims.Keys, PaidTo(claims, present, p, 0)) == 0 {
        SumZero(Sorted(claims.Keys), PaidTo(claims, present, p, 0));
      }
      return;
    }
    var period := PeriodRewards(denoms, pools, votePeriod, window);
    for i := 0 to |rangeWinners|
      invariant SharesOf(claims, present, period, total, rangeWinners[..i], distributed)
    {
      SharesNext(claims, present, period, total, rangeWinners, i, distributed);
      if rangeWinners[i] in present {
        distributed := WithShares(distributed, period, ClaimOf(claims, rangeWinners[i]).weight, total);
      }
    }
    assert rangeWinners[..|rangeWinners|] == rangeWinners;
    SharesSettled(claims, present, period, total, rangeWinners, distributed);
    NothingPaid(claims, present, total, Sorted(claims.Keys));
  }

  lemma SharesSettled(claims: map<Voter, Claim>, present: set<Voter>, period: map<Denom, Dec>, total: int,
                      winners: seq<Voter>, distributed: map<Denom, int>)
    requires IsOrder(winners, claims.Keys) && SharesOf(claims, present, period, total, winners, distributed)
    ensures forall d :: AmountOf(distributed, d) == SetSum(claims.Keys, PaidTo(claims, present, AmountOf(period, d), total))
  {
    forall d ensures AmountOf(distributed, d) == SetSum(claims.Keys, PaidTo(claims, present, AmountOf(period, d), total)) {
      SumInAnyOrder(winners, claims.Keys, PaidTo(claims, present, AmountOf(period, d), total));
      assert AmountOf(distributed, d) == Sum(winners, PaidTo(claims, present, AmountOf(period, d), total));
    }
  }

  lemma TimesNat(a: int, b: int)
    requires a >= 0 && b >= 0
    ensures a * b >= 0
  {
  }

  /** A share exceeds the exact one by at most half a last-place unit. */
  lemma ShareBound(period: nat, weight: nat, total: nat)
    requires total > 0
    ensures Share(period, weight, total) >= 0
    ensures ONE * ONE * Share(period, weight, total) <= period * (FromInt(weight) / total) + HALF
    ensures (FromInt(weight) / total) * total <= FromInt(weight)
  {
    var f := FromInt(weight) / total;
    assert QuoInt(FromInt(weight), total) == f;
    DivisionBounds(FromInt(weight), total);
    TimesNat(period, f);
    RoundError(period * f);
  }

  lemma WeighShare(period: nat, weight: nat, total: nat, f: nat, share: int)
    requires ONE * ONE * share <= period * f + HALF && f * total <= FromInt(weight)
    ensures ONE * ONE * (share * total) <= ONE * (period * weight) + HALF * total
  {
    MulAtLeast(period * f + HALF, ONE * ONE * share, total);
    assert (period * f + HALF) * total == period * (f * total) + HALF * total;
    MulAtLeast(FromInt(weight), f * total, period);
    assert ONE * ONE * share * total == ONE * ONE * (share * total);
    assert FromInt(weight) * period == ONE * (period * weight);
  }

  lemma {:induction false} ScaledSums<T>(s: seq<T>, pay: T -> int, weight: T -> int, a: int, b: int, c: int)
    requires forall x :: x in s ==> a * pay(x) <= b * weight(x) + c
    ensures a * Sum(s, pay) <= b * Sum(s, weight) + c * |s|
  {
    if s != [] {
      assert forall x :: x in s[1..] ==> x in s;
      ScaledSums(s[1..], pay, weight, a, b, c);
      AddUp(a, b, c, pay(s[0]), Sum(s[1..], pay), weight(s[0]), Sum(s[1..], weight), |s| - 1);
    }
  }

  lemma AddUp(a: int, b: int, c: int, p: int, ps: int, w: int, ws: int, n: nat)
    requires a * p <= b * w + c && a * ps <= b * ws + c * n
    ensures a * (p + ps) <= b * (w + ws) + c * (n + 1)
  {
    assert a * (p + ps) == a * p + a * ps;
    assert b * (w + ws) == b * w + b * ws;
    assert c * (n + 1) == c * n + c;
  }

  lemma PaidBound(period: nat, weight: nat, total: nat, paid: int)
    requires total > 0 && (paid == 0 || paid == Share(period, weight, total))
    ensures (ONE * ONE * total) * paid <= (ONE * period) * weight + HALF * total
  {
    ShareBound(period, weight, total);
    TimesNat(period, weight);
    if paid == 0 {
      assert (ONE * period) * weight == ONE * (period * weight);
    } else {
      WeighShare(period, weight, total, FromInt(weight) / total, paid);
      assert (ONE * ONE * total) * paid == ONE * ONE * (paid * total);
      assert (ONE * period) * weight == ONE * (period * weight);
    }
  }

  lemma SharesBound(s: seq<Voter>, claims: map<Voter, Claim>, present: set<Voter>, period: nat, total: nat)
    requires total > 0 && forall k :: k in s ==> ClaimOf(claims, k).weight >= 0
    ensures (ONE * ONE * total) * Sum(s, PaidTo(claims, present, period, total))
         <= (ONE * period) * Sum(s, WeightOf(claims)) + HALF * total * |s|
  {
    var a, b, c := ONE * ONE * total, ONE * period, HALF * total;
    var paid, weight := PaidTo(claims, present, period, total), WeightOf(claims);
    forall k | k in s ensures a * paid(k) <= b * weight(k) + c { PaidBound(period, weight(k), total, paid(k)); }
    ScaledSums(s, paid, weight, a, b, c);
  }

  lemma PeriodRewardBound(pool: nat, votePeriod: nat, window: nat)
    requires 0 < window && votePeriod <= window
    ensures 0 <= PeriodReward(pool, votePeriod, window) <= FromInt(pool)
  {
    var r := FromInt(votePeriod) / window;
    DivAtMost(FromInt(votePeriod), window, ONE);
    assert FromInt(pool) * r == pool * r * ONE;
    RoundExact(pool * r);
    TimesNat(pool, r);
    MulAtLeast(ONE, r, pool);
  }

  lemma Cancel(a: int, b: int, c: nat)
    requires c > 0 && a * c <= b * c
    ensures a <= b
  {
    if a > b { MulAtLeast(a - 1, b, c); }
  }

  /**
   * The winners together are never paid more than the pool holds, so that moving the coins to the
   * distribution module cannot fail.
   */
  lemma RewardsFitPool(pool: nat, votePeriod: nat, window: nat, claims: map<Voter, Claim>, present: set<Voter>)
    requires 0 < window && votePeriod <= window && |claims| < 2 * ONE
    requires forall k :: k in claims ==> claims[k].weight >= 0
    ensures var total := SetSum(claims.Keys, WeightOf(claims));
            0 <= SetSum(claims.Keys, PaidTo(claims, present, PeriodReward(pool, votePeriod, window), total)) <= pool
  {
    var s, total := Sorted(claims.Keys), SetSum(claims.Keys, WeightOf(claims));
    var period := PeriodReward(pool, votePeriod, window);
    var paid := Sum(s, PaidTo(claims, present, period, total));
    SortedIsOrder(claims.Keys);
    OrderFacts(s, claims.Keys);
    PeriodRewardBound(pool, votePeriod, window);
    SumNonNegative(s, WeightOf(claims));
    if total == 0 {
      SumZero(s, PaidTo(claims, present, period, total));
    } else {
      forall k | k in s ensures PaidTo(claims, present, period, total)(k) >= 0 {
        ShareBound(period, ClaimOf(claims, k).weight, total);
      }
      SumNonNegative(s, PaidTo(claims, present, period, total));
      SharesBound(s, claims, present, period, total);
      FitsPool(paid, total, period, |s|, pool);
    }
  }

  lemma FitsPool(paid: int, total: nat, period: nat, n: nat, pool: nat)
    requires total > 0 && n < 2 * ONE && period <= FromInt(pool)
    requires (ONE * ONE * total) * paid <= (ONE * period) * total + HALF * total * n
    ensures paid <= pool
  {
    assert (ONE * ONE * total) * paid == (ONE * ONE * paid) * total;
    assert (ONE * period) * total + HALF * total * n == (ONE * period + HALF * n) * total;
    Cancel(ONE * ONE * paid, ONE * period + HALF * n, total);
  }

  /** The period's part of the pool, up to one last-place unit for each coin. */
  lemma PeriodRewardIs(pool: nat, votePeriod: nat, window: nat)
    requires 0 < window
    ensures 0 <= pool * FromInt(votePeriod) - PeriodReward(pool, votePeriod, window) * window <= pool * window
  {
    var r := FromInt(votePeriod) / window;
    assert FromInt(pool) * r == pool * r * ONE;
    RoundExact(pool * r);
    DivisionBounds(FromInt(votePeriod), window);
    var e := FromInt(votePeriod) - r * window;
    assert (r + 1) * window == r * window + window;
    MulAtLeast(e, 0, pool);
    MulAtLeast(window, e, pool);
    assert e * pool == pool * FromInt(votePeriod) - pool * r * window by {
      assert e * pool == FromInt(votePeriod) * pool - (r * window) * pool;
      assert (r * window) * pool == pool * r * window;
    }
    assert window * pool == pool * window;
  }

  lemma ShareAtLeast(period: nat, weight: nat, total: nat)
    requires total > 0
    ensures (ONE * period) * weight <= (ONE * ONE * total) * Share(period, weight, total) + (ONE * ONE + period + HALF) * total
  {
    var f := FromInt(weight) / total;
    assert QuoInt(FromInt(weight), total) == f;
    DivisionBounds(FromInt(weight), total);
    TimesNat(period, f);
    RoundError(period * f);
    var mul, share := Mul(period, f), Share(period, weight, total);
    TruncDivIs(mul, ONE);
    assert ONE * ONE * (share + 1) >= period * f - HALF;
    ShareStep(period, weight, total, f, share);
  }

  lemma ShareStep(period: nat, weight: nat, total: nat, f: nat, share: int)
    requires ONE * ONE * (share + 1) >= period * f - HALF && FromInt(weight) <= (f + 1) * total
    ensures (ONE * period) * weight <= (ONE * ONE * total) * share + (ONE * ONE + period + HALF) * total
  {
    MulAtLeast(ONE * ONE * (share + 1), period * f - HALF, total);
    MulAtLeast((f + 1) * total, FromInt(weight), period);
    assert FromInt(weight) * period == (ONE * period) * weight;
    assert ((f + 1) * total) * period == (period * f) * total + period * total;
    assert (period * f - HALF) * total == (period * f) * total - HALF * total;
    assert ONE * ONE * (share + 1) * total == (ONE * ONE * total) * share + ONE * ONE * total;
    assert (ONE * ONE + period + HALF) * total == ONE * ONE * total + period * total + HALF * total;
  }

  /** A winner that is there gets its part of the period's reward, by weight and in whole coins; one that is gone gets nothing. */
  lemma WinnerIsPaid(claims: map<Voter, Claim>, present: set<Voter>, period: nat, total: nat, k: Voter)
    requires total > 0 && ClaimOf(claims, k).weight >= 0
    ensures var paid, weight := PaidTo(claims, present, period, total)(k), ClaimOf(claims, k).weight;
            if k in present then
              (ONE * ONE * total) * paid - HALF * total <= (ONE * period) * weight <= (ONE * ONE * total) * paid + (ONE * ONE + period + HALF) * total
            else paid == 0
  {
    var weight := ClaimOf(claims, k).weight;
    PaidBound(period, weight, total, PaidTo(claims, present, period, total)(k));
    ShareAtLeast(period, weight, total);
  }

  /** Nothing is kept back either: if all winners are there, they get the period's reward but for what is rounded off each share. */
  lemma RewardsNearlyAll(period: nat, claims: map<Voter, Claim>, present: set<Voter>)
    requires claims.Keys <= present && forall k :: k in claims ==> claims[k].weight >= 0
    requires SetSum(claims.Keys, WeightOf(claims)) > 0
    ensures var total := SetSum(claims.Keys, WeightOf(claims));
            ONE * period <= ONE * ONE * SetSum(claims.Keys, PaidTo(claims, present, period, total)) + (ONE * ONE + period + HALF) * |claims|
  {
    var s, total := Sorted(claims.Keys), SetSum(claims.Keys, WeightOf(claims));
    var paid, weight := PaidTo(claims, present, period, total), WeightOf(claims);
    SortedIsOrder(claims.Keys);
    OrderFacts(s, claims.Keys);
    var a, b, c := ONE * period, ONE * ONE * total, (ONE * ONE + period + HALF) * total;
    forall k | k in s ensures a * weight(k) <= b * paid(k) + c {
      ShareAtLeast(period, weight(k), total);
    }
    ScaledSums(s, weight, paid, a, b, c);
    KeptBack(a, Sum(s, paid), total, ONE * ONE + period + HALF, |s|);
  }

  lemma KeptBack(a: int, paid: int, total: nat, c: int, n: nat)
    requires total > 0 && a * total <= (ONE * ONE * total) * paid + c * total * n
    ensures a <= ONE * ONE * paid + c * n
  {
    assert (ONE * ONE * total) * paid + c * total * n == (ONE * ONE * paid + c * n) * total by {
      assert (ONE * ONE * total) * paid == (ONE * ONE * paid) * total;
      assert c * total * n == (c * n) * total;
    }
    Cancel(a, ONE * ONE * paid + c * n, total);
  }

  // ---- the next period's targets

  function AsMap<K, V>(whitelist: seq<(K, V)>): map<K, V> {
    if whitelist == [] then map[]
    else
      var n := |whitelist| - 1;
      AsMap(whitelist[..n])[whitelist[n].0 := whitelist[n].1]
  }

  ghost predicate DistinctNames<K, V>(whitelist: seq<(K, V)>) {
    forall i, j :: 0 <= i < j < |whitelist| ==> whitelist[i].0 != whitelist[j].0
  }

  lemma {:induction false} AsMapNames<K, V>(whitelist: seq<(K, V)>)
    ensures forall d :: d in AsMap(whitelist) ==> exists i :: 0 <= i < |whitelist| && whitelist[i].0 == d
  {
    if whitelist != [] { AsMapNames(whitelist[..|whitelist| - 1]); }
  }

  lemma OneMoreKey<K, V>(m: map<K, V>, k: K, v: V)
    requires k !in m
    ensures |m[k := v]| == |m| + 1
  {
    assert m[k := v].Keys == m.Keys + {k};
    assert |m[k := v].Keys| == |m[k := v]| && |m.Keys| == |m|;
  }

  lemma {:induction false} AsMapIs<K, V>(whitelist: seq<(K, V)>)
    requires DistinctNames(whitelist)
    ensures |AsMap(whitelist)| == |whitelist|
    ensures forall i :: 0 <= i < |whitelist| ==> whitelist[i].0 in AsMap(whitelist) && AsMap(whitelist)[whitelist[i].0] == whitelist[i].1
  {
    if whitelist != [] {
      var n := |whitelist| - 1;
      var rest := AsMap(whitelist[..n]);
      AsMapIs(whitelist[..n]);
      AsMapNames(whitelist[..n]);
      OneMoreKey(rest, whitelist[n].0, whitelist[n].1);
    }
  }

  lemma SubMapOfSameSize<K, V>(a: map<K, V>, b: map<K, V>)
    requires |a| == |b| && forall k :: k in a ==> k in b && b[k] == a[k]
    ensures a == b
  {
    assert a.Keys <= b.Keys && |a.Keys| == |a| && |b.Keys| == |b|;
    assert b.Keys == a.Keys + (b.Keys - a.Keys);
    assert |b.Keys| == |a.Keys| + |b.Keys - a.Keys|;
  }

  /**
   * The stored taxes become the whitelist, unless the targets that survived the round are already
   * the whitelist: then the stored taxes stay as they are.
   */
  method ApplyWhitelist(stored: map<Denom, Dec>, whitelist: seq<(Denom, Dec)>, targets: map<Denom, Dec>)
    returns (stored': map<Denom, Dec>)
    requires DistinctNames(whitelist)
    ensures stored' == if targets == AsMap(whitelist) then stored else AsMap(whitelist)
  {
    AsMapIs(whitelist);
    AsMapNames(whitelist);
    var updateRequired := false;
    if |targets| != |whitelist| {
      updateRequired := true;
    } else {
      var i := 0;
      while i < |whitelist|
        invariant 0 <= i <= |whitelist| && !updateRequired
        invariant forall j :: 0 <= j < i ==> whitelist[j].0 in targets && targets[whitelist[j].0] == whitelist[j].1
      {
        if whitelist[i].0 !in targets || targets[whitelist[i].0] != whitelist[i].1 {
          updateRequired := true;
          break;
        }
        i := i + 1;
      }
      if !updateRequired {
        SubMapOfSameSize(AsMap(whitelist), targets);
      }
    }
    stored' := stored;
    if updateRequired {
      stored' := map[];
      for i := 0 to |whitelist|
        invariant stored' == AsMap(whitelist[..i])
      {
        assert whitelist[..i + 1][..i] == whitelist[..i];
        stored' := stored'[whitelist[i].0 := whitelist[i].1];
      }
      assert whitelist[..|whitelist|] == whitelist;
    }
  }

  /** A denom dropped from the whitelist stays stored while its ballot keeps failing and the rest agrees. */
  lemma WhitelistAppliedIff(stored: map<Denom, Dec>, whitelist: seq<(Denom, Dec)>, targets: map<Denom, Dec>, stored': map<Denom, Dec>)
    requires stored' == if targets == AsMap(whitelist) then stored else AsMap(whitelist)
    requires targets.Keys <= stored.Keys && forall d :: d in targets ==> targets[d] == stored[d]
    ensures stored' == AsMap(whitelist) <==> !(targets == AsMap(whitelist) && targets.Keys < stored.Keys)
  {
    if targets == AsMap(whitelist) && targets.Keys == stored.Keys {
      assert stored == targets;
    }
  }

  /** A denom dropped from the whitelist whose ballot fails: it is pruned, the rest agrees, and its tax stays stored. */
  method StaleTaxExample(kept: Denom, dropped: Denom, k: Voter) returns (stored: map<Denom, Dec>, stored': map<Denom, Dec>)
    requires kept != dropped
    ensures stored == map[kept := ONE, dropped := ONE] && stored' == stored && stored' != AsMap([(kept, ONE)])
  {
    stored := map[kept := ONE, dropped := ONE];
    var ballots := map[dropped := [Vote(k, 0, 0)]];
    SumZero(ballots[dropped], PowerOf);
    var targets := RemainingTargets(ballots, stored, 1);
    OnlyKept(ballots, stored, kept, dropped);
    var whitelist := [(kept, ONE)];
    assert whitelist[..0] == [] && AsMap(whitelist[..0]) == map[] && AsMap(whitelist) == map[kept := ONE];
    stored' := ApplyWhitelist(stored, whitelist, targets);
    assert dropped in stored';
  }

  lemma OnlyKept(ballots: map<Denom, Ballot>, stored: map<Denom, Dec>, kept: Denom, dropped: Denom)
    requires kept != dropped && stored == map[kept := ONE, dropped := ONE]
    requires ballots.Keys == {dropped} && !Passes(ballots[dropped], 1)
    ensures RemainingTargets(ballots, stored, 1) == map[kept := ONE]
  {
    var stays := NotFailedIn(ballots, 1);
    assert !stays(dropped) && stays(kept);
  }
}
