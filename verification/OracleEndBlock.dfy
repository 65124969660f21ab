/** The end blocker of the oracle: rates, credits and misses do not depend on any order of ranging. */
module OracleEndBlock {
  import opened Bytes
  import opened Decimals
  import opened Sums
  import opened OracleBallot
  import opened OracleCross
  import opened OracleRound
  import opened OracleTally
  import opened OraclePeriod

  /** Some way of ranging over map keys; each loop may have its own. */
  ghost predicate IsRanging(range: set<Bytes> -> seq<Bytes>) {
    forall keys :: IsOrder(range(keys), keys)
  }

  // ---- misses

  function MissesOf(misses: map<Voter, int>, k: Voter): int {
    if k in misses then misses[k] else 0
  }

  /** One more miss for each of these validators and for nobody else. */
  ghost predicate Charged(misses: map<Voter, int>, misses': map<Voter, int>, missed: set<Voter>) {
    forall k :: MissesOf(misses', k) == MissesOf(misses, k) + (if k in missed then 1 else 0)
  }

  /** The validators whose wins fall short of the number of targets. */
  ghost function Short(claims: map<Voter, Claim>, targets: nat): set<Voter> {
    set k | k in claims && claims[k].winCount != targets
  }

  method CountMisses(claims: map<Voter, Claim>, targets: nat, misses: map<Voter, int>, order: seq<Voter>)
    returns (misses': map<Voter, int>)
    requires IsOrder(order, claims.Keys)
    ensures Charged(misses, misses', Short(claims, targets))
  {
    OrderFacts(order, claims.Keys);
    FromStart(order, claims.Keys);
    misses' := misses;
    for i := 0 to |order|
      invariant Charged(misses, misses', set k | k in claims && k !in From(order, i) && claims[k].winCount != targets)
    {
      FromNext(order, i);
      var k := order[i];
      if claims[k].winCount != targets {
        misses' := misses'[k := MissesOf(misses', k) + 1];
      }
    }
  }

  // ---- winning a ballot

  /** The validator voted in the ballot, near the median or abstaining. */
  ghost predicate Won(ballots: map<Denom, Ballot>, ref: Denom, band: Dec, root: Dec -> Dec, k: Voter, d: Denom)
    requires ref in ballots && d in ballots
  {
    exists v :: v in TalliedBallot(ballots, ref, d) && v.voter == k
                && Wins(v, MedianOf(ballots, ref, d), SpreadOf(ballots, ref, band, root, d))
  }

  lemma TalliedOnce(ballots: map<Denom, Ballot>, ref: Denom, d: Denom)
    requires Sound(ballots) && ref in ballots && d in ballots
    ensures AtMostOnce(TalliedBallot(ballots, ref, d))
  {
    if d != ref {
      var c := CrossRates(ballots[d], ToMap(ballots[ref]));
      forall k ensures Sum(c, CastBy(k)) <= 1 {
        CrossRatesKeepVoters(ballots[d], ToMap(ballots[ref]), k);
        assert Sum(ballots[d], CastBy(k)) <= 1;
      }
      SortVotesSorts(c);
      OnceInAnyArrangement(c, SortVotes(c));
    }
  }

  lemma FlagIsWon(b: Ballot, k: Voter, m: Dec, s: Dec)
    requires AtMostOnce(b)
    ensures 0 <= Sum(b, WinFlag(k, m, s)) <= 1
    ensures Sum(b, WinFlag(k, m, s)) == 1 <==> exists v :: v in b && v.voter == k && Wins(v, m, s)
  {
    SumAtMost(b, WinFlag(k, m, s), CastBy(k));
    SumNonNegative(b, WinFlag(k, m, s));
    assert Sum(b, CastBy(k)) <= 1;
    if v :| v in b && v.voter == k && Wins(v, m, s) {
      var j :| 0 <= j < |b| && b[j] == v;
      SumAtLeastOne(b, j, WinFlag(k, m, s));
    } else {
      SumZero(b, WinFlag(k, m, s));
    }
  }

  lemma WinsInIsWon(ballots: map<Denom, Ballot>, ref: Denom, band: Dec, root: Dec -> Dec, k: Voter, d: Denom)
    requires Sound(ballots) && ref in ballots && d in ballots
    ensures 0 <= WinsIn(ballots, ref, band, root, k)(d) <= 1
    ensures WinsIn(ballots, ref, band, root, k)(d) == 1 <==> Won(ballots, ref, band, root, k, d)
  {
    TalliedOnce(ballots, ref, d);
    FlagIsWon(TalliedBallot(ballots, ref, d), k, MedianOf(ballots, ref, d), SpreadOf(ballots, ref, band, root, d));
  }

  lemma SubsetSize<T>(a: set<T>, b: set<T>)
    requires a <= b
    ensures |a| <= |b| && (|a| == |b| <==> a == b)
  {
    assert b == a + (b - a);
    assert |b| == |a| + |b - a|;
  }

  ghost predicate AllFlagged(keys: set<Bytes>, targets: set<Bytes>, flag: Bytes -> int) {
    forall d :: d in targets ==> d in keys && flag(d) == 1
  }

  lemma FullCount(keys: set<Bytes>, targets: set<Bytes>, flag: Bytes -> int)
    requires keys <= targets && forall d :: d in keys ==> 0 <= flag(d) <= 1
    ensures SetSum(keys, flag) == |targets| <==> AllFlagged(keys, targets, flag)
  {
    SortedIsOrder(keys);
    OrderFacts(Sorted(keys), keys);
    SumOfFlags(Sorted(keys), flag);
    SubsetSize(keys, targets);
  }

  /** Every target left passed, and the validator won or abstained in each. */
  ghost predicate WonAll(ballots: map<Denom, Ballot>, ref: Denom, band: Dec, root: Dec -> Dec, k: Voter, targets: set<Denom>) {
    forall d :: d in targets ==> ref != [] && ref in ballots && d in ballots && Won(ballots, ref, band, root, k, d)
  }

  lemma CountIsWonAll(ballots: map<Denom, Ballot>, ref: Denom, band: Dec, root: Dec -> Dec, k: Voter, targets: set<Denom>)
    requires Sound(ballots) && ref in ballots && ref != [] && ballots.Keys <= targets
    ensures SetSum(ballots.Keys, WinsIn(ballots, ref, band, root, k)) == |targets|
       <==> WonAll(ballots, ref, band, root, k, targets)
  {
    var wins := WinsIn(ballots, ref, band, root, k);
    forall d | d in ballots ensures 0 <= wins(d) <= 1 { WinsInIsWon(ballots, ref, band, root, k, d); }
    FullCount(ballots.Keys, targets, wins);
    FlaggedIsWonAll(ballots, ref, band, root, k, targets);
  }

  lemma FlaggedIsWonAll(ballots: map<Denom, Ballot>, ref: Denom, band: Dec, root: Dec -> Dec, k: Voter, targets: set<Denom>)
    requires Sound(ballots) && ref in ballots && ref != []
    ensures AllFlagged(ballots.Keys, targets, WinsIn(ballots, ref, band, root, k))
       <==> WonAll(ballots, ref, band, root, k, targets)
  {
    var wins := WinsIn(ballots, ref, band, root, k);
    if AllFlagged(ballots.Keys, targets, wins) {
      forall d | d in targets ensures d in ballots && Won(ballots, ref, band, root, k, d) {
        WinsInIsWon(ballots, ref, band, root, k, d);
      }
    }
    if WonAll(ballots, ref, band, root, k, targets) {
      forall d | d in targets ensures d in ballots && wins(d) == 1 { WinsInIsWon(ballots, ref, band, root, k, d); }
    }
  }

  // ---- the whole period

  /** What every validator has earned in the surviving ballots together. */
  ghost predicate Earned(ballots: map<Denom, Ballot>, ref: Denom, band: Dec, root: Dec -> Dec,
                         claims: map<Voter, Claim>, claims': map<Voter, Claim>) {
    && claims'.Keys == claims.Keys
    && forall k :: k in claims ==>
         AddsTo(claims[k], claims'[k], SetSum(ballots.Keys, WeightIn(ballots, ref, band, root, k)),
                SetSum(ballots.Keys, WinsIn(ballots, ref, band, root, k)))
  }

  lemma CreditedIsEarned(a: map<Denom, Ballot>, b: map<Denom, Ballot>, ref: Denom, band: Dec, root: Dec -> Dec,
                         claims: map<Voter, Claim>, claims': map<Voter, Claim>, order: seq<Denom>)
    requires Alike(a, b) && Sound(a) && Sound(b) && ref in a && IsOrder(order, a.Keys)
    requires CreditedFor(a, ref, band, root, claims, claims', order)
    ensures Earned(b, ref, band, root, claims, claims')
  {
    OrderFacts(order, a.Keys);
    forall k | k in claims
      ensures AddsTo(claims[k], claims'[k], SetSum(b.Keys, WeightIn(b, ref, band, root, k)),
                     SetSum(b.Keys, WinsIn(b, ref, band, root, k)))
    {
      forall d | d in order
        ensures WinsIn(a, ref, band, root, k)(d) == WinsIn(b, ref, band, root, k)(d)
        ensures WeightIn(a, ref, band, root, k)(d) == WeightIn(b, ref, band, root, k)(d)
      {
        AlikeTallied(a, b, ref, band, root, d, k);
      }
      SumAgrees(order, WinsIn(a, ref, band, root, k), WinsIn(b, ref, band, root, k));
      SumAgrees(order, WeightIn(a, ref, band, root, k), WeightIn(b, ref, band, root, k));
      SumInAnyOrder(order, b.Keys, WinsIn(b, ref, band, root, k));
      SumInAnyOrder(order, b.Keys, WeightIn(b, ref, band, root, k));
      assert ClaimOf(claims, k) == claims[k] && ClaimOf(claims', k) == claims'[k];
    }
  }

  lemma AlikeRates(a: map<Denom, Ballot>, b: map<Denom, Ballot>, ref: Denom, rates: map<Denom, Dec>)
    requires Alike(a, b) && Sound(a) && Sound(b) && ref in a
    ensures NoZeroMedian(a, ref) <==> NoZeroMedian(b, ref)
    ensures RatesOf(a, ref, rates) ==> RatesOf(b, ref, rates)
  {
    forall d | d in a ensures MedianOf(a, ref, d) == MedianOf(b, ref, d) {
      AlikeTallied(a, b, ref, 0, x => 0, d, []);
    }
  }

  /** The ballots that survive; none if the bonded total cannot be read. */
  function Surviving(ballots: map<Denom, Ballot>, targets: map<Denom, Dec>, threshold: Option<int>): map<Denom, Ballot> {
    if threshold.None? then map[] else PassingBallots(ballots, targets, threshold.value)
  }

  function LeftTargets(ballots: map<Denom, Ballot>, targets: map<Denom, Dec>, threshold: Option<int>): map<Denom, Dec> {
    if threshold.None? then targets else RemainingTargets(ballots, targets, threshold.value)
  }

  lemma SurvivingSound(ballots: map<Denom, Ballot>, targets: map<Denom, Dec>, threshold: Option<int>)
    requires Sound(ballots)
    ensures Sound(Surviving(ballots, targets, threshold))
    ensures Surviving(ballots, targets, threshold).Keys <= LeftTargets(ballots, targets, threshold).Keys
    ensures Surviving(ballots, targets, threshold).Keys <= ballots.Keys
  {
  }

  /** The validators that did not win everything. */
  ghost function Missed(claims: map<Voter, Claim>, ballots: map<Denom, Ballot>, ref: Denom, band: Dec, root: Dec -> Dec,
                        targets: set<Denom>): set<Voter> {
    set k | k in claims && !WonAll(ballots, ref, band, root, k, targets)
  }

  /** A target that no active validator voted on is missed by every validator. */
  lemma UnvotedTargetMissedByAll(votes: seq<AggregateVote>, claims: map<Voter, Claim>, targets: map<Denom, Dec>,
                                 threshold: Option<int>, ref: Denom, band: Dec, root: Dec -> Dec, d: Denom)
    requires FreshClaims(claims) && d in targets && VotesFor(votes, claims, d) == []
    ensures var all := BallotsOf(votes, claims);
            Missed(claims, Surviving(all, targets, threshold), ref, band, root, LeftTargets(all, targets, threshold).Keys) == claims.Keys
  {
    var all := BallotsOf(votes, claims);
    var ballots, left := Surviving(all, targets, threshold), LeftTargets(all, targets, threshold).Keys;
    BallotsOfOrganized(votes, claims);
    assert d !in all;
    if threshold.Some? { assert NotFailedIn(all, threshold.value)(d); }
    forall k | k in claims ensures k in Missed(claims, ballots, ref, band, root, left) {
      assert d in left && d !in ballots && !WonAll(ballots, ref, band, root, k, left);
    }
  }

  /** A denom whose votes fall short of the threshold leaves the targets, so that nobody misses it. */
  lemma FailedBallotIsNoTarget(votes: seq<AggregateVote>, claims: map<Voter, Claim>, targets: map<Denom, Dec>, threshold: int, d: Denom)
    requires FreshClaims(claims) && VotesFor(votes, claims, d) != [] && !Passes(VotesFor(votes, claims, d), threshold)
    ensures d !in LeftTargets(BallotsOf(votes, claims), targets, Some(threshold))
  {
    var all := BallotsOf(votes, claims);
    assert d in all && Power(all[d]) == Power(VotesFor(votes, claims, d)) by {
      BallotsOfOrganized(votes, claims);
      assert BallotOf(all, d) == all[d];
      SumOfPermutation(all[d], VotesFor(votes, claims, d), PowerOf);
    }
    assert !NotFailedIn(all, threshold)(d);
  }

  /** Counting wins against the number of targets left charges exactly those. */
  lemma MissesSettled(claims: map<Voter, Claim>, ballots: map<Denom, Ballot>, ref: Denom, band: Dec, root: Dec -> Dec,
                      claims': map<Voter, Claim>, targets: map<Denom, Dec>)
    requires FreshClaims(claims) && claims'.Keys == claims.Keys
    requires Sound(ballots) && ballots.Keys <= targets.Keys
    requires if ref == [] then claims' == claims
             else ref in ballots && Earned(ballots, ref, band, root, claims, claims')
    ensures Short(claims', |targets|) == Missed(claims, ballots, ref, band, root, targets.Keys)
  {
    assert |targets| == |targets.Keys|;
    forall k ensures k in Short(claims', |targets|) <==> k in Missed(claims, ballots, ref, band, root, targets.Keys) {
      WinCountSettled(claims, ballots, ref, band, root, claims', targets.Keys, k);
    }
    SameSet(Short(claims', |targets|), Missed(claims, ballots, ref, band, root, targets.Keys));
  }

  lemma SameSet<T>(a: set<T>, b: set<T>)
    requires forall x :: x in a <==> x in b
    ensures a == b
  {
  }

  lemma WinCountSettled(claims: map<Voter, Claim>, ballots: map<Denom, Ballot>, ref: Denom, band: Dec, root: Dec -> Dec,
                        claims': map<Voter, Claim>, targets: set<Denom>, k: Voter)
    requires FreshClaims(claims) && claims'.Keys == claims.Keys
    requires Sound(ballots) && ballots.Keys <= targets
    requires if ref == [] then claims' == claims
             else ref in ballots && Earned(ballots, ref, band, root, claims, claims')
    ensures k in Short(claims', |targets|) <==> k in Missed(claims, ballots, ref, band, root, targets)
  {
    if k in claims {
      if ref == [] {
        if targets != {} {
          var d :| d in targets;
          assert !WonAll(ballots, ref, band, root, k, targets);
        }
      } else {
        CountIsWonAll(ballots, ref, band, root, k, targets);
      }
    }
  }

  /**
   * The end of a vote period. None of the ways of ranging nor the sort is mentioned in what is
   * promised, so all nodes agree on the reference, the rates, the claims, the misses, and on whether
   * the block panics.
   */
  method EndVotePeriod(votes: seq<AggregateVote>, claims: map<Voter, Claim>, targets: map<Denom, Dec>,
                       voteThreshold: Dec, bonded: Option<int>, powerReduction: int,
                       band: Dec, root: Dec -> Dec, misses: map<Voter, int>, sort: Ballot -> Ballot,
                       rangePick: set<Bytes> -> seq<Bytes>, rangeTally: set<Bytes> -> seq<Bytes>, rangeMiss: set<Bytes> -> seq<Bytes>)
    returns (ok: bool, ref: Denom, rates: map<Denom, Dec>, claims': map<Voter, Claim>, targets': map<Denom, Dec>, misses': map<Voter, int>)
    requires Admitted(votes) && FreshClaims(claims) && powerReduction != 0
    requires IsSorting(sort) && IsRanging(rangePick) && IsRanging(rangeTally) && IsRanging(rangeMiss)
    ensures var all, threshold := BallotsOf(votes, claims), VotesNeeded(voteThreshold, bonded, powerReduction);
            var ballots := Surviving(all, targets, threshold);
            && targets' == LeftTargets(all, targets, threshold)
            && IsReference(ref, ballots.Keys, all)
            && (if ref == [] then ok && rates == map[] && claims' == claims
                else
                  && (ok <==> NoZeroMedian(ballots, ref))
                  && (ok ==> rates.Keys == ballots.Keys && RatesOf(ballots, ref, rates)
                             && Earned(ballots, ref, band, root, claims, claims')))
            && (ok ==> Charged(misses, misses', Missed(claims, ballots, ref, band, root, targets'.Keys)))
  {
    var threshold := VotesNeeded(voteThreshold, bonded, powerReduction);
    ghost var canonical := BallotsOf(votes, claims);
    ghost var surviving := Surviving(canonical, targets, threshold);
    BallotsOfOrganized(votes, claims);
    OrganizedSound(votes, claims, canonical);
    SurvivingSound(canonical, targets, threshold);

    var ballots := OrganizeBallotByDenom(votes, claims, sort);
    OrganizedSound(votes, claims, ballots);
    OrganizedAlike(votes, claims, ballots, canonical);

    ref, targets', claims', rates, misses', ok := [], targets, claims, map[], misses, true;
    if threshold.Some? {
      ref, targets', ballots := PickReference(votes, claims, ballots, targets, threshold, rangePick);
      if ref != [] {
        ok, rates, claims' := TallySurviving(ballots, surviving, ref, sort, band, root, claims, rangeTally);
        if !ok {
          return;
        }
      }
    }
    misses' := CountMisses(claims', |targets'|, misses, rangeMiss(claims'.Keys));
    MissesSettled(claims, surviving, ref, band, root, claims', targets');
  }

  method PickReference(ghost votes: seq<AggregateVote>, ghost claims: map<Voter, Claim>, ballots: map<Denom, Ballot>,
                       targets: map<Denom, Dec>, threshold: Option<int>, range: set<Bytes> -> seq<Bytes>)
    returns (ref: Denom, targets': map<Denom, Dec>, ballots': map<Denom, Ballot>)
    requires Admitted(votes) && FreshClaims(claims) && threshold.Some? && IsRanging(range)
    requires Organized(votes, claims, ballots)
    ensures targets' == LeftTargets(BallotsOf(votes, claims), targets, threshold)
    ensures Alike(ballots', Surviving(BallotsOf(votes, claims), targets, threshold))
    ensures Sound(ballots') && VotersClaim(ballots', claims)
    ensures IsReference(ref, Surviving(BallotsOf(votes, claims), targets, threshold).Keys, BallotsOf(votes, claims))
  {
    OrganizedSound(votes, claims, ballots);
    ref, targets', ballots' := PickReferenceDo(targets, ballots, threshold.value, range(ballots.Keys));
    ghost var all := BallotsOf(votes, claims);
    BallotsOfOrganized(votes, claims);
    OrganizedAlike(votes, claims, ballots, all);
    PickedAlike(ballots, all, targets, threshold, ref);
    PassingSound(votes, claims, ballots, targets, threshold.value);
  }

  /** Pruning and picking come out the same for two arrangements of the same ballots. */
  lemma PickedAlike(a: map<Denom, Ballot>, b: map<Denom, Ballot>, targets: map<Denom, Dec>, threshold: Option<int>, ref: Denom)
    requires Alike(a, b) && IsReference(ref, Surviving(a, targets, threshold).Keys, a)
    ensures LeftTargets(a, targets, threshold) == LeftTargets(b, targets, threshold)
    ensures Alike(Surviving(a, targets, threshold), Surviving(b, targets, threshold))
    ensures IsReference(ref, Surviving(b, targets, threshold).Keys, b)
  {
    if threshold.Some? { AlikePruning(a, b, targets, threshold.value); }
    AlikeReference(a, b, ref, Surviving(a, targets, threshold).Keys);
  }

  lemma PassingSound(votes: seq<AggregateVote>, claims: map<Voter, Claim>, ballots: map<Denom, Ballot>, targets: map<Denom, Dec>, threshold: int)
    requires Admitted(votes) && FreshClaims(claims) && Organized(votes, claims, ballots)
    ensures Sound(PassingBallots(ballots, targets, threshold)) && VotersClaim(PassingBallots(ballots, targets, threshold), claims)
  {
    OrganizedSound(votes, claims, ballots);
  }

  method TallySurviving(ballots: map<Denom, Ballot>, ghost surviving: map<Denom, Ballot>, ref: Denom, sort: Ballot -> Ballot,
                        band: Dec, root: Dec -> Dec, claims: map<Voter, Claim>, range: set<Bytes> -> seq<Bytes>)
    returns (ok: bool, rates: map<Denom, Dec>, claims': map<Voter, Claim>)
    requires Alike(ballots, surviving) && Sound(ballots) && Sound(surviving) && VotersClaim(ballots, claims)
    requires ref in surviving && IsSorting(sort) && IsRanging(range)
    ensures ok <==> NoZeroMedian(surviving, ref)
    ensures ok ==> rates.Keys == surviving.Keys && RatesOf(surviving, ref, rates)
                   && Earned(surviving, ref, band, root, claims, claims')
  {
    ok, rates, claims' := TallyAll(ballots, ref, range(ballots.Keys), sort, band, root, claims);
    AlikeRates(ballots, surviving, ref, rates);
    if ok {
      CreditedIsEarned(ballots, surviving, ref, band, root, claims, claims', range(ballots.Keys));
    }
  }
}
