/** When tallying a ballot divides by zero, in terms of the votes cast. */
module OraclePanics {
  import opened Bytes
  import opened Decimals
  import opened Sums
  import opened OracleBallot
  import opened OracleCross
  import opened OracleRound
  import opened OracleTally
  import opened OraclePeriod
  import opened OracleEndBlock

  // ---- votes that turn into a zero rate

  /** A positive vote of a voter who also has a positive reference rate. */
  predicate Usable(bases: map<Voter, Dec>, v: Vote) {
    v.voter in bases && v.rate > 0
  }

  /** The reference rate over the voted one is at most half a last-place unit. */
  predicate Vanishes(base: Dec, rate: Dec)
    requires rate > 0
  {
    base * ONE * ONE / rate <= HALF
  }

  /** A vote that ends up at rate zero: one without a usable reference, or one whose cross rate vanishes. */
  predicate AtZero(bases: map<Voter, Dec>, v: Vote) {
    !Usable(bases, v) || Vanishes(bases[v.voter], v.rate)
  }

  /** The power a vote keeps in cross rates. */
  function CountedPower(bases: map<Voter, Dec>): Vote -> int {
    (v: Vote) => if Usable(bases, v) then v.power else 0
  }

  /** The part of it that ends up at rate zero. */
  function VanishingPower(bases: map<Voter, Dec>): Vote -> int {
    (v: Vote) => if Usable(bases, v) && AtZero(bases, v) then v.power else 0
  }

  lemma RoundsToZeroIff(q: nat)
    ensures Round(q) == 0 <==> q <= HALF
  {
  }

  lemma QuoIsZeroIff(base: Dec, rate: Dec)
    requires base > 0 && rate > 0
    ensures Quo(base, rate) >= 0 && (Quo(base, rate) == 0 <==> Vanishes(base, rate))
  {
    var n, q := QuoIs(base, rate);
    RoundsToZeroIff(q);
  }

  ghost predicate PositiveRates(bases: map<Voter, Dec>) {
    forall k :: k in bases ==> bases[k] > 0
  }

  lemma {:induction false} ToMapPositive(b: Ballot)
    ensures PositiveRates(ToMap(b))
  {
    if b != [] { ToMapPositive(b[..|b| - 1]); }
  }

  lemma CrossVoteIs(bases: map<Voter, Dec>, v: Vote)
    requires PositiveRates(bases)
    ensures var c := CrossVote(bases)(v);
            && c.rate >= 0
            && (c.rate == 0 <==> AtZero(bases, v))
            && PowerOf(c) == CountedPower(bases)(v)
            && UpTo(0)(c) == VanishingPower(bases)(v)
  {
    if Usable(bases, v) { QuoIsZeroIff(bases[v.voter], v.rate); }
  }

  // ---- a ballot without negative rates

  ghost predicate RatesNonNegative(b: Ballot) {
    forall v :: v in b ==> v.rate >= 0
  }

  /** Its median is zero exactly if a vote is at zero and half of the power is. */
  lemma ZeroMedianIff(b: Ballot)
    requires SortedByRate(b) && NonNegative(b) && RatesNonNegative(b)
    ensures WeightedMedian(b) == 0 <==> b == [] || ((exists v :: v in b && v.rate == 0) && PowerUpTo(b, 0) >= Power(b) / 2)
  {
    WeightedMedianIs(b);
    var m := WeightedMedian(b);
    if b != [] {
      var w :| w in b && w.rate == m;
      if v :| v in b && v.rate == 0 { assert v.rate < m ==> PowerUpTo(b, v.rate) < Power(b) / 2; }
    }
  }

  // ---- a ballot in cross rates

  lemma {:induction false} CrossSums(b: Ballot, bases: map<Voter, Dec>)
    requires PositiveRates(bases)
    ensures Power(CrossRates(b, bases)) == Sum(b, CountedPower(bases))
    ensures PowerUpTo(CrossRates(b, bases), 0) == Sum(b, VanishingPower(bases))
  {
    if b != [] {
      CrossSums(b[1..], bases);
      CrossVoteIs(bases, b[0]);
    }
  }

  lemma CrossZeros(b: Ballot, bases: map<Voter, Dec>)
    requires PositiveRates(bases)
    ensures RatesNonNegative(CrossRates(b, bases))
    ensures (exists c :: c in CrossRates(b, bases) && c.rate == 0) <==> exists v :: v in b && AtZero(bases, v)
  {
    var cs := CrossRates(b, bases);
    EachIs(b, CrossVote(bases));
    forall c | c in cs ensures c.rate >= 0 && (c.rate == 0 ==> exists v :: v in b && AtZero(bases, v)) {
      var i :| 0 <= i < |b| && cs[i] == c;
      CrossVoteIs(bases, b[i]);
      assert b[i] in b;
    }
    if v :| v in b && AtZero(bases, v) {
      var i :| 0 <= i < |b| && b[i] == v;
      CrossVoteIs(bases, v);
      assert cs[i] in cs && cs[i].rate == 0;
    }
  }

  /** Some vote ends up at zero, and at least half of the power that counts does. */
  ghost predicate HalfAtZero(b: Ballot, bases: map<Voter, Dec>) {
    (exists v :: v in b && AtZero(bases, v)) && Sum(b, VanishingPower(bases)) >= Sum(b, CountedPower(bases)) / 2
  }

  /** The median that the reference median is divided by is zero exactly in this case. */
  lemma MedianZeroIff(ballots: map<Denom, Ballot>, ref: Denom, d: Denom)
    requires Sound(ballots) && ref in ballots && d in ballots && d != ref
    ensures MedianOf(ballots, ref, d) == 0 <==> ballots[d] == [] || HalfAtZero(ballots[d], ToMap(ballots[ref]))
  {
    var b, bases := ballots[d], ToMap(ballots[ref]);
    var c := CrossRates(b, bases);
    var t := SortVotes(c);
    ToMapPositive(ballots[ref]);
    CrossSums(b, bases);
    CrossZeros(b, bases);
    CrossRatesKeepShape(b, bases);
    EachIs(b, CrossVote(bases));
    SortVotesSorts(c);
    SameMembers(c, t);
    SumOfPermutation(c, t, PowerOf);
    SumOfPermutation(c, t, UpTo(0));
    ZeroMedianIff(t);
  }

  /** So this is when a round goes through. */
  lemma NoZeroMedianIff(ballots: map<Denom, Ballot>, ref: Denom)
    requires Sound(ballots) && ref in ballots && forall d :: d in ballots ==> ballots[d] != []
    ensures NoZeroMedian(ballots, ref) <==> forall d :: d in ballots && d != ref ==> !HalfAtZero(ballots[d], ToMap(ballots[ref]))
  {
    forall d | d in ballots && d != ref
      ensures MedianOf(ballots, ref, d) == 0 <==> HalfAtZero(ballots[d], ToMap(ballots[ref]))
    {
      MedianZeroIff(ballots, ref, d);
    }
  }

  /** At the end of a period, `EndVotePeriod` panics exactly if half of some surviving ballot ends up at zero. */
  lemma PeriodPanicsIff(votes: seq<AggregateVote>, claims: map<Voter, Claim>, targets: map<Denom, Dec>, threshold: Option<int>, ref: Denom)
    requires Admitted(votes) && FreshClaims(claims) && ref in Surviving(BallotsOf(votes, claims), targets, threshold)
    ensures var ballots := Surviving(BallotsOf(votes, claims), targets, threshold);
            !NoZeroMedian(ballots, ref) <==> exists d :: d in ballots && d != ref && HalfAtZero(ballots[d], ToMap(ballots[ref]))
  {
    var all := BallotsOf(votes, claims);
    var ballots := Surviving(all, targets, threshold);
    BallotsOfOrganized(votes, claims);
    OrganizedSound(votes, claims, all);
    SurvivingSound(all, targets, threshold);
    forall d | d in ballots ensures ballots[d] != [] {
      assert CountedIn(all, targets, threshold.value)(d);
    }
    NoZeroMedianIff(ballots, ref);
  }

  /** Two units of power at rates that do not vanish are enough, if nothing vanishes. */
  lemma TwoUnitsSuffice(b: Ballot, bases: map<Voter, Dec>)
    requires forall v :: v in b && Usable(bases, v) ==> !Vanishes(bases[v.voter], v.rate)
    ensures HalfAtZero(b, bases) <==> (exists v :: v in b && !Usable(bases, v)) && Sum(b, CountedPower(bases)) < 2
  {
    SumZero(b, VanishingPower(bases));
  }

  // ---- two rounds that panic

  lemma BaseOf(v: Vote)
    requires v.rate > 0
    ensures ToMap([v]) == map[v.voter := v.rate]
  {
    assert [v][..0] == [];
  }

  lemma OneVoteSound(v: Vote)
    requires v.power >= 0
    ensures SortedByRate([v]) && NonNegative([v]) && AtMostOnce([v])
  {
  }

  /** Ten units of power, nobody abstaining: the reference rate is too small against the other rate. */
  lemma VanishingRatePanics(ref: Denom, d: Denom, k: Voter)
    requires ref != d
    ensures var ballots := map[ref := [Vote(k, 1, 10)], d := [Vote(k, 3 * ONE, 10)]];
            Sound(ballots) && !NoZeroMedian(ballots, ref)
  {
    var v, w := Vote(k, 1, 10), Vote(k, 3 * ONE, 10);
    var ballots := map[ref := [v], d := [w]];
    OneVoteSound(v);
    OneVoteSound(w);
    BaseOf(v);
    assert w in [w] && AtZero(ToMap([v]), w);
    SumOfOne(w, VanishingPower(ToMap([v])));
    SumOfOne(w, CountedPower(ToMap([v])));
    MedianZeroIff(ballots, ref, d);
  }

  lemma SumOfOne<T>(x: T, f: T -> int)
    ensures Sum([x], f) == f(x)
  {
    assert [x][1..] == [];
  }

  lemma SumOfTwo<T>(x: T, y: T, f: T -> int)
    ensures Sum([x, y], f) == f(x) + f(y)
  {
    assert [x, y] == [x] + [y];
    SumSplit([x], [y], f);
  }

  /** One unit of power and an abstention. */
  lemma AbstentionPanics(ref: Denom, d: Denom, k: Voter, l: Voter)
    requires ref != d && k != l
    ensures var ballots := map[ref := [Vote(k, ONE, 1)], d := [Vote(l, 0, 0), Vote(k, ONE, 1)]];
            Sound(ballots) && !NoZeroMedian(ballots, ref)
  {
    var v, z := Vote(k, ONE, 1), Vote(l, 0, 0);
    var b, ballots := [z, v], map[ref := [v], d := [z, v]];
    OneVoteSound(v);
    forall x ensures Sum(b, CastBy(x)) <= 1 { SumOfTwo(z, v, CastBy(x)); }
    BaseOf(v);
    assert z in b && AtZero(ToMap([v]), z);
    SumOfTwo(z, v, CountedPower(ToMap([v])));
    SumOfTwo(z, v, VanishingPower(ToMap([v])));
    MedianZeroIff(ballots, ref, d);
  }

  /** The tally of such ballots panics, whatever the order and the sort. */
  method VanishingRateTally(ref: Denom, d: Denom, k: Voter, order: seq<Denom>, sort: Ballot -> Ballot, band: Dec, root: Dec -> Dec)
    returns (ok: bool)
    requires ref != d && IsOrder(order, {ref, d}) && IsSorting(sort)
    ensures !ok
  {
    var ballots := map[ref := [Vote(k, 1, 10)], d := [Vote(k, 3 * ONE, 10)]];
    VanishingRatePanics(ref, d, k);
    assert ballots.Keys == {ref, d};
    var rates, claims;
    ok, rates, claims := TallyAll(ballots, ref, order, sort, band, root, map[k := Claim(10, 0, 0)]);
  }
}
