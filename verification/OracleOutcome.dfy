/** Who wins and who misses at the end of a period, and at which rates, in terms of the votes cast. */
module OracleOutcome {
  import opened Bytes
  import opened Decimals
  import opened Sums
  import opened OracleBallot
  import opened OracleCross
  import opened OracleRound
  import opened OracleTally
  import opened OraclePeriod
  import opened OracleEndBlock

  // ---- votes and ballots

  /** A validator quoted a rate for a denom. */
  ghost predicate Quotes(votes: seq<AggregateVote>, k: Voter, d: Denom, r: Dec) {
    exists a :: a in votes && a.voter == k && (d, r) in a.tuples
  }

  lemma {:induction false} TupleVotesHas(voter: Voter, power: int, tuples: seq<(Denom, Dec)>, d: Denom, v: Vote)
    ensures v in TupleVotes(voter, power, tuples, d) <==>
            v.voter == voter && (d, v.rate) in tuples && v.power == if v.rate > 0 then power else 0
  {
    if tuples != [] {
      var n := |tuples| - 1;
      TupleVotesHas(voter, power, tuples[..n], d, v);
      assert tuples == tuples[..n] + [tuples[n]];
    }
  }

  /** A denom's votes are exactly what active validators quoted, with their power unless they abstain. */
  lemma {:induction false} VotesForHas(votes: seq<AggregateVote>, claims: map<Voter, Claim>, d: Denom, v: Vote)
    ensures v in VotesFor(votes, claims, d) <==>
            && v.voter in claims && Quotes(votes, v.voter, d, v.rate)
            && v.power == if v.rate > 0 then claims[v.voter].power else 0
  {
    if votes != [] {
      var n := |votes| - 1;
      VotesForHas(votes[..n], claims, d, v);
      QuotesNext(votes, v.voter, d, v.rate);
      if votes[n].voter in claims {
        TupleVotesHas(votes[n].voter, claims[votes[n].voter].power, votes[n].tuples, d, v);
      }
    }
  }

  lemma QuotesNext(votes: seq<AggregateVote>, k: Voter, d: Denom, r: Dec)
    requires votes != []
    ensures var n := |votes| - 1;
            Quotes(votes, k, d, r) <==> Quotes(votes[..n], k, d, r) || (votes[n].voter == k && (d, r) in votes[n].tuples)
  {
    var n := |votes| - 1;
    assert votes == votes[..n] + [votes[n]];
    assert forall a :: a in votes <==> a in votes[..n] || a == votes[n];
  }

  lemma BallotHas(votes: seq<AggregateVote>, claims: map<Voter, Claim>, d: Denom, v: Vote)
    requires FreshClaims(claims) && d in BallotsOf(votes, claims)
    ensures v in BallotsOf(votes, claims)[d] <==>
            && v.voter in claims && Quotes(votes, v.voter, d, v.rate)
            && v.power == if v.rate > 0 then claims[v.voter].power else 0
  {
    SortVotesSorts(VotesFor(votes, claims, d));
    SameMembers(SortVotes(VotesFor(votes, claims, d)), VotesFor(votes, claims, d));
    VotesForHas(votes, claims, d, v);
  }

  // ---- the power behind a denom

  ghost predicate Prices(a: AggregateVote, d: Denom) {
    exists t :: t in a.tuples && t.0 == d && t.1 > 0
  }

  /** The power a validator's vote puts behind a denom. */
  ghost function SupportOf(claims: map<Voter, Claim>, d: Denom): AggregateVote -> int {
    (a: AggregateVote) => if a.voter in claims && Prices(a, d) then claims[a.voter].power else 0
  }

  ghost function Support(votes: seq<AggregateVote>, claims: map<Voter, Claim>, d: Denom): int {
    Sum(votes, SupportOf(claims, d))
  }

  lemma {:induction false} TuplePower(voter: Voter, power: int, tuples: seq<(Denom, Dec)>, d: Denom)
    requires DistinctDenoms(tuples)
    ensures Power(TupleVotes(voter, power, tuples, d)) == if Prices(AggregateVote(voter, tuples), d) then power else 0
    ensures (forall t :: t in tuples ==> t.0 != d) ==> TupleVotes(voter, power, tuples, d) == []
  {
    if tuples != [] {
      var n := |tuples| - 1;
      var last := tuples[n];
      TuplePower(voter, power, tuples[..n], d);
      SumSplit(TupleVotes(voter, power, tuples[..n], d), CastFor(voter, power, last, d), PowerOf);
      assert tuples == tuples[..n] + [last];
      assert forall t :: t in tuples <==> t in tuples[..n] || t == last;
      if last.0 == d { assert forall t :: t in tuples[..n] ==> t.0 != d; }
      assert Sum(CastFor(voter, power, last, d), PowerOf) == if last.0 == d && last.1 > 0 then power else 0;
    }
  }

  lemma {:induction false} VotesPower(votes: seq<AggregateVote>, claims: map<Voter, Claim>, d: Denom)
    requires Admitted(votes)
    ensures Power(VotesFor(votes, claims, d)) == Support(votes, claims, d)
  {
    if votes != [] {
      var n := |votes| - 1;
      var a := votes[n];
      VotesPower(votes[..n], claims, d);
      SumSplit(VotesFor(votes[..n], claims, d), ValidatorVotes(a, claims, d), PowerOf);
      SumSnoc(votes, n, SupportOf(claims, d));
      assert votes[..n + 1] == votes;
      if a.voter in claims {
        TuplePower(a.voter, claims[a.voter].power, a.tuples, d);
        assert AggregateVote(a.voter, a.tuples) == a;
      }
    }
  }

  lemma BallotPower(votes: seq<AggregateVote>, claims: map<Voter, Claim>, d: Denom)
    requires Admitted(votes) && d in BallotsOf(votes, claims)
    ensures Power(BallotsOf(votes, claims)[d]) == Support(votes, claims, d)
  {
    SortVotesSorts(VotesFor(votes, claims, d));
    SumOfPermutation(SortVotes(VotesFor(votes, claims, d)), VotesFor(votes, claims, d), PowerOf);
    VotesPower(votes, claims, d);
  }

  /** Somebody with a claim quoted the denom, be it to abstain. */
  ghost predicate Held(votes: seq<AggregateVote>, claims: map<Voter, Claim>, d: Denom) {
    exists k, r :: k in claims && Quotes(votes, k, d, r)
  }

  lemma HeldIff(votes: seq<AggregateVote>, claims: map<Voter, Claim>, d: Denom)
    requires FreshClaims(claims)
    ensures d in BallotsOf(votes, claims) <==> Held(votes, claims, d)
  {
    var b := VotesFor(votes, claims, d);
    VotesForShape(votes, claims, d);
    if b != [] {
      VotesForHas(votes, claims, d, b[0]);
      assert b[0].voter in claims && Quotes(votes, b[0].voter, d, b[0].rate);
    }
    if k, r :| k in claims && Quotes(votes, k, d, r) {
      VotesForHas(votes, claims, d, Vote(k, r, if r > 0 then claims[k].power else 0));
    }
  }

  /**
   * A target whose vote was held is tallied exactly if the power behind it is not zero and reaches the
   * threshold, and is dropped otherwise; a target nobody quoted stays and is not tallied.
   */
  lemma TargetFate(votes: seq<AggregateVote>, claims: map<Voter, Claim>, targets: map<Denom, Dec>, threshold: int, d: Denom)
    requires Admitted(votes) && FreshClaims(claims)
    ensures var all, power := BallotsOf(votes, claims), Support(votes, claims, d);
            && (d in Surviving(all, targets, Some(threshold)) <==>
                  d in targets && Held(votes, claims, d) && power != 0 && power >= threshold)
            && (d in LeftTargets(all, targets, Some(threshold)) <==>
                  d in targets && (Held(votes, claims, d) ==> power != 0 && power >= threshold))
  {
    var all := BallotsOf(votes, claims);
    HeldIff(votes, claims, d);
    if d in all { BallotPower(votes, claims, d); }
    assert CountedIn(all, targets, threshold)(d) <==> d in all && d in targets && Passes(all[d], threshold);
    assert NotFailedIn(all, threshold)(d) <==> (d in all ==> Passes(all[d], threshold));
  }

  /** The reference has the most power behind it, and of several the alphabetically first. */
  lemma ReferenceIs(votes: seq<AggregateVote>, claims: map<Voter, Claim>, denoms: set<Denom>, ref: Denom, d: Denom)
    requires Admitted(votes) && FreshClaims(claims) && denoms <= BallotsOf(votes, claims).Keys
    requires IsReference(ref, denoms, BallotsOf(votes, claims)) && d in denoms
    ensures ref in denoms && Support(votes, claims, d) <= Support(votes, claims, ref)
    ensures d != ref && Support(votes, claims, d) == Support(votes, claims, ref) ==> Less(ref, d)
  {
    assert Outranks(ref, d, BallotsOf(votes, claims));
    BallotPower(votes, claims, d);
    BallotPower(votes, claims, ref);
  }

  /** The threshold is the asked share of the bonded power, to the nearest whole. */
  lemma VotesNeededIs(voteThreshold: Dec, bonded: nat, powerReduction: nat)
    requires powerReduction > 0
    ensures var needed := VotesNeeded(voteThreshold, Some(bonded), powerReduction);
            needed.Some? && -HALF <= voteThreshold * (bonded / powerReduction) - ONE * needed.value <= HALF
  {
    RoundError(voteThreshold * (bonded / powerReduction));
  }

  // ---- who wins a ballot

  /**
   * A quote that wins: an abstention; for the reference, a rate within the spread of the median; for
   * any other denom, a reference rate over it that is within the spread, or that vanishes, or that the
   * validator did not usably quote.
   */
  ghost predicate Credible(votes: seq<AggregateVote>, ref: Denom, d: Denom, k: Voter, r: Dec, m: Dec, s: Dec) {
    || r <= 0
    || (d == ref && m - s <= r <= m + s)
    || (d != ref && r > 0 && forall b :: Quotes(votes, k, ref, b) && b > 0 ==> Quo(b, r) <= 0 || m - s <= Quo(b, r) <= m + s)
  }

  /** The surviving ballots of a period and the reference picked from them. */
  ghost predicate OfPeriod(votes: seq<AggregateVote>, claims: map<Voter, Claim>, ballots: map<Denom, Ballot>, ref: Denom) {
    && Admitted(votes) && FreshClaims(claims) && ref in ballots
    && forall d :: d in ballots ==> d in BallotsOf(votes, claims) && ballots[d] == BallotsOf(votes, claims)[d]
  }

  /** The validator quoted the denom, and credibly at the median and spread of its ballot. */
  ghost predicate QuotesCredibly(votes: seq<AggregateVote>, ballots: map<Denom, Ballot>, ref: Denom, band: Dec, root: Dec -> Dec,
                                 k: Voter, d: Denom)
    requires ref in ballots && d in ballots
  {
    var m, s := MedianOf(ballots, ref, d), SpreadOf(ballots, ref, band, root, d);
    exists r :: Quotes(votes, k, d, r) && Credible(votes, ref, d, k, r, m, s)
  }

  lemma SurvivingOfPeriod(votes: seq<AggregateVote>, claims: map<Voter, Claim>, targets: map<Denom, Dec>, threshold: Option<int>, ref: Denom)
    requires Admitted(votes) && FreshClaims(claims)
    requires ref in Surviving(BallotsOf(votes, claims), targets, threshold)
    ensures OfPeriod(votes, claims, Surviving(BallotsOf(votes, claims), targets, threshold), ref)
  {
  }

  lemma PeriodSound(votes: seq<AggregateVote>, claims: map<Voter, Claim>, ballots: map<Denom, Ballot>, ref: Denom)
    requires OfPeriod(votes, claims, ballots, ref)
    ensures Sound(ballots)
  {
    BallotsOfOrganized(votes, claims);
    OrganizedSound(votes, claims, BallotsOf(votes, claims));
  }

  /** The usable reference rates are the positive quotes for the reference. */
  lemma BaseIs(votes: seq<AggregateVote>, claims: map<Voter, Claim>, ballots: map<Denom, Ballot>, ref: Denom, k: Voter, b: Dec)
    requires OfPeriod(votes, claims, ballots, ref) && k in claims
    ensures Quotes(votes, k, ref, b) && b > 0 <==> k in ToMap(ballots[ref]) && ToMap(ballots[ref])[k] == b
  {
    PeriodSound(votes, claims, ballots, ref);
    OnceMeansOneVote(ballots[ref]);
    ToMapIs(ballots[ref], k);
    if Quotes(votes, k, ref, b) && b > 0 {
      BallotHas(votes, claims, ref, Vote(k, b, claims[k].power));
      assert Vote(k, b, claims[k].power) in ballots[ref];
    }
    if k in ToMap(ballots[ref]) && ToMap(ballots[ref])[k] == b {
      var v :| v in ballots[ref] && v.voter == k && v.rate > 0;
      BallotHas(votes, claims, ref, v);
    }
  }

  lemma CrossHas(b: Ballot, bases: map<Voter, Dec>, v: Vote)
    ensures v in SortVotes(CrossRates(b, bases)) <==> exists w :: w in b && CrossVote(bases)(w) == v
  {
    var c := CrossRates(b, bases);
    SortVotesSorts(c);
    SameMembers(SortVotes(c), c);
    EachIs(b, CrossVote(bases));
    if v in c {
      var i :| 0 <= i < |c| && c[i] == v;
      assert b[i] in b && CrossVote(bases)(b[i]) == v;
    }
    if w :| w in b && CrossVote(bases)(w) == v {
      var i :| 0 <= i < |b| && b[i] == w;
      assert c[i] == v;
    }
  }

  /** One quote as it is tallied. */
  lemma QuoteWinsIff(votes: seq<AggregateVote>, claims: map<Voter, Claim>, ballots: map<Denom, Ballot>, ref: Denom, d: Denom, w: Vote, m: Dec, s: Dec)
    requires OfPeriod(votes, claims, ballots, ref) && d in ballots && w in ballots[d]
    ensures var v := if d == ref then w else CrossVote(ToMap(ballots[ref]))(w);
            v.voter == w.voter && (Wins(v, m, s) <==> Credible(votes, ref, d, w.voter, w.rate, m, s))
  {
    BallotHas(votes, claims, d, w);
    if d != ref && w.rate > 0 {
      var bases, k := ToMap(ballots[ref]), w.voter;
      forall b ensures Quotes(votes, k, ref, b) && b > 0 <==> k in bases && bases[k] == b {
        BaseIs(votes, claims, ballots, ref, k, b);
      }
      if k in bases { assert Quotes(votes, k, ref, bases[k]) && bases[k] > 0; }
    }
  }

  /** A validator wins a ballot exactly if it quoted the denom, and credibly. */
  lemma WonIff(votes: seq<AggregateVote>, claims: map<Voter, Claim>, ballots: map<Denom, Ballot>, ref: Denom,
               band: Dec, root: Dec -> Dec, k: Voter, d: Denom)
    requires OfPeriod(votes, claims, ballots, ref) && d in ballots && k in claims
    ensures Won(ballots, ref, band, root, k, d) <==> QuotesCredibly(votes, ballots, ref, band, root, k, d)
  {
    var m, s, bases := MedianOf(ballots, ref, d), SpreadOf(ballots, ref, band, root, d), ToMap(ballots[ref]);
    if Won(ballots, ref, band, root, k, d) {
      var v :| v in TalliedBallot(ballots, ref, d) && v.voter == k && Wins(v, m, s);
      CrossHas(ballots[d], bases, v);
      var w :| w in ballots[d] && v == if d == ref then w else CrossVote(bases)(w);
      QuoteWinsIff(votes, claims, ballots, ref, d, w, m, s);
      BallotHas(votes, claims, d, w);
    }
    if r :| Quotes(votes, k, d, r) && Credible(votes, ref, d, k, r, m, s) {
      var w := Vote(k, r, if r > 0 then claims[k].power else 0);
      BallotHas(votes, claims, d, w);
      QuoteWinsIff(votes, claims, ballots, ref, d, w, m, s);
      var v := if d == ref then w else CrossVote(bases)(w);
      CrossHas(ballots[d], bases, v);
      assert v in TalliedBallot(ballots, ref, d);
    }
  }

  /**
   * Who is charged a miss: a validator is not exactly if every target left was tallied and it quoted
   * each of them, and credibly.
   */
  lemma MissedIff(votes: seq<AggregateVote>, claims: map<Voter, Claim>, ballots: map<Denom, Ballot>, ref: Denom,
                  band: Dec, root: Dec -> Dec, targets: set<Denom>, k: Voter)
    requires OfPeriod(votes, claims, ballots, ref) && ref != [] && k in claims
    ensures k !in Missed(claims, ballots, ref, band, root, targets) <==>
            forall d :: d in targets ==> d in ballots && QuotesCredibly(votes, ballots, ref, band, root, k, d)
  {
    forall d | d in targets && d in ballots
      ensures Won(ballots, ref, band, root, k, d) <==> QuotesCredibly(votes, ballots, ref, band, root, k, d)
    {
      WonIff(votes, claims, ballots, ref, band, root, k, d);
    }
  }

  /** One who abstains from every target is not charged, provided all of them were tallied. */
  lemma AbstainerNotCharged(votes: seq<AggregateVote>, claims: map<Voter, Claim>, ballots: map<Denom, Ballot>, ref: Denom,
                            band: Dec, root: Dec -> Dec, targets: set<Denom>, k: Voter)
    requires OfPeriod(votes, claims, ballots, ref) && ref != [] && k in claims && targets <= ballots.Keys
    requires forall d :: d in targets ==> exists r :: r <= 0 && Quotes(votes, k, d, r)
    ensures k !in Missed(claims, ballots, ref, band, root, targets)
  {
    MissedIff(votes, claims, ballots, ref, band, root, targets, k);
    forall d | d in targets ensures QuotesCredibly(votes, ballots, ref, band, root, k, d) {
      var r :| r <= 0 && Quotes(votes, k, d, r);
      assert Credible(votes, ref, d, k, r, MedianOf(ballots, ref, d), SpreadOf(ballots, ref, band, root, d));
    }
  }

  /** Without a reference, because nothing passed or the bonded total cannot be read, everybody misses what targets are left. */
  lemma NoReferenceAllCharged(claims: map<Voter, Claim>, ballots: map<Denom, Ballot>, band: Dec, root: Dec -> Dec, targets: set<Denom>)
    ensures Missed(claims, ballots, [], band, root, targets) == if targets == {} then {} else claims.Keys
  {
    if d :| d in targets {
      forall k | k in claims ensures !WonAll(ballots, [], band, root, k, targets) { }
    }
  }

  /**
   * So at the end of every period: not charged are all validators if no target is left, and otherwise,
   * given a reference, exactly those that quoted every target left credibly, all of them tallied.
   */
  lemma PeriodChargedIff(votes: seq<AggregateVote>, claims: map<Voter, Claim>, targets: map<Denom, Dec>, threshold: Option<int>,
                         ref: Denom, band: Dec, root: Dec -> Dec, k: Voter)
    requires Admitted(votes) && FreshClaims(claims) && k in claims
    requires IsReference(ref, Surviving(BallotsOf(votes, claims), targets, threshold).Keys, BallotsOf(votes, claims))
    ensures var ballots := Surviving(BallotsOf(votes, claims), targets, threshold);
            var left := LeftTargets(BallotsOf(votes, claims), targets, threshold).Keys;
            k !in Missed(claims, ballots, ref, band, root, left) <==>
            left == {} || (ref != [] && ref in ballots
                           && forall d :: d in left ==> d in ballots && QuotesCredibly(votes, ballots, ref, band, root, k, d))
  {
    var ballots := Surviving(BallotsOf(votes, claims), targets, threshold);
    var left := LeftTargets(BallotsOf(votes, claims), targets, threshold).Keys;
    if ref == [] {
      NoReferenceAllCharged(claims, ballots, band, root, left);
    } else {
      SurvivingOfPeriod(votes, claims, targets, threshold, ref);
      MissedIff(votes, claims, ballots, ref, band, root, left, k);
    }
  }

  lemma QuotedOnce(votes: seq<AggregateVote>, k: Voter, d: Denom, r: Dec, q: Dec)
    requires Admitted(votes) && Quotes(votes, k, d, r) && Quotes(votes, k, d, q)
    ensures r == q
  {
    var a :| a in votes && a.voter == k && (d, r) in a.tuples;
    var b :| b in votes && b.voter == k && (d, q) in b.tuples;
    var i :| 0 <= i < |votes| && votes[i] == a;
    var j :| 0 <= j < |votes| && votes[j] == b;
    assert i == j;
    var x :| 0 <= x < |a.tuples| && a.tuples[x] == (d, r);
    var y :| 0 <= y < |a.tuples| && a.tuples[y] == (d, q);
    assert DistinctDenoms(votes[i].tuples);
    assert x == y;
  }

  /** One whose positive tallied rate for some target is farther from the median than the spread is charged. */
  lemma OutlierCharged(votes: seq<AggregateVote>, claims: map<Voter, Claim>, ballots: map<Denom, Ballot>, ref: Denom,
                       band: Dec, root: Dec -> Dec, targets: set<Denom>, k: Voter, d: Denom, r: Dec, b: Dec)
    requires OfPeriod(votes, claims, ballots, ref) && ref != [] && k in claims && d in targets && d in ballots
    requires Quotes(votes, k, d, r) && r > 0 && Quotes(votes, k, ref, b) && b > 0
    requires var m, s, x := MedianOf(ballots, ref, d), SpreadOf(ballots, ref, band, root, d), if d == ref then r else Quo(b, r);
             x > 0 && (x < m - s || x > m + s)
    ensures k in Missed(claims, ballots, ref, band, root, targets)
  {
    MissedIff(votes, claims, ballots, ref, band, root, targets, k);
    var m, s := MedianOf(ballots, ref, d), SpreadOf(ballots, ref, band, root, d);
    forall q | Quotes(votes, k, d, q) ensures !Credible(votes, ref, d, k, q, m, s) {
      QuotedOnce(votes, k, d, r, q);
    }
  }

  // ---- what a winner earns

  /** A positive quote that keeps its power: for the reference, or with a positive reference quote beside it. */
  ghost predicate QuotesUsably(votes: seq<AggregateVote>, ref: Denom, k: Voter, d: Denom) {
    && (exists r :: r > 0 && Quotes(votes, k, d, r))
    && (d != ref ==> exists b :: b > 0 && Quotes(votes, k, ref, b))
  }

  lemma WeightIsPower(b: Ballot, k: Voter, m: Dec, s: Dec, v: Vote)
    requires AtMostOnce(b) && v in b && v.voter == k
    ensures Sum(b, WinWeight(k, m, s)) == if Wins(v, m, s) then v.power else 0
  {
    OnceMeansOneVote(b);
    var i :| 0 <= i < |b| && b[i] == v;
    assert Sum(b, CastBy(k)) <= 1;
    forall j | 0 <= j < |b| && j != i ensures b[j].voter != k {
      if b[j].voter == k {
        if i < j { SumAtLeastTwo(b, i, j, CastBy(k)); } else { SumAtLeastTwo(b, j, i, CastBy(k)); }
      }
    }
    OnlyOneCounts(b, i, WinWeight(k, m, s));
  }

  lemma OnlyOneCounts<T>(s: seq<T>, i: nat, f: T -> int)
    requires i < |s| && forall j :: 0 <= j < |s| && j != i ==> f(s[j]) == 0
    ensures Sum(s, f) == f(s[i])
  {
    assert s == s[..i] + ([s[i]] + s[i + 1..]);
    SumSplit(s[..i], [s[i]] + s[i + 1..], f);
    SumZero(s[..i], f);
    SumZero(s[i + 1..], f);
    assert ([s[i]] + s[i + 1..])[1..] == s[i + 1..];
  }

  /** In each ballot a validator earns its power if it wins with a usable quote, and nothing otherwise. */
  lemma WeightIs(votes: seq<AggregateVote>, claims: map<Voter, Claim>, ballots: map<Denom, Ballot>, ref: Denom,
                 band: Dec, root: Dec -> Dec, k: Voter, d: Denom)
    requires OfPeriod(votes, claims, ballots, ref) && d in ballots && k in claims
    ensures WeightIn(ballots, ref, band, root, k)(d) ==
            if QuotesCredibly(votes, ballots, ref, band, root, k, d) && QuotesUsably(votes, ref, k, d) then claims[k].power else 0
  {
    if r :| Quotes(votes, k, d, r) {
      WeightOfQuote(votes, claims, ballots, ref, band, root, k, d, r);
      UsablyIff(votes, claims, ballots, ref, k, d, r);
      forall q | Quotes(votes, k, d, q) ensures q == r { QuotedOnce(votes, k, d, r, q); }
    } else {
      NoQuoteNoWeight(votes, claims, ballots, ref, band, root, k, d);
    }
  }

  lemma WeightOfQuote(votes: seq<AggregateVote>, claims: map<Voter, Claim>, ballots: map<Denom, Ballot>, ref: Denom,
                      band: Dec, root: Dec -> Dec, k: Voter, d: Denom, r: Dec)
    requires OfPeriod(votes, claims, ballots, ref) && d in ballots && k in claims && Quotes(votes, k, d, r)
    ensures WeightIn(ballots, ref, band, root, k)(d) ==
            if Credible(votes, ref, d, k, r, MedianOf(ballots, ref, d), SpreadOf(ballots, ref, band, root, d))
               && r > 0 && (d == ref || k in ToMap(ballots[ref])) then claims[k].power else 0
  {
    var m, s, bases := MedianOf(ballots, ref, d), SpreadOf(ballots, ref, band, root, d), ToMap(ballots[ref]);
    PeriodSound(votes, claims, ballots, ref);
    TalliedOnce(ballots, ref, d);
    var w := Vote(k, r, if r > 0 then claims[k].power else 0);
    BallotHas(votes, claims, d, w);
    QuoteWinsIff(votes, claims, ballots, ref, d, w, m, s);
    var v := if d == ref then w else CrossVote(bases)(w);
    CrossHas(ballots[d], bases, v);
    WeightIsPower(TalliedBallot(ballots, ref, d), k, m, s, v);
  }

  lemma NoQuoteNoWeight(votes: seq<AggregateVote>, claims: map<Voter, Claim>, ballots: map<Denom, Ballot>, ref: Denom,
                        band: Dec, root: Dec -> Dec, k: Voter, d: Denom)
    requires OfPeriod(votes, claims, ballots, ref) && d in ballots && forall r :: !Quotes(votes, k, d, r)
    ensures WeightIn(ballots, ref, band, root, k)(d) == 0
  {
    var b, bases := TalliedBallot(ballots, ref, d), ToMap(ballots[ref]);
    forall v | v in b ensures v.voter != k {
      CrossHas(ballots[d], bases, v);
      var w :| w in ballots[d] && v == if d == ref then w else CrossVote(bases)(w);
      BallotHas(votes, claims, d, w);
    }
    SumZero(b, WinWeight(k, MedianOf(ballots, ref, d), SpreadOf(ballots, ref, band, root, d)));
  }

  lemma UsablyIff(votes: seq<AggregateVote>, claims: map<Voter, Claim>, ballots: map<Denom, Ballot>, ref: Denom, k: Voter, d: Denom, r: Dec)
    requires OfPeriod(votes, claims, ballots, ref) && k in claims && Quotes(votes, k, d, r)
    ensures QuotesUsably(votes, ref, k, d) <==> r > 0 && (d == ref || k in ToMap(ballots[ref]))
  {
    var bases := ToMap(ballots[ref]);
    forall q | Quotes(votes, k, d, q) ensures q == r { QuotedOnce(votes, k, d, r, q); }
    if k in bases { BaseIs(votes, claims, ballots, ref, k, bases[k]); }
    if b :| b > 0 && Quotes(votes, k, ref, b) { BaseIs(votes, claims, ballots, ref, k, b); }
  }

  // ---- the spread

  /** The spread is the larger of half the band around the median and the deviation, taken by `root` from the variance. */
  lemma SpreadIs(b: Ballot, median: Dec, band: Dec, root: Dec -> Dec)
    requires b != []
    ensures var s, variance := RewardSpread(b, median, band, root), QuoInt(Sum(b, SquaredDeviation(median)), |b|);
            && s >= root(variance) && s >= Mul(median, QuoInt(band, 2))
            && (s == root(variance) || s == Mul(median, QuoInt(band, 2)))
  {
  }

  lemma HalfBandIs(median: nat, band: nat)
    ensures -(ONE + median) <= 2 * ONE * Mul(median, QuoInt(band, 2)) - median * band <= ONE
  {
    var h := band / 2;
    RoundError(median * h);
    assert band == 2 * h || band == 2 * h + 1;
    assert median * (2 * h) == 2 * (median * h) && median * (2 * h + 1) == 2 * (median * h) + median;
  }

  function ExactSquare(median: Dec): Vote -> int {
    (v: Vote) => (v.rate - median) * (v.rate - median)
  }

  lemma {:induction false} SquaresAre(b: Ballot, median: Dec)
    ensures -(HALF * |b|) <= Sum(b, ExactSquare(median)) - ONE * Sum(b, SquaredDeviation(median)) <= HALF * |b|
  {
    if b != [] {
      SquaresAre(b[1..], median);
      RoundError((b[0].rate - median) * (b[0].rate - median));
    }
  }

  /** The variance is the mean of the squared distances to the median, up to one and a half units. */
  lemma VarianceIs(b: Ballot, median: Dec)
    requires b != []
    ensures var variance := QuoInt(Sum(b, SquaredDeviation(median)), |b|);
            -(2 * ONE * |b|) <= Sum(b, ExactSquare(median)) - ONE * (variance * |b|) <= 2 * ONE * |b|
  {
    SquaresAre(b, median);
    TruncDivIs(Sum(b, SquaredDeviation(median)), |b|);
  }

  // ---- the rates

  /** A stored rate times the cross median is the reference median, up to one unit. */
  lemma RateIs(ballots: map<Denom, Ballot>, ref: Denom, d: Denom)
    requires ref in ballots && d in ballots && d != ref && MedianOf(ballots, ref, d) > 0
    ensures var x, m := MedianOf(ballots, ref, d), MedianOf(ballots, ref, ref);
            -x <= m * ONE - RateOf(ballots, ref, d) * x <= x
  {
    QuoError(MedianOf(ballots, ref, ref), MedianOf(ballots, ref, d));
  }

  lemma OnlyRateIsMedian(b: Ballot, r: Dec)
    requires SortedByRate(b) && NonNegative(b) && b != [] && forall v :: v in b ==> v.rate == r
    ensures WeightedMedian(b) == r
  {
    WeightedMedianIs(b);
  }

  /** Everybody quotes the same rate for the reference and the same for another denom. */
  ghost predicate SameQuotes(ballots: map<Denom, Ballot>, ref: Denom, d: Denom, p: Dec, q: Dec)
    requires ref in ballots && d in ballots
  {
    && p > 0 && q > 0 && ballots[ref] != [] && ballots[d] != []
    && (forall v :: v in ballots[ref] ==> v.rate == p)
    && (forall v :: v in ballots[d] ==> v.rate == q && exists w :: w in ballots[ref] && w.voter == v.voter)
  }

  lemma SameCrossRates(ballots: map<Denom, Ballot>, ref: Denom, d: Denom, p: Dec, q: Dec)
    requires Sound(ballots) && ref in ballots && d in ballots && d != ref && SameQuotes(ballots, ref, d, p, q)
    ensures MedianOf(ballots, ref, ref) == p && MedianOf(ballots, ref, d) == Quo(p, q)
  {
    var bases := ToMap(ballots[ref]);
    var c := SortVotes(CrossRates(ballots[d], bases));
    OnlyRateIsMedian(ballots[ref], p);
    OnceMeansOneVote(ballots[ref]);
    forall v | v in c ensures v.rate == Quo(p, q) {
      CrossHas(ballots[d], bases, v);
      var w :| w in ballots[d] && CrossVote(bases)(w) == v;
      ToMapIs(ballots[ref], w.voter);
    }
    SortVotesSorts(CrossRates(ballots[d], bases));
    CrossRatesKeepShape(ballots[d], bases);
    SameMembers(c, CrossRates(ballots[d], bases));
    EachIs(ballots[d], CrossVote(bases));
    OnlyRateIsMedian(c, Quo(p, q));
  }

  /** A rate back from the cross rate `x` is the quoted one, up to a rounding that shrinks as `x` grows. */
  predicate NearQuote(rate: Dec, q: Dec, x: Dec) {
    x > 0 && -(x + q) <= (rate - q) * x <= x + q
  }

  /** Then these are the rates stored, the second up to such a rounding. */
  lemma QuotesAreStored(ballots: map<Denom, Ballot>, ref: Denom, d: Denom, p: Dec, q: Dec)
    requires Sound(ballots) && ref in ballots && d in ballots && d != ref && SameQuotes(ballots, ref, d, p, q)
    requires MedianOf(ballots, ref, d) != 0
    ensures RateOf(ballots, ref, ref) == p && NearQuote(RateOf(ballots, ref, d), q, Quo(p, q))
  {
    SameCrossRates(ballots, ref, d, p, q);
    ThereAndBack(p, q, Quo(p, q));
  }

  lemma ThereAndBack(p: Dec, q: Dec, x: Dec)
    requires p > 0 && q > 0 && x == Quo(p, q) && x != 0
    ensures NearQuote(Quo(p, x), q, x)
  {
    QuoMonotone(0, p, q);
    QuoError(p, q);
    QuoError(p, x);
    BackStep(p, q, x, Quo(p, x));
  }

  lemma BackStep(p: int, q: int, x: int, rate: int)
    requires -q <= p * ONE - x * q <= q && -x <= p * ONE - rate * x <= x
    ensures -(x + q) <= (rate - q) * x <= x + q
  {
    assert (rate - q) * x == rate * x - q * x && q * x == x * q;
  }
}
