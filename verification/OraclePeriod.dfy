/** The end of a vote period, as a function of the votes alone. */
module OraclePeriod {
  import opened Decimals
  import opened Sums
  import opened OracleBallot
  import opened OracleCross
  import opened OracleRound
  import opened OracleTally

  // ---- the votes of a period

  /** Votes are stored by voter, and a vote with a repeated denom is refused when it is submitted. */
  ghost predicate Admitted(votes: seq<AggregateVote>) {
    && (forall i, j :: 0 <= i < j < |votes| ==> votes[i].voter != votes[j].voter)
    && forall i :: 0 <= i < |votes| ==> DistinctDenoms(votes[i].tuples)
  }

  ghost predicate DistinctDenoms(tuples: seq<(Denom, Dec)>) {
    forall i, j :: 0 <= i < j < |tuples| ==> tuples[i].0 != tuples[j].0
  }

  /** At the start of a round every active validator has its power and nothing earned. */
  ghost predicate FreshClaims(claims: map<Voter, Claim>) {
    forall k :: k in claims ==> claims[k].power >= 0 && claims[k].weight == 0 && claims[k].winCount == 0
  }

  lemma {:induction false} TupleVotesOnce(voter: Voter, power: int, tuples: seq<(Denom, Dec)>, d: Denom, k: Voter)
    requires DistinctDenoms(tuples)
    ensures Sum(TupleVotes(voter, power, tuples, d), CastBy(k))
         <= if voter == k && (exists t :: t in tuples && t.0 == d) then 1 else 0
  {
    if tuples != [] {
      var n := |tuples| - 1;
      assert tuples == tuples[..n] + [tuples[n]];
      TupleVotesOnce(voter, power, tuples[..n], d, k);
      SumSplit(TupleVotes(voter, power, tuples[..n], d), CastFor(voter, power, tuples[n], d), CastBy(k));
      assert tuples[n] in tuples;
      assert forall t :: t in tuples[..n] ==> t in tuples;
    }
  }

  lemma {:induction false} VotesForOnce(votes: seq<AggregateVote>, claims: map<Voter, Claim>, d: Denom, k: Voter)
    requires Admitted(votes)
    ensures Sum(VotesFor(votes, claims, d), CastBy(k)) <= if exists v :: v in votes && v.voter == k then 1 else 0
  {
    if votes != [] {
      var n := |votes| - 1;
      assert votes == votes[..n] + [votes[n]];
      VotesForOnce(votes[..n], claims, d, k);
      SumSplit(VotesFor(votes[..n], claims, d), ValidatorVotes(votes[n], claims, d), CastBy(k));
      if votes[n].voter in claims {
        TupleVotesOnce(votes[n].voter, claims[votes[n].voter].power, votes[n].tuples, d, k);
      }
      assert votes[n] in votes;
      assert forall v :: v in votes[..n] ==> v in votes;
    }
  }

  lemma {:induction false} TupleVotesShape(voter: Voter, power: int, tuples: seq<(Denom, Dec)>, d: Denom)
    ensures forall v :: v in TupleVotes(voter, power, tuples, d) ==> v.voter == voter && (v.power == power || v.power == 0)
    ensures TupleVotes(voter, power, tuples, d) != [] ==> exists t :: t in tuples && t.0 == d
  {
    if tuples != [] {
      var n := |tuples| - 1;
      TupleVotesShape(voter, power, tuples[..n], d);
      assert tuples[n] in tuples;
      assert forall t :: t in tuples[..n] ==> t in tuples;
    }
  }

  lemma {:induction false} VotesForShape(votes: seq<AggregateVote>, claims: map<Voter, Claim>, d: Denom)
    requires FreshClaims(claims)
    ensures NonNegative(VotesFor(votes, claims, d)) && VotersIn(VotesFor(votes, claims, d), claims.Keys)
    ensures VotesFor(votes, claims, d) != [] ==> d in Denoms(votes)
  {
    if votes != [] {
      var n := |votes| - 1;
      VotesForShape(votes[..n], claims, d);
      if votes[n].voter in claims {
        TupleVotesShape(votes[n].voter, claims[votes[n].voter].power, votes[n].tuples, d);
      }
      assert votes[n] in votes;
      assert forall v :: v in votes[..n] ==> v in votes;
    }
  }

  function Denoms(votes: seq<AggregateVote>): set<Denom> {
    set v, t | v in votes && t in v.tuples :: t.0
  }

  /** The ballots, sorted in a particular way. */
  function BallotsOf(votes: seq<AggregateVote>, claims: map<Voter, Claim>): map<Denom, Ballot> {
    map d | d in Denoms(votes) && VotesFor(votes, claims, d) != [] :: SortVotes(VotesFor(votes, claims, d))
  }

  lemma BallotsOfOrganized(votes: seq<AggregateVote>, claims: map<Voter, Claim>)
    requires FreshClaims(claims)
    ensures Organized(votes, claims, BallotsOf(votes, claims))
  {
    forall d
      ensures (d in BallotsOf(votes, claims) <==> VotesFor(votes, claims, d) != [])
              && multiset(BallotOf(BallotsOf(votes, claims), d)) == multiset(VotesFor(votes, claims, d))
              && SortedByRate(BallotOf(BallotsOf(votes, claims), d))
    {
      VotesForShape(votes, claims, d);
      SortVotesSorts(VotesFor(votes, claims, d));
    }
  }

  lemma OrganizedSound(votes: seq<AggregateVote>, claims: map<Voter, Claim>, ballots: map<Denom, Ballot>)
    requires Admitted(votes) && FreshClaims(claims) && Organized(votes, claims, ballots)
    ensures Sound(ballots) && VotersClaim(ballots, claims) && NonNegativeBallots(ballots)
  {
    forall d | d in ballots
      ensures SortedByRate(ballots[d]) && NonNegative(ballots[d]) && AtMostOnce(ballots[d])
              && VotersIn(ballots[d], claims.Keys)
    {
      var b := VotesFor(votes, claims, d);
      assert ballots[d] == BallotOf(ballots, d);
      VotesForShape(votes, claims, d);
      forall k ensures Sum(b, CastBy(k)) <= 1 { VotesForOnce(votes, claims, d, k); }
      OnceInAnyArrangement(b, ballots[d]);
      SameMembers(b, ballots[d]);
    }
  }

  // ---- two arrangements of the same ballots

  ghost predicate Alike(a: map<Denom, Ballot>, b: map<Denom, Ballot>) {
    && a.Keys == b.Keys
    && forall d :: d in a ==> multiset(a[d]) == multiset(b[d])
  }

  lemma OrganizedAlike(votes: seq<AggregateVote>, claims: map<Voter, Claim>, a: map<Denom, Ballot>, b: map<Denom, Ballot>)
    requires Organized(votes, claims, a) && Organized(votes, claims, b)
    ensures Alike(a, b)
  {
    forall d ensures d in a <==> d in b {
      assert d in a <==> VotesFor(votes, claims, d) != [];
      assert d in b <==> VotesFor(votes, claims, d) != [];
    }
    forall d | d in a ensures multiset(a[d]) == multiset(b[d]) {
      assert multiset(BallotOf(a, d)) == multiset(VotesFor(votes, claims, d));
      assert multiset(BallotOf(b, d)) == multiset(VotesFor(votes, claims, d));
    }
  }

  lemma AlikePower(a: map<Denom, Ballot>, b: map<Denom, Ballot>)
    requires Alike(a, b)
    ensures forall d :: d in a ==> Power(a[d]) == Power(b[d])
  {
    forall d | d in a ensures Power(a[d]) == Power(b[d]) { SumOfPermutation(a[d], b[d], PowerOf); }
  }

  lemma AlikePruning(a: map<Denom, Ballot>, b: map<Denom, Ballot>, targets: map<Denom, Dec>, threshold: int)
    requires Alike(a, b)
    ensures RemainingTargets(a, targets, threshold) == RemainingTargets(b, targets, threshold)
    ensures Alike(PassingBallots(a, targets, threshold), PassingBallots(b, targets, threshold))
  {
    AlikePower(a, b);
  }

  lemma AlikeReference(a: map<Denom, Ballot>, b: map<Denom, Ballot>, ref: Denom, denoms: set<Denom>)
    requires Alike(a, b) && denoms <= a.Keys && IsReference(ref, denoms, a)
    ensures IsReference(ref, denoms, b)
  {
    AlikePower(a, b);
    if denoms != {} {
      assert forall d :: d in denoms ==> Outranks(ref, d, a);
    }
  }

  lemma AlikeTallied(a: map<Denom, Ballot>, b: map<Denom, Ballot>, ref: Denom, band: Dec, root: Dec -> Dec, d: Denom, k: Voter)
    requires Alike(a, b) && Sound(a) && Sound(b) && ref in a && d in a
    ensures MedianOf(a, ref, d) == MedianOf(b, ref, d)
    ensures WinsIn(a, ref, band, root, k)(d) == WinsIn(b, ref, band, root, k)(d)
    ensures WeightIn(a, ref, band, root, k)(d) == WeightIn(b, ref, band, root, k)(d)
  {
    var x, y := TalliedBallot(a, ref, d), TalliedBallot(b, ref, d);
    if d != ref {
      OnceMeansOneVote(a[ref]);
      ToMapOfPermutation(a[ref], b[ref]);
      var bases := ToMap(a[ref]);
      EachOfPermutation(a[d], b[d], CrossVote(bases));
      SortVotesSorts(CrossRates(a[d], bases));
      SortVotesSorts(CrossRates(b[d], bases));
      CrossRatesKeepShape(a[d], bases);
      SameMembers(CrossRates(a[d], bases), x);
    }
    TallyIgnoresArrangement(x, y, band, root, k);
  }
}
