/** Organising the votes of a period into ballots and choosing the reference denom. */
module OracleRound {
  import opened Bytes
  import opened Decimals
  import opened Sums
  import opened OracleBallot
  import opened OracleCross

  datatype AggregateVote = AggregateVote(voter: Voter, tuples: seq<(Denom, Dec)>)

  // ---- ballots by denom

  /** One tuple's contribution to the ballot of `d`; an abstention carries no power. */
  function CastFor(voter: Voter, power: int, tuple: (Denom, Dec), d: Denom): Ballot {
    if tuple.0 == d then [VoteOf(voter, power, tuple)] else []
  }

  function VoteOf(voter: Voter, power: int, tuple: (Denom, Dec)): Vote {
    Vote(voter, tuple.1, if tuple.1 > 0 then power else 0)
  }

  function TupleVotes(voter: Voter, power: int, tuples: seq<(Denom, Dec)>, d: Denom): Ballot {
    if tuples == [] then []
    else
      var n := |tuples| - 1;
      TupleVotes(voter, power, tuples[..n], d) + CastFor(voter, power, tuples[n], d)
  }

  /** The votes of active validators for `d`, in the order they are read. */
  function VotesFor(votes: seq<AggregateVote>, claims: map<Voter, Claim>, d: Denom): Ballot {
    if votes == [] then []
    else
      var n := |votes| - 1;
      VotesFor(votes[..n], claims, d) + ValidatorVotes(votes[n], claims, d)
  }

  function ValidatorVotes(vote: AggregateVote, claims: map<Voter, Claim>, d: Denom): Ballot {
    if vote.voter in claims then TupleVotes(vote.voter, claims[vote.voter].power, vote.tuples, d) else []
  }

  function BallotOf(ballots: map<Denom, Ballot>, d: Denom): Ballot {
    if d in ballots then ballots[d] else []
  }

  /** A ballot for every denom voted on, each sorted and holding exactly the votes cast. */
  ghost predicate Organized(votes: seq<AggregateVote>, claims: map<Voter, Claim>, ballots: map<Denom, Ballot>) {
    forall d ::
      && (d in ballots <==> VotesFor(votes, claims, d) != [])
      && multiset(BallotOf(ballots, d)) == multiset(VotesFor(votes, claims, d))
      && SortedByRate(BallotOf(ballots, d))
  }

  ghost predicate NoEmptyBallot(ballots: map<Denom, Ballot>) {
    forall d :: d in ballots ==> ballots[d] != []
  }

  lemma NextTuple(voter: Voter, power: int, tuples: seq<(Denom, Dec)>, i: nat, d: Denom, b: Ballot)
    requires i < |tuples|
    ensures b + TupleVotes(voter, power, tuples[..i + 1], d)
         == b + TupleVotes(voter, power, tuples[..i], d) + CastFor(voter, power, tuples[i], d)
  {
    assert tuples[..i + 1][..i] == tuples[..i];
  }

  lemma AppendVote(ballots: map<Denom, Ballot>, voter: Voter, power: int, tuple: (Denom, Dec), d: Denom)
    ensures BallotOf(ballots[tuple.0 := BallotOf(ballots, tuple.0) + [VoteOf(voter, power, tuple)]], d)
         == BallotOf(ballots, d) + CastFor(voter, power, tuple, d)
  {
  }

  method AddTuples(ballots: map<Denom, Ballot>, voter: Voter, power: int, tuples: seq<(Denom, Dec)>)
    returns (ballots': map<Denom, Ballot>)
    requires NoEmptyBallot(ballots)
    ensures NoEmptyBallot(ballots')
    ensures forall d :: BallotOf(ballots', d) == BallotOf(ballots, d) + TupleVotes(voter, power, tuples, d)
  {
    ballots' := ballots;
    for i := 0 to |tuples|
      invariant NoEmptyBallot(ballots')
      invariant forall d :: BallotOf(ballots', d) == BallotOf(ballots, d) + TupleVotes(voter, power, tuples[..i], d)
    {
      var (denom, rate) := tuples[i];
      var tmpPower := power;
      if rate <= 0 {
        tmpPower := 0;
      }
      ghost var before := ballots';
      ballots' := ballots'[denom := BallotOf(ballots', denom) + [Vote(voter, rate, tmpPower)]];
      forall d
        ensures BallotOf(ballots', d) == BallotOf(ballots, d) + TupleVotes(voter, power, tuples[..i + 1], d)
      {
        AppendVote(before, voter, power, tuples[i], d);
        NextTuple(voter, power, tuples, i, d, BallotOf(ballots, d));
      }
    }
    assert tuples[..|tuples|] == tuples;
  }

  lemma NextValidator(votes: seq<AggregateVote>, i: nat, claims: map<Voter, Claim>, d: Denom)
    requires i < |votes|
    ensures VotesFor(votes[..i + 1], claims, d) == VotesFor(votes[..i], claims, d) + ValidatorVotes(votes[i], claims, d)
  {
    assert votes[..i + 1][..i] == votes[..i];
  }

  method OrganizeBallotByDenom(votes: seq<AggregateVote>, claims: map<Voter, Claim>, sort: Ballot -> Ballot)
    returns (ballots: map<Denom, Ballot>)
    requires IsSorting(sort)
    ensures Organized(votes, claims, ballots)
  {
    ballots := map[];
    for i := 0 to |votes|
      invariant NoEmptyBallot(ballots)
      invariant forall d :: BallotOf(ballots, d) == VotesFor(votes[..i], claims, d)
    {
      ghost var before := ballots;
      if votes[i].voter in claims {
        ballots := AddTuples(ballots, votes[i].voter, claims[votes[i].voter].power, votes[i].tuples);
      }
      forall d ensures BallotOf(ballots, d) == VotesFor(votes[..i + 1], claims, d) {
        NextValidator(votes, i, claims, d);
        assert BallotOf(ballots, d) == BallotOf(before, d) + ValidatorVotes(votes[i], claims, d);
      }
    }
    assert votes[..|votes|] == votes;
    ghost var unsorted := ballots;
    ballots := map d | d in ballots :: sort(ballots[d]);
    forall d
      ensures (d in ballots <==> VotesFor(votes, claims, d) != [])
              && multiset(BallotOf(ballots, d)) == multiset(VotesFor(votes, claims, d))
              && SortedByRate(BallotOf(ballots, d))
    {
      assert BallotOf(unsorted, d) == VotesFor(votes, claims, d);
    }
  }

  // ---- ranging over a map while deleting from it

  ghost function From<K>(order: seq<K>, i: nat): set<K>
    requires i <= |order|
  {
    set k | k in order[i..]
  }

  lemma FromStart<K>(order: seq<K>, keys: set<K>)
    requires forall k :: k in order <==> k in keys
    ensures From(order, 0) == keys
  {
    assert order[0..] == order;
  }

  lemma FromNext<K>(order: seq<K>, i: nat)
    requires i < |order| && forall j, k :: 0 <= j < k < |order| ==> order[j] != order[k]
    ensures order[i] in From(order, i) && From(order, i + 1) == From(order, i) - {order[i]}
  {
    assert order[i..] == [order[i]] + order[i + 1..];
  }

  function Filtered<K, V>(full: map<K, V>, keep: K -> bool): map<K, V> {
    map k | k in full && keep(k) :: full[k]
  }

  /** What has not been ranged over is all there; of the rest, what is to be kept. */
  ghost predicate Pruned<K, V>(full: map<K, V>, now: map<K, V>, todo: set<K>, keep: K -> bool) {
    && now.Keys <= full.Keys
    && forall k :: k in full ==> (k in now <==> k in todo || keep(k)) && (k in now ==> now[k] == full[k])
  }

  lemma PrunedNext<K, V>(full: map<K, V>, now: map<K, V>, order: seq<K>, i: nat, keep: K -> bool)
    requires i < |order| && forall j, k :: 0 <= j < k < |order| ==> order[j] != order[k]
    requires Pruned(full, now, From(order, i), keep)
    ensures keep(order[i]) ==> Pruned(full, now, From(order, i + 1), keep)
    ensures !keep(order[i]) ==> Pruned(full, now - {order[i]}, From(order, i + 1), keep)
    ensures order[i] in full ==> order[i] in now
    ensures var kept := now.Keys - From(order, i);
            && now.Keys - From(order, i + 1) == kept + (if order[i] in now then {order[i]} else {})
            && (now - {order[i]}).Keys - From(order, i + 1) == kept
            && order[i] !in kept
  {
    FromNext(order, i);
  }

  lemma PrunedDone<K, V>(full: map<K, V>, now: map<K, V>, order: seq<K>, keep: K -> bool)
    requires Pruned(full, now, From(order, |order|), keep)
    ensures now == Filtered(full, keep) && now.Keys - From(order, |order|) == now.Keys
  {
  }

  // ---- the reference denom

  predicate Passes(b: Ballot, threshold: int) {
    Power(b) != 0 && Power(b) >= threshold
  }

  /** The votes needed: the threshold's share of the bonded power, rounded. */
  function VotesNeeded(voteThreshold: Dec, bonded: Option<int>, powerReduction: int): Option<int>
    requires powerReduction != 0
  {
    if bonded.None? then None else Some(Round(MulInt(voteThreshold, TruncDiv(bonded.value, powerReduction))))
  }

  /** Not a ballot that was held and failed. */
  function NotFailedIn(ballots: map<Denom, Ballot>, threshold: int): Denom -> bool {
    (d: Denom) => d in ballots ==> Passes(ballots[d], threshold)
  }

  function CountedIn(ballots: map<Denom, Ballot>, targets: map<Denom, Dec>, threshold: int): Denom -> bool {
    (d: Denom) => d in ballots && d in targets && Passes(ballots[d], threshold)
  }

  /** The targeted ballots that pass. */
  function PassingBallots(ballots: map<Denom, Ballot>, targets: map<Denom, Dec>, threshold: int): map<Denom, Ballot> {
    Filtered(ballots, CountedIn(ballots, targets, threshold))
  }

  /** The targets without those whose ballot failed. */
  function RemainingTargets(ballots: map<Denom, Ballot>, targets: map<Denom, Dec>, threshold: int): map<Denom, Dec> {
    Filtered(targets, NotFailedIn(ballots, threshold))
  }

  /** Of some ballots the one with the most power, the alphabetically first of several, or nothing. */
  ghost predicate IsReference(ref: Denom, denoms: set<Denom>, ballots: map<Denom, Ballot>)
    requires denoms <= ballots.Keys
  {
    if denoms == {} then ref == []
    else ref in denoms && forall d :: d in denoms ==> Outranks(ref, d, ballots)
  }

  predicate Outranks(ref: Denom, d: Denom, ballots: map<Denom, Ballot>)
    requires ref in ballots && d in ballots
  {
    Power(ballots[d]) < Power(ballots[ref])
    || (Power(ballots[d]) == Power(ballots[ref]) && (d == ref || Less(ref, d)))
  }

  /** There is only one reference, so no order of ranging can pick another. */
  lemma ReferenceIsUnique(a: Denom, b: Denom, denoms: set<Denom>, ballots: map<Denom, Ballot>)
    requires denoms <= ballots.Keys
    requires IsReference(a, denoms, ballots) && IsReference(b, denoms, ballots)
    ensures a == b
  {
    if denoms != {} {
      assert Outranks(a, b, ballots) && Outranks(b, a, ballots);
      LessIsTotal(a, b);
    }
  }

  ghost predicate NonNegativeBallots(ballots: map<Denom, Ballot>) {
    forall d :: d in ballots ==> NonNegative(ballots[d])
  }

  /**
   * Ranging over the ballots in any order prunes the same targets and ballots and picks the same
   * reference.
   */
  method PickReferenceDo(targets: map<Denom, Dec>, ballots: map<Denom, Ballot>, threshold: int, order: seq<Denom>)
    returns (ref: Denom, targets': map<Denom, Dec>, ballots': map<Denom, Ballot>)
    requires IsOrder(order, ballots.Keys) && NonNegativeBallots(ballots)
    ensures targets' == RemainingTargets(ballots, targets, threshold)
    ensures ballots' == PassingBallots(ballots, targets, threshold)
    ensures IsReference(ref, ballots'.Keys, ballots)
  {
    ref, targets', ballots' := [], targets, ballots;
    var largest := 0;
    ghost var counts, stays := CountedIn(ballots, targets, threshold), NotFailedIn(ballots, threshold);
    OrderFacts(order, ballots.Keys);
    FromStart(order, ballots.Keys);
    for i := 0 to |order|
      invariant Pruned(targets, targets', From(order, i), stays)
      invariant Pruned(ballots, ballots', From(order, i), counts)
      invariant IsReference(ref, ballots'.Keys - From(order, i), ballots)
      invariant largest == if ballots'.Keys - From(order, i) == {} then 0 else Power(ballots[ref])
    {
      var denom := order[i];
      ghost var kept := ballots'.Keys - From(order, i);
      FromNext(order, i);
      assert denom in ballots;
      if denom !in targets' {
        PrunedNext(targets, targets', order, i, stays);
        PrunedNext(ballots, ballots', order, i, counts);
        ballots' := ballots' - {denom};
      } else if !Passes(ballots[denom], threshold) {
        PrunedNext(targets, targets', order, i, stays);
        PrunedNext(ballots, ballots', order, i, counts);
        targets' := targets' - {denom};
        ballots' := ballots' - {denom};
      } else {
        var power := Power(ballots[denom]);
        PrunedNext(targets, targets', order, i, stays);
        PrunedNext(ballots, ballots', order, i, counts);
        PassingPowerPositive(ballots[denom], threshold);
        NextReference(ref, kept, denom, ballots);
        if power > largest || largest == 0 {
          ref := denom;
          largest := power;
        } else if largest == power && Less(denom, ref) {
          ref := denom;
        }
      }
    }
    PrunedDone(targets, targets', order, stays);
    PrunedDone(ballots, ballots', order, counts);
  }

  lemma PassingPowerPositive(b: Ballot, threshold: int)
    requires NonNegative(b) && Passes(b, threshold)
    ensures Power(b) > 0
  {
    SumNonNegative(b, PowerOf);
  }

  lemma NextReference(ref: Denom, kept: set<Denom>, d: Denom, ballots: map<Denom, Ballot>)
    requires kept <= ballots.Keys && d in ballots && d !in kept
    requires IsReference(ref, kept, ballots)
    ensures var more := kept + {d};
            if kept == {} || Power(ballots[d]) > Power(ballots[ref])
               || (Power(ballots[d]) == Power(ballots[ref]) && Less(d, ref))
            then IsReference(d, more, ballots) else IsReference(ref, more, ballots)
  {
    if kept != {} {
      LessIsTotal(d, ref);
      forall e | e in kept ensures Less(d, ref) && Less(ref, e) ==> Less(d, e) {
        if Less(d, ref) && Less(ref, e) { LessIsTransitive(d, ref, e); }
      }
      assert forall e :: e in kept ==> Outranks(ref, e, ballots);
    }
  }
}
