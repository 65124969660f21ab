/** Sorting ballots and re-expressing them against the reference denom. */
module OracleCross {
  import opened Decimals
  import opened Sums
  import opened OracleBallot

  // ---- sorting

  /** Any sort by rate will do; votes at the same rate may come out in any order. */
  ghost predicate IsSorting(sort: Ballot -> Ballot) {
    forall b :: SortedByRate(sort(b)) && multiset(sort(b)) == multiset(b)
  }

  function InsertVote(v: Vote, b: Ballot): Ballot {
    if b == [] || v.rate <= b[0].rate then [v] + b else [b[0]] + InsertVote(v, b[1..])
  }

  /** A particular sort, to state results that hold for all. */
  function SortVotes(b: Ballot): Ballot {
    if b == [] then [] else InsertVote(b[0], SortVotes(b[1..]))
  }

  lemma {:induction false} InsertAddsOne(v: Vote, b: Ballot)
    ensures multiset(InsertVote(v, b)) == multiset(b) + multiset{v}
  {
    if b != [] {
      assert b == [b[0]] + b[1..];
      if v.rate > b[0].rate { InsertAddsOne(v, b[1..]); }
    }
  }

  lemma {:induction false} InsertKeepsSorted(v: Vote, b: Ballot)
    requires SortedByRate(b)
    ensures SortedByRate(InsertVote(v, b))
  {
    if b != [] && v.rate > b[0].rate {
      InsertKeepsSorted(v, b[1..]);
      var r := InsertVote(v, b[1..]);
      InsertAddsOne(v, b[1..]);
      forall j | 0 <= j < |r| ensures b[0].rate <= r[j].rate {
        assert r[j] in multiset(r);
        assert r[j] == v || r[j] in b[1..];
      }
    }
  }

  lemma {:induction false} SortVotesSorts(b: Ballot)
    ensures SortedByRate(SortVotes(b)) && multiset(SortVotes(b)) == multiset(b)
  {
    if b != [] {
      SortVotesSorts(b[1..]);
      InsertKeepsSorted(b[0], SortVotes(b[1..]));
      InsertAddsOne(b[0], SortVotes(b[1..]));
      assert b == [b[0]] + b[1..];
    }
  }

  // ---- reference rates and cross rates

  ghost predicate OneVotePerVoter(b: Ballot) {
    forall v, w :: v in b && w in b && v.voter == w.voter ==> v == w
  }

  /** The positive rates by voter. */
  function ToMap(b: Ballot): map<Voter, Dec> {
    if b == [] then map[]
    else
      var v, rest := b[|b| - 1], ToMap(b[..|b| - 1]);
      if v.rate > 0 then rest[v.voter := v.rate] else rest
  }

  lemma {:induction false} ToMapIs(b: Ballot, k: Voter)
    requires OneVotePerVoter(b)
    ensures k in ToMap(b) <==> exists v :: v in b && v.voter == k && v.rate > 0
    ensures forall v :: v in b && v.voter == k && v.rate > 0 ==> k in ToMap(b) && ToMap(b)[k] == v.rate
  {
    if b != [] {
      var c, v := b[..|b| - 1], b[|b| - 1];
      assert b == c + [v];
      assert forall w :: w in b <==> w in c || w == v;
      ToMapIs(c, k);
    }
  }

  lemma ToMapOfPermutation(b: Ballot, c: Ballot)
    requires multiset(b) == multiset(c) && OneVotePerVoter(b)
    ensures ToMap(b) == ToMap(c)
  {
    SameMembers(b, c);
    forall k ensures k in ToMap(b) <==> k in ToMap(c) {
      ToMapIs(b, k);
      ToMapIs(c, k);
    }
    forall k | k in ToMap(b) ensures ToMap(b)[k] == ToMap(c)[k] {
      ToMapIs(b, k);
      ToMapIs(c, k);
    }
  }

  /** The reference rate over the voted rate; without a usable reference vote, an abstention. */
  function CrossVote(bases: map<Voter, Dec>): Vote -> Vote {
    (v: Vote) =>
      if v.voter in bases && v.rate > 0 then v.(rate := Quo(bases[v.voter], v.rate))
      else v.(rate := 0, power := 0)
  }

  function CrossRates(b: Ballot, bases: map<Voter, Dec>): Ballot {
    Each(b, CrossVote(bases))
  }

  // ---- arrangement does not matter

  /** Two arrangements of the same votes give every voter the same wins, at the same median and spread. */
  lemma TallyIgnoresArrangement(b: Ballot, c: Ballot, band: Dec, root: Dec -> Dec, k: Voter)
    requires multiset(b) == multiset(c) && SortedByRate(b) && SortedByRate(c) && NonNegative(b)
    ensures var m, s := WeightedMedian(b), RewardSpread(b, WeightedMedian(b), band, root);
            && WeightedMedian(c) == m && RewardSpread(c, m, band, root) == s
            && Sum(c, WinFlag(k, m, s)) == Sum(b, WinFlag(k, m, s))
            && Sum(c, WinWeight(k, m, s)) == Sum(b, WinWeight(k, m, s))
  {
    SameMembers(b, c);
    WeightedMedianIs(b);
    WeightedMedianIs(c);
    var m := WeightedMedian(b);
    MedianIsUnique(b, c, m, WeightedMedian(c));
    SumOfPermutation(b, c, SquaredDeviation(m));
    var s := RewardSpread(b, m, band, root);
    SumOfPermutation(b, c, WinFlag(k, m, s));
    SumOfPermutation(b, c, WinWeight(k, m, s));
  }
}
