/** One denom's ballot: median, spread, winners and cross rates. */
module OracleBallot {
  import opened Bytes
  import opened Decimals
  import opened Sums

  type Voter = Bytes
  type Denom = Bytes

  datatype Vote = Vote(voter: Voter, rate: Dec, power: int)
  type Ballot = seq<Vote>

  /** What a validator has earned in a round. */
  datatype Claim = Claim(power: int, weight: int, winCount: int)

  predicate SortedByRate(b: Ballot) {
    forall i, j :: 0 <= i < j < |b| ==> b[i].rate <= b[j].rate
  }

  predicate NonNegative(b: Ballot) {
    forall v :: v in b ==> v.power >= 0
  }

  // ---- power and weighted median

  function PowerOf(v: Vote): int { v.power }

  function Power(b: Ballot): int { Sum(b, PowerOf) }

  function UpTo(r: Dec): Vote -> int {
    (v: Vote) => if v.rate <= r then v.power else 0
  }

  /** The power of the votes at or below a rate. */
  function PowerUpTo(b: Ballot, r: Dec): int { Sum(b, UpTo(r)) }

  /** The first rate at which the running power reaches half of the total, from index `i` on. */
  function MedianFrom(b: Ballot, i: nat, pivot: int, half: int): Dec
    requires i <= |b|
    decreases |b| - i
  {
    if i == |b| then 0
    else if pivot + b[i].power >= half then b[i].rate
    else MedianFrom(b, i + 1, pivot + b[i].power, half)
  }

  function WeightedMedian(b: Ballot): Dec { MedianFrom(b, 0, 0, TruncDiv(Power(b), 2)) }

  method ComputeWeightedMedian(b: Ballot) returns (r: Dec)
    ensures r == WeightedMedian(b)
  {
    var total := 0;
    for i := 0 to |b|
      invariant total == Sum(b[..i], PowerOf)
    {
      SumSnoc(b, i, PowerOf);
      total := total + b[i].power;
    }
    assert b[..|b|] == b;
    var pivot := 0;
    for i := 0 to |b|
      invariant WeightedMedian(b) == MedianFrom(b, i, pivot, TruncDiv(total, 2))
    {
      pivot := pivot + b[i].power;
      if pivot >= TruncDiv(total, 2) {
        return b[i].rate;
      }
    }
    return 0;
  }

  /** A rate somebody voted, with at least half of the power at or below it and less than half below it. */
  ghost predicate IsWeightedMedian(b: Ballot, r: Dec) {
    var half := Power(b) / 2;
    if b == [] then r == 0
    else
      && (exists v :: v in b && v.rate == r)
      && PowerUpTo(b, r) >= half
      && forall v :: v in b && v.rate < r ==> PowerUpTo(b, v.rate) < half
  }

  /** At or after an index, all rates are at least the rate there; before it, none is more. */
  lemma PowerUpToIndex(b: Ballot, i: nat)
    requires SortedByRate(b) && NonNegative(b) && i < |b|
    ensures Sum(b[..i + 1], PowerOf) <= PowerUpTo(b, b[i].rate)
    ensures forall r :: r < b[i].rate ==> PowerUpTo(b, r) <= Sum(b[..i], PowerOf)
  {
    var r := b[i].rate;
    assert b == b[..i + 1] + b[i + 1..] && b == b[..i] + b[i..];
    SumSplit(b[..i + 1], b[i + 1..], UpTo(r));
    SumAgrees(b[..i + 1], PowerOf, UpTo(r));
    SumNonNegative(b[i + 1..], UpTo(r));
    forall q | q < r ensures PowerUpTo(b, q) <= Sum(b[..i], PowerOf) {
      SumSplit(b[..i], b[i..], UpTo(q));
      SumZero(b[i..], UpTo(q));
      SumAtMost(b[..i], UpTo(q), PowerOf);
    }
  }

  lemma {:induction false} MedianFromIs(b: Ballot, i: nat)
    requires SortedByRate(b) && NonNegative(b) && i < |b|
    requires i > 0 ==> Sum(b[..i], PowerOf) < Power(b) / 2
    ensures IsWeightedMedian(b, MedianFrom(b, i, Sum(b[..i], PowerOf), Power(b) / 2))
    decreases |b| - i
  {
    var half := Power(b) / 2;
    SumSnoc(b, i, PowerOf);
    PowerUpToIndex(b, i);
    if Sum(b[..i + 1], PowerOf) >= half {
      var r := b[i].rate;
      forall v | v in b && v.rate < r ensures PowerUpTo(b, v.rate) < half {
        var j :| 0 <= j < |b| && b[j] == v;
        assert i > 0;
      }
    } else {
      if i + 1 == |b| {
        assert b[..i + 1] == b;
        SumNonNegative(b, PowerOf);
      } else {
        MedianFromIs(b, i + 1);
      }
    }
  }

  /** On a sorted ballot the scan finds the weighted median. */
  lemma WeightedMedianIs(b: Ballot)
    requires SortedByRate(b) && NonNegative(b)
    ensures IsWeightedMedian(b, WeightedMedian(b))
  {
    SumNonNegative(b, PowerOf);
    if b != [] { MedianFromIs(b, 0); }
  }

  /** The median depends on the votes cast and not on how they are arranged. */
  lemma MedianIsUnique(b: Ballot, c: Ballot, r: Dec, q: Dec)
    requires multiset(b) == multiset(c) && IsWeightedMedian(b, r) && IsWeightedMedian(c, q)
    ensures r == q
  {
    SumOfPermutation(b, c, PowerOf);
    SumOfPermutation(b, c, UpTo(r));
    SumOfPermutation(b, c, UpTo(q));
    SameMembers(b, c);
    if b == [] {
      assert |multiset(c)| == 0;
    } else {
      var v :| v in b && v.rate == r;
      var w :| w in c && w.rate == q;
      assert v in c && w in b;
    }
  }

  lemma SameMembers<T>(b: seq<T>, c: seq<T>)
    requires multiset(b) == multiset(c)
    ensures forall v :: v in b <==> v in c
    ensures |b| == |c|
  {
    forall v ensures v in b <==> v in c {
      assert v in b <==> v in multiset(b);
      assert v in c <==> v in multiset(c);
    }
    assert |multiset(b)| == |b| && |multiset(c)| == |c|;
  }

  // ---- the reward spread and the winners

  function SquaredDeviation(median: Dec): Vote -> int {
    (v: Vote) => Mul(v.rate - median, v.rate - median)
  }

  /** The square root is taken in floating point and stays a parameter. */
  function StandardDeviation(b: Ballot, median: Dec, root: Dec -> Dec): Dec {
    if b == [] then 0 else root(QuoInt(Sum(b, SquaredDeviation(median)), |b|))
  }

  function RewardSpread(b: Ballot, median: Dec, band: Dec, root: Dec -> Dec): Dec {
    var s, d := Mul(median, QuoInt(band, 2)), StandardDeviation(b, median, root);
    if d > s then d else s
  }

  /** Within the spread of the median, or abstaining. */
  predicate Wins(v: Vote, median: Dec, spread: Dec) {
    (median - spread <= v.rate <= median + spread) || v.rate <= 0
  }

  function WinFlag(k: Voter, median: Dec, spread: Dec): Vote -> int {
    (v: Vote) => if v.voter == k && Wins(v, median, spread) then 1 else 0
  }

  function WinWeight(k: Voter, median: Dec, spread: Dec): Vote -> int {
    (v: Vote) => if v.voter == k && Wins(v, median, spread) then v.power else 0
  }

  function ClaimOf(claims: map<Voter, Claim>, k: Voter): Claim {
    if k in claims then claims[k] else Claim(0, 0, 0)
  }

  predicate AddsTo(before: Claim, after: Claim, weight: int, wins: int) {
    after == before.(weight := before.weight + weight, winCount := before.winCount + wins)
  }

  predicate VotersIn(b: Ballot, keys: set<Voter>) {
    forall v :: v in b ==> v.voter in keys
  }

  /** Each winning vote adds its power and one win to its voter's claim; nothing else changes. */
  ghost predicate Credited(claims: map<Voter, Claim>, claims': map<Voter, Claim>, b: Ballot, median: Dec, spread: Dec) {
    && (VotersIn(b, claims.Keys) ==> claims'.Keys == claims.Keys)
    && forall k :: AddsTo(ClaimOf(claims, k), ClaimOf(claims', k),
                          Sum(b, WinWeight(k, median, spread)), Sum(b, WinFlag(k, median, spread)))
  }

  method Tally(b: Ballot, band: Dec, root: Dec -> Dec, claims: map<Voter, Claim>)
    returns (median: Dec, claims': map<Voter, Claim>)
    ensures median == WeightedMedian(b)
    ensures Credited(claims, claims', b, median, RewardSpread(b, median, band, root))
  {
    median := ComputeWeightedMedian(b);
    var spread := RewardSpread(b, median, band, root);
    claims' := claims;
    var i := 0;
    while i < |b|
      invariant 0 <= i <= |b|
      invariant Credited(claims, claims', b[..i], median, spread)
    {
      var v := b[i];
      ghost var before := claims';
      if Wins(v, median, spread) {
        var claim := ClaimOf(claims', v.voter);
        claims' := claims'[v.voter := claim.(weight := claim.weight + v.power, winCount := claim.winCount + 1)];
      }
      CreditOne(claims, before, claims', b, i, median, spread);
      i := i + 1;
    }
    assert b[..i] == b;
  }

  lemma CreditOne(claims: map<Voter, Claim>, before: map<Voter, Claim>, after: map<Voter, Claim>,
                  b: Ballot, i: nat, median: Dec, spread: Dec)
    requires i < |b| && Credited(claims, before, b[..i], median, spread)
    requires var c := ClaimOf(before, b[i].voter);
             after == if Wins(b[i], median, spread)
                      then before[b[i].voter := c.(weight := c.weight + b[i].power, winCount := c.winCount + 1)]
                      else before
    ensures Credited(claims, after, b[..i + 1], median, spread)
  {
    forall k
      ensures AddsTo(ClaimOf(claims, k), ClaimOf(after, k),
                     Sum(b[..i + 1], WinWeight(k, median, spread)), Sum(b[..i + 1], WinFlag(k, median, spread)))
    {
      SumSnoc(b, i, WinWeight(k, median, spread));
      SumSnoc(b, i, WinFlag(k, median, spread));
      assert AddsTo(ClaimOf(claims, k), ClaimOf(before, k),
                    Sum(b[..i], WinWeight(k, median, spread)), Sum(b[..i], WinFlag(k, median, spread)));
    }
    assert b[..i + 1] == b[..i] + [b[i]];
    assert b[i] in b[..i + 1] && forall v :: v in b[..i] ==> v in b[..i + 1];
  }
}
