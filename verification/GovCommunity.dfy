/** The two community tallies: delegated power capped for each voter, and staked DODx. */
module GovCommunity {
  import opened Decimals
  import opened Sums
  import opened GovTally
  import opened GovConservation
  import DodxStaking

  // ---- a capped voter

  /** 25 thousandths of the bonded tokens. */
  function PowerCap(bonded: int): Dec {
    QuoInt(MulInt(FromInt(bonded), 25), 1000)
  }

  function Capped(power: Dec, cap: Dec): Dec {
    if cap == 0 || power <= cap then power else cap
  }

  /** The power of all of a voter's delegations to bonded validators. */
  function VoterPower(vals: map<Address, Info>, vote: GovVote): Dec {
    Sum(DelegationCasts(vote.delegations, vote.options, vals.Keys), CastPower(vals))
  }

  /** The power a vote counts with; a validator's own vote does not count. */
  function CountedPower(vals: map<Address, Info>, cap: Dec, vote: GovVote): Dec {
    if vote.voter in vals then 0 else Capped(VoterPower(vals, vote), cap)
  }

  function Counted(vals: map<Address, Info>, cap: Dec): GovVote -> int {
    (vote: GovVote) => CountedPower(vals, cap, vote)
  }

  function CountedGain(vals: map<Address, Info>, cap: Dec, c: Choice): GovVote -> int {
    (vote: GovVote) => if vote.voter in vals then 0 else Gain(vote.options, CountedPower(vals, cap, vote), c)
  }

  lemma NextDelegation(vals: map<Address, Info>, vote: GovVote, i: nat)
    requires Shared(vals) && i < |vote.delegations|
    ensures Sum(DelegationCasts(vote.delegations[..i + 1], vote.options, vals.Keys), CastPower(vals))
         == Sum(DelegationCasts(vote.delegations[..i], vote.options, vals.Keys), CastPower(vals))
            + (var (v, shares) := vote.delegations[i]; if v in vals then PowerOf(vals[v], shares) else 0)
  {
    var ds := vote.delegations;
    assert ds[..i + 1][..i] == ds[..i];
    SumSplit(DelegationCasts(ds[..i], vote.options, vals.Keys), CastOf(ds[i], vote.options, vals.Keys), CastPower(vals));
  }

  method AddUpDelegations(vals: map<Address, Info>, vote: GovVote) returns (power: Dec)
    requires Shared(vals)
    ensures power == VoterPower(vals, vote)
  {
    power := 0;
    assert vote.delegations[..|vote.delegations|] == vote.delegations;
    for i := 0 to |vote.delegations|
      invariant power == Sum(DelegationCasts(vote.delegations[..i], vote.options, vals.Keys), CastPower(vals))
    {
      var (v, shares) := vote.delegations[i];
      NextDelegation(vals, vote, i);
      if v in vals {
        power := power + PowerOf(vals[v], shares);
      }
    }
  }

  ghost predicate GrownBy(votes: seq<GovVote>, gain: Choice -> GovVote -> int, results: Results) {
    Complete(results) && forall c :: results[c] == Sum(votes, gain(c))
  }

  function CountedGains(vals: map<Address, Info>, cap: Dec): Choice -> GovVote -> int {
    (c: Choice) => CountedGain(vals, cap, c)
  }

  lemma GrownByNext(votes: seq<GovVote>, i: nat, gain: Choice -> GovVote -> int, before: Results, after: Results)
    requires i < |votes| && GrownBy(votes[..i], gain, before) && Complete(after)
    requires forall c :: after[c] == before[c] + gain(c)(votes[i])
    ensures GrownBy(votes[..i + 1], gain, after)
  {
    forall c ensures after[c] == Sum(votes[..i + 1], gain(c)) { SumSnoc(votes, i, gain(c)); }
  }

  lemma NothingGrown(gain: Choice -> GovVote -> int)
    ensures GrownBy([], gain, NO_RESULTS)
  {
    NoResults(map[]);
    forall c ensures NO_RESULTS[c] == 0 { match c { case Yes => case Abstain => case No => case NoWithVeto => } }
  }

  /** The capped tally. */
  method CommunityTally(votes: seq<GovVote>, vals: map<Address, Info>, bonded: int)
    returns (total: Dec, results: Results)
    requires Shared(vals)
    ensures total == Sum(votes, Counted(vals, PowerCap(bonded)))
    ensures GrownBy(votes, CountedGains(vals, PowerCap(bonded)), results)
  {
    var cap := PowerCap(bonded);
    total, results := 0, NO_RESULTS;
    NothingGrown(CountedGains(vals, cap));
    assert votes[..|votes|] == votes;
    for i := 0 to |votes|
      invariant total == Sum(votes[..i], Counted(vals, cap))
      invariant GrownBy(votes[..i], CountedGains(vals, cap), results)
    {
      var vote := votes[i];
      ghost var before := results;
      SumSnoc(votes, i, Counted(vals, cap));
      if vote.voter !in vals {
        var voterPower := AddUpDelegations(vals, vote);
        var power := Capped(voterPower, cap);
        results := AddOptions(results, vote.options, power);
        total := total + power;
      }
      GrownByNext(votes, i, CountedGains(vals, cap), before, results);
    }
  }

  lemma PowerCapIs(bonded: nat)
    ensures 1000 * PowerCap(bonded) == 25 * FromInt(bonded)
    ensures PowerCap(bonded) == 0 <==> bonded == 0
  {
    assert MulInt(FromInt(bonded), 25) == 1000 * (25_000_000_000_000_000 * bonded);
  }

  /** The bonded total holds at least the tokens of each bonded validator. */
  ghost predicate Bonded(vals: map<Address, Info>, bonded: nat) {
    Shared(vals) && forall v :: v in vals ==> vals[v].tokens <= bonded
  }

  lemma NoTokensNoPower(val: Info, shares: Dec)
    requires val.shares > 0 && val.tokens == 0
    ensures PowerOf(val, shares) == 0
  {
    assert MulInt(shares, 0) == 0;
    RoundExact(0);
  }

  /** A cap of zero stands for no cap, but then nothing is bonded and no voter has any power. */
  lemma NothingBondedNoPower(vals: map<Address, Info>, vote: GovVote)
    requires Bonded(vals, 0)
    ensures VoterPower(vals, vote) == 0
  {
    var casts := DelegationCasts(vote.delegations, vote.options, vals.Keys);
    forall c | c in casts ensures PowerOfCast(vals, c) == 0 {
      if c.validator in vals { NoTokensNoPower(vals[c.validator], c.shares); }
    }
    SumZero(casts, CastPower(vals));
  }

  /** No voter counts for more than 25 thousandths of the bonded tokens. */
  lemma CapHolds(vals: map<Address, Info>, bonded: nat, vote: GovVote)
    requires Bonded(vals, bonded)
    ensures 1000 * CountedPower(vals, PowerCap(bonded), vote) <= 25 * FromInt(bonded)
  {
    PowerCapIs(bonded);
    if bonded == 0 { NothingBondedNoPower(vals, vote); }
  }

  /** Any number of voters together stays within their caps. */
  lemma {:induction false} TotalWithinCaps(votes: seq<GovVote>, vals: map<Address, Info>, bonded: nat)
    requires Bonded(vals, bonded)
    ensures 1000 * Sum(votes, Counted(vals, PowerCap(bonded))) <= 25 * (FromInt(bonded) * |votes|)
  {
    if votes != [] {
      TotalWithinCaps(votes[1..], vals, bonded);
      CapHolds(vals, bonded, votes[0]);
      assert FromInt(bonded) * |votes| == FromInt(bonded) * (|votes| - 1) + FromInt(bonded);
    }
  }

  function OptionsOf(): GovVote -> int {
    (vote: GovVote) => |vote.options|
  }

  lemma CappedResultsConserved(votes: seq<GovVote>, vals: map<Address, Info>, cap: Dec, total: Dec, results: Results)
    requires WholeVotes(votes) && total == Sum(votes, Counted(vals, cap)) && GrownBy(votes, CountedGains(vals, cap), results)
    ensures var slack := Sum(votes, OptionsOf());
            0 - slack <= 2 * (results[Yes] + results[Abstain] + results[No] + results[NoWithVeto] - total) <= slack
  {
    forall v | v in votes
      ensures var p := CountedPower(vals, cap, v);
              0 - |v.options| <= 2 * (Gains(v.options, p) - p) <= |v.options|
    {
      SpreadConserved(v.options, CountedPower(vals, cap, v));
    }
    GainsWithin(votes, CountedGain(vals, cap, Yes), CountedGain(vals, cap, Abstain), CountedGain(vals, cap, No),
                CountedGain(vals, cap, NoWithVeto), Counted(vals, cap), OptionsOf());
    assert forall c :: CountedGains(vals, cap)(c) == CountedGain(vals, cap, c);
  }

  // ---- staked DODx

  function StakedPowerOf(stakes: map<Address, int>, vote: GovVote): Dec {
    FromInt(AmountOf(stakes, vote.voter))
  }

  function StakedPower(stakes: map<Address, int>): GovVote -> int {
    (vote: GovVote) => StakedPowerOf(stakes, vote)
  }

  function StakedGain(stakes: map<Address, int>, c: Choice): GovVote -> int {
    (vote: GovVote) => Gain(vote.options, StakedPowerOf(stakes, vote), c)
  }

  function StakedGains(stakes: map<Address, int>): Choice -> GovVote -> int {
    (c: Choice) => StakedGain(stakes, c)
  }

  method DodxStakedTally(votes: seq<GovVote>, stakes: map<Address, int>) returns (total: Dec, results: Results)
    ensures total == Sum(votes, StakedPower(stakes))
    ensures GrownBy(votes, StakedGains(stakes), results)
  {
    total, results := 0, NO_RESULTS;
    NothingGrown(StakedGains(stakes));
    assert votes[..|votes|] == votes;
    for i := 0 to |votes|
      invariant total == Sum(votes[..i], StakedPower(stakes))
      invariant GrownBy(votes[..i], StakedGains(stakes), results)
    {
      ghost var before := results;
      var power := FromInt(AmountOf(stakes, votes[i].voter));
      SumSnoc(votes, i, StakedPower(stakes));
      results := AddOptions(results, votes[i].options, power);
      total := total + power;
      GrownByNext(votes, i, StakedGains(stakes), before, results);
    }
  }

  function VoterOf(): GovVote -> Address {
    (vote: GovVote) => vote.voter
  }

  lemma {:induction false} StakedPowerOfVoters(votes: seq<GovVote>, stakes: map<Address, int>)
    ensures Sum(votes, StakedPower(stakes)) == ONE * Sum(Each(votes, VoterOf()), DodxStaking.Amounts(stakes))
  {
    if votes != [] { StakedPowerOfVoters(votes[1..], stakes); }
  }

  /** One vote for each voter: the turnout is at most the total staked. */
  lemma TurnoutWithinStaked(votes: seq<GovVote>, stakes: map<Address, int>, total: Dec)
    requires DodxStaking.AllPositive(stakes) && total == Sum(votes, StakedPower(stakes))
    requires forall i, j :: 0 <= i < j < |votes| ==> votes[i].voter != votes[j].voter
    ensures total <= FromInt(MapSum(stakes))
  {
    EachIs(votes, VoterOf());
    StakedPowerOfVoters(votes, stakes);
    DodxStaking.TurnoutAtMostStaked(stakes, Each(votes, VoterOf()));
  }
}
