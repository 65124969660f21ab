/** What the three tallies decide: whose power counts, and for which choice. */
module GovOutcome {
  import opened Bytes
  import opened Decimals
  import opened Sums
  import opened GovTally
  import opened GovCommunity
  import DodxStaking

  // ---- one vote

  ghost predicate Names(options: Options, c: Choice) {
    exists o :: o in options && o.0 == c
  }

  /** A choice that is not named gains nothing. */
  lemma UnnamedGainsNothing(options: Options, power: Dec, c: Choice)
    requires !Names(options, c)
    ensures Gain(options, power, c) == 0
  {
    SumZero(options, OptionGain(power, c));
  }

  /** A whole vote for one choice gives it all the power. */
  lemma WholeGainsAll(power: Dec, c: Choice)
    ensures Gain([(c, ONE)], power, c) == power
  {
    var options: Options := [(c, ONE)];
    assert options[1..] == [] && Sum(options[1..], OptionGain(power, c)) == 0;
    assert Gain(options, power, c) == OptionGain(power, c)(options[0]);
    RoundExact(power);
  }

  /** What a choice is given of the power of one vote, up to half a unit for each option. */
  function WeightFor(c: Choice): ((Choice, Dec)) -> int {
    (o: (Choice, Dec)) => if o.0 == c then o.1 else 0
  }

  lemma {:induction false} GainIsShare(options: Options, power: Dec, c: Choice)
    ensures -(HALF * |options|) <= power * Sum(options, WeightFor(c)) - Gain(options, power, c) * ONE <= HALF * |options|
  {
    if options != [] {
      GainIsShare(options[1..], power, c);
      OptionIsShare(options[0], power, c);
      AddShares(power, WeightFor(c)(options[0]), Sum(options[1..], WeightFor(c)));
    }
  }

  lemma OptionIsShare(o: (Choice, Dec), power: Dec, c: Choice)
    ensures -HALF <= power * WeightFor(c)(o) - OptionGain(power, c)(o) * ONE <= HALF
  {
    if o.0 == c { RoundError(power * o.1); }
  }

  lemma AddShares(power: int, w: int, ws: int)
    ensures power * (w + ws) == power * w + power * ws
  {
  }

  // ---- whose delegations count

  /** Some measure of one delegation, if it is to a bonded validator. */
  function OfDelegation(vals: set<Address>, options: Options, f: Cast -> int): ((Address, Dec)) -> int {
    (d: (Address, Dec)) => if d.0 in vals then f(Cast(d.0, d.1, options)) else 0
  }

  function OfVoter(vals: set<Address>, f: Cast -> int): GovVote -> int {
    (vote: GovVote) => Sum(vote.delegations, OfDelegation(vals, vote.options, f))
  }

  lemma {:induction false} DelegationsCounted(ds: seq<(Address, Dec)>, options: Options, vals: set<Address>, f: Cast -> int)
    ensures Sum(DelegationCasts(ds, options, vals), f) == Sum(ds, OfDelegation(vals, options, f))
  {
    if ds != [] {
      var n := |ds| - 1;
      DelegationsCounted(ds[..n], options, vals, f);
      SumSplit(DelegationCasts(ds[..n], options, vals), CastOf(ds[n], options, vals), f);
      SumSnoc(ds, n, OfDelegation(vals, options, f));
      assert ds[..n + 1] == ds;
    }
  }

  /**
   * Whatever is added up over the counted delegations is added up over every delegation of every voter
   * to a bonded validator, each once and with the options of its own voter.
   */
  lemma {:induction false} EveryDelegationCounts(votes: seq<GovVote>, vals: set<Address>, f: Cast -> int)
    ensures Sum(Casts(votes, vals), f) == Sum(votes, OfVoter(vals, f))
  {
    if votes != [] {
      var n := |votes| - 1;
      EveryDelegationCounts(votes[..n], vals, f);
      DelegationsCounted(votes[n].delegations, votes[n].options, vals, f);
      SumSplit(Casts(votes[..n], vals), DelegationCasts(votes[n].delegations, votes[n].options, vals), f);
      SumSnoc(votes, n, OfVoter(vals, f));
      assert votes[..n + 1] == votes;
    }
  }

  // ---- the default tally

  /** Votes that leave a choice out, and votes for it alone. */
  datatype Stance = LeavesOut(c: Choice) | Backs(c: Choice)

  ghost predicate Takes(options: Options, s: Stance) {
    if s.Backs? then options == [(s.c, ONE)] else !Names(options, s.c)
  }

  /** Every vote that may count takes the stance. */
  ghost predicate AllTake(votes: seq<GovVote>, vals: map<Address, Info>, s: Stance) {
    (forall vote :: vote in votes ==> Takes(vote.options, s)) && forall v :: v in vals ==> vals[v].vote == [] || Takes(vals[v].vote, s)
  }

  lemma {:induction false} DelegationCastsVote(ds: seq<(Address, Dec)>, options: Options, vals: set<Address>, x: Cast)
    requires x in DelegationCasts(ds, options, vals)
    ensures x.options == options
  {
    var n := |ds| - 1;
    if x in DelegationCasts(ds[..n], options, vals) { DelegationCastsVote(ds[..n], options, vals, x); }
  }

  lemma {:induction false} CastsTake(votes: seq<GovVote>, vals: map<Address, Info>, s: Stance, x: Cast)
    requires AllTake(votes, vals, s) && x in Casts(votes, vals.Keys)
    ensures Takes(x.options, s)
  {
    var n := |votes| - 1;
    if x in Casts(votes[..n], vals.Keys) {
      assert forall vote :: vote in votes[..n] ==> vote in votes;
      CastsTake(votes[..n], vals, s, x);
    } else {
      DelegationCastsVote(votes[n].delegations, votes[n].options, vals.Keys, x);
    }
  }

  lemma {:induction false} OwnVotesTake(votes: seq<GovVote>, vals: map<Address, Info>, s: Stance, v: Address)
    requires AllTake(votes, vals, s) && v in vals
    ensures OwnVote(votes, vals, v) == [] || Takes(OwnVote(votes, vals, v), s)
  {
    if votes != [] {
      var n := |votes| - 1;
      assert votes[n] in votes && forall vote :: vote in votes[..n] ==> vote in votes;
      OwnVotesTake(votes[..n], vals, s, v);
    }
  }

  /** A stance gives its choice nothing or everything. */
  lemma StanceGain(options: Options, s: Stance, power: Dec)
    requires Takes(options, s)
    ensures Gain(options, power, s.c) == if s.Backs? then power else 0
  {
    if s.Backs? { WholeGainsAll(power, s.c); } else { UnnamedGainsNothing(options, power, s.c); }
  }

  lemma CastsGain(votes: seq<GovVote>, vals: map<Address, Info>, s: Stance)
    requires AllTake(votes, vals, s)
    ensures Sum(Casts(votes, vals.Keys), CastGain(vals, s.c)) == if s.Backs? then Sum(Casts(votes, vals.Keys), CastPower(vals)) else 0
  {
    var casts := Casts(votes, vals.Keys);
    forall x | x in casts ensures CastGain(vals, s.c)(x) == if s.Backs? then CastPower(vals)(x) else 0 {
      CastsTake(votes, vals, s, x);
      StanceGain(x.options, s, PowerOfCast(vals, x));
    }
    if s.Backs? { SumAgrees(casts, CastGain(vals, s.c), CastPower(vals)); } else { SumZero(casts, CastGain(vals, s.c)); }
  }

  lemma RemainderGain(votes: seq<GovVote>, vals: map<Address, Info>, s: Stance, v: Address)
    requires AllTake(votes, vals, s)
    ensures ResidualGain(votes, vals, s.c)(v) == if s.Backs? then Residual(votes, vals)(v) else 0
  {
    if v in vals {
      OwnVotesTake(votes, vals, s, v);
      if OwnVote(votes, vals, v) != [] { StanceGain(OwnVote(votes, vals, v), s, ResidualOf(votes, vals, v)); }
    }
  }

  lemma RemaindersGain(votes: seq<GovVote>, vals: map<Address, Info>, s: Stance)
    requires AllTake(votes, vals, s)
    ensures SetSum(vals.Keys, ResidualGain(votes, vals, s.c)) == if s.Backs? then SetSum(vals.Keys, Residual(votes, vals)) else 0
  {
    var order := Sorted(vals.Keys);
    forall v | v in order ensures ResidualGain(votes, vals, s.c)(v) == if s.Backs? then Residual(votes, vals)(v) else 0 {
      RemainderGain(votes, vals, s, v);
    }
    if s.Backs? { SumAgrees(order, ResidualGain(votes, vals, s.c), Residual(votes, vals)); }
    else { SumZero(order, ResidualGain(votes, vals, s.c)); }
  }

  /** A validator's own vote is the last it cast. */
  lemma {:induction false} OwnVoteIs(votes: seq<GovVote>, vals: map<Address, Info>, i: nat)
    requires i < |votes| && votes[i].voter in vals && forall j :: i < j < |votes| ==> votes[j].voter != votes[i].voter
    ensures OwnVote(votes, vals, votes[i].voter) == votes[i].options
  {
    var n := |votes| - 1;
    if i < n {
      assert votes[..n][i] == votes[i];
      OwnVoteIs(votes[..n], vals, i);
    }
  }

  /** The result of one choice, through the delegators and the remainders. */
  ghost function DefaultResult(votes: seq<GovVote>, vals: map<Address, Info>, c: Choice): Dec {
    Sum(Casts(votes, vals.Keys), CastGain(vals, c)) + SetSum(vals.Keys, ResidualGain(votes, vals, c))
  }

  ghost function DefaultTotal(votes: seq<GovVote>, vals: map<Address, Info>): Dec {
    Sum(Casts(votes, vals.Keys), CastPower(vals)) + SetSum(vals.Keys, Residual(votes, vals))
  }

  /** Nobody names a choice: it ends at zero. */
  lemma UnnamedEndsAtZero(votes: seq<GovVote>, vals: map<Address, Info>, c: Choice)
    requires (forall vote :: vote in votes ==> !Names(vote.options, c)) && forall v :: v in vals ==> !Names(vals[v].vote, c)
    ensures DefaultResult(votes, vals, c) == 0
  {
    assert AllTake(votes, vals, LeavesOut(c));
    CastsGain(votes, vals, LeavesOut(c));
    RemaindersGain(votes, vals, LeavesOut(c));
  }

  /** Everybody votes for one choice: it ends at the total. */
  lemma UnanimousEndsAtTotal(votes: seq<GovVote>, vals: map<Address, Info>, c: Choice)
    requires forall vote :: vote in votes ==> vote.options == [(c, ONE)]
    requires forall v :: v in vals ==> vals[v].vote == [] || vals[v].vote == [(c, ONE)]
    ensures DefaultResult(votes, vals, c) == DefaultTotal(votes, vals)
  {
    assert AllTake(votes, vals, Backs(c));
    CastsGain(votes, vals, Backs(c));
    RemaindersGain(votes, vals, Backs(c));
  }

  // ---- the community tallies

  /** In both, a choice nobody names ends at zero. */
  lemma CommunityUnnamed(votes: seq<GovVote>, vals: map<Address, Info>, cap: Dec, stakes: map<Address, int>, c: Choice)
    requires forall vote :: vote in votes ==> !Names(vote.options, c)
    ensures Sum(votes, CountedGains(vals, cap)(c)) == 0 && Sum(votes, StakedGains(stakes)(c)) == 0
  {
    forall vote | vote in votes ensures CountedGains(vals, cap)(c)(vote) == 0 && StakedGains(stakes)(c)(vote) == 0 {
      UnnamedGainsNothing(vote.options, CountedPower(vals, cap, vote), c);
      UnnamedGainsNothing(vote.options, StakedPowerOf(stakes, vote), c);
    }
    SumZero(votes, CountedGains(vals, cap)(c));
    SumZero(votes, StakedGains(stakes)(c));
  }

  /** In both, a choice everybody votes for ends at the total. */
  lemma CommunityUnanimous(votes: seq<GovVote>, vals: map<Address, Info>, cap: Dec, stakes: map<Address, int>, c: Choice)
    requires forall vote :: vote in votes ==> vote.options == [(c, ONE)]
    ensures Sum(votes, CountedGains(vals, cap)(c)) == Sum(votes, Counted(vals, cap))
    ensures Sum(votes, StakedGains(stakes)(c)) == Sum(votes, StakedPower(stakes))
  {
    forall vote | vote in votes
      ensures CountedGains(vals, cap)(c)(vote) == Counted(vals, cap)(vote)
      ensures StakedGains(stakes)(c)(vote) == StakedPower(stakes)(vote)
    {
      WholeGainsAll(CountedPower(vals, cap, vote), c);
      WholeGainsAll(StakedPowerOf(stakes, vote), c);
    }
    SumAgrees(votes, CountedGains(vals, cap)(c), Counted(vals, cap));
    SumAgrees(votes, StakedGains(stakes)(c), StakedPower(stakes));
  }

  /** What a voter has beyond what is counted: everything if it is a validator, else what is above the cap. */
  function Withheld(vals: map<Address, Info>, cap: Dec): GovVote -> int {
    (vote: GovVote) =>
      var power := VoterPower(vals, vote);
      if vote.voter in vals then power else if power > cap then power - cap else 0
  }

  /** The capped total is what the delegators have in the default tally, less exactly what is withheld. */
  lemma CapWithholdsExcess(votes: seq<GovVote>, vals: map<Address, Info>, cap: Dec)
    requires cap > 0
    ensures Sum(votes, Counted(vals, cap)) == Sum(Casts(votes, vals.Keys), CastPower(vals)) - Sum(votes, Withheld(vals, cap))
  {
    EveryDelegationCounts(votes, vals.Keys, CastPower(vals));
    forall vote | vote in votes
      ensures OfVoter(vals.Keys, CastPower(vals))(vote) == Counted(vals, cap)(vote) + Withheld(vals, cap)(vote)
    {
      DelegationsCounted(vote.delegations, vote.options, vals.Keys, CastPower(vals));
    }
    SumAdds(votes, Counted(vals, cap), Withheld(vals, cap), OfVoter(vals.Keys, CastPower(vals)));
  }

  /** Everybody who has staked votes once: the total is exactly what is staked. */
  lemma FullTurnout(votes: seq<GovVote>, stakes: map<Address, int>)
    requires DodxStaking.AllPositive(stakes)
    requires forall i, j :: 0 <= i < j < |votes| ==> votes[i].voter != votes[j].voter
    requires forall a :: a in stakes ==> exists vote :: vote in votes && vote.voter == a
    ensures Sum(votes, StakedPower(stakes)) == FromInt(MapSum(stakes))
  {
    var voters := Each(votes, VoterOf());
    EachIs(votes, VoterOf());
    forall a | a in stakes ensures a in voters {
      var vote :| vote in votes && vote.voter == a;
      var i :| 0 <= i < |votes| && votes[i] == vote;
      assert voters[i] == a;
    }
    StakedPowerOfVoters(votes, stakes);
    DodxStaking.FullTurnoutIsStaked(stakes, voters);
  }
}
