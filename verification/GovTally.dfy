/** The default governance tally: delegators' votes and the validators' remainder. */
module GovTally {
  import opened Bytes
  import opened Decimals
  import opened Sums

  type Address = Bytes

  datatype Choice = Yes | Abstain | No | NoWithVeto
  type Options = seq<(Choice, Dec)>

  /** A bonded validator during a tally. */
  datatype Info = Info(tokens: nat, shares: Dec, deductions: Dec, vote: Options)

  /** A vote with the delegations its voter holds when it is read. */
  datatype GovVote = GovVote(voter: Address, options: Options, delegations: seq<(Address, Dec)>)

  type Results = map<Choice, Dec>

  const NO_RESULTS: Results := map[Yes := 0, Abstain := 0, No := 0, NoWithVeto := 0]

  ghost predicate Complete(r: Results) {
    forall c: Choice :: c in r
  }

  // ---- power and results

  /** The tokens behind some shares of a validator. */
  function PowerOf(val: Info, shares: Dec): Dec
    requires val.shares != 0
  {
    Quo(MulInt(shares, val.tokens), val.shares)
  }

  function OptionGain(power: Dec, c: Choice): ((Choice, Dec)) -> int {
    (o: (Choice, Dec)) => if o.0 == c then Mul(power, o.1) else 0
  }

  /** What one choice gains when some power is spread over weighted options. */
  function Gain(options: Options, power: Dec, c: Choice): Dec {
    Sum(options, OptionGain(power, c))
  }

  method AddOptions(results: Results, options: Options, power: Dec) returns (results': Results)
    requires Complete(results)
    ensures Complete(results')
    ensures forall c :: results'[c] == results[c] + Gain(options, power, c)
  {
    results' := results;
    for i := 0 to |options|
      invariant Complete(results')
      invariant forall c :: results'[c] == results[c] + Gain(options[..i], power, c)
    {
      var (option, weight) := options[i];
      forall c ensures Gain(options[..i + 1], power, c) == Gain(options[..i], power, c) + OptionGain(power, c)(options[i]) {
        SumSnoc(options, i, OptionGain(power, c));
      }
      results' := results'[option := results'[option] + Mul(power, weight)];
    }
    assert options[..|options|] == options;
  }

  // ---- delegations that count

  /** A delegation of a voter to a bonded validator. */
  datatype Cast = Cast(validator: Address, shares: Dec, options: Options)

  function DelegationCasts(delegations: seq<(Address, Dec)>, options: Options, vals: set<Address>): seq<Cast> {
    if delegations == [] then []
    else
      var n := |delegations| - 1;
      DelegationCasts(delegations[..n], options, vals)
      + CastOf(delegations[n], options, vals)
  }

  function Casts(votes: seq<GovVote>, vals: set<Address>): seq<Cast> {
    if votes == [] then []
    else
      var n := |votes| - 1;
      Casts(votes[..n], vals) + DelegationCasts(votes[n].delegations, votes[n].options, vals)
  }

  /** A validator's own vote, the last one read if there were several. */
  function OwnVote(votes: seq<GovVote>, vals: map<Address, Info>, v: Address): Options
    requires v in vals
  {
    if votes == [] then vals[v].vote
    else
      var n := |votes| - 1;
      if votes[n].voter == v then votes[n].options else OwnVote(votes[..n], vals, v)
  }

  function CountVia(v: Address): Cast -> int {
    (c: Cast) => if c.validator == v then 1 else 0
  }

  function SharesVia(v: Address): Cast -> int {
    (c: Cast) => if c.validator == v then c.shares else 0
  }

  function PowerOfCast(vals: map<Address, Info>, c: Cast): Dec {
    if c.validator in vals && vals[c.validator].shares != 0 then PowerOf(vals[c.validator], c.shares) else 0
  }

  function CastPower(vals: map<Address, Info>): Cast -> int {
    (c: Cast) => PowerOfCast(vals, c)
  }

  function PowerVia(vals: map<Address, Info>, v: Address): Cast -> int {
    (c: Cast) => if c.validator == v then PowerOfCast(vals, c) else 0
  }

  function CastGain(vals: map<Address, Info>, choice: Choice): Cast -> int {
    (c: Cast) => Gain(c.options, PowerOfCast(vals, c), choice)
  }

  /** What is left of a validator that voted, after its delegators' own votes. */
  function ResidualOf(votes: seq<GovVote>, vals: map<Address, Info>, v: Address): Dec {
    if v in vals && vals[v].shares != 0 && OwnVote(votes, vals, v) != [] then
      PowerOf(vals[v], vals[v].shares - vals[v].deductions - Sum(Casts(votes, vals.Keys), SharesVia(v)))
    else 0
  }

  function Residual(votes: seq<GovVote>, vals: map<Address, Info>): Address -> int {
    (v: Address) => ResidualOf(votes, vals, v)
  }

  function ResidualGain(votes: seq<GovVote>, vals: map<Address, Info>, c: Choice): Address -> int {
    (v: Address) => if v in vals then Gain(OwnVote(votes, vals, v), ResidualOf(votes, vals, v), c) else 0
  }

  // ---- the walk over the votes

  ghost predicate Walked(vals: map<Address, Info>, vals': map<Address, Info>, casts: seq<Cast>) {
    && vals'.Keys == vals.Keys
    && forall v :: v in vals ==> vals'[v] == vals[v].(vote := vals'[v].vote, deductions := vals[v].deductions + Sum(casts, SharesVia(v)))
  }

  ghost predicate Tallied(vals: map<Address, Info>, casts: seq<Cast>, total: Dec, results: Results) {
    && Complete(results)
    && total == Sum(casts, CastPower(vals))
    && forall c :: results[c] == Sum(casts, CastGain(vals, c))
  }

  ghost predicate Shared(vals: map<Address, Info>) {
    forall v :: v in vals ==> vals[v].shares > 0
  }

  lemma CastNext(vals: map<Address, Info>, before: map<Address, Info>, casts: seq<Cast>, c: Cast)
    requires Walked(vals, before, casts) && c.validator in vals
    ensures var val := before[c.validator];
            Walked(vals, before[c.validator := val.(deductions := val.deductions + c.shares)], casts + [c])
  {
    forall v | v in vals ensures Sum(casts + [c], SharesVia(v)) == Sum(casts, SharesVia(v)) + SharesVia(v)(c) {
      SumSplit(casts, [c], SharesVia(v));
    }
  }

  lemma TallyNext(vals: map<Address, Info>, casts: seq<Cast>, total: Dec, results: Results, c: Cast, results': Results)
    requires Shared(vals) && Tallied(vals, casts, total, results) && c.validator in vals && Complete(results')
    requires forall ch :: results'[ch] == results[ch] + Gain(c.options, PowerOf(vals[c.validator], c.shares), ch)
    ensures Tallied(vals, casts + [c], total + PowerOf(vals[c.validator], c.shares), results')
  {
    SumSplit(casts, [c], CastPower(vals));
    forall ch ensures results'[ch] == Sum(casts + [c], CastGain(vals, ch)) { SumSplit(casts, [c], CastGain(vals, ch)); }
  }

  ghost predicate SameVotes(a: map<Address, Info>, b: map<Address, Info>) {
    a.Keys == b.Keys && forall v :: v in a ==> a[v].vote == b[v].vote
  }

  function CastOf(delegation: (Address, Dec), options: Options, vals: set<Address>): seq<Cast> {
    if delegation.0 in vals then [Cast(delegation.0, delegation.1, options)] else []
  }

  method AddDelegation(ghost vals0: map<Address, Info>, ghost casts: seq<Cast>, delegation: (Address, Dec), options: Options,
                       vals: map<Address, Info>, total: Dec, results: Results)
    returns (vals': map<Address, Info>, total': Dec, results': Results)
    requires Shared(vals0) && Walked(vals0, vals, casts) && Tallied(vals0, casts, total, results)
    ensures Walked(vals0, vals', casts + CastOf(delegation, options, vals0.Keys))
    ensures Tallied(vals0, casts + CastOf(delegation, options, vals0.Keys), total', results')
    ensures SameVotes(vals, vals')
  {
    vals', total', results' := vals, total, results;
    if delegation.0 in vals {
      var val := vals[delegation.0];
      ghost var c := Cast(delegation.0, delegation.1, options);
      CastNext(vals0, vals, casts, c);
      vals' := vals[delegation.0 := val.(deductions := val.deductions + delegation.1)];
      var power := PowerOf(val, delegation.1);
      results' := AddOptions(results, options, power);
      TallyNext(vals0, casts, total, results, c, results');
      total' := total + power;
    } else {
      assert casts + [] == casts;
    }
  }

  lemma DelegationNext(casts: seq<Cast>, delegations: seq<(Address, Dec)>, i: nat, options: Options, vals: set<Address>)
    requires i < |delegations|
    ensures casts + DelegationCasts(delegations[..i + 1], options, vals)
         == casts + DelegationCasts(delegations[..i], options, vals) + CastOf(delegations[i], options, vals)
  {
    assert delegations[..i + 1][..i] == delegations[..i];
  }

  method AddDelegations(ghost vals0: map<Address, Info>, ghost casts: seq<Cast>, vote: GovVote,
                        vals: map<Address, Info>, total: Dec, results: Results)
    returns (vals': map<Address, Info>, total': Dec, results': Results)
    requires Shared(vals0) && Walked(vals0, vals, casts) && Tallied(vals0, casts, total, results)
    ensures Walked(vals0, vals', casts + DelegationCasts(vote.delegations, vote.options, vals0.Keys))
    ensures Tallied(vals0, casts + DelegationCasts(vote.delegations, vote.options, vals0.Keys), total', results')
    ensures SameVotes(vals, vals')
  {
    vals', total', results' := vals, total, results;
    ghost var now := casts;
    assert vote.delegations[..|vote.delegations|] == vote.delegations;
    for i := 0 to |vote.delegations|
      invariant now == casts + DelegationCasts(vote.delegations[..i], vote.options, vals0.Keys)
      invariant Walked(vals0, vals', now) && Tallied(vals0, now, total', results') && SameVotes(vals, vals')
    {
      DelegationNext(casts, vote.delegations, i, vote.options, vals0.Keys);
      vals', total', results' := AddDelegation(vals0, now, vote.delegations[i], vote.options, vals', total', results');
      now := now + CastOf(vote.delegations[i], vote.options, vals0.Keys);
    }
  }

  ghost predicate VotesRead(votes: seq<GovVote>, vals: map<Address, Info>, vals': map<Address, Info>) {
    vals'.Keys == vals.Keys && forall v :: v in vals ==> vals'[v].vote == OwnVote(votes, vals, v)
  }

  lemma NoResults(vals: map<Address, Info>)
    ensures Tallied(vals, [], 0, NO_RESULTS)
  {
    forall c ensures c in NO_RESULTS && NO_RESULTS[c] == 0 {
      match c { case Yes => case Abstain => case No => case NoWithVeto => }
    }
  }

  function Recorded(vals: map<Address, Info>, vote: GovVote): map<Address, Info> {
    if vote.voter in vals then vals[vote.voter := vals[vote.voter].(vote := vote.options)] else vals
  }

  lemma RecordedRead(votes: seq<GovVote>, i: nat, vals: map<Address, Info>, before: map<Address, Info>, casts: seq<Cast>)
    requires i < |votes| && VotesRead(votes[..i], vals, before) && Walked(vals, before, casts)
    ensures VotesRead(votes[..i + 1], vals, Recorded(before, votes[i])) && Walked(vals, Recorded(before, votes[i]), casts)
  {
    assert votes[..i + 1][..i] == votes[..i];
  }

  lemma CastsNext(votes: seq<GovVote>, i: nat, vals: set<Address>)
    requires i < |votes|
    ensures Casts(votes[..i + 1], vals)
         == Casts(votes[..i], vals) + DelegationCasts(votes[i].delegations, votes[i].options, vals)
  {
    assert votes[..i + 1][..i] == votes[..i];
  }

  method WalkVotes(votes: seq<GovVote>, vals: map<Address, Info>)
    returns (vals': map<Address, Info>, total: Dec, results: Results)
    requires Shared(vals)
    ensures Walked(vals, vals', Casts(votes, vals.Keys)) && VotesRead(votes, vals, vals')
    ensures Tallied(vals, Casts(votes, vals.Keys), total, results)
  {
    vals', total, results := vals, 0, NO_RESULTS;
    NoResults(vals);
    assert votes[..|votes|] == votes;
    for i := 0 to |votes|
      invariant Walked(vals, vals', Casts(votes[..i], vals.Keys)) && VotesRead(votes[..i], vals, vals')
      invariant Tallied(vals, Casts(votes[..i], vals.Keys), total, results)
    {
      RecordedRead(votes, i, vals, vals', Casts(votes[..i], vals.Keys));
      CastsNext(votes, i, vals.Keys);
      vals' := Recorded(vals', votes[i]);
      ghost var casts := Casts(votes[..i], vals.Keys);
      ghost var before := vals';
      vals', total, results := AddDelegations(vals, casts, votes[i], vals', total, results);
      StillRead(votes[..i + 1], vals, before, vals');
    }
  }

  lemma StillRead(votes: seq<GovVote>, vals: map<Address, Info>, before: map<Address, Info>, after: map<Address, Info>)
    requires VotesRead(votes, vals, before) && SameVotes(before, after)
    ensures VotesRead(votes, vals, after)
  {
  }

  /** Results that have grown by the remainders of some validators. */
  ghost predicate Grown(votes: seq<GovVote>, vals: map<Address, Info>, done: seq<Address>, results0: Results, results: Results) {
    && Complete(results0)
    && Complete(results)
    && forall c :: results[c] == results0[c] + Sum(done, ResidualGain(votes, vals, c))
  }

  lemma GrownNext(votes: seq<GovVote>, vals: map<Address, Info>, order: seq<Address>, i: nat, results0: Results, before: Results, after: Results)
    requires i < |order| && order[i] in vals && Grown(votes, vals, order[..i], results0, before) && Complete(after)
    requires forall c :: after[c] == before[c] + ResidualGain(votes, vals, c)(order[i])
    ensures Grown(votes, vals, order[..i + 1], results0, after)
  {
    forall c ensures after[c] == results0[c] + Sum(order[..i + 1], ResidualGain(votes, vals, c)) {
      SumSnoc(order, i, ResidualGain(votes, vals, c));
    }
  }

  /** One validator's remainder. */
  method AddResidual(ghost votes: seq<GovVote>, ghost vals: map<Address, Info>, vals': map<Address, Info>, v: Address, results: Results)
    returns (power: Dec, results': Results)
    requires Shared(vals) && v in vals && Complete(results)
    requires Walked(vals, vals', Casts(votes, vals.Keys)) && VotesRead(votes, vals, vals')
    ensures power == Residual(votes, vals)(v) && Complete(results')
    ensures forall c :: results'[c] == results[c] + ResidualGain(votes, vals, c)(v)
  {
    var val := vals'[v];
    assert val.vote == OwnVote(votes, vals, v);
    power, results' := 0, results;
    if val.vote != [] {
      power := PowerOf(val, val.shares - val.deductions);
      results' := AddOptions(results, val.vote, power);
    }
  }

  /** The whole tally: what came through the delegators, and what is left of the validators that voted. */
  method DefaultTally(votes: seq<GovVote>, vals: map<Address, Info>, order: seq<Address>)
    returns (total: Dec, results: Results)
    requires Shared(vals) && IsOrder(order, vals.Keys)
    ensures total == Sum(Casts(votes, vals.Keys), CastPower(vals)) + SetSum(vals.Keys, Residual(votes, vals))
    ensures Complete(results)
    ensures forall c :: results[c] == Sum(Casts(votes, vals.Keys), CastGain(vals, c)) + SetSum(vals.Keys, ResidualGain(votes, vals, c))
  {
    OrderFacts(order, vals.Keys);
    assert order[..|order|] == order;
    var vals';
    vals', total, results := WalkVotes(votes, vals);
    ghost var total0, results0 := total, results;
    for i := 0 to |order|
      invariant total == total0 + Sum(order[..i], Residual(votes, vals))
      invariant Grown(votes, vals, order[..i], results0, results)
    {
      ghost var before := results;
      var power;
      power, results := AddResidual(votes, vals, vals', order[i], results);
      SumSnoc(order, i, Residual(votes, vals));
      GrownNext(votes, vals, order, i, results0, before, results);
      total := total + power;
    }
    SumInAnyOrder(order, vals.Keys, Residual(votes, vals));
    GrownByAll(votes, vals, order, results0, results);
  }

  lemma GrownByAll(votes: seq<GovVote>, vals: map<Address, Info>, order: seq<Address>, results0: Results, results: Results)
    requires IsOrder(order, vals.Keys) && Grown(votes, vals, order, results0, results)
    ensures forall c :: results[c] == results0[c] + SetSum(vals.Keys, ResidualGain(votes, vals, c))
  {
    forall c ensures results[c] == results0[c] + SetSum(vals.Keys, ResidualGain(votes, vals, c)) {
      SumInAnyOrder(order, vals.Keys, ResidualGain(votes, vals, c));
    }
  }
}
