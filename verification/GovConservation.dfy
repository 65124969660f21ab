/** No voting power is lost or counted twice, up to one last-place unit for each division. */
module GovConservation {
  import opened Bytes
  import opened Decimals
  import opened Sums
  import opened GovTally

  // ---- one validator

  /** `p` is the power of `x` out of `s` shares in `t` tokens, give or take `n` units. */
  ghost predicate Near(t: int, s: int, x: int, p: int, n: int) {
    0 - s * n <= t * ONE * x - s * p <= s * n
  }

  lemma QuoNear(val: Info, x: Dec, p: Dec)
    requires val.shares > 0 && p == PowerOf(val, x)
    ensures Near(val.tokens, val.shares, x, p, 1)
  {
    QuoError(x * val.tokens, val.shares);
    ErrorIsNear(val.tokens, val.shares, x, p);
  }

  lemma ErrorIsNear(t: int, s: int, x: int, p: int)
    requires 0 - s <= x * t * ONE - p * s <= s
    ensures Near(t, s, x, p, 1)
  {
    assert x * t * ONE == t * ONE * x;
  }

  lemma CastNear(val: Info, via: bool, x: Dec, p: Dec, n: int)
    requires val.shares > 0
    requires if via then p == PowerOf(val, x) && n == 1 else x == 0 && p == 0 && n == 0
    ensures Near(val.tokens, val.shares, x, p, n)
  {
    if via { QuoNear(val, x, p); }
  }

  lemma NearAdds(t: int, s: int, x: int, p: int, n: int, x': int, p': int, n': int)
    requires Near(t, s, x, p, n) && Near(t, s, x', p', n')
    ensures Near(t, s, x + x', p + p', n + n')
  {
    assert t * ONE * (x + x') == t * ONE * x + t * ONE * x';
    assert s * (p + p') == s * p + s * p';
    assert s * (n + n') == s * n + s * n';
  }

  lemma NearWhole(t: int, s: int, p: int, n: int)
    requires s > 0 && Near(t, s, s, p, n)
    ensures 0 - n <= t * ONE - p <= n
  {
    assert t * ONE * s - s * p == s * (t * ONE - p);
    CancelBounds(s, t * ONE - p, n);
  }

  lemma NearNothing(t: int, s: int)
    ensures Near(t, s, 0, 0, 0)
  {
  }

  lemma {:induction false} NearSum<T>(e: seq<T>, t: int, s: int, x: T -> int, p: T -> int, n: T -> int)
    requires forall c :: c in e ==> Near(t, s, x(c), p(c), n(c))
    ensures Near(t, s, Sum(e, x), Sum(e, p), Sum(e, n))
  {
    if e == [] {
      NearNothing(t, s);
    } else {
      assert e[0] in e && forall c :: c in e[1..] ==> c in e;
      NearSum(e[1..], t, s, x, p, n);
      NearAdds(t, s, x(e[0]), p(e[0]), n(e[0]), Sum(e[1..], x), Sum(e[1..], p), Sum(e[1..], n));
    }
  }

  lemma ThroughBound(casts: seq<Cast>, vals: map<Address, Info>, v: Address)
    requires v in vals && vals[v].shares > 0
    ensures Near(vals[v].tokens, vals[v].shares, Sum(casts, SharesVia(v)), Sum(casts, PowerVia(vals, v)), Sum(casts, CountVia(v)))
  {
    forall c | c in casts
      ensures Near(vals[v].tokens, vals[v].shares, SharesVia(v)(c), PowerVia(vals, v)(c), CountVia(v)(c))
    {
      CastNear(vals[v], c.validator == v, SharesVia(v)(c), PowerVia(vals, v)(c), CountVia(v)(c));
    }
    NearSum(casts, vals[v].tokens, vals[v].shares, SharesVia(v), PowerVia(vals, v), CountVia(v));
  }

  lemma SplitShares(t: int, s: int, xs: int, ps: int, k: int, r: int)
    requires s > 0 && Near(t, s, xs, ps, k) && Near(t, s, s - xs, r, 1)
    ensures 0 - (k + 1) <= t * ONE - (ps + r) <= k + 1
  {
    NearAdds(t, s, xs, ps, k, s - xs, r, 1);
    NearWhole(t, s, ps + r, k + 1);
  }

  /** All the power that is counted for a validator, through its delegators and itself. */
  function Attributed(votes: seq<GovVote>, vals: map<Address, Info>): Address -> int {
    (v: Address) => Sum(Casts(votes, vals.Keys), PowerVia(vals, v)) + ResidualOf(votes, vals, v)
  }

  lemma CancelBounds(s: nat, d: int, n: int)
    requires s > 0 && -(s * n) <= s * d <= s * n
    ensures -n <= d <= n
  {
    if d > n { MulAtLeast(d, n + 1, s); }
    if d < -n { MulAtLeast(-n - 1, d, s); }
  }

  /** A validator that voted counts for its bonded tokens, however many of its delegators voted too. */
  lemma ValidatorConserved(votes: seq<GovVote>, vals: map<Address, Info>, v: Address)
    requires v in vals && vals[v].shares > 0 && vals[v].deductions == 0 && OwnVote(votes, vals, v) != []
    ensures var k := Sum(Casts(votes, vals.Keys), CountVia(v));
            -(k + 1) <= FromInt(vals[v].tokens) - Attributed(votes, vals)(v) <= k + 1
  {
    var casts, val := Casts(votes, vals.Keys), vals[v];
    var xs, ps, k := Sum(casts, SharesVia(v)), Sum(casts, PowerVia(vals, v)), Sum(casts, CountVia(v));
    ThroughBound(casts, vals, v);
    var r := ResidualOf(votes, vals, v);
    QuoNear(val, val.shares - xs, r);
    SplitShares(val.tokens, val.shares, xs, ps, k, r);
  }

  /** One that did not vote counts for no more than the shares its delegators voted with. */
  lemma ThroughAtMostTokens(casts: seq<Cast>, vals: map<Address, Info>, v: Address)
    requires v in vals && vals[v].shares > 0 && Sum(casts, SharesVia(v)) <= vals[v].shares
    ensures Sum(casts, PowerVia(vals, v)) <= FromInt(vals[v].tokens) + Sum(casts, CountVia(v))
  {
    ThroughBound(casts, vals, v);
    NearAtMost(vals[v].tokens, vals[v].shares, Sum(casts, SharesVia(v)), Sum(casts, PowerVia(vals, v)), Sum(casts, CountVia(v)));
  }

  lemma NearAtMost(t: nat, s: nat, x: int, p: int, n: int)
    requires s > 0 && x <= s && Near(t, s, x, p, n)
    ensures p <= t * ONE + n
  {
    MulAtLeast(s, x, t * ONE);
    assert s * (t * ONE + n) == s * (t * ONE) + s * n;
    if p > t * ONE + n { MulAtLeast(p, t * ONE + n + 1, s); }
  }

  // ---- all validators

  function Through(casts: seq<Cast>, vals: map<Address, Info>): Address -> int {
    (v: Address) => Sum(casts, PowerVia(vals, v))
  }

  function Only(v: Address, x: int): Address -> int {
    (w: Address) => if w == v then x else 0
  }

  lemma {:induction false} SumOfOnly(s: seq<Address>, v: Address, x: int)
    requires v in s && forall i, j :: 0 <= i < j < |s| ==> s[i] != s[j]
    ensures Sum(s, Only(v, x)) == x
  {
    if s[0] == v { SumZero(s[1..], Only(v, x)); } else { SumOfOnly(s[1..], v, x); }
  }

  /** Every counted delegation is counted for exactly one validator. */
  lemma {:induction false} ByValidator(casts: seq<Cast>, vals: map<Address, Info>, order: seq<Address>)
    requires IsOrder(order, vals.Keys) && forall c :: c in casts ==> c.validator in vals
    ensures Sum(casts, CastPower(vals)) == Sum(order, Through(casts, vals))
  {
    if casts == [] {
      SumZero(order, Through(casts, vals));
    } else {
      var c := casts[0];
      assert c in casts && forall d :: d in casts[1..] ==> d in casts;
      ByValidator(casts[1..], vals, order);
      OrderFacts(order, vals.Keys);
      var x := CastPower(vals)(c);
      SumOfOnly(order, c.validator, x);
      SumAdds(order, Only(c.validator, x), Through(casts[1..], vals), Through(casts, vals));
    }
  }

  lemma {:induction false} CastsAreKnown(votes: seq<GovVote>, vals: set<Address>)
    ensures forall c :: c in Casts(votes, vals) ==> c.validator in vals
  {
    if votes != [] {
      CastsAreKnown(votes[..|votes| - 1], vals);
      DelegationCastsAreKnown(votes[|votes| - 1].delegations, votes[|votes| - 1].options, vals);
    }
  }

  lemma {:induction false} DelegationCastsAreKnown(ds: seq<(Address, Dec)>, options: Options, vals: set<Address>)
    ensures forall c :: c in DelegationCasts(ds, options, vals) ==> c.validator in vals
  {
    if ds != [] { DelegationCastsAreKnown(ds[..|ds| - 1], options, vals); }
  }

  function Voted(votes: seq<GovVote>, vals: map<Address, Info>, v: Address): bool {
    v in vals && OwnVote(votes, vals, v) != []
  }

  /** A validator's tokens if it voted, otherwise what its delegators voted with. */
  function Expected(votes: seq<GovVote>, vals: map<Address, Info>): Address -> int {
    (v: Address) =>
      if Voted(votes, vals, v) then FromInt(vals[v].tokens) else Sum(Casts(votes, vals.Keys), PowerVia(vals, v))
  }

  function Slack(votes: seq<GovVote>, vals: map<Address, Info>): Address -> int {
    (v: Address) => if Voted(votes, vals, v) then Sum(Casts(votes, vals.Keys), CountVia(v)) + 1 else 0
  }

  lemma {:induction false} SumWithin<T>(s: seq<T>, f: T -> int, g: T -> int, slack: T -> int)
    requires forall x :: x in s ==> -slack(x) <= f(x) - g(x) <= slack(x)
    ensures -Sum(s, slack) <= Sum(s, f) - Sum(s, g) <= Sum(s, slack)
  {
    if s != [] {
      assert forall x :: x in s[1..] ==> x in s;
      SumWithin(s[1..], f, g, slack);
    }
  }

  ghost predicate FreshInfos(vals: map<Address, Info>) {
    forall v :: v in vals ==> vals[v].shares > 0 && vals[v].deductions == 0
  }

  /** The total the tally reports is the sum of what every validator and its delegators stand for. */
  lemma PowerConserved(votes: seq<GovVote>, vals: map<Address, Info>, total: Dec)
    requires FreshInfos(vals)
    requires total == Sum(Casts(votes, vals.Keys), CastPower(vals)) + SetSum(vals.Keys, Residual(votes, vals))
    ensures var slack := SetSum(vals.Keys, Slack(votes, vals));
            -slack <= total - SetSum(vals.Keys, Expected(votes, vals)) <= slack
  {
    var order, casts := Sorted(vals.Keys), Casts(votes, vals.Keys);
    SortedIsOrder(vals.Keys);
    OrderFacts(order, vals.Keys);
    CastsAreKnown(votes, vals.Keys);
    ByValidator(casts, vals, order);
    SumAdds(order, Through(casts, vals), Residual(votes, vals), Attributed(votes, vals));
    forall v | v in order
      ensures -Slack(votes, vals)(v) <= Attributed(votes, vals)(v) - Expected(votes, vals)(v) <= Slack(votes, vals)(v)
    {
      if Voted(votes, vals, v) { ValidatorConserved(votes, vals, v); }
    }
    SumWithin(order, Attributed(votes, vals), Expected(votes, vals), Slack(votes, vals));
  }

  // ---- results against the total

  function WeightIn(): ((Choice, Dec)) -> int {
    (o: (Choice, Dec)) => o.1
  }

  /** Weights of a vote add up to one. */
  ghost predicate AddsUpToOne(options: Options) {
    Sum(options, WeightIn()) == ONE
  }

  function Gains(options: Options, power: Dec): Dec {
    Gain(options, power, Yes) + Gain(options, power, Abstain) + Gain(options, power, No) + Gain(options, power, NoWithVeto)
  }

  lemma {:induction false} SpreadBound(options: Options, power: Dec)
    ensures var d := ONE * Gains(options, power) - power * Sum(options, WeightIn());
            -(HALF * |options|) <= d <= HALF * |options|
  {
    if options != [] {
      SpreadBound(options[1..], power);
      RoundError(power * options[0].1);
      assert power * (options[0].1 + Sum(options[1..], WeightIn())) == power * options[0].1 + power * Sum(options[1..], WeightIn());
    }
  }

  /** Spreading power over options that add up to one loses at most half a unit for each. */
  lemma SpreadConserved(options: Options, power: Dec)
    requires AddsUpToOne(options)
    ensures -|options| <= 2 * (Gains(options, power) - power) <= |options|
  {
    SpreadBound(options, power);
    assert ONE * Gains(options, power) - power * ONE == ONE * (Gains(options, power) - power);
  }

  function OptionsOfCast(): Cast -> int {
    (c: Cast) => |c.options|
  }

  function OwnOptions(votes: seq<GovVote>, vals: map<Address, Info>): Address -> int {
    (v: Address) => if v in vals then |OwnVote(votes, vals, v)| else 0
  }

  /** Four sums of gains are, but for the rounding of each gain, the sum of the powers spread. */
  lemma {:induction false} GainsWithin<T>(s: seq<T>, yes: T -> int, abstain: T -> int, no: T -> int, veto: T -> int,
                                          power: T -> int, slack: T -> int)
    requires forall x :: x in s ==> 0 - slack(x) <= 2 * (yes(x) + abstain(x) + no(x) + veto(x) - power(x)) <= slack(x)
    ensures 0 - Sum(s, slack) <= 2 * (Sum(s, yes) + Sum(s, abstain) + Sum(s, no) + Sum(s, veto) - Sum(s, power)) <= Sum(s, slack)
  {
    if s != [] {
      assert forall x :: x in s[1..] ==> x in s;
      GainsWithin(s[1..], yes, abstain, no, veto, power, slack);
    }
  }

  ghost predicate WholeVotes(votes: seq<GovVote>) {
    forall v :: v in votes ==> AddsUpToOne(v.options)
  }

  lemma {:induction false} DelegationCastsOptions(ds: seq<(Address, Dec)>, options: Options, vals: set<Address>)
    ensures forall c :: c in DelegationCasts(ds, options, vals) ==> c.options == options
  {
    if ds != [] { DelegationCastsOptions(ds[..|ds| - 1], options, vals); }
  }

  lemma {:induction false} CastsAreWhole(votes: seq<GovVote>, vals: set<Address>)
    requires WholeVotes(votes)
    ensures forall c :: c in Casts(votes, vals) ==> AddsUpToOne(c.options)
  {
    if votes != [] {
      var n := |votes| - 1;
      assert votes[n] in votes && forall v :: v in votes[..n] ==> v in votes;
      CastsAreWhole(votes[..n], vals);
      DelegationCastsOptions(votes[n].delegations, votes[n].options, vals);
    }
  }

  lemma {:induction false} OwnVoteIsWhole(votes: seq<GovVote>, vals: map<Address, Info>, v: Address)
    requires WholeVotes(votes) && v in vals && vals[v].vote == []
    ensures OwnVote(votes, vals, v) == [] || AddsUpToOne(OwnVote(votes, vals, v))
  {
    if votes != [] {
      var n := |votes| - 1;
      assert votes[n] in votes && forall w :: w in votes[..n] ==> w in votes;
      OwnVoteIsWhole(votes[..n], vals, v);
    }
  }

  lemma CastGainsWithin(votes: seq<GovVote>, vals: map<Address, Info>)
    requires WholeVotes(votes)
    ensures var casts := Casts(votes, vals.Keys);
            var gained := Sum(casts, CastGain(vals, Yes)) + Sum(casts, CastGain(vals, Abstain))
                        + Sum(casts, CastGain(vals, No)) + Sum(casts, CastGain(vals, NoWithVeto));
            0 - Sum(casts, OptionsOfCast()) <= 2 * (gained - Sum(casts, CastPower(vals))) <= Sum(casts, OptionsOfCast())
  {
    var casts := Casts(votes, vals.Keys);
    CastsAreWhole(votes, vals.Keys);
    forall c | c in casts
      ensures 0 - |c.options| <= 2 * (Gains(c.options, PowerOfCast(vals, c)) - PowerOfCast(vals, c)) <= |c.options|
    {
      SpreadConserved(c.options, PowerOfCast(vals, c));
    }
    GainsWithin(casts, CastGain(vals, Yes), CastGain(vals, Abstain), CastGain(vals, No), CastGain(vals, NoWithVeto),
                CastPower(vals), OptionsOfCast());
  }

  lemma ResidualGainsWithin(votes: seq<GovVote>, vals: map<Address, Info>, order: seq<Address>)
    requires WholeVotes(votes) && forall v :: v in vals ==> vals[v].vote == []
    requires forall v :: v in order ==> v in vals
    ensures var gained := Sum(order, ResidualGain(votes, vals, Yes)) + Sum(order, ResidualGain(votes, vals, Abstain))
                        + Sum(order, ResidualGain(votes, vals, No)) + Sum(order, ResidualGain(votes, vals, NoWithVeto));
            0 - Sum(order, OwnOptions(votes, vals)) <= 2 * (gained - Sum(order, Residual(votes, vals))) <= Sum(order, OwnOptions(votes, vals))
  {
    forall v | v in order
      ensures var o, r := OwnVote(votes, vals, v), ResidualOf(votes, vals, v);
              0 - |o| <= 2 * (Gains(o, r) - r) <= |o|
    {
      OwnVoteIsWhole(votes, vals, v);
      if OwnVote(votes, vals, v) != [] { SpreadConserved(OwnVote(votes, vals, v), ResidualOf(votes, vals, v)); }
    }
    GainsWithin(order, ResidualGain(votes, vals, Yes), ResidualGain(votes, vals, Abstain), ResidualGain(votes, vals, No),
                ResidualGain(votes, vals, NoWithVeto), Residual(votes, vals), OwnOptions(votes, vals));
  }

  /** The four results add up to the total, but for half a unit for each option of each vote counted. */
  lemma ResultsConserved(votes: seq<GovVote>, vals: map<Address, Info>, total: Dec, results: Results)
    requires WholeVotes(votes) && forall v :: v in vals ==> vals[v].vote == []
    requires total == Sum(Casts(votes, vals.Keys), CastPower(vals)) + SetSum(vals.Keys, Residual(votes, vals))
    requires Complete(results)
    requires forall c :: results[c] == Sum(Casts(votes, vals.Keys), CastGain(vals, c)) + SetSum(vals.Keys, ResidualGain(votes, vals, c))
    ensures var slack := Sum(Casts(votes, vals.Keys), OptionsOfCast()) + SetSum(vals.Keys, OwnOptions(votes, vals));
            0 - slack <= 2 * (results[Yes] + results[Abstain] + results[No] + results[NoWithVeto] - total) <= slack
  {
    SortedIsOrder(vals.Keys);
    OrderFacts(Sorted(vals.Keys), vals.Keys);
    CastGainsWithin(votes, vals);
    ResidualGainsWithin(votes, vals, Sorted(vals.Keys));
  }
}
