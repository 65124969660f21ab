/** Staking of DODx for governance: every stake is backed by coins the module holds. */
module DodxStaking {
  import opened Bytes
  import opened Sums

  type Address = Bytes

  const UDODX := "udodx"

  /** The first amount of more than 100 bits. */
  const LIMIT: int := 0x10_0000_0000_0000_0000_0000_0000

  datatype Coin = Coin(denom: string, amount: int)

  datatype Error = InvalidStakeDenom | InvalidAmount | InsufficientStake | InsufficientFunds

  function Validate(c: Coin): Option<Error> {
    if c.denom != UDODX then Some(InvalidStakeDenom)
    else if c.amount <= 0 || c.amount >= LIMIT then Some(InvalidAmount)
    else None
  }

  // ---- stakes

  /** Zero amounts are deleted and not stored. */
  function WithAmount<K>(stakes: map<K, int>, a: K, amount: int): map<K, int> {
    if amount == 0 then stakes - {a} else stakes[a := amount]
  }

  ghost predicate AllPositive<K(!new)>(stakes: map<K, int>) {
    forall a :: a in stakes ==> stakes[a] > 0
  }

  lemma StakedWithAmount<K(!new)>(stakes: map<K, int>, a: K, amount: int)
    ensures MapSum(WithAmount(stakes, a, amount)) == MapSum(stakes) - AmountOf(stakes, a) + amount
    ensures AllPositive(stakes) && amount >= 0 ==> AllPositive(WithAmount(stakes, a, amount))
  {
    if amount == 0 { MapSumWithout(stakes, a); } else { MapSumWith(stakes, a, amount); }
  }

  lemma StakeAtMostTotal<K(!new)>(stakes: map<K, int>, a: K)
    requires AllPositive(stakes)
    ensures 0 <= AmountOf(stakes, a) <= MapSum(stakes)
  {
    MapSumWithout(stakes, a);
    MapSumNonNegative(stakes - {a});
  }

  /** One account's coins move between its balance and its stake; no other account is touched. */
  ghost predicate Moved<K(!new)>(a: K, balances: map<K, int>, stakes: map<K, int>, balances': map<K, int>, stakes': map<K, int>) {
    forall b :: AmountOf(balances', b) + AmountOf(stakes', b) == AmountOf(balances, b) + AmountOf(stakes, b)
                && (b != a ==> AmountOf(stakes', b) == AmountOf(stakes, b))
  }

  lemma MoveIsMoved<K(!new)>(a: K, x: int, balances: map<K, int>, stakes: map<K, int>)
    ensures Moved(a, balances, stakes, balances[a := AmountOf(balances, a) - x], WithAmount(stakes, a, AmountOf(stakes, a) + x))
    ensures AmountOf(WithAmount(stakes, a, AmountOf(stakes, a) + x), a) == AmountOf(stakes, a) + x
  {
  }

  // ---- the keeper

  /** The module's store and the balances of accounts and of the module itself. */
  class Keeper {
    var stakes: map<Address, int>
    var total: int
    var enabled: bool
    var balances: map<Address, int>
    var held: int

    /** Stored stakes are positive, add up to the total, and are covered by what the module holds. */
    ghost predicate Valid()
      reads this
    {
      AllPositive(stakes) && total == MapSum(stakes) && total <= held
    }

    constructor (balances: map<Address, int>, held: nat)
      ensures Valid() && stakes == map[] && total == 0 && !enabled
      ensures this.balances == balances && this.held == held
    {
      this.stakes, this.total, this.enabled, this.balances, this.held := map[], 0, false, balances, held;
    }

    method AddStake(a: Address, amount: int)
      modifies `stakes, `total
      ensures stakes == WithAmount(old(stakes), a, AmountOf(old(stakes), a) + amount)
      ensures total == old(total) + amount
    {
      stakes := WithAmount(stakes, a, AmountOf(stakes, a) + amount);
      total := total + amount;
    }

    method RemoveStake(a: Address, amount: int) returns (e: Option<Error>)
      modifies `stakes, `total
      ensures e == if AmountOf(old(stakes), a) < amount then Some(InsufficientStake) else None
      ensures e.Some? ==> unchanged(`stakes, `total)
      ensures e.None? ==> stakes == WithAmount(old(stakes), a, AmountOf(old(stakes), a) - amount)
                          && total == old(total) - amount
    {
      var current := AmountOf(stakes, a);
      if current < amount {
        return Some(InsufficientStake);
      }
      stakes := WithAmount(stakes, a, current - amount);
      total := total - amount;
      return None;
    }

    /** Staking moves coins of the staker to the module and records as many. */
    method Stake(a: Address, coin: Coin) returns (e: Option<Error>)
      requires Valid()
      modifies this
      ensures Valid() && enabled == old(enabled)
      ensures e == if coin.denom != "udodx" then Some(InvalidStakeDenom)
                   else if coin.amount <= 0 || coin.amount >= 0x10_0000_0000_0000_0000_0000_0000 then Some(InvalidAmount)
                   else if AmountOf(old(balances), a) < coin.amount then Some(InsufficientFunds) else None
      ensures e.Some? ==> unchanged(this)
      ensures e.None? ==> AmountOf(stakes, a) == AmountOf(old(stakes), a) + coin.amount
      ensures e.None? ==> total == old(total) + coin.amount && held == old(held) + coin.amount
      ensures Moved(a, old(balances), old(stakes), balances, stakes)
    {
      var invalid := Validate(coin);
      if invalid.Some? {
        return invalid;
      }
      if AmountOf(balances, a) < coin.amount {
        return Some(InsufficientFunds);
      }
      StakeAtMostTotal(stakes, a);
      StakedWithAmount(stakes, a, AmountOf(stakes, a) + coin.amount);
      MoveIsMoved(a, coin.amount, balances, stakes);
      balances := balances[a := AmountOf(balances, a) - coin.amount];
      held := held + coin.amount;
      AddStake(a, coin.amount);
      return None;
    }

    /** Unstaking fails only for want of stake: the module can always pay. */
    method Unstake(a: Address, coin: Coin) returns (e: Option<Error>)
      requires Valid()
      modifies this
      ensures Valid() && enabled == old(enabled)
      ensures e == if coin.denom != "udodx" then Some(InvalidStakeDenom)
                   else if coin.amount <= 0 || coin.amount >= 0x10_0000_0000_0000_0000_0000_0000 then Some(InvalidAmount)
                   else if AmountOf(old(stakes), a) < coin.amount then Some(InsufficientStake) else None
      ensures e.Some? ==> unchanged(this)
      ensures e.None? ==> AmountOf(stakes, a) == AmountOf(old(stakes), a) - coin.amount
      ensures e.None? ==> total == old(total) - coin.amount && held == old(held) - coin.amount
      ensures Moved(a, old(balances), old(stakes), balances, stakes)
    {
      var invalid := Validate(coin);
      if invalid.Some? {
        return invalid;
      }
      StakeAtMostTotal(stakes, a);
      StakedWithAmount(stakes, a, AmountOf(stakes, a) - coin.amount);
      MoveIsMoved(a, 0 - coin.amount, balances, stakes);
      e := RemoveStake(a, coin.amount);
      if e.Some? {
        return;
      }
      if held < coin.amount {
        return Some(InsufficientFunds);
      }
      held := held - coin.amount;
      balances := balances[a := AmountOf(balances, a) + coin.amount];
    }

    method InitGenesis(records: seq<(Address, int)>, governance: bool)
      requires stakes == map[] && total == 0
      modifies `stakes, `total, `enabled
      ensures stakes == StakesOf(records) && total == Recorded(records) && enabled == governance
      ensures Positive(records) && Recorded(records) <= held ==> (Valid() <==> Distinct(records))
    {
      if Positive(records) { GenesisConsistent(records); }
      for i := 0 to |records|
        invariant stakes == StakesOf(records[..i]) && total == Recorded(records[..i])
      {
        assert records[..i + 1][..i] == records[..i];
        stakes := WithAmount(stakes, records[i].0, records[i].1);
        total := total + records[i].1;
      }
      assert records[..|records|] == records;
      enabled := governance;
    }

    /** The stakes in the order the store iterates over them. */
    method ExportGenesis(keys: seq<Address>) returns (records: seq<(Address, int)>, governance: bool)
      requires keys == Sorted(stakes.Keys)
      ensures Exported(stakes, keys, records) && governance == enabled
    {
      records := [];
      for i := 0 to |keys|
        invariant |records| == i
        invariant forall j :: 0 <= j < i ==> records[j] == (keys[j], AmountOf(stakes, keys[j]))
      {
        records := records + [(keys[i], AmountOf(stakes, keys[i]))];
      }
      governance := enabled;
    }
  }

  // ---- genesis

  /** The stakes after storing the records one by one. */
  function StakesOf<K>(records: seq<(K, int)>): map<K, int> {
    if records == [] then map[]
    else
      var n := |records| - 1;
      WithAmount(StakesOf(records[..n]), records[n].0, records[n].1)
  }

  /** The amounts of all records together. */
  function Recorded<K>(records: seq<(K, int)>): int {
    if records == [] then 0
    else
      var n := |records| - 1;
      Recorded(records[..n]) + records[n].1
  }

  ghost predicate Distinct<K>(records: seq<(K, int)>) {
    forall i, j :: 0 <= i < j < |records| ==> records[i].0 != records[j].0
  }

  ghost predicate Positive<K>(records: seq<(K, int)>) {
    forall i :: 0 <= i < |records| ==> records[i].1 > 0
  }

  lemma {:induction false} StakesOfHolds<K(!new)>(records: seq<(K, int)>, a: K)
    requires Positive(records)
    ensures a in StakesOf(records) <==> exists i :: 0 <= i < |records| && records[i].0 == a
    ensures a in StakesOf(records) ==> StakesOf(records)[a] > 0
  {
    if records != [] {
      var n := |records| - 1;
      StakesOfHolds(records[..n], a);
      if a == records[n].0 { assert records[n].0 == a; }
      else if i :| 0 <= i < |records| && records[i].0 == a { assert records[..n][i].0 == a; }
    }
  }

  /** The total recorded at genesis is the sum of the stakes exactly when no account is listed twice. */
  lemma {:induction false} GenesisTotalIff<K(!new)>(records: seq<(K, int)>)
    requires Positive(records)
    ensures MapSum(StakesOf(records)) <= Recorded(records)
    ensures MapSum(StakesOf(records)) == Recorded(records) <==> Distinct(records)
  {
    if records != [] {
      var n := |records| - 1;
      var rest, a := StakesOf(records[..n]), records[n].0;
      GenesisTotalIff(records[..n]);
      StakesOfHolds(records[..n], a);
      StakedWithAmount(rest, a, records[n].1);
      if i :| 0 <= i < n && records[..n][i].0 == a {
        assert records[i].0 == records[n].0;
      } else {
        assert Distinct(records) <==> Distinct(records[..n]) by {
          assert forall i :: 0 <= i < n ==> records[..n][i].0 != a;
        }
      }
    }
  }

  lemma GenesisConsistent<K(!new)>(records: seq<(K, int)>)
    requires Positive(records)
    ensures AllPositive(StakesOf(records)) && (MapSum(StakesOf(records)) == Recorded(records) <==> Distinct(records))
  {
    forall a | a in StakesOf(records) ensures StakesOf(records)[a] > 0 { StakesOfHolds(records, a); }
    GenesisTotalIff(records);
  }

  ghost predicate Exported<K>(stakes: map<K, int>, keys: seq<K>, records: seq<(K, int)>) {
    && |records| == |keys|
    && forall i :: 0 <= i < |records| ==> records[i] == (keys[i], AmountOf(stakes, keys[i]))
  }

  lemma {:induction false} StakesOfValue<K(!new)>(records: seq<(K, int)>, i: nat)
    requires Positive(records) && Distinct(records) && i < |records|
    ensures AmountOf(StakesOf(records), records[i].0) == records[i].1
  {
    var n := |records| - 1;
    if i < n { StakesOfValue(records[..n], i); }
  }

  /** Importing what was exported restores every stake and a total equal to their sum. */
  lemma GenesisRoundTrip<K(!new)>(stakes: map<K, int>, keys: seq<K>, records: seq<(K, int)>)
    requires Exported(stakes, keys, records) && AllPositive(stakes)
    requires (forall k :: k in keys <==> k in stakes) && NoRepeats(keys)
    ensures StakesOf(records) == stakes && Recorded(records) == MapSum(stakes)
  {
    forall a ensures a in StakesOf(records) <==> a in stakes {
      StakesOfHolds(records, a);
      if a in keys {
        var i :| 0 <= i < |keys| && keys[i] == a;
        assert records[i].0 == a;
      }
    }
    forall a | a in stakes ensures StakesOf(records)[a] == stakes[a] {
      var i :| 0 <= i < |keys| && keys[i] == a;
      StakesOfValue(records, i);
    }
    GenesisTotalIff(records);
  }

  // ---- governance turnout

  ghost predicate NoRepeats<K>(voters: seq<K>) {
    forall i, j :: 0 <= i < j < |voters| ==> voters[i] != voters[j]
  }

  function Amounts<K>(amounts: map<K, int>): K -> int {
    (a: K) => AmountOf(amounts, a)
  }

  /** Distinct voters never hold more together than is staked. */
  lemma {:induction false} TurnoutAtMostStaked<K(!new)>(stakes: map<K, int>, voters: seq<K>)
    requires NoRepeats(voters) && AllPositive(stakes)
    ensures Sum(voters, Amounts(stakes)) <= MapSum(stakes)
  {
    if voters == [] {
      MapSumNonNegative(stakes);
    } else {
      var rest := stakes - {voters[0]};
      MapSumWithout(stakes, voters[0]);
      TurnoutAtMostStaked(rest, voters[1..]);
      SumAgrees(voters[1..], Amounts(stakes), Amounts(rest));
    }
  }

  /** Distinct voters among whom is everybody with a stake hold all of it. */
  lemma {:induction false} FullTurnoutIsStaked<K(!new)>(stakes: map<K, int>, voters: seq<K>)
    requires NoRepeats(voters) && AllPositive(stakes) && forall a :: a in stakes ==> a in voters
    ensures Sum(voters, Amounts(stakes)) == MapSum(stakes)
  {
    if voters == [] {
      assert stakes == map[];
    } else {
      var rest := stakes - {voters[0]};
      MapSumWithout(stakes, voters[0]);
      assert voters == [voters[0]] + voters[1..];
      FullTurnoutIsStaked(rest, voters[1..]);
      SumAgrees(voters[1..], Amounts(stakes), Amounts(rest));
    }
  }
}
