/** One validator, one vote: the validator updates handed to consensus. */
module EqualPower {
  import opened Bytes

  const EQUAL_POWER: int := 1

  datatype Update<K> = Update(key: K, power: int)

  // ---- applying updates

  /** What a list of updates says about a key, the last entry counting. */
  function Lookup<K(==)>(us: seq<Update<K>>, k: K): Option<int> {
    if us == [] then None
    else
      var n := |us| - 1;
      if us[n].key == k then Some(us[n].power) else Lookup(us[..n], k)
  }

  /** Consensus takes the updates one by one: power zero removes a validator, any other sets it. */
  function Apply<K>(set0: map<K, int>, us: seq<Update<K>>): map<K, int> {
    if us == [] then set0
    else
      var n := |us| - 1;
      var before := Apply(set0, us[..n]);
      if us[n].power == 0 then before - {us[n].key} else before[us[n].key := us[n].power]
  }

  /** Consensus refuses repeated keys, negative powers, and the removal of a validator it does not have. */
  ghost predicate Acceptable<K(!new)>(set0: map<K, int>, us: seq<Update<K>>) {
    && (forall i, j :: 0 <= i < j < |us| ==> us[i].key != us[j].key)
    && forall i :: 0 <= i < |us| ==> us[i].power >= 0 && (us[i].power == 0 ==> us[i].key in set0)
  }

  /** A validator's power, none if it is not in the set. */
  function At<K>(set0: map<K, int>, k: K): Option<int> {
    if k in set0 then Some(set0[k]) else None
  }

  function Overridden(update: Option<int>, before: Option<int>): Option<int> {
    match update
    case None => before
    case Some(p) => if p == 0 then None else Some(p)
  }

  lemma {:induction false} ApplyAt<K(!new)>(set0: map<K, int>, us: seq<Update<K>>, k: K)
    ensures At(Apply(set0, us), k) == Overridden(Lookup(us, k), At(set0, k))
  {
    if us != [] { ApplyAt(set0, us[..|us| - 1], k); }
  }

  lemma {:induction false} LookupSplit<K(!new)>(a: seq<Update<K>>, b: seq<Update<K>>, k: K)
    ensures Lookup(a + b, k) == if Lookup(b, k).Some? then Lookup(b, k) else Lookup(a, k)
  {
    if b == [] {
      assert a + b == a;
    } else {
      assert (a + b)[..|a + b| - 1] == a + b[..|b| - 1];
      LookupSplit(a, b[..|b| - 1], k);
    }
  }

  lemma SameAt<K(!new)>(a: map<K, int>, b: map<K, int>)
    requires forall k :: At(a, k) == At(b, k)
    ensures a == b
  {
    forall k ensures k in a <==> k in b { assert At(a, k) == At(b, k); }
    forall k | k in a ensures a[k] == b[k] { assert At(a, k) == At(b, k); }
  }

  // ---- the lists the module makes

  function Equalized<K>(u: Update<K>): Update<K> {
    if u.power > 0 then u.(power := EQUAL_POWER) else u
  }

  /** The staking updates with every positive power made equal. */
  function Compact<K>(us: seq<Update<K>>): seq<Update<K>> {
    if us == [] then [] else Compact(us[..|us| - 1]) + [Equalized(us[|us| - 1])]
  }

  function Removals<K>(us: seq<Update<K>>): seq<Update<K>> {
    if us == [] then []
    else
      var n := |us| - 1;
      if us[n].power == 0 then Removals(us[..n]) + [us[n]] else Removals(us[..n])
  }

  function ActiveUpdates<K>(active: seq<K>): seq<Update<K>> {
    if active == [] then []
    else
      var n := |active| - 1;
      ActiveUpdates(active[..n]) + [Update(active[n], EQUAL_POWER)]
  }

  /** The removals followed by every active validator. */
  function Full<K>(us: seq<Update<K>>, active: seq<K>): seq<Update<K>> {
    Removals(us) + ActiveUpdates(active)
  }

  class Module<K(==)> {
    var stored: seq<Update<K>>

    constructor ()
      ensures stored == []
    {
      stored := [];
    }

    /**
     * The early return tells consensus nothing other than the full path would; it only leaves the
     * stored list alone.
     */
    method EndBlock(us: seq<Update<K>>, active: seq<K>, optimized: bool) returns (updates: seq<Update<K>>)
      modifies this
      ensures updates == Compact(us)
      ensures stored == if optimized && us == [] && old(stored) != [] then old(stored) else Full(us, active)
    {
      var storedUpdates := FullUpdates(us, active);
      if optimized && |us| == 0 {
        if |stored| > 0 {
          return [];
        }
      }
      stored := storedUpdates;
      updates := CompactUpdates(us);
    }
  }

  method FullUpdates<K(==)>(us: seq<Update<K>>, active: seq<K>) returns (updates: seq<Update<K>>)
    ensures updates == Full(us, active)
  {
    updates := [];
    for i := 0 to |us|
      invariant updates == Removals(us[..i])
    {
      assert us[..i + 1][..i] == us[..i];
      if us[i].power == 0 {
        updates := updates + [us[i]];
      }
    }
    assert us[..|us|] == us;
    for i := 0 to |active|
      invariant updates == Removals(us) + ActiveUpdates(active[..i])
    {
      assert active[..i + 1][..i] == active[..i];
      updates := updates + [Update(active[i], EQUAL_POWER)];
    }
    assert active[..|active|] == active;
  }

  method CompactUpdates<K>(us: seq<Update<K>>) returns (updates: seq<Update<K>>)
    ensures updates == Compact(us)
  {
    updates := [];
    for i := 0 to |us|
      invariant updates == Compact(us[..i])
    {
      assert us[..i + 1][..i] == us[..i];
      updates := updates + [Equalized(us[i])];
    }
    assert us[..|us|] == us;
  }

  lemma {:induction false} CompactLookup<K(!new)>(us: seq<Update<K>>, k: K)
    requires forall i :: 0 <= i < |us| ==> us[i].power >= 0
    ensures Lookup(Compact(us), k) == match Lookup(us, k)
                                      case None => None
                                      case Some(p) => Some(if p == 0 then 0 else EQUAL_POWER)
  {
    if us != [] {
      var n := |us| - 1;
      CompactLookup(us[..n], k);
      assert Compact(us)[..|Compact(us)| - 1] == Compact(us[..n]);
    }
  }

  lemma {:induction false} CompactShape<K(!new)>(us: seq<Update<K>>)
    ensures |Compact(us)| == |us| && forall i :: 0 <= i < |us| ==> Compact(us)[i] == Equalized(us[i])
  {
    if us != [] { CompactShape(us[..|us| - 1]); }
  }

  // ---- blocks

  /** The staking module's updates are the difference between two active sets. */
  ghost predicate IsDiff<K(!new)>(us: seq<Update<K>>, prev: map<K, int>, next: map<K, int>) {
    && (forall i, j :: 0 <= i < j < |us| ==> us[i].key != us[j].key)
    && (forall i :: 0 <= i < |us| ==>
          us[i].power >= 0 && (if us[i].power == 0 then us[i].key in prev && us[i].key !in next
                               else us[i].key in next && next[us[i].key] == us[i].power))
    && forall k :: At(next, k) == Overridden(Lookup(us, k), At(prev, k))
  }

  /** Consensus accepts the compact list and ends up with the active validators. */
  lemma BlockKeepsActive<K(!new)>(us: seq<Update<K>>, prev: map<K, int>, next: map<K, int>, consensus: map<K, int>)
    requires IsDiff(us, prev, next) && consensus.Keys == prev.Keys
    ensures Acceptable(consensus, Compact(us))
    ensures Apply(consensus, Compact(us)).Keys == next.Keys
    ensures forall k :: k in next ==> Apply(consensus, Compact(us))[k] == (if Lookup(us, k).Some? then EQUAL_POWER else consensus[k])
  {
    CompactShape(us);
    var after := Apply(consensus, Compact(us));
    forall k
      ensures At(after, k) == match Lookup(us, k)
                              case None => At(consensus, k)
                              case Some(p) => if p == 0 then None else Some(EQUAL_POWER)
      ensures k in next <==> k in after
    {
      ApplyAt(consensus, Compact(us), k);
      CompactLookup(us, k);
      assert At(next, k) == Overridden(Lookup(us, k), At(prev, k));
    }
  }

  lemma {:induction false} ActiveLookup<K(!new)>(active: seq<K>, k: K)
    ensures Lookup(ActiveUpdates(active), k) == if k in active then Some(EQUAL_POWER) else None
  {
    if active != [] {
      var n := |active| - 1;
      ActiveLookup(active[..n], k);
      assert ActiveUpdates(active)[..|ActiveUpdates(active)| - 1] == ActiveUpdates(active[..n]);
      assert active == active[..n] + [active[n]];
    }
  }

  lemma {:induction false} RemovalsLookup<K(!new)>(us: seq<Update<K>>, k: K)
    requires forall i, j :: 0 <= i < j < |us| ==> us[i].key != us[j].key
    ensures Lookup(Removals(us), k) == if Lookup(us, k) == Some(0) then Some(0) else None
    ensures Lookup(us, k).None? <==> forall i :: 0 <= i < |us| ==> us[i].key != k
  {
    if us != [] {
      var n := |us| - 1;
      RemovalsLookup(us[..n], k);
      if us[n].power == 0 {
        assert Removals(us)[..|Removals(us)| - 1] == Removals(us[..n]);
      }
      if forall i :: 0 <= i < |us| ==> us[i].key != k {
        assert forall i :: 0 <= i < n ==> us[..n][i].key != k;
      } else if us[n].key != k {
        var i :| 0 <= i < |us| && us[i].key == k;
        assert us[..n][i].key == k;
      } else {
        assert forall i :: 0 <= i < n ==> us[..n][i].key != k;
      }
    }
  }

  lemma FullLookup<K(!new)>(us: seq<Update<K>>, active: seq<K>, k: K)
    requires forall i, j :: 0 <= i < j < |us| ==> us[i].key != us[j].key
    ensures Lookup(Full(us, active), k) == if k in active then Some(EQUAL_POWER)
                                           else if Lookup(us, k) == Some(0) then Some(0) else None
  {
    LookupSplit(Removals(us), ActiveUpdates(active), k);
    ActiveLookup(active, k);
    RemovalsLookup(us, k);
  }

  /** The list as it used to be handed over, applied to whatever powers there were, makes them all equal. */
  lemma FullListEqualizes<K(!new)>(us: seq<Update<K>>, prev: map<K, int>, next: map<K, int>, consensus: map<K, int>, active: seq<K>)
    requires IsDiff(us, prev, next) && consensus.Keys == prev.Keys && forall k :: k in active <==> k in next
    ensures Apply(consensus, Full(us, active)) == map k | k in next :: EQUAL_POWER
  {
    var after, equal := Apply(consensus, Full(us, active)), map k | k in next :: EQUAL_POWER;
    forall k ensures At(after, k) == At(equal, k) {
      ApplyAt(consensus, Full(us, active), k);
      FullLookup(us, active, k);
      assert At(next, k) == Overridden(Lookup(us, k), At(prev, k));
    }
    SameAt(after, equal);
  }

  // ---- runs

  datatype Block<K> = Block(us: seq<Update<K>>, next: map<K, int>, active: seq<K>, optimized: bool)

  function ActiveAfter<K>(start: map<K, int>, blocks: seq<Block<K>>): map<K, int> {
    if blocks == [] then start else blocks[|blocks| - 1].next
  }

  /** Each block's updates lead from the active set before it to the one after it. */
  ghost predicate IsRun<K(!new)>(start: map<K, int>, blocks: seq<Block<K>>) {
    blocks == [] ||
    var n := |blocks| - 1;
    && IsRun(start, blocks[..n])
    && IsDiff(blocks[n].us, ActiveAfter(start, blocks[..n]), blocks[n].next)
    && forall k :: k in blocks[n].active <==> k in blocks[n].next
  }

  function ConsensusAfter<K>(consensus: map<K, int>, blocks: seq<Block<K>>): map<K, int> {
    if blocks == [] then consensus
    else
      var n := |blocks| - 1;
      Apply(ConsensusAfter(consensus, blocks[..n]), Compact(blocks[n].us))
  }

  ghost predicate Updated<K(!new)>(blocks: seq<Block<K>>, k: K) {
    exists i :: 0 <= i < |blocks| && Lookup(blocks[i].us, k).Some? && Lookup(blocks[i].us, k).value > 0
  }

  lemma UpdatedNext<K(!new)>(blocks: seq<Block<K>>, k: K)
    requires blocks != []
    ensures var n := |blocks| - 1;
            Updated(blocks, k) <==> Updated(blocks[..n], k) || (Lookup(blocks[n].us, k).Some? && Lookup(blocks[n].us, k).value > 0)
  {
    var n := |blocks| - 1;
    if i :| 0 <= i < n && Lookup(blocks[i].us, k).Some? && Lookup(blocks[i].us, k).value > 0 {
      assert blocks[..n][i] == blocks[i];
    }
    if i :| 0 <= i < n && Lookup(blocks[..n][i].us, k).Some? && Lookup(blocks[..n][i].us, k).value > 0 {
      assert blocks[..n][i] == blocks[i];
    }
  }

  lemma {:induction false} RunKeepsActive<K(!new)>(start: map<K, int>, consensus: map<K, int>, blocks: seq<Block<K>>)
    requires IsRun(start, blocks) && consensus.Keys == start.Keys
    ensures ConsensusAfter(consensus, blocks).Keys == ActiveAfter(start, blocks).Keys
  {
    if blocks != [] {
      var n := |blocks| - 1;
      RunKeepsActive(start, consensus, blocks[..n]);
      BlockKeepsActive(blocks[n].us, ActiveAfter(start, blocks[..n]), blocks[n].next, ConsensusAfter(consensus, blocks[..n]));
    }
  }

  /** In one block an active validator gets the equal power or keeps the power it had. */
  lemma BlockPower<K(!new)>(us: seq<Update<K>>, prev: map<K, int>, next: map<K, int>, before: map<K, int>, k: K)
    requires IsDiff(us, prev, next) && before.Keys == prev.Keys && k in next
    ensures k in Apply(before, Compact(us))
    ensures if Lookup(us, k).Some? then Lookup(us, k).value > 0 && Apply(before, Compact(us))[k] == EQUAL_POWER
            else k in before && Apply(before, Compact(us))[k] == before[k]
  {
    BlockKeepsActive(us, prev, next, before);
    assert At(next, k) == Overridden(Lookup(us, k), At(prev, k));
    if Lookup(us, k).Some? { DiffPowers(us, prev, next, k); }
  }

  /**
   * Over every run consensus and staking agree on who the validators are. A validator has the equal
   * power exactly if it was updated in some block or had that power from the start: one whose stake
   * never changes keeps the power it had at genesis.
   */
  lemma {:induction false} RunEqualIff<K(!new)>(start: map<K, int>, consensus: map<K, int>, blocks: seq<Block<K>>, k: K)
    requires IsRun(start, blocks) && consensus.Keys == start.Keys && k in ActiveAfter(start, blocks)
    ensures ConsensusAfter(consensus, blocks).Keys == ActiveAfter(start, blocks).Keys
    ensures ConsensusAfter(consensus, blocks)[k] == 1
       <==> Updated(blocks, k) || (k in consensus && consensus[k] == 1)
  {
    RunKeepsActive(start, consensus, blocks);
    if blocks != [] {
      var n := |blocks| - 1;
      RunKeepsActive(start, consensus, blocks[..n]);
      UpdatedNext(blocks, k);
      BlockPower(blocks[n].us, ActiveAfter(start, blocks[..n]), blocks[n].next, ConsensusAfter(consensus, blocks[..n]), k);
      if Lookup(blocks[n].us, k).None? { RunEqualIff(start, consensus, blocks[..n], k); }
    }
  }

  /** An active validator that was never updated has been there from the start. */
  lemma {:induction false} UpdatedOrThereFromStart<K(!new)>(start: map<K, int>, blocks: seq<Block<K>>, k: K)
    requires IsRun(start, blocks) && k in ActiveAfter(start, blocks)
    ensures Updated(blocks, k) || k in start
  {
    if blocks != [] {
      var n := |blocks| - 1;
      var prev := ActiveAfter(start, blocks[..n]);
      UpdatedNext(blocks, k);
      BlockPower(blocks[n].us, prev, blocks[n].next, prev, k);
      if Lookup(blocks[n].us, k).None? { UpdatedOrThereFromStart(start, blocks[..n], k); }
    }
  }

  /** If all powers start equal, then after every run the consensus set is the active set at equal power. */
  lemma RunKeepsEqual<K(!new)>(start: map<K, int>, consensus: map<K, int>, blocks: seq<Block<K>>)
    requires IsRun(start, blocks) && consensus.Keys == start.Keys
    requires forall k :: k in consensus ==> consensus[k] == 1
    ensures ConsensusAfter(consensus, blocks) == map k | k in ActiveAfter(start, blocks) :: 1
  {
    RunKeepsActive(start, consensus, blocks);
    forall k | k in ActiveAfter(start, blocks) ensures ConsensusAfter(consensus, blocks)[k] == 1 {
      UpdatedOrThereFromStart(start, blocks, k);
      RunEqualIff(start, consensus, blocks, k);
    }
  }

  /** A validator with power five at genesis keeps it through a block without updates. */
  lemma GenesisPowerExample()
    ensures var start := map[0 := 5];
            var blocks := [Block([], start, [0], false)];
            IsRun(start, blocks) && ConsensusAfter(start, blocks) == start && start[0] != EQUAL_POWER
  {
    var start: map<int, int> := map[0 := 5];
    var b := Block([], start, [0], false);
    var blocks := [b];
    var none: seq<Update<int>> := [];
    assert blocks[..0] == [] && IsRun(start, blocks[..0]) && ActiveAfter(start, blocks[..0]) == start;
    assert forall k :: Lookup(none, k) == None;
    assert IsDiff(none, start, start);
    assert Compact<int>([]) == [];
  }

  lemma DiffPowers<K(!new)>(us: seq<Update<K>>, prev: map<K, int>, next: map<K, int>, k: K)
    requires IsDiff(us, prev, next) && k in next && Lookup(us, k).Some?
    ensures Lookup(us, k).value > 0
  {
    LookupIsEntry(us, k);
  }

  lemma {:induction false} LookupIsEntry<K(!new)>(us: seq<Update<K>>, k: K)
    requires Lookup(us, k).Some?
    ensures exists i :: 0 <= i < |us| && us[i] == Update(k, Lookup(us, k).value)
  {
    var n := |us| - 1;
    if us[n].key == k {
      assert us[n] == Update(k, us[n].power);
    } else {
      LookupIsEntry(us[..n], k);
      var i :| 0 <= i < n && us[..n][i] == Update(k, Lookup(us, k).value);
      assert us[i] == us[..n][i];
    }
  }

  // ---- the stored list

  /** The stored list gives the equal power to just these validators. */
  ghost predicate Names<K(!new)>(stored: seq<Update<K>>, keys: set<K>) {
    forall k :: Lookup(stored, k) == Some(EQUAL_POWER) <==> k in keys
  }

  function StoredAfter<K(==)>(blocks: seq<Block<K>>): seq<Update<K>> {
    if blocks == [] then []
    else
      var n, before := |blocks| - 1, StoredAfter(blocks[..|blocks| - 1]);
      if blocks[n].optimized && blocks[n].us == [] && before != [] then before else Full(blocks[n].us, blocks[n].active)
  }

  lemma EmptyDiff<K(!new)>(prev: map<K, int>, next: map<K, int>)
    requires IsDiff([], prev, next)
    ensures prev == next
  {
    forall k ensures At(prev, k) == At(next, k) {
      assert At(next, k) == Overridden(Lookup([], k), At(prev, k));
    }
    SameAt(prev, next);
  }

  /** Skipping the write on quiet blocks never leaves a stale list: it always names the active validators. */
  lemma {:induction false} StoredNamesActive<K(!new)>(start: map<K, int>, blocks: seq<Block<K>>)
    requires IsRun(start, blocks) && blocks != []
    ensures Names(StoredAfter(blocks), ActiveAfter(start, blocks).Keys)
  {
    var n := |blocks| - 1;
    var b, before := blocks[n], StoredAfter(blocks[..n]);
    if b.optimized && b.us == [] && before != [] {
      StoredNamesActive(start, blocks[..n]);
      EmptyDiff(ActiveAfter(start, blocks[..n]), b.next);
    } else {
      forall k ensures Lookup(Full(b.us, b.active), k) == Some(EQUAL_POWER) <==> k in b.next { FullLookup(b.us, b.active, k); }
    }
  }
}
