/** The two-lane mempool: oracle transactions and others, each in order of arrival. */
module FifoMempool {
  import opened Bytes

  /** The sender of the first signature and its sequence number. */
  datatype Key = Key(address: string, nonce: nat)

  /** A transaction; one whose signatures cannot be read, or that has none, has no key. */
  datatype Tx = Tx(key: Option<Key>, oracle: bool, body: string)

  /** A list element, with an identity of its own. */
  datatype Element<K> = Element(id: nat, key: K, body: string)

  datatype Error = MaxCapacity | NoSigner | TxNotFound

  // ---- one lane: a queue and an index of it

  ghost predicate Ordered<K>(queue: seq<Element<K>>) {
    forall i, j :: 0 <= i < j < |queue| ==> queue[i].id < queue[j].id
  }

  /** The index points, for each key it knows, to the latest element with that key. */
  ghost predicate LaneOk<K(!new)>(queue: seq<Element<K>>, index: map<K, Element<K>>, next: nat) {
    && Ordered(queue)
    && (forall e :: e in queue ==> e.id < next)
    && forall k :: k in index ==> LatestIn(queue, index[k], k)
  }

  ghost predicate LatestIn<K(!new)>(queue: seq<Element<K>>, e: Element<K>, k: K) {
    e in queue && e.key == k && forall d :: d in queue && d.key == k ==> d.id <= e.id
  }

  /** Every element is the one its key leads to, so that no key is there twice. */
  ghost predicate Exact<K(!new)>(queue: seq<Element<K>>, index: map<K, Element<K>>) {
    forall e :: e in queue ==> e.key in index && index[e.key] == e
  }

  ghost predicate UniqueKeys<K>(queue: seq<Element<K>>) {
    forall i, j :: 0 <= i < j < |queue| ==> queue[i].key != queue[j].key
  }

  ghost predicate HasKey<K(!new)>(queue: seq<Element<K>>, k: K) {
    exists e :: e in queue && e.key == k
  }

  lemma ExactIsUnique<K(!new)>(queue: seq<Element<K>>, index: map<K, Element<K>>)
    requires Ordered(queue) && Exact(queue, index)
    ensures UniqueKeys(queue)
  {
    forall i, j | 0 <= i < j < |queue| ensures queue[i].key != queue[j].key {
      assert queue[i] in queue && queue[j] in queue;
    }
  }

  function WithoutId<K>(queue: seq<Element<K>>, id: nat): seq<Element<K>> {
    if queue == [] then []
    else if queue[0].id == id then queue[1..]
    else [queue[0]] + WithoutId(queue[1..], id)
  }

  lemma SplitFirst<T>(s: seq<T>, x: T)
    requires s != []
    ensures x in s <==> x == s[0] || x in s[1..]
  {
  }

  lemma {:induction false} WithoutIdHas<K>(queue: seq<Element<K>>, id: nat, e: Element<K>)
    requires Ordered(queue)
    ensures e in WithoutId(queue, id) <==> e in queue && e.id != id
  {
    if queue != [] {
      SplitFirst(queue, e);
      assert Ordered(queue[1..]);
      if queue[0].id != id { WithoutIdHas(queue[1..], id, e); }
    }
  }

  lemma {:induction false} WithoutIdOrdered<K(!new)>(queue: seq<Element<K>>, id: nat)
    requires Ordered(queue)
    ensures Ordered(WithoutId(queue, id))
    ensures (exists e :: e in queue && e.id == id) ==> |WithoutId(queue, id)| == |queue| - 1
  {
    if queue != [] && queue[0].id != id {
      var rest := WithoutId(queue[1..], id);
      WithoutIdOrdered(queue[1..], id);
      forall j | 0 <= j < |rest| ensures queue[0].id < rest[j].id {
        WithoutIdHas(queue[1..], id, rest[j]);
      }
    }
  }

  lemma PushKeepsLane<K(!new)>(queue: seq<Element<K>>, index: map<K, Element<K>>, next: nat, k: K, body: string)
    requires LaneOk(queue, index, next)
    ensures var e := Element(next, k, body);
            LaneOk(queue + [e], index[k := e], next + 1)
  {
    var e := Element(next, k, body);
    var q, m := queue + [e], index[k := e];
    assert forall i :: 0 <= i < |queue| ==> queue[i] in queue;
    assert q[|queue|] == e;
    forall x | x in m ensures LatestIn(q, m[x], x) {
      if x != k { assert LatestIn(queue, index[x], x); }
    }
  }

  lemma LaneOkLater<K(!new)>(queue: seq<Element<K>>, index: map<K, Element<K>>, next: nat)
    requires LaneOk(queue, index, next)
    ensures LaneOk(queue, index, next + 1)
  {
  }

  /** After a push the index is exact exactly when it was before and the key was not in the lane. */
  lemma PushExactIff<K(!new)>(queue: seq<Element<K>>, index: map<K, Element<K>>, next: nat, k: K, body: string)
    requires LaneOk(queue, index, next)
    ensures var e := Element(next, k, body);
            Exact(queue + [e], index[k := e]) <==> Exact(queue, index) && !HasKey(queue, k)
  {
    var e := Element(next, k, body);
    var q, m := queue + [e], index[k := e];
    assert q[|queue|] == e;
    assert forall d :: d in q <==> d in queue || d == e;
    if HasKey(queue, k) {
      var d :| d in queue && d.key == k;
      assert d in q && m[d.key] != d;
    } else if !Exact(queue, index) {
      var d :| d in queue && !(d.key in index && index[d.key] == d);
      assert d in q && d.key != k;
    }
  }

  lemma RemoveKeepsLane<K(!new)>(queue: seq<Element<K>>, index: map<K, Element<K>>, next: nat, k: K)
    requires LaneOk(queue, index, next) && k in index
    ensures LaneOk(WithoutId(queue, index[k].id), index - {k}, next)
    ensures |WithoutId(queue, index[k].id)| == |queue| - 1
  {
    assert LatestIn(queue, index[k], k);
    var rest := WithoutId(queue, index[k].id);
    WithoutIdOrdered(queue, index[k].id);
    forall e ensures e in rest <==> e in queue && e.id != index[k].id { WithoutIdHas(queue, index[k].id, e); }
    forall x | x in index - {k} ensures LatestIn(rest, index[x], x) {
      assert LatestIn(queue, index[x], x);
      SameId(queue, index[x], index[k]);
    }
  }

  lemma SameId<K>(queue: seq<Element<K>>, d: Element<K>, e: Element<K>)
    requires Ordered(queue) && d in queue && e in queue && d != e
    ensures d.id != e.id
  {
    var i :| 0 <= i < |queue| && queue[i] == d;
    var j :| 0 <= j < |queue| && queue[j] == e;
  }

  /** From an exact lane, the one element with the key is taken out. */
  lemma RemoveExact<K(!new)>(queue: seq<Element<K>>, index: map<K, Element<K>>, next: nat, k: K)
    requires LaneOk(queue, index, next) && Exact(queue, index)
    ensures k in index <==> HasKey(queue, k)
    ensures k in index ==> Exact(WithoutId(queue, index[k].id), index - {k}) && !HasKey(WithoutId(queue, index[k].id), k)
  {
    if k in index {
      assert LatestIn(queue, index[k], k);
      forall e | e in WithoutId(queue, index[k].id) ensures e in queue && e.key != k {
        WithoutIdHas(queue, index[k].id, e);
      }
    }
  }

  /** An element the index does not lead to is never removed. */
  lemma RemoveKeepsOrphan<K(!new)>(queue: seq<Element<K>>, index: map<K, Element<K>>, next: nat, k: K)
    requires LaneOk(queue, index, next) && !Exact(queue, index) && k in index
    ensures !Exact(WithoutId(queue, index[k].id), index - {k})
  {
    var d :| d in queue && !(d.key in index && index[d.key] == d);
    assert LatestIn(queue, index[k], k);
    SameId(queue, d, index[k]);
    WithoutIdHas(queue, index[k].id, d);
  }

  // ---- lanes as values

  /** A queue with its index. */
  datatype Lane<K> = Lane(queue: seq<Element<K>>, index: map<K, Element<K>>)

  function Push<K>(l: Lane<K>, e: Element<K>): Lane<K> {
    Lane(l.queue + [e], l.index[e.key := e])
  }

  function Take<K>(l: Lane<K>, k: K): Lane<K> {
    if k in l.index then Lane(WithoutId(l.queue, l.index[k].id), l.index - {k}) else l
  }

  ghost predicate Sound<K(!new)>(l: Lane<K>, next: nat) {
    LaneOk(l.queue, l.index, next)
  }

  ghost predicate Faithful<K(!new)>(l: Lane<K>) {
    Exact(l.queue, l.index)
  }

  lemma PushKeepsSound<K(!new)>(l: Lane<K>, other: Lane<K>, next: nat, k: K, body: string)
    requires Sound(l, next) && Sound(other, next)
    ensures Sound(Push(l, Element(next, k, body)), next + 1) && Sound(other, next + 1)
    ensures Faithful(Push(l, Element(next, k, body))) <==> Faithful(l) && !HasKey(l.queue, k)
    ensures |Push(l, Element(next, k, body)).queue| == |l.queue| + 1
  {
    PushKeepsLane(l.queue, l.index, next, k, body);
    LaneOkLater(other.queue, other.index, next);
    PushExactIff(l.queue, l.index, next, k, body);
  }

  lemma TakeKeepsSound<K(!new)>(l: Lane<K>, next: nat, k: K)
    requires Sound(l, next)
    ensures Sound(Take(l, k), next)
    ensures Faithful(Take(l, k)) <==> Faithful(l)
    ensures Faithful(l) ==> (k in l.index <==> HasKey(l.queue, k)) && !HasKey(Take(l, k).queue, k)
    ensures |Take(l, k).queue| == |l.queue| - (if k in l.index then 1 else 0)
  {
    if k in l.index { RemoveKeepsLane(l.queue, l.index, next, k); }
    if Faithful(l) { RemoveExact(l.queue, l.index, next, k); }
    else if k in l.index { RemoveKeepsOrphan(l.queue, l.index, next, k); }
  }

  // ---- runs of one lane

  datatype Step<K> = Inserted(key: K, body: string) | Removed(key: K)

  /** A lane after some steps, numbering the elements as they come. */
  function Run<K>(steps: seq<Step<K>>): Lane<K> {
    if steps == [] then Lane([], map[])
    else
      var n := |steps| - 1;
      var before := Run(steps[..n]);
      match steps[n]
      case Inserted(k, body) => Push(before, Element(n, k, body))
      case Removed(k) => Take(before, k)
  }

  ghost predicate NoReinsertion<K(!new)>(steps: seq<Step<K>>) {
    forall i :: 0 <= i < |steps| && steps[i].Inserted? ==> !HasKey(Run(steps[..i]).queue, steps[i].key)
  }

  lemma PrefixOfPrefix<T>(s: seq<T>, i: nat, n: nat)
    requires i <= n <= |s|
    ensures s[..n][..i] == s[..i]
  {
  }

  /** Over every run, the index leads to every transaction exactly if no key was inserted while it was queued. */
  lemma {:induction false} RunFaithfulIff<K(!new)>(steps: seq<Step<K>>)
    ensures Sound(Run(steps), |steps|)
    ensures Faithful(Run(steps)) <==> NoReinsertion(steps)
  {
    if steps != [] {
      var n := |steps| - 1;
      var before := Run(steps[..n]);
      RunFaithfulIff(steps[..n]);
      forall i | 0 <= i <= n ensures steps[..n][..i] == steps[..i] { PrefixOfPrefix(steps, i, n); }
      assert NoReinsertion(steps) <==>
             NoReinsertion(steps[..n]) && (steps[n].Inserted? ==> !HasKey(before.queue, steps[n].key)) by {
        NoReinsertionSplits(steps);
      }
      match steps[n]
      case Inserted(k, body) => PushKeepsSound(before, before, n, k, body);
      case Removed(k) =>
        TakeKeepsSound(before, n, k);
        LaneOkLater(Take(before, k).queue, Take(before, k).index, n);
    }
  }

  lemma NoReinsertionSplits<K(!new)>(steps: seq<Step<K>>)
    requires steps != []
    ensures var n := |steps| - 1;
            NoReinsertion(steps) <==>
            NoReinsertion(steps[..n]) && (steps[n].Inserted? ==> !HasKey(Run(steps[..n]).queue, steps[n].key))
  {
    var n := |steps| - 1;
    forall i | 0 <= i < n ensures steps[..n][..i] == steps[..i] && steps[..n][i] == steps[i] { PrefixOfPrefix(steps, i, n); }
    if NoReinsertion(steps) {
      forall i | 0 <= i < n && steps[..n][i].Inserted? ensures !HasKey(Run(steps[..n][..i]).queue, steps[..n][i].key) {
        assert steps[i].Inserted?;
      }
    }
    if NoReinsertion(steps[..n]) && (steps[n].Inserted? ==> !HasKey(Run(steps[..n]).queue, steps[n].key)) {
      forall i | 0 <= i < |steps| && steps[i].Inserted? ensures !HasKey(Run(steps[..i]).queue, steps[i].key) {
        if i < n { assert steps[..n][i].Inserted?; }
      }
    }
  }

  // ---- the mempool

  class Mempool {
    var txs: Lane<Key>
    var txsOracle: Lane<Key>
    var next: nat
    const maxTx: int

    /** Both lanes are in order and the limit is kept; under a negative limit they stay empty. */
    ghost predicate Valid()
      reads this
    {
      && Sound(txs, next)
      && Sound(txsOracle, next)
      && (if maxTx >= 0 then |txs.queue| + |txsOracle.queue| <= maxTx else txs == txsOracle == Lane([], map[]))
    }

    constructor (maxTx: int)
      ensures Valid() && txs == txsOracle == Lane([], map[]) && this.maxTx == maxTx
    {
      txs, txsOracle, next := Lane([], map[]), Lane([], map[]), 0;
      this.maxTx := maxTx;
    }

    /** Whether an insertion stores the transaction at all. */
    predicate Accepts(tx: Tx)
      reads this
    {
      0 <= maxTx && |txs.queue| + |txsOracle.queue| < maxTx && tx.key.Some?
    }

    /** A negative limit lets every transaction pass and stores none; a limit of zero refuses all. */
    method Insert(tx: Tx) returns (e: Option<Error>)
      requires Valid()
      modifies this
      ensures Valid()
      ensures e == if maxTx >= 0 && old(|txs.queue| + |txsOracle.queue|) >= maxTx then Some(MaxCapacity)
                   else if maxTx >= 0 && tx.key.None? then Some(NoSigner)
                   else None
      ensures !old(Accepts(tx)) ==> unchanged(this)
      ensures old(Accepts(tx)) ==>
                var x := Element(old(next), tx.key.value, tx.body);
                && txsOracle == (if tx.oracle then Push(old(txsOracle), x) else old(txsOracle))
                && txs == (if tx.oracle then old(txs) else Push(old(txs), x))
                && next == old(next) + 1
      ensures old(Accepts(tx)) ==>
                (Faithful(txsOracle) && Faithful(txs)
                 <==> old(Faithful(txsOracle) && Faithful(txs))
                      && !HasKey((if tx.oracle then old(txsOracle) else old(txs)).queue, tx.key.value))
    {
      var totalTxs := |txs.queue| + |txsOracle.queue|;
      if maxTx >= 0 && totalTxs >= maxTx {
        return Some(MaxCapacity);
      }
      if maxTx < 0 {
        return None;
      }
      if tx.key.None? {
        return Some(NoSigner);
      }
      var x := Element(next, tx.key.value, tx.body);
      if tx.oracle {
        PushKeepsSound(txsOracle, txs, next, tx.key.value, tx.body);
        txsOracle := Push(txsOracle, x);
      } else {
        PushKeepsSound(txs, txsOracle, next, tx.key.value, tx.body);
        txs := Push(txs, x);
      }
      next := next + 1;
      return None;
    }

    /** Takes out what the index leads to, in the lane the transaction belongs to. */
    method Remove(tx: Tx) returns (e: Option<Error>)
      requires Valid()
      modifies this
      ensures Valid() && next == old(next)
      ensures e == if tx.key.None? then Some(NoSigner)
                   else if tx.key.value in (if tx.oracle then old(txsOracle) else old(txs)).index then None
                   else Some(TxNotFound)
      ensures e.Some? ==> unchanged(this)
      ensures e.None? ==> txsOracle == (if tx.oracle then Take(old(txsOracle), tx.key.value) else old(txsOracle))
                          && txs == (if tx.oracle then old(txs) else Take(old(txs), tx.key.value))
      ensures Faithful(txsOracle) && Faithful(txs) <==> old(Faithful(txsOracle) && Faithful(txs))
      ensures old(Faithful(txsOracle) && Faithful(txs)) && tx.key.Some? ==>
                (e.None? <==> HasKey((if tx.oracle then old(txsOracle) else old(txs)).queue, tx.key.value))
    {
      if tx.key.None? {
        return Some(NoSigner);
      }
      var k := tx.key.value;
      if tx.oracle {
        TakeKeepsSound(txsOracle, next, k);
        if k in txsOracle.index {
          txsOracle := Take(txsOracle, k);
          return None;
        }
      } else {
        TakeKeepsSound(txs, next, k);
        if k in txs.index {
          txs := Take(txs, k);
          return None;
        }
      }
      return Some(TxNotFound);
    }

    method CountTx() returns (n: nat)
      requires Valid()
      ensures n == |txs.queue| + |txsOracle.queue| && n <= (if maxTx >= 0 then maxTx else 0)
    {
      n := |txs.queue| + |txsOracle.queue|;
    }
  }

  /** A key inserted again hides the older transaction: it stays queued and can no longer be removed. */
  lemma ReinsertLeavesOrphan<K(!new)>(queue: seq<Element<K>>, index: map<K, Element<K>>, next: nat, k: K, body: string)
    requires LaneOk(queue, index, next) && HasKey(queue, k)
    ensures var e := Element(next, k, body);
            && WithoutId(queue + [e], e.id) == queue
            && k !in index[k := e] - {k}
            && HasKey(WithoutId(queue + [e], e.id), k)
  {
    PushKeepsLane(queue, index, next, k, body);
    WithoutLast(queue, Element(next, k, body));
  }

  lemma {:induction false} WithoutLast<K>(queue: seq<Element<K>>, e: Element<K>)
    requires forall d :: d in queue ==> d.id < e.id
    ensures WithoutId(queue + [e], e.id) == queue
  {
    if queue != [] {
      assert (queue + [e])[1..] == queue[1..] + [e];
      assert forall d :: d in queue[1..] ==> d in queue;
      WithoutLast(queue[1..], e);
    }
  }

  /** Two insertions and a removal of one key leave a transaction that no removal can reach. */
  lemma OrphanExample()
    ensures var lane := Run([Inserted(7, "a"), Inserted(7, "b"), Removed(7)]);
            lane.queue == [Element(0, 7, "a")] && 7 !in lane.index
  {
    var a, b := Element(0, 7, "a"), Element(1, 7, "b");
    var s := [Inserted(7, "a"), Inserted(7, "b"), Removed(7)];
    assert s[..2] == [Inserted(7, "a"), Inserted(7, "b")] && s[..2][..1] == [Inserted(7, "a")] && s[..2][..1][..0] == [];
    assert Run(s[..2][..1]) == Lane([a], map[7 := a]);
    assert Run(s[..2]) == Lane([a, b], map[7 := b]);
    assert [a, b][1..] == [b] && [b][1..] == [];
    assert WithoutId([b], 1) == [];
    assert WithoutId([a, b], 1) == [a];
  }
}
