/** Iteration over the mempool: oracle transactions first, then the others. */
module FifoSelect {
  import opened Bytes
  import opened FifoMempool

  // ---- what an iterator yields

  function KeysOf<K>(queue: seq<Element<K>>): seq<K> {
    if queue == [] then [] else [queue[0].key] + KeysOf(queue[1..])
  }

  /** The latest element of each key. */
  function LatestOf<K>(queue: seq<Element<K>>): map<K, Element<K>> {
    if queue == [] then map[]
    else
      var n := |queue| - 1;
      LatestOf(queue[..n])[queue[n].key := queue[n]]
  }

  /** The elements met when the keys are looked up one by one and each hit is consumed. */
  function Yield<K>(keys: seq<K>, oracle: map<K, Element<K>>, regular: map<K, Element<K>>): seq<Element<K>> {
    if keys == [] then []
    else if keys[0] in oracle then [oracle[keys[0]]] + Yield(keys[1..], oracle - {keys[0]}, regular)
    else if keys[0] in regular then [regular[keys[0]]] + Yield(keys[1..], oracle, regular - {keys[0]})
    else Yield(keys[1..], oracle, regular)
  }

  function Selected<K(==)>(oracle: seq<Element<K>>, regular: seq<Element<K>>): seq<Element<K>> {
    Yield(KeysOf(oracle) + KeysOf(regular), LatestOf(oracle), LatestOf(regular))
  }

  class Iterator {
    var current: Option<Element<Key>>
    var keys: seq<Key>
    var mapTxs: map<Key, Element<Key>>
    var mapTxsOracle: map<Key, Element<Key>>

    /** The elements still to come. */
    ghost function Pending(): seq<Element<Key>>
      reads this
    {
      Yield(keys, mapTxsOracle, mapTxs)
    }

    constructor (keys: seq<Key>, mapTxsOracle: map<Key, Element<Key>>, mapTxs: map<Key, Element<Key>>)
      ensures current.None? && Pending() == Yield(keys, mapTxsOracle, mapTxs)
    {
      this.current, this.keys, this.mapTxsOracle, this.mapTxs := None, keys, mapTxsOracle, mapTxs;
    }

    /** Moves to the next element, or says that there is none. */
    method Next() returns (more: bool)
      modifies this
      ensures more <==> old(Pending()) != []
      ensures more ==> current == Some(old(Pending())[0]) && Pending() == old(Pending())[1..]
      ensures !more ==> current == old(current) && Pending() == []
      decreases |keys|
    {
      if |keys| == 0 {
        return false;
      }
      var key := keys[0];
      keys := keys[1..];
      if key in mapTxsOracle {
        current := Some(mapTxsOracle[key]);
        mapTxsOracle := mapTxsOracle - {key};
        return true;
      }
      if key in mapTxs {
        current := Some(mapTxs[key]);
        mapTxs := mapTxs - {key};
        return true;
      }
      more := Next();
    }
  }

  /** Lists the keys of both queues, indexes a snapshot of them, and moves to the first transaction if there is one. */
  method Select(pool: Mempool) returns (it: Iterator, more: bool)
    ensures fresh(it) && (more <==> Selected(pool.txsOracle.queue, pool.txs.queue) != [])
    ensures more ==> it.current.Some?
                     && [it.current.value] + it.Pending() == Selected(pool.txsOracle.queue, pool.txs.queue)
  {
    var keys, oracle := List(pool.txsOracle.queue);
    var others, regular := List(pool.txs.queue);
    it := new Iterator(keys + others, oracle, regular);
    more := it.Next();
  }

  method List(queue: seq<Element<Key>>) returns (keys: seq<Key>, latest: map<Key, Element<Key>>)
    ensures keys == KeysOf(queue) && latest == LatestOf(queue)
  {
    keys, latest := [], map[];
    for i := 0 to |queue|
      invariant keys == KeysOf(queue[..i]) && latest == LatestOf(queue[..i])
    {
      assert queue[..i + 1][..i] == queue[..i];
      KeysOfNext(queue, i);
      keys := keys + [queue[i].key];
      latest := latest[queue[i].key := queue[i]];
    }
    assert queue[..|queue|] == queue;
  }

  lemma {:induction false} KeysOfNext<K>(queue: seq<Element<K>>, i: nat)
    requires i < |queue|
    ensures KeysOf(queue[..i + 1]) == KeysOf(queue[..i]) + [queue[i].key]
  {
    if i == 0 {
      assert queue[..1] == [queue[0]];
    } else {
      KeysOfNext(queue[1..], i - 1);
      assert queue[..i + 1][1..] == queue[1..][..i] && queue[..i][1..] == queue[1..][..i - 1];
    }
  }

  /** Walking an iterator, already at its first transaction, to its end. */
  method Drain(it: Iterator, first: bool) returns (txs: seq<Element<Key>>)
    requires first ==> it.current.Some?
    modifies it
    ensures txs == old(if first then [it.current.value] + it.Pending() else [])
  {
    txs := [];
    ghost var all := if first then [it.current.value] + it.Pending() else [];
    var more := first;
    while more
      invariant more ==> it.current.Some? && txs + ([it.current.value] + it.Pending()) == all
      invariant !more ==> txs == all
      decreases more, |it.Pending()|
    {
      ghost var was, pending := it.current.value, it.Pending();
      txs := txs + [it.current.value];
      more := it.Next();
      Regroup(txs[..|txs| - 1], was, pending);
    }
  }

  lemma Regroup<T>(a: seq<T>, x: T, b: seq<T>)
    ensures a + ([x] + b) == (a + [x]) + b
    ensures b != [] ==> b == [b[0]] + b[1..]
  {
  }

  // ---- unique keys: first in, first out

  lemma {:induction false} KeysOfIs<K>(queue: seq<Element<K>>)
    ensures |KeysOf(queue)| == |queue| && forall i :: 0 <= i < |queue| ==> KeysOf(queue)[i] == queue[i].key
  {
    if queue != [] { KeysOfIs(queue[1..]); }
  }

  lemma {:induction false} LatestOfHas<K(!new)>(queue: seq<Element<K>>, k: K)
    ensures k in LatestOf(queue) <==> HasKey(queue, k)
    ensures k in LatestOf(queue) ==> LatestOf(queue)[k] in queue && LatestOf(queue)[k].key == k
  {
    if queue != [] {
      var n := |queue| - 1;
      LatestOfHas(queue[..n], k);
      assert queue == queue[..n] + [queue[n]];
      if k == queue[n].key { assert queue[n] in queue; }
    }
  }

  lemma LatestOfUnique<K(!new)>(queue: seq<Element<K>>, i: nat)
    requires UniqueKeys(queue) && i < |queue|
    ensures queue[i].key in LatestOf(queue) && LatestOf(queue)[queue[i].key] == queue[i]
  {
    LatestOfHas(queue, queue[i].key);
    assert queue[i] in queue;
    var j :| 0 <= j < |queue| && queue[j] == LatestOf(queue)[queue[i].key];
  }

  /** An index of just the elements of a queue that repeats no key. */
  ghost predicate Indexed<K(!new)>(queue: seq<Element<K>>, index: map<K, Element<K>>) {
    && UniqueKeys(queue)
    && (forall e :: e in queue ==> e.key in index && index[e.key] == e)
    && forall k :: k in index ==> HasKey(queue, k)
  }

  lemma IndexedNext<K(!new)>(queue: seq<Element<K>>, index: map<K, Element<K>>)
    requires queue != [] && Indexed(queue, index)
    ensures queue[0].key in index && index[queue[0].key] == queue[0]
    ensures Indexed(queue[1..], index - {queue[0].key})
  {
    assert queue[0] in queue;
    forall e | e in queue[1..] ensures e in queue && e.key != queue[0].key {
      var j :| 1 <= j < |queue| && queue[j] == e;
    }
    forall k | k in index - {queue[0].key} ensures HasKey(queue[1..], k) {
      assert HasKey(queue, k);
      var e :| e in queue && e.key == k;
      assert e in queue[1..];
    }
  }

  lemma IndexedAtStart<K(!new)>(queue: seq<Element<K>>)
    requires UniqueKeys(queue)
    ensures Indexed(queue, LatestOf(queue))
  {
    forall e | e in queue ensures e.key in LatestOf(queue) && LatestOf(queue)[e.key] == e {
      var j :| 0 <= j < |queue| && queue[j] == e;
      LatestOfUnique(queue, j);
    }
    forall k | k in LatestOf(queue) ensures HasKey(queue, k) { LatestOfHas(queue, k); }
  }

  lemma IndexedEmpty<K(!new)>(index: map<K, Element<K>>)
    requires Indexed([], index)
    ensures index == map[]
  {
    forall k ensures k !in index { assert k in index ==> HasKey<K>([], k); }
  }

  lemma {:induction false} YieldRegular<K(!new)>(regular: seq<Element<K>>, index: map<K, Element<K>>)
    requires Indexed(regular, index)
    ensures Yield(KeysOf(regular), map[], index) == regular
  {
    if regular != [] {
      IndexedNext(regular, index);
      YieldRegular(regular[1..], index - {regular[0].key});
      assert KeysOf(regular)[1..] == KeysOf(regular[1..]);
    }
  }

  lemma {:induction false} YieldOracle<K(!new)>(oracle: seq<Element<K>>, index: map<K, Element<K>>,
                                                regular: seq<Element<K>>, regulars: map<K, Element<K>>)
    requires Indexed(oracle, index) && Indexed(regular, regulars)
    ensures Yield(KeysOf(oracle) + KeysOf(regular), index, regulars) == oracle + regular
  {
    var keys := KeysOf(oracle) + KeysOf(regular);
    if oracle == [] {
      IndexedEmpty(index);
      assert keys == KeysOf(regular);
      YieldRegular(regular, regulars);
      assert oracle + regular == regular;
    } else {
      IndexedNext(oracle, index);
      YieldOracle(oracle[1..], index - {oracle[0].key}, regular, regulars);
      FirstOf(oracle[0].key, KeysOf(oracle[1..]), KeysOf(regular));
      FirstOf(oracle[0], oracle[1..], regular);
      assert oracle == [oracle[0]] + oracle[1..];
    }
  }

  lemma FirstOf<T>(x: T, a: seq<T>, b: seq<T>)
    ensures [x] + a + b == [x] + (a + b) && ([x] + a + b)[0] == x && ([x] + a + b)[1..] == a + b
  {
  }

  // ---- repeated keys: one element for each key and lane

  /** Each key is still listed as often as there are lanes that hold it. */
  ghost predicate Listed<K(!new)>(keys: seq<K>, oracle: map<K, Element<K>>, regular: map<K, Element<K>>) {
    forall k :: multiset(keys)[k] >= (if k in oracle then 1 else 0) + (if k in regular then 1 else 0)
  }

  lemma ListedNext<K(!new)>(keys: seq<K>, oracle: map<K, Element<K>>, regular: map<K, Element<K>>)
    requires keys != [] && Listed(keys, oracle, regular)
    ensures keys[0] in oracle ==> Listed(keys[1..], oracle - {keys[0]}, regular)
    ensures keys[0] !in oracle ==> Listed(keys[1..], oracle, regular - {keys[0]})
  {
    assert keys == [keys[0]] + keys[1..];
    assert multiset(keys) == multiset{keys[0]} + multiset(keys[1..]);
    forall k ensures multiset(keys)[k] == multiset(keys[1..])[k] + (if k == keys[0] then 1 else 0) {}
  }

  lemma {:induction false} YieldSize<K(!new)>(keys: seq<K>, oracle: map<K, Element<K>>, regular: map<K, Element<K>>)
    requires Listed(keys, oracle, regular)
    ensures |Yield(keys, oracle, regular)| == |oracle| + |regular|
  {
    if keys == [] {
      ListedNothing(oracle, regular);
    } else {
      ListedNext(keys, oracle, regular);
      if keys[0] in oracle {
        OneLess(oracle, keys[0]);
        YieldSize(keys[1..], oracle - {keys[0]}, regular);
      } else if keys[0] in regular {
        OneLess(regular, keys[0]);
        YieldSize(keys[1..], oracle, regular - {keys[0]});
      } else {
        NoneLess(regular, keys[0]);
        YieldSize(keys[1..], oracle, regular);
      }
    }
  }

  lemma ListedNothing<K(!new)>(oracle: map<K, Element<K>>, regular: map<K, Element<K>>)
    requires Listed([], oracle, regular)
    ensures oracle == map[] && regular == map[]
  {
    var none: seq<K> := [];
    forall k ensures k !in oracle && k !in regular { assert multiset(none)[k] == 0; }
  }

  lemma NoneLess<K, V>(m: map<K, V>, k: K)
    requires k !in m
    ensures m - {k} == m
  {
  }

  lemma OneLess<K, V>(m: map<K, V>, k: K)
    requires k in m
    ensures |m - {k}| == |m| - 1
  {
    assert (m - {k}).Keys == m.Keys - {k};
    assert |(m - {k}).Keys| == |m - {k}| && |m.Keys| == |m|;
  }

  lemma {:induction false} KeysListed<K(!new)>(queue: seq<Element<K>>, k: K)
    ensures HasKey(queue, k) ==> k in multiset(KeysOf(queue))
  {
    KeysOfIs(queue);
    if e :| e in queue && e.key == k {
      var i :| 0 <= i < |queue| && queue[i] == e;
      assert KeysOf(queue)[i] in KeysOf(queue);
    }
  }

  lemma SelectedListed<K(!new)>(oracle: seq<Element<K>>, regular: seq<Element<K>>)
    ensures Listed(KeysOf(oracle) + KeysOf(regular), LatestOf(oracle), LatestOf(regular))
  {
    forall k
      ensures multiset(KeysOf(oracle) + KeysOf(regular))[k]
           >= (if k in LatestOf(oracle) then 1 else 0) + (if k in LatestOf(regular) then 1 else 0)
    {
      LatestOfHas(oracle, k);
      LatestOfHas(regular, k);
      KeysListed(oracle, k);
      KeysListed(regular, k);
      assert multiset(KeysOf(oracle) + KeysOf(regular)) == multiset(KeysOf(oracle)) + multiset(KeysOf(regular));
    }
  }

  lemma OneMoreAtMost<K, V>(m: map<K, V>, k: K, v: V)
    ensures |m[k := v]| == |m| + (if k in m then 0 else 1)
  {
    assert m[k := v].Keys == m.Keys + {k};
    assert |m[k := v].Keys| == |m[k := v]| && |m.Keys| == |m|;
  }

  lemma {:induction false} LatestOfSize<K(!new)>(queue: seq<Element<K>>)
    ensures |LatestOf(queue)| <= |queue|
    ensures |LatestOf(queue)| == |queue| ==> UniqueKeys(queue)
  {
    if queue != [] {
      var n := |queue| - 1;
      var rest := LatestOf(queue[..n]);
      LatestOfSize(queue[..n]);
      LatestOfHas(queue[..n], queue[n].key);
      OneMoreAtMost(rest, queue[n].key, queue[n]);
      if |LatestOf(queue)| == |queue| {
        forall i | 0 <= i < n ensures queue[i].key != queue[n].key { assert queue[..n][i] in queue[..n]; }
        forall i, j | 0 <= i < j < |queue| ensures queue[i].key != queue[j].key {
          if j < n { assert queue[..n][i].key != queue[..n][j].key; }
        }
      }
    }
  }

  // ---- which elements those are

  /** The elements after which no other with their key comes. */
  ghost function LastOfEachKey<K(!new)>(queue: seq<Element<K>>): seq<Element<K>> {
    if queue == [] then []
    else if HasKey(queue[1..], queue[0].key) then LastOfEachKey(queue[1..])
    else [queue[0]] + LastOfEachKey(queue[1..])
  }

  /** In a queue in order of arrival these are the latest of each key, each once. */
  lemma {:induction false} LastOfEachKeyIs<K(!new)>(queue: seq<Element<K>>, e: Element<K>)
    requires Ordered(queue)
    ensures multiset(LastOfEachKey(queue))[e] == if LatestIn(queue, e, e.key) then 1 else 0
  {
    if queue != [] {
      assert Ordered(queue[1..]);
      LastOfEachKeyIs(queue[1..], e);
      LatestInNext(queue, e);
      if !HasKey(queue[1..], queue[0].key) {
        assert multiset(LastOfEachKey(queue)) == multiset{queue[0]} + multiset(LastOfEachKey(queue[1..]));
      }
    }
  }

  lemma LatestInNext<K(!new)>(queue: seq<Element<K>>, e: Element<K>)
    requires queue != [] && Ordered(queue)
    ensures LatestIn(queue, e, e.key) <==>
            LatestIn(queue[1..], e, e.key) || (e == queue[0] && !HasKey(queue[1..], e.key))
    ensures LatestIn(queue[1..], e, e.key) ==> e != queue[0]
  {
    assert forall d :: d in queue <==> d == queue[0] || d in queue[1..];
    forall d | d in queue[1..] ensures queue[0].id < d.id {
      var j :| 1 <= j < |queue| && queue[j] == d;
    }
    if e == queue[0] && HasKey(queue[1..], e.key) {
      var d :| d in queue[1..] && d.key == e.key;
      assert d in queue && e.id < d.id;
    }
  }

  /** The values of a map, each as often as it occurs. */
  ghost function Values<K(!new), V>(m: map<K, V>): multiset<V> {
    if m == map[] then multiset{}
    else
      var k :| k in m;
      multiset{m[k]} + Values(m - {k})
  }

  lemma {:induction false} ValuesWithout<K(!new), V>(m: map<K, V>, a: K)
    requires a in m
    ensures Values(m) == multiset{m[a]} + Values(m - {a})
    decreases |m|
  {
    var k :| k in m && Values(m) == multiset{m[k]} + Values(m - {k});
    if k != a {
      var rest := m - {k} - {a};
      OneLess(m, k);
      OneLess(m, a);
      TakenInTurn(m, k, a);
      ValuesWithout(m - {k}, a);
      ValuesWithout(m - {a}, k);
      Swapped(m[k], m[a], Values(rest));
    }
  }

  lemma TakenInTurn<K, V>(m: map<K, V>, k: K, a: K)
    requires k in m && a in m && k != a
    ensures m - {k} - {a} == m - {a} - {k} && a in m - {k} && (m - {k})[a] == m[a] && k in m - {a} && (m - {a})[k] == m[k]
  {
  }

  lemma Swapped<V>(x: V, y: V, rest: multiset<V>)
    ensures multiset{x} + (multiset{y} + rest) == multiset{y} + (multiset{x} + rest)
  {
  }

  lemma ValuesWith<K(!new), V>(m: map<K, V>, a: K, v: V)
    requires a !in m
    ensures Values(m[a := v]) == multiset{v} + Values(m)
  {
    ValuesWithout(m[a := v], a);
    assert m[a := v] - {a} == m;
  }

  function PutFirst<K>(rest: map<K, Element<K>>, e: Element<K>): map<K, Element<K>> {
    if e.key in rest then rest else rest[e.key := e]
  }

  lemma PutFirstLast<K>(rest: map<K, Element<K>>, first: Element<K>, last: Element<K>)
    ensures PutFirst(rest, first)[last.key := last] == PutFirst(rest[last.key := last], first)
  {
  }

  /** Prepending an element changes the latest of its key only if there was none. */
  lemma {:induction false} LatestOfFront<K>(queue: seq<Element<K>>)
    requires queue != []
    ensures LatestOf(queue) == PutFirst(LatestOf(queue[1..]), queue[0])
  {
    var n := |queue| - 1;
    if n == 0 {
      assert queue[..0] == [] && queue[1..] == [];
    } else {
      var front, last := queue[..n], queue[n];
      LatestOfFront(front);
      assert front[1..] == queue[1..][..n - 1];
      PutFirstLast(LatestOf(front[1..]), queue[0], last);
    }
  }

  lemma {:induction false} LatestOfValues<K(!new)>(queue: seq<Element<K>>)
    ensures Values(LatestOf(queue)) == multiset(LastOfEachKey(queue))
  {
    if queue != [] {
      LatestOfValues(queue[1..]);
      LatestOfFront(queue);
      LatestOfHas(queue[1..], queue[0].key);
      if !HasKey(queue[1..], queue[0].key) {
        ValuesWith(LatestOf(queue[1..]), queue[0].key, queue[0]);
        assert multiset(LastOfEachKey(queue)) == multiset{queue[0]} + multiset(LastOfEachKey(queue[1..]));
      }
    }
  }

  lemma OneFirst<V>(x: V, s: seq<V>, a: multiset<V>, b: multiset<V>)
    ensures multiset(s) == a + b ==> multiset([x] + s) == (multiset{x} + a) + b == b + (multiset{x} + a)
    ensures multiset(s) == b + a ==> multiset([x] + s) == (multiset{x} + a) + b == b + (multiset{x} + a)
  {
    assert multiset([x] + s) == multiset{x} + multiset(s);
  }

  lemma {:induction false} YieldValues<K(!new)>(keys: seq<K>, oracle: map<K, Element<K>>, regular: map<K, Element<K>>)
    requires Listed(keys, oracle, regular)
    ensures multiset(Yield(keys, oracle, regular)) == Values(oracle) + Values(regular)
  {
    if keys == [] {
      ListedNothing(oracle, regular);
    } else {
      ListedNext(keys, oracle, regular);
      if keys[0] in oracle {
        ValuesWithout(oracle, keys[0]);
        YieldValues(keys[1..], oracle - {keys[0]}, regular);
        OneFirst(oracle[keys[0]], Yield(keys[1..], oracle - {keys[0]}, regular), Values(oracle - {keys[0]}), Values(regular));
      } else if keys[0] in regular {
        ValuesWithout(regular, keys[0]);
        YieldValues(keys[1..], oracle, regular - {keys[0]});
        OneFirst(regular[keys[0]], Yield(keys[1..], oracle, regular - {keys[0]}), Values(regular - {keys[0]}), Values(oracle));
      } else {
        NoneLess(regular, keys[0]);
        YieldValues(keys[1..], oracle, regular);
      }
    }
  }

  /** Whatever is queued, exactly the latest transaction of each key in each lane is yielded, each once. */
  lemma SelectedIs<K(!new)>(oracle: seq<Element<K>>, regular: seq<Element<K>>)
    ensures multiset(Selected(oracle, regular)) == multiset(LastOfEachKey(oracle)) + multiset(LastOfEachKey(regular))
  {
    SelectedListed(oracle, regular);
    YieldValues(KeysOf(oracle) + KeysOf(regular), LatestOf(oracle), LatestOf(regular));
    LatestOfValues(oracle);
    LatestOfValues(regular);
  }

  /** One transaction for each key and lane is yielded, whatever is queued. */
  lemma SelectedSize<K(!new)>(oracle: seq<Element<K>>, regular: seq<Element<K>>)
    ensures |Selected(oracle, regular)| == |LatestOf(oracle)| + |LatestOf(regular)|
  {
    SelectedListed(oracle, regular);
    YieldSize(KeysOf(oracle) + KeysOf(regular), LatestOf(oracle), LatestOf(regular));
  }

  /** The oracle queue and then the other, each in order of arrival, exactly when no lane repeats a key. */
  lemma FifoIff<K(!new)>(oracle: seq<Element<K>>, regular: seq<Element<K>>)
    ensures Selected(oracle, regular) == oracle + regular <==> UniqueKeys(oracle) && UniqueKeys(regular)
  {
    if UniqueKeys(oracle) && UniqueKeys(regular) {
      IndexedAtStart(oracle);
      IndexedAtStart(regular);
      YieldOracle(oracle, LatestOf(oracle), regular, LatestOf(regular));
    }
    if Selected(oracle, regular) == oracle + regular {
      SelectedSize(oracle, regular);
      LatestOfSize(oracle);
      LatestOfSize(regular);
    }
  }

  /** So a pool whose index is exact is iterated in order of arrival, oracle transactions first. */
  lemma FaithfulPoolIsFifo<K(!new)>(oracle: Lane<K>, regular: Lane<K>, next: nat)
    requires Sound(oracle, next) && Sound(regular, next) && Faithful(oracle) && Faithful(regular)
    ensures Selected(oracle.queue, regular.queue) == oracle.queue + regular.queue
  {
    ExactIsUnique(oracle.queue, oracle.index);
    ExactIsUnique(regular.queue, regular.index);
    FifoIff(oracle.queue, regular.queue);
  }

  /** With a repeated oracle key, a later regular transaction overtakes an earlier one. */
  lemma RegularOvertakes()
    ensures var a, b := Element(0, 7, "a"), Element(1, 7, "b");
            var c, d := Element(2, 8, "c"), Element(3, 7, "d");
            Selected([a, b], [c, d]) == [b, d, c]
  {
    var a, b := Element(0, 7, "a"), Element(1, 7, "b");
    var c, d := Element(2, 8, "c"), Element(3, 7, "d");
    assert [a, b][..1] == [a] && [c, d][..1] == [c] && [a][..0] == [] && [c][..0] == [];
    assert LatestOf([a]) == map[7 := a] && LatestOf([c]) == map[8 := c];
    assert LatestOf([a, b]) == map[7 := b] && LatestOf([c, d]) == map[8 := c, 7 := d];
    assert [a, b][1..] == [b] && [c, d][1..] == [d];
    assert KeysOf([b]) == [7] && KeysOf([d]) == [7];
    assert KeysOf([a, b]) == [7, 7] && KeysOf([c, d]) == [8, 7];
    var none: map<int, Element<int>> := map[];
    assert map[7 := b] - {7} == none;
    assert map[8 := c, 7 := d] - {7} == map[8 := c];
    assert map[8 := c] - {8} == none;
    assert Yield([7], none, none) == [];
    assert Yield([8, 7], none, map[8 := c]) == [c] by { assert [8, 7][1..] == [7]; }
    assert Yield([7, 8, 7], none, map[8 := c, 7 := d]) == [d, c] by { assert [7, 8, 7][1..] == [8, 7]; }
    assert KeysOf([a, b]) + KeysOf([c, d]) == [7, 7, 8, 7] && [7, 7, 8, 7][1..] == [7, 8, 7];
    assert Yield([7, 7, 8, 7], map[7 := b], map[8 := c, 7 := d]) == [b] + [d, c];
  }
}
