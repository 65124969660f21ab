/** A map-backed key-value store with ordered range scans. */
module KVStores {
  import opened Bytes

  type Store = map<Bytes, Bytes>

  datatype Entry = Entry(key: Bytes, val: Bytes)

  ghost function KeysInRange(m: Store, lo: Option<Bytes>, hi: Option<Bytes>): set<Bytes> {
    set k | k in m && InRange(k, lo, hi)
  }

  /** What an iterator over `[lo, hi)` yields: the entries in range, once each, by ascending key. */
  ghost function Scan(m: Store, lo: Option<Bytes>, hi: Option<Bytes>): seq<Entry> {
    EntriesOf(m, KeysInRange(m, lo, hi))
  }

  ghost function EntriesOf(m: Store, s: set<Bytes>): seq<Entry>
    requires s <= m.Keys
    decreases |s|
  {
    if s == {} then []
    else
      LeastExists(s);
      var k :| IsLeast(k, s);
      [Entry(k, m[k])] + EntriesOf(m, s - {k})
  }

  ghost predicate AscendingEntries(es: seq<Entry>) {
    forall i, j :: 0 <= i < j < |es| ==> Less(es[i].key, es[j].key)
  }

  lemma {:induction false} EntriesAreExact(m: Store, s: set<Bytes>)
    requires s <= m.Keys
    ensures AscendingEntries(EntriesOf(m, s))
    ensures forall e :: e in EntriesOf(m, s) <==> e.key in s && e.val == m[e.key]
    decreases |s|
  {
    if s != {} {
      LeastExists(s);
      var k :| IsLeast(k, s) && EntriesOf(m, s) == [Entry(k, m[k])] + EntriesOf(m, s - {k});
      EntriesAreExact(m, s - {k});
      var rest := EntriesOf(m, s - {k});
      assert forall j :: 0 <= j < |rest| ==> rest[j] in rest;
    }
  }

  lemma ScanIsExact(m: Store, lo: Option<Bytes>, hi: Option<Bytes>)
    ensures AscendingEntries(Scan(m, lo, hi))
    ensures forall e :: e in Scan(m, lo, hi) <==> e.key in m && InRange(e.key, lo, hi) && e.val == m[e.key]
  {
    EntriesAreExact(m, KeysInRange(m, lo, hi));
  }

  ghost function KeysOf(es: seq<Entry>): seq<Bytes> {
    seq(|es|, i requires 0 <= i < |es| => es[i].key)
  }

  /** Ascending entry lists with the same entries are the same list. */
  lemma SameEntries(a: seq<Entry>, b: seq<Entry>)
    requires AscendingEntries(a) && AscendingEntries(b)
    requires forall e :: e in a <==> e in b
    ensures a == b
  {
    var ka, kb := KeysOf(a), KeysOf(b);
    forall k ensures k in ka <==> k in kb {
      if k in ka {
        var i :| 0 <= i < |a| && ka[i] == k;
        assert a[i] in b;
        var j :| 0 <= j < |b| && b[j] == a[i];
        assert kb[j] == k;
      }
      if k in kb {
        var i :| 0 <= i < |b| && kb[i] == k;
        assert b[i] in a;
        var j :| 0 <= j < |a| && a[j] == b[i];
        assert ka[j] == k;
      }
    }
    AscendingIsUnique(ka, kb);
    forall i | 0 <= i < |a| ensures a[i] == b[i] {
      assert a[i] in b;
      var j :| 0 <= j < |b| && b[j] == a[i];
      assert ka[i] == kb[i] == b[j].key;
      if i < j { LessIsTotal(b[i].key, b[j].key); }
      if j < i { LessIsTotal(b[j].key, b[i].key); }
    }
  }

  class KVStore {
    var data: Store

    constructor (contents: Store)
      ensures data == contents
    {
      data := contents;
    }

    function Get(key: Bytes): (r: Option<Bytes>)
      reads this
    {
      if key in data then Some(data[key]) else None
    }

    method Set(key: Bytes, val: Bytes)
      modifies this
      ensures data == old(data)[key := val]
    {
      data := data[key := val];
    }

    method Delete(key: Bytes)
      modifies this
      ensures data == old(data) - {key}
    {
      data := data - {key};
    }

    /** The cursor of `Iterator(lo, hi)`, as the list of entries it will visit. */
    method Iterator(lo: Option<Bytes>, hi: Option<Bytes>) returns (es: seq<Entry>)
      ensures es == Scan(data, lo, hi)
    {
      es := [];
      var rest := set k | k in data && InRange(k, lo, hi);
      while rest != {}
        invariant rest <= KeysInRange(data, lo, hi)
        invariant AscendingEntries(es)
        invariant forall e :: e in es ==> e.key in data && InRange(e.key, lo, hi) && e.val == data[e.key]
        invariant forall k :: k in KeysInRange(data, lo, hi) ==> k in rest || Entry(k, data[k]) in es
        invariant forall e, k :: e in es && k in rest ==> Less(e.key, k)
        decreases |rest|
      {
        var k := PickLeast(rest);
        es := es + [Entry(k, data[k])];
        rest := rest - {k};
      }
      ScanIsExact(data, lo, hi);
      SameEntries(es, Scan(data, lo, hi));
    }
  }

  method PickLeast(s: set<Bytes>) returns (k: Bytes)
    requires s != {}
    ensures IsLeast(k, s)
  {
    k :| k in s;
    var rest := s - {k};
    while rest != {}
      invariant rest <= s && k in s
      invariant forall j :: j in s - rest ==> j == k || Less(k, j)
      decreases |rest|
    {
      var x :| x in rest;
      LessIsTotal(x, k);
      if Less(x, k) {
        forall j | j in s - rest && j != k ensures Less(x, j) { LessIsTransitive(x, k, j); }
        k := x;
      }
      rest := rest - {x};
    }
  }
}
