/** Where iterating the historical view agrees with iterating the migrated store, and where it does not. */
module LegacyScans {
  import opened Bytes
  import opened KVStores
  import opened WasmKeys
  import opened WasmMigration
  import opened WasmLossless
  import opened LegacyView
  import opened LegacyIterator

  type Bound = Option<Bytes>

  /** The migrated entries with their values re-encoded as the view does. */
  ghost function RecodeValues(c: ValueCodec, es: seq<Entry>): seq<Entry> {
    seq(|es|, i requires 0 <= i < |es| => RecodeValue(c, es[i]))
  }

  function RecodeValue(c: ValueCodec, e: Entry): Entry {
    Entry(e.key, TranslateValue(c, e.key, e.val))
  }

  /** Iterating the view over `[start, end)` yields the migrated store's entries there, once each, in key order. */
  ghost predicate ScanAgrees(m: Store, m': Store, c: ValueCodec, start: Bound, end: Bound) {
    ViewScan(m, c, start, end) == RecodeValues(c, Scan(m', start, end))
  }

  /** The values a scan that agrees yields: codes, contracts and everything else, each as it is read. */
  lemma ScanValues(m: Store, m': Store, c: ValueCodec, start: Bound, end: Bound, i: nat)
    requires ScanAgrees(m, m', c, start, end) && i < |ViewScan(m, c, start, end)|
    ensures |ViewScan(m, c, start, end)| == |Scan(m', start, end)|
    ensures var yielded, stored := ViewScan(m, c, start, end)[i], Scan(m', start, end)[i];
            && yielded.key == stored.key && stored.key in m' && stored.val == m'[stored.key]
            && yielded.val == (if |stored.key| > 0 && stored.key[0] == 0x01 then c.code(stored.val)
                               else if |stored.key| > 0 && stored.key[0] == 0x02 then c.contract(stored.val)
                               else stored.val)
  {
    ScanIsExact(m', start, end);
    var stored := Scan(m', start, end)[i];
    assert stored in Scan(m', start, end);
  }

  lemma RecodedScan(m': Store, c: ValueCodec, start: Bound, end: Bound)
    ensures AscendingEntries(RecodeValues(c, Scan(m', start, end)))
    ensures forall e :: e in RecodeValues(c, Scan(m', start, end)) <==>
              e.key in m' && InRange(e.key, start, end) && e == RecodeValue(c, Entry(e.key, m'[e.key]))
  {
    ScanIsExact(m', start, end);
    var es, rs := Scan(m', start, end), RecodeValues(c, Scan(m', start, end));
    forall e: Entry | e.key in m' && InRange(e.key, start, end) && e == RecodeValue(c, Entry(e.key, m'[e.key]))
      ensures e in rs
    {
      assert Entry(e.key, m'[e.key]) in es;
      var i :| 0 <= i < |es| && es[i] == Entry(e.key, m'[e.key]);
      assert rs[i] == e;
    }
    forall e | e in rs
      ensures e.key in m' && InRange(e.key, start, end) && e == RecodeValue(c, Entry(e.key, m'[e.key]))
    {
      var i :| 0 <= i < |rs| && rs[i] == e;
      assert es[i] in es;
    }
  }

  // ---- a window of old keys that matches a window of new keys

  /** The old keys iterated are named as the migration names them, in the same order. */
  ghost predicate WindowNamed(m: Store, lo: Bound, hi: Bound, start: Bound, end: Bound) {
    && (forall o :: o in m && InRange(o, lo, hi) && Keeps(Entry(o, m[o]), start, end) ==>
          MapOldToNew(o) == Some(NewKey(o)))
    && (forall a, b :: a in m && b in m && InRange(a, lo, hi) && InRange(b, lo, hi) && Less(a, b)
                       && Keeps(Entry(a, m[a]), start, end) && Keeps(Entry(b, m[b]), start, end) ==>
          Less(NewKey(a), NewKey(b)))
  }

  /** Every old key whose new key is asked for is among the old keys iterated. */
  ghost predicate WindowCovers(m: Store, lo: Bound, hi: Bound, start: Bound, end: Bound) {
    forall o :: o in WithCounters(m) && InRange(NewKey(o), start, end) ==>
      o in m && InRange(o, lo, hi) && MapOldToNew(o) == Some(NewKey(o))
  }

  lemma WindowScan(m: Store, m': Store, c: ValueCodec, start: Bound, end: Bound, lo: Bound, hi: Bound)
    requires Migrated(m, m') && (lo, hi) == TranslateBounds(m, start, end)
    requires WindowNamed(m, lo, hi, start, end) && WindowCovers(m, lo, hi, start, end)
    ensures ScanAgrees(m, m', c, start, end)
  {
    var es, vs, rs := Scan(m, lo, hi), ViewScan(m, c, start, end), RecodeValues(c, Scan(m', start, end));
    ScanIsExact(m, lo, hi);
    TranslatedAre(es, c, start, end);
    RecodedScan(m', c, start, end);
    WindowAscends(m, c, start, end, lo, hi);
    forall e ensures e in vs <==> e in rs {
      if e in vs { YieldedIsMigrated(m, m', c, start, end, lo, hi, e); }
      if e in rs { MigratedIsYielded(m, m', c, start, end, lo, hi, e); }
    }
    SameEntries(vs, rs);
  }

  lemma WindowAscends(m: Store, c: ValueCodec, start: Bound, end: Bound, lo: Bound, hi: Bound)
    requires WindowNamed(m, lo, hi, start, end)
    ensures AscendingEntries(Translated(Scan(m, lo, hi), c, start, end))
  {
    ScanIsExact(m, lo, hi);
    TranslatedAscends(Scan(m, lo, hi), c, start, end);
  }

  lemma YieldedIsMigrated(m: Store, m': Store, c: ValueCodec, start: Bound, end: Bound, lo: Bound, hi: Bound, e: Entry)
    requires Migrated(m, m') && WindowNamed(m, lo, hi, start, end)
    requires e in Translated(Scan(m, lo, hi), c, start, end)
    ensures e in RecodeValues(c, Scan(m', start, end))
  {
    ScanIsExact(m, lo, hi);
    TranslatedAre(Scan(m, lo, hi), c, start, end);
    var x :| x in Scan(m, lo, hi) && Keeps(x, start, end) && e == Recode(c, x);
    assert x == Entry(x.key, m[x.key]);
    MigrationLosslessIff(m, m');
    RecodedScan(m', c, start, end);
  }

  lemma MigratedIsYielded(m: Store, m': Store, c: ValueCodec, start: Bound, end: Bound, lo: Bound, hi: Bound, e: Entry)
    requires Migrated(m, m') && WindowCovers(m, lo, hi, start, end)
    requires e in RecodeValues(c, Scan(m', start, end))
    ensures e in Translated(Scan(m, lo, hi), c, start, end)
  {
    RecodedScan(m', c, start, end);
    var o :| o in WithCounters(m) && NewKey(o) == e.key && WithCounters(m)[o] == m'[e.key];
    ScanIsExact(m, lo, hi);
    TranslatedAre(Scan(m, lo, hi), c, start, end);
    assert Entry(o, m[o]) in Scan(m, lo, hi) && Keeps(Entry(o, m[o]), start, end);
    assert Recode(c, Entry(o, m[o])) == e;
  }

  // ---- windows behind a fixed prefix

  lemma RangeAfterPrefix(p: Bytes, x: Bytes, s: Bytes, e: Bytes)
    ensures InRange(p + x, Some(p + s), Some(p + e)) <==> InRange(x, Some(s), Some(e))
  {
    LessAfterPrefix(p, x, s);
    LessAfterPrefix(p, x, e);
  }

  lemma ExtensionInRange(p: Bytes, k: Bytes, s: Bytes, e: Bytes)
    requires InRange(k, Some(p + s), Some(p + e))
    ensures p <= k && k == p + k[|p|..] && InRange(k[|p|..], Some(s), Some(e))
  {
    BetweenExtensions(p, s, e, k);
    RangeAfterPrefix(p, k[|p|..], s, e);
  }

  /** Old keys `p + x` become new keys `q + x` for every `x` in the window, and no other key does. */
  ghost predicate PrefixSwap(m: Store, p: Bytes, q: Bytes, s: Bytes, e: Bytes) {
    && (forall o :: o in m && p <= o && InRange(o[|p|..], Some(s), Some(e)) ==>
          NewKey(o) == q + o[|p|..] && MapOldToNew(o) == Some(NewKey(o)))
    && (forall o :: o in WithCounters(m) && InRange(NewKey(o), Some(q + s), Some(q + e)) ==>
          o in m && p <= o && NewKey(o) == q + o[|p|..])
  }

  lemma SwapNames(m: Store, p: Bytes, q: Bytes, s: Bytes, e: Bytes)
    requires PrefixSwap(m, p, q, s, e)
    ensures WindowNamed(m, Some(p + s), Some(p + e), Some(q + s), Some(q + e))
  {
    forall o | o in m && InRange(o, Some(p + s), Some(p + e))
      ensures p <= o && InRange(o[|p|..], Some(s), Some(e))
    {
      ExtensionInRange(p, o, s, e);
    }
    forall a, b | a in m && b in m && InRange(a, Some(p + s), Some(p + e)) && InRange(b, Some(p + s), Some(p + e))
                  && Less(a, b)
      ensures Less(NewKey(a), NewKey(b))
    {
      ExtensionInRange(p, a, s, e);
      ExtensionInRange(p, b, s, e);
      LessAfterPrefix(p, a[|p|..], b[|p|..]);
      LessAfterPrefix(q, a[|p|..], b[|p|..]);
    }
  }

  lemma SwapCovers(m: Store, p: Bytes, q: Bytes, s: Bytes, e: Bytes)
    requires PrefixSwap(m, p, q, s, e)
    ensures WindowCovers(m, Some(p + s), Some(p + e), Some(q + s), Some(q + e))
  {
    forall o | o in WithCounters(m) && InRange(NewKey(o), Some(q + s), Some(q + e))
      ensures o in m && InRange(o, Some(p + s), Some(p + e)) && MapOldToNew(o) == Some(NewKey(o))
    {
      RangeAfterPrefix(q, o[|p|..], s, e);
      RangeAfterPrefix(p, o[|p|..], s, e);
      assert o == p + o[|p|..];
    }
  }

  lemma SwapAgrees(m: Store, m': Store, c: ValueCodec, p: Bytes, q: Bytes, s: Bytes, e: Bytes)
    requires Migrated(m, m') && PrefixSwap(m, p, q, s, e)
    requires TranslateBounds(m, Some(q + s), Some(q + e)) == (Some(p + s), Some(p + e))
    ensures ScanAgrees(m, m', c, Some(q + s), Some(q + e))
  {
    SwapNames(m, p, q, s, e);
    SwapCovers(m, p, q, s, e);
    WindowScan(m, m', c, Some(q + s), Some(q + e), Some(p + s), Some(p + e));
  }

  /** The prefix every old key outside contract storage keeps or trades for another. */
  lemma FamilyOfNewKey(o: Bytes)
    requires WellFormedKey(o)
    ensures NewKey(o) != []
    ensures var f := NewKey(o)[0];
            && (f == 0x01 <==> o[0] == 0x03) && (f == 0x02 <==> o[0] == 0x04) && (f == 0x03 <==> o[0] == 0x05)
            && (f == 0x05 <==> o[0] == 0x06) && (f == 0x06 <==> o[0] == 0x10)
  {
    if o[0] == 0x01 { assert o == OldCodeSeq; }
    if o[0] == 0x02 { assert o == OldInstanceSeq; }
  }

  // ---- code, history and index windows

  lemma PlainBounds(m: Store, p: byte, q: byte, s: Bytes, e: Bytes)
    requires (p, q) in {(0x03, 0x01), (0x06, 0x05), (0x10, 0x06)}
    ensures TranslateBounds(m, Some([q] + s), Some([q] + e)) == (Some([p] + s), Some([p] + e))
  {
    assert ([q] + s)[1..] == s && ([q] + e)[1..] == e;
  }

  lemma PlainSource(m: Store, p: byte, q: byte, s: Bytes, e: Bytes, o: Bytes)
    requires WellFormed(m) && (p, q) in {(0x03, 0x01), (0x06, 0x05), (0x10, 0x06)}
    requires o in WithCounters(m) && InRange(NewKey(o), Some([q] + s), Some([q] + e))
    ensures o in m && [p] <= o && NewKey(o) == [q] + o[1..]
  {
    WithCountersWellFormed(m);
    ExtensionInRange([q], NewKey(o), s, e);
    FamilyOfNewKey(o);
  }

  lemma PlainSwap(m: Store, p: byte, q: byte, s: Bytes, e: Bytes)
    requires WellFormed(m) && (p, q) in {(0x03, 0x01), (0x06, 0x05), (0x10, 0x06)}
    ensures PrefixSwap(m, [p], [q], s, e)
  {
    forall o | o in m && [p] <= o ensures NewKey(o) == [q] + o[1..] && MapOldToNew(o) == Some(NewKey(o)) { }
    forall o | o in WithCounters(m) && InRange(NewKey(o), Some([q] + s), Some([q] + e))
      ensures o in m && [p] <= o && NewKey(o) == [q] + o[1..]
    {
      PlainSource(m, p, q, s, e, o);
    }
  }

  /** Windows inside the code, history or secondary-index prefix agree. */
  lemma PlainWindowAgrees(m: Store, m': Store, c: ValueCodec, p: byte, q: byte, s: Bytes, e: Bytes)
    requires Migrated(m, m') && (p, q) in {(0x03, 0x01), (0x06, 0x05), (0x10, 0x06)}
    ensures ScanAgrees(m, m', c, Some([q] + s), Some([q] + e))
  {
    PlainBounds(m, p, q, s, e);
    PlainSwap(m, p, q, s, e);
    SwapAgrees(m, m', c, [p], [q], s, e);
  }

  // ---- contract storage

  /** No storage key of the other address length has its body in the window. */
  ghost predicate NoOtherLength(m: Store, n: byte, s: Bytes, e: Bytes) {
    forall o :: o in m && Family(o, 0x05) && |o| >= 2 && o[1] != n ==> !InRange(o[2..], Some(s), Some(e))
  }

  lemma StorageBounds(m: Store, n: byte, s: Bytes, e: Bytes)
    requires AddressLengthPrefix(m, s) == AddressLengthPrefix(m, e) == Some(n)
    ensures TranslateBounds(m, Some([0x03] + s), Some([0x03] + e)) == (Some([0x05, n] + s), Some([0x05, n] + e))
  {
    assert ([0x03] + s)[1..] == s && ([0x03] + e)[1..] == e;
  }

  lemma StorageKey(o: Bytes)
    requires WellFormedKey(o) && Family(o, 0x05)
    ensures NewKey(o) == [0x03] + o[2..] && MapOldToNew(o) == Some(NewKey(o))
  {
    LengthByteDropped(o);
    MapOldToNewIff(o);
  }

  lemma StorageSource(m: Store, n: byte, s: Bytes, e: Bytes, o: Bytes)
    requires WellFormed(m) && NoOtherLength(m, n, s, e)
    requires o in WithCounters(m) && InRange(NewKey(o), Some([0x03] + s), Some([0x03] + e))
    ensures o in m && [0x05, n] <= o && NewKey(o) == [0x03] + o[2..]
  {
    WithCountersWellFormed(m);
    ExtensionInRange([0x03], NewKey(o), s, e);
    FamilyOfNewKey(o);
    StorageKey(o);
    FirstTwo(o);
    AfterFirst(0x03, o[2..]);
  }

  lemma FirstTwo<T>(o: seq<T>)
    requires |o| >= 2
    ensures o == [o[0], o[1]] + o[2..] && [o[0], o[1]] <= o
  {
  }

  lemma AfterFirst<T>(x: T, s: seq<T>)
    ensures ([x] + s)[1..] == s
  {
  }

  lemma StorageSwap(m: Store, n: byte, s: Bytes, e: Bytes)
    requires WellFormed(m) && NoOtherLength(m, n, s, e)
    ensures PrefixSwap(m, [0x05, n], [0x03], s, e)
  {
    var p: Bytes, q: Bytes := [0x05, n], [0x03];
    forall o | o in m && p <= o ensures NewKey(o) == q + o[|p|..] && MapOldToNew(o) == Some(NewKey(o)) {
      StorageKey(o);
    }
    forall o | o in WithCounters(m) && InRange(NewKey(o), Some(q + s), Some(q + e))
      ensures o in m && p <= o && NewKey(o) == q + o[|p|..]
    {
      StorageSource(m, n, s, e, o);
    }
  }

  lemma TwinAbsent(m: Store, o: Bytes)
    requires WellFormed(m) && NoSharedBody(m) && o in m && Family(o, 0x05)
    ensures Twin(o) !in m
  {
    var t := Twin(o);
    assert t[2..] == o[2..] && o == [0x05, o[1]] + o[2..];
    assert o[1] == 32 ==> [0x05, 32] + t[2..] == o;
  }

  lemma NoneNamed(m: Store, n: byte, s: Bytes, e: Bytes, o: Bytes, x: Bytes)
    requires WellFormed(m) && NoSharedBody(m) && o in m && Family(o, 0x05) && o[1] != n && (n == 20 || n == 32)
    requires x in m && InRange(x, Some([0x05, n] + s), Some([0x05, n] + e))
    ensures MapOldToNew(x) != Some(NewKey(o))
  {
    ExtensionInRange([0x05, n], x, s, e);
    StorageKey(x);
    StorageKey(o);
    TwinAbsent(m, o);
    assert NewKey(x)[1..] == x[2..] && NewKey(o)[1..] == o[2..];
  }

  /** An entry missing from what the view yields refutes agreement. */
  lemma Missed(m: Store, m': Store, c: ValueCodec, start: Bound, end: Bound, lo: Bound, hi: Bound, o: Bytes)
    requires Migrated(m, m') && (lo, hi) == TranslateBounds(m, start, end)
    requires o in m && InRange(NewKey(o), start, end)
    requires forall x :: x in m && InRange(x, lo, hi) ==> MapOldToNew(x) != Some(NewKey(o))
    ensures !ScanAgrees(m, m', c, start, end)
  {
    MigrationLosslessIff(m, m');
    RecodedScan(m', c, start, end);
    NotYielded(m, c, start, end, NewKey(o));
    assert RecodeValue(c, Entry(NewKey(o), m[o])) in RecodeValues(c, Scan(m', start, end));
  }

  lemma StorageMissed(m: Store, m': Store, c: ValueCodec, n: byte, s: Bytes, e: Bytes, o: Bytes)
    requires Migrated(m, m') && AddressLengthPrefix(m, s) == AddressLengthPrefix(m, e) == Some(n)
    requires o in m && Family(o, 0x05) && o[1] != n && InRange(o[2..], Some(s), Some(e))
    ensures !ScanAgrees(m, m', c, Some([0x03] + s), Some([0x03] + e))
  {
    StorageKey(o);
    RangeAfterPrefix([0x03], o[2..], s, e);
    forall x | x in m && InRange(x, Some([0x05, n] + s), Some([0x05, n] + e))
      ensures MapOldToNew(x) != Some(NewKey(o))
    {
      NoneNamed(m, n, s, e, o, x);
    }
    StorageBounds(m, n, s, e);
    Missed(m, m', c, Some([0x03] + s), Some([0x03] + e), Some([0x05, n] + s), Some([0x05, n] + e), o);
  }

  lemma NotYielded(m: Store, c: ValueCodec, start: Bound, end: Bound, k: Bytes)
    requires var (lo, hi) := TranslateBounds(m, start, end);
             forall x :: x in m && InRange(x, lo, hi) ==> MapOldToNew(x) != Some(k)
    ensures forall e :: e in ViewScan(m, c, start, end) ==> e.key != k
  {
    var (lo, hi) := TranslateBounds(m, start, end);
    ScanIsExact(m, lo, hi);
    TranslatedAre(Scan(m, lo, hi), c, start, end);
  }

  /**
   * With both bounds read as addresses of the same length, the view iterates contract storage exactly
   * as the migrated store does if and only if no contract of the other length has storage in between.
   */
  lemma StorageWindowIff(m: Store, m': Store, c: ValueCodec, n: byte, s: Bytes, e: Bytes)
    requires Migrated(m, m') && AddressLengthPrefix(m, s) == AddressLengthPrefix(m, e) == Some(n)
    ensures ScanAgrees(m, m', c, Some([0x03] + s), Some([0x03] + e)) <==> NoOtherLength(m, n, s, e)
  {
    if NoOtherLength(m, n, s, e) {
      StorageBounds(m, n, s, e);
      StorageSwap(m, n, s, e);
      SwapAgrees(m, m', c, [0x05, n], [0x03], s, e);
    } else {
      var o :| o in m && Family(o, 0x05) && |o| >= 2 && o[1] != n && InRange(o[2..], Some(s), Some(e));
      StorageMissed(m, m', c, n, s, e, o);
    }
  }
}
