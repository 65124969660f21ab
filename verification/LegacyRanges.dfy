/** Storage ranges between any two bounds, whole families, and stores on which the view is wrong. */
module LegacyRanges {
  import opened Bytes
  import opened KVStores
  import opened Renamings
  import opened WasmKeys
  import opened WasmMigration
  import opened WasmLossless
  import opened LegacyView
  import opened LegacyIterator
  import opened LegacyScans
  import opened LegacyContractScans

  // ---- storage between any two bounds

  ghost predicate StorageIn(m: Store, s: Bytes, e: Bytes, o: Bytes) {
    o in m && Family(o, 0x05) && |o| >= 2 && InRange(o[2..], Some(s), Some(e))
  }

  /** In the range, storage of 20-byte addresses comes before all storage of 32-byte addresses. */
  ghost predicate ShortBeforeLong(m: Store, s: Bytes, e: Bytes) {
    forall x, y :: StorageIn(m, s, e, x) && StorageIn(m, s, e, y) && x[1] == 20 && y[1] == 32 ==> Less(x[2..], y[2..])
  }

  lemma BoundsOf(m: Store, s: Bytes, e: Bytes)
    ensures var n, n' := AddressLengthPrefix(m, s), AddressLengthPrefix(m, e);
            TranslateBounds(m, Some([0x03] + s), Some([0x03] + e)) ==
            if n.None? then (Some([0x05, 0xff]), Some([0x05, 0xff]))
            else if n'.None? then (Some([0x05, n.value] + s), Some([0x05, n.value] + s))
            else (Some([0x05, n.value] + s), Some([0x05, n'.value] + e))
  {
    assert ([0x03] + s)[1..] == s && ([0x03] + e)[1..] == e;
  }

  /** A window that starts where it ends, or after it, yields nothing. */
  lemma NothingYielded(m: Store, c: ValueCodec, s: Bytes, e: Bytes)
    requires var n, n' := AddressLengthPrefix(m, s), AddressLengthPrefix(m, e);
             n.None? || n'.None? || (n.value == 32 && n'.value == 20)
    ensures ViewScan(m, c, Some([0x03] + s), Some([0x03] + e)) == []
  {
    var n, n' := AddressLengthPrefix(m, s), AddressLengthPrefix(m, e);
    BoundsOf(m, s, e);
    if n.None? {
      NotBelowItself([0x05, 0xff]);
      EmptyWindow(m, [0x05, 0xff], [0x05, 0xff]);
    } else if n'.None? {
      NotBelowItself([0x05, n.value] + s);
      EmptyWindow(m, [0x05, n.value] + s, [0x05, n.value] + s);
    } else {
      ShorterFirst(s, e);
      EmptyWindow(m, [0x05, 32] + s, [0x05, 20] + e);
    }
  }

  lemma StorageSourceIn(m: Store, s: Bytes, e: Bytes, o: Bytes)
    requires WellFormed(m) && o in WithCounters(m) && InRange(NewKey(o), Some([0x03] + s), Some([0x03] + e))
    ensures StorageIn(m, s, e, o) && MapOldToNew(o) == Some(NewKey(o))
  {
    WithCountersWellFormed(m);
    ExtensionInRange([0x03], NewKey(o), s, e);
    FamilyOfNewKey(o);
    StorageKey(o);
    AfterFirst(0x03, o[2..]);
  }

  lemma InRangeIsStored(m: Store, s: Bytes, e: Bytes, o: Bytes)
    requires WellFormed(m) && StorageIn(m, s, e, o)
    ensures InRange(NewKey(o), Some([0x03] + s), Some([0x03] + e))
    ensures NewKey(o) == [0x03] + o[2..] && MapOldToNew(o) == Some(NewKey(o)) && o == [0x05, o[1]] + o[2..]
  {
    StorageKey(o);
    RangeAfterPrefix([0x03], o[2..], s, e);
    FirstTwo(o);
  }

  lemma NothingIff(m: Store, m': Store, c: ValueCodec, s: Bytes, e: Bytes)
    requires Migrated(m, m') && ViewScan(m, c, Some([0x03] + s), Some([0x03] + e)) == []
    ensures ScanAgrees(m, m', c, Some([0x03] + s), Some([0x03] + e)) <==> forall o :: !StorageIn(m, s, e, o)
  {
    var start, end := Some([0x03] + s), Some([0x03] + e);
    if o :| StorageIn(m, s, e, o) {
      InRangeIsStored(m, s, e, o);
      StoredMeansYielded(m, m', c, start, end, o);
    } else {
      NoneInRange(m, m', c, s, e);
    }
  }

  lemma NoneInRange(m: Store, m': Store, c: ValueCodec, s: Bytes, e: Bytes)
    requires Migrated(m, m') && forall o :: !StorageIn(m, s, e, o)
    ensures RecodeValues(c, Scan(m', Some([0x03] + s), Some([0x03] + e))) == []
  {
    var es := Scan(m', Some([0x03] + s), Some([0x03] + e));
    ScanIsExact(m', Some([0x03] + s), Some([0x03] + e));
    if es != [] {
      assert es[0] in es;
      var o := Source(WithCounters(m), m', NewKey, es[0].key);
      StorageSourceIn(m, s, e, o);
    }
  }

  // ---- from a 20-byte to a 32-byte address

  lemma KeptIsStorage(m: Store, s: Bytes, e: Bytes, o: Bytes)
    requires WellFormed(m) && o in m && Keeps(Entry(o, m[o]), Some([0x03] + s), Some([0x03] + e))
    ensures StorageIn(m, s, e, o)
  {
    ExtensionInRange([0x03], MapOldToNew(o).value, s, e);
    StorageFamily(o);
    StorageKey(o);
    AfterFirst(0x03, o[2..]);
  }

  lemma SameLengthOrder(n: byte, x: Bytes, y: Bytes)
    ensures Less([0x05, n] + x, [0x05, n] + y) <==> Less([0x03] + x, [0x03] + y)
    ensures Less([0x03] + x, [0x03] + y) <==> Less(x, y)
  {
    LessAfterPrefix([0x05, n], x, y);
    LessAfterPrefix([0x03], x, y);
  }

  lemma LongAfterShort(x: Bytes, y: Bytes)
    ensures Less([0x05, 20] + x, [0x05, 32] + y)
  {
    var a, b := [0x05, 20] + x, [0x05, 32] + y;
    assert a[1..][0] == 20 && b[1..][0] == 32;
  }

  lemma MixedNamed(m: Store, s: Bytes, e: Bytes)
    requires WellFormed(m) && ShortBeforeLong(m, s, e)
    ensures WindowNamed(m, Some([0x05, 20] + s), Some([0x05, 32] + e), Some([0x03] + s), Some([0x03] + e))
  {
    var start, end := Some([0x03] + s), Some([0x03] + e);
    forall o | o in m && Keeps(Entry(o, m[o]), start, end) ensures MapOldToNew(o) == Some(NewKey(o)) {
      KeptIsStorage(m, s, e, o);
      InRangeIsStored(m, s, e, o);
    }
    forall x, y | x in m && y in m && Less(x, y) && Keeps(Entry(x, m[x]), start, end) && Keeps(Entry(y, m[y]), start, end)
      ensures Less(NewKey(x), NewKey(y))
    {
      KeptIsStorage(m, s, e, x);
      KeptIsStorage(m, s, e, y);
      MixedOrder(m, s, e, x, y);
    }
  }

  lemma MixedOrder(m: Store, s: Bytes, e: Bytes, x: Bytes, y: Bytes)
    requires WellFormed(m) && ShortBeforeLong(m, s, e) && StorageIn(m, s, e, x) && StorageIn(m, s, e, y) && Less(x, y)
    ensures Less(NewKey(x), NewKey(y))
  {
    InRangeIsStored(m, s, e, x);
    InRangeIsStored(m, s, e, y);
    SameLengthOrder(x[1], x[2..], y[2..]);
    if x[1] == 32 && y[1] == 20 { ShorterFirst(x[2..], y[2..]); }
  }

  lemma MixedCovers(m: Store, s: Bytes, e: Bytes)
    requires WellFormed(m)
    ensures WindowCovers(m, Some([0x05, 20] + s), Some([0x05, 32] + e), Some([0x03] + s), Some([0x03] + e))
  {
    forall o | o in WithCounters(m) && InRange(NewKey(o), Some([0x03] + s), Some([0x03] + e))
      ensures o in m && InRange(o, Some([0x05, 20] + s), Some([0x05, 32] + e)) && MapOldToNew(o) == Some(NewKey(o))
    {
      StorageSourceIn(m, s, e, o);
      InMixedWindow(m, s, e, o);
    }
  }

  lemma InMixedWindow(m: Store, s: Bytes, e: Bytes, o: Bytes)
    requires WellFormed(m) && StorageIn(m, s, e, o)
    ensures InRange(o, Some([0x05, 20] + s), Some([0x05, 32] + e))
  {
    FirstTwo(o);
    if o[1] == 20 {
      LessAfterPrefix([0x05, 20], o[2..], s);
      LongAfterShort(o[2..], e);
    } else {
      ShorterFirst(o[2..], s);
      LessAfterPrefix([0x05, 32], o[2..], e);
    }
  }

  /** What an iterator keeps, it keeps in the order it meets it. */
  lemma {:induction false} TranslatedKeepsOrder(es: seq<Entry>, c: ValueCodec, start: Bound, end: Bound, x: Entry, y: Entry)
    requires AscendingEntries(es) && x in es && y in es && Less(x.key, y.key) && Keeps(x, start, end) && Keeps(y, start, end)
    requires AscendingEntries(Translated(es, c, start, end))
    ensures Less(Recode(c, x).key, Recode(c, y).key)
  {
    var rest := Translated(es[1..], c, start, end);
    TranslatedAre(es[1..], c, start, end);
    if x == es[0] {
      InTail(es, x, y);
      assert Recode(c, y) in rest;
      var j :| 0 <= j < |rest| && rest[j] == Recode(c, y);
      var all := Translated(es, c, start, end);
      assert all == [Recode(c, x)] + rest;
      assert all[0] == Recode(c, x) && all[j + 1] == Recode(c, y);
    } else {
      InTail(es, x, y);
      if Keeps(es[0], start, end) { assert Translated(es, c, start, end)[1..] == rest; }
      TranslatedKeepsOrder(es[1..], c, start, end, x, y);
    }
  }

  lemma InTail(es: seq<Entry>, x: Entry, y: Entry)
    requires AscendingEntries(es) && x in es && y in es && Less(x.key, y.key)
    ensures y in es[1..] && (x == es[0] || x in es[1..])
  {
    var i :| 0 <= i < |es| && es[i] == x;
    var j :| 0 <= j < |es| && es[j] == y;
    if j == 0 {
      NotBelowItself(x.key);
      if i > 0 { LessIsTransitive(x.key, y.key, x.key); }
    }
  }

  lemma MixedDisagrees(m: Store, m': Store, c: ValueCodec, s: Bytes, e: Bytes, x: Bytes, y: Bytes)
    requires Migrated(m, m') && AddressLengthPrefix(m, s) == Some(20) && AddressLengthPrefix(m, e) == Some(32)
    requires StorageIn(m, s, e, x) && StorageIn(m, s, e, y) && x[1] == 20 && y[1] == 32 && !Less(x[2..], y[2..])
    ensures !ScanAgrees(m, m', c, Some([0x03] + s), Some([0x03] + e))
  {
    var start, end, lo, hi := Some([0x03] + s), Some([0x03] + e), Some([0x05, 20] + s), Some([0x05, 32] + e);
    BoundsOf(m, s, e);
    InRangeIsStored(m, s, e, x);
    InRangeIsStored(m, s, e, y);
    InMixedWindow(m, s, e, x);
    InMixedWindow(m, s, e, y);
    LongAfterShort(x[2..], y[2..]);
    SameLengthOrder(20, x[2..], y[2..]);
    ScanIsExact(m, lo, hi);
    RecodedScan(m', c, start, end);
    if ScanAgrees(m, m', c, start, end) {
      TranslatedKeepsOrder(Scan(m, lo, hi), c, start, end, Entry(x, m[x]), Entry(y, m[y]));
    }
  }

  /**
   * A storage range between any two bounds agrees exactly in these cases. Bounds too short for an
   * address, or read as a 32-byte and then a 20-byte one, yield nothing and so need an empty range;
   * read as one length, they need a range without storage of the other length; read as a 20-byte and
   * then a 32-byte address, they need all storage of 20-byte addresses to come first.
   */
  lemma StorageRangeIff(m: Store, m': Store, c: ValueCodec, s: Bytes, e: Bytes)
    requires Migrated(m, m')
    ensures var n, n' := AddressLengthPrefix(m, s), AddressLengthPrefix(m, e);
            ScanAgrees(m, m', c, Some([0x03] + s), Some([0x03] + e)) <==>
            if n.None? || n'.None? || (n.value == 32 && n'.value == 20) then forall o :: !StorageIn(m, s, e, o)
            else if n == n' then NoOtherLength(m, n.value, s, e)
            else ShortBeforeLong(m, s, e)
  {
    var n, n' := AddressLengthPrefix(m, s), AddressLengthPrefix(m, e);
    if n.None? || n'.None? || (n.value == 32 && n'.value == 20) {
      NothingYielded(m, c, s, e);
      NothingIff(m, m', c, s, e);
    } else if n == n' {
      StorageWindowIff(m, m', c, n.value, s, e);
    } else if ShortBeforeLong(m, s, e) {
      BoundsOf(m, s, e);
      MixedNamed(m, s, e);
      MixedCovers(m, s, e);
      WindowScan(m, m', c, Some([0x03] + s), Some([0x03] + e), Some([0x05, 20] + s), Some([0x05, 32] + e));
    } else {
      var x, y :| StorageIn(m, s, e, x) && StorageIn(m, s, e, y) && x[1] == 20 && y[1] == 32 && !Less(x[2..], y[2..]);
      MixedDisagrees(m, m', c, s, e, x, y);
    }
  }

  // ---- codes and history

  /** The rest of a family whose keys only change their prefix. */
  lemma FamilyListed(m: Store, m': Store, c: ValueCodec, p: byte, q: byte, hi: byte, s: Bytes)
    requires Migrated(m, m') && (p, q, hi) in {(0x03, 0x01, 0x04), (0x06, 0x05, 0x10)}
    ensures ScanAgrees(m, m', c, Some([q] + s), Some([q + 1]))
  {
    FamilyBounds(m, p, q, hi, s);
    FamilyNamed(m, p, q, hi, s);
    FamilyCovers(m, p, q, hi, s);
    WindowScan(m, m', c, Some([q] + s), Some([q + 1]), Some([p] + s), Some([hi]));
  }

  lemma FamilyBounds(m: Store, p: byte, q: byte, hi: byte, s: Bytes)
    requires (p, q, hi) in {(0x03, 0x01, 0x04), (0x06, 0x05, 0x10)}
    ensures TranslateBounds(m, Some([q] + s), Some([q + 1])) == (Some([p] + s), Some([hi]))
  {
    var start: Bytes, end: Bytes := [q] + s, [q + 1];
    assert start[0] == q && start[1..] == s && end[1..] == [];
    assert [hi] + end[1..] == [hi];
  }

  lemma FamilyNamed(m: Store, p: byte, q: byte, hi: byte, s: Bytes)
    requires WellFormed(m) && (p, q, hi) in {(0x03, 0x01, 0x04), (0x06, 0x05, 0x10)}
    ensures WindowNamed(m, Some([p] + s), Some([hi]), Some([q] + s), Some([q + 1]))
  {
    forall o | o in m && Keeps(Entry(o, m[o]), Some([q] + s), Some([q + 1]))
      ensures Family(o, p) && o == [p] + o[1..] && NewKey(o) == [q] + o[1..] && MapOldToNew(o) == Some(NewKey(o))
    {
      PageRange(MapOldToNew(o).value, q, s);
    }
    forall x, y | x in m && y in m && Less(x, y) && Keeps(Entry(x, m[x]), Some([q] + s), Some([q + 1]))
                  && Keeps(Entry(y, m[y]), Some([q] + s), Some([q + 1]))
      ensures Less(NewKey(x), NewKey(y))
    {
      LessAfterPrefix([p], x[1..], y[1..]);
      LessAfterPrefix([q], x[1..], y[1..]);
    }
  }

  lemma FamilyCovers(m: Store, p: byte, q: byte, hi: byte, s: Bytes)
    requires WellFormed(m) && (p, q, hi) in {(0x03, 0x01, 0x04), (0x06, 0x05, 0x10)}
    ensures WindowCovers(m, Some([p] + s), Some([hi]), Some([q] + s), Some([q + 1]))
  {
    WithCountersWellFormed(m);
    forall o | o in WithCounters(m) && InRange(NewKey(o), Some([q] + s), Some([q + 1]))
      ensures o in m && InRange(o, Some([p] + s), Some([hi])) && MapOldToNew(o) == Some(NewKey(o))
    {
      PageRange(NewKey(o), q, s);
      FamilyOfNewKey(o);
      assert NewKey(o)[1..] == o[1..] && o == [p] + o[1..];
      LessAfterPrefix([p], o[1..], s);
    }
  }

  /** Listing the codes agrees on every store and from every start. */
  lemma CodeListingAgrees(m: Store, m': Store, c: ValueCodec, s: Bytes)
    requires Migrated(m, m')
    ensures ScanAgrees(m, m', c, Some([0x01] + s), Some([0x02]))
  {
    FamilyListed(m, m', c, 0x03, 0x01, 0x04, s);
  }

  /** Listing contract history agrees on every store and from every start. */
  lemma HistoryListingAgrees(m: Store, m': Store, c: ValueCodec, s: Bytes)
    requires Migrated(m, m')
    ensures ScanAgrees(m, m', c, Some([0x05] + s), Some([0x06]))
  {
    FamilyListed(m, m', c, 0x06, 0x05, 0x10, s);
  }

  // ---- ranges of the contract list

  /** Up to an address, or to the end of the list. */
  type Until = Option<Bytes>

  predicate Within(k: Bytes, s: Bytes, e: Until) {
    !Less(k, s) && (e.Some? ==> Less(k, e.value))
  }

  function NewEnd(e: Until): Bytes { if e.Some? then [0x02] + e.value else [0x03] }

  /** The least of the old keys that the start may stand for, and the greatest for the end. */
  function OldStart(s: Bytes): Bytes { Least(BuildLenVariants(0x04, s)) }

  function OldEnd(e: Until): Bytes { if e.Some? then Greatest(BuildLenVariants(0x04, e.value)) else [0x05] }

  /**
   * What a range of the contract list needs of one stored contract: one of 20 bytes in the range must not
   * be cut off by a bound too short for an address, which is read as if the length byte belonged to
   * it; one of 32 bytes must be outside, with and without its length byte.
   */
  predicate Listed(o: Bytes, s: Bytes, e: Until)
    requires |o| >= 2
  {
    if o[1] == 20 then
      Within(o[2..], s, e) ==>
        (|s| < 20 ==> !Less(o[1..], s)) && (e.Some? && |e.value| < 20 ==> Less(o[1..], e.value))
    else !Within(o[2..], s, e) && !Within(o[1..], s, e)
  }

  lemma ListBounds(m: Store, s: Bytes, e: Until)
    ensures TranslateBounds(m, Some([0x02] + s), Some(NewEnd(e))) == (Some(OldStart(s)), Some(OldEnd(e)))
  {
    var start: Bytes, end: Bytes := [0x02] + s, NewEnd(e);
    assert start[0] == 0x02 && start[1..] == s;
    if e.Some? {
      assert end[0] == 0x02 && end[1..] == e.value;
    } else {
      assert end[1..] == [] && [0x05] + end[1..] == [0x05];
      assert TranslateNewToOld(end) == [[0x05]];
    }
  }

  /** The start is no later than any of them, and is the bare one when there is no other. */
  lemma OldStartFacts(s: Bytes, k: Bytes)
    ensures |s| < 20 ==> OldStart(s) == [0x04] + s
    ensures !Less(k, [0x04] + s) ==> !Less(k, OldStart(s))
    ensures |s| >= 20 && !Less(k, [0x04, 20] + s) ==> !Less(k, OldStart(s))
  {
    var bare, short, long := [0x04] + s, [0x04, 20] + s, [0x04, 32] + s;
    var cs := BuildLenVariants(0x04, s);
    if |s| < 20 {
      assert cs == [bare];
    } else {
      assert [bare, short][..1] == [bare];
      NotBelowLeast([bare, short], k);
      if |s| < 32 {
        assert cs == [bare, short];
      } else {
        assert cs == [bare, short, long] && cs[..2] == [bare, short];
        NotBelowLeast(cs, k);
      }
    }
  }

  lemma NotBelowLeast(cs: seq<Bytes>, k: Bytes)
    requires |cs| >= 2
    ensures !Less(k, Least(cs[..|cs| - 1])) || !Less(k, cs[|cs| - 1]) ==> !Less(k, Least(cs))
  {
    NotBelowLesser(k, Least(cs[..|cs| - 1]), cs[|cs| - 1]);
  }

  lemma NotBelowLesser(k: Bytes, a: Bytes, b: Bytes)
    ensures var l := if Less(b, a) then b else a;
            !Less(k, a) || !Less(k, b) ==> !Less(k, l)
  {
    if Less(b, a) {
      if Less(k, b) { LessIsTransitive(k, b, a); }
    } else if Less(k, a) && !Less(k, b) {
      LessIsTotal(k, b);
      LessIsTotal(a, b);
      if Less(b, k) { LessIsTransitive(b, k, a); }
    }
  }

  /** The end is no earlier than any of them, and is the bare one when there is no other. */
  lemma OldEndFacts(e: Bytes, k: Bytes)
    ensures |e| < 20 ==> OldEnd(Some(e)) == [0x04] + e
    ensures Less(k, [0x04] + e) ==> Less(k, OldEnd(Some(e)))
    ensures |e| >= 20 && Less(k, [0x04, 20] + e) ==> Less(k, OldEnd(Some(e)))
  {
    var bare, short, long := [0x04] + e, [0x04, 20] + e, [0x04, 32] + e;
    var cs := BuildLenVariants(0x04, e);
    if |e| < 20 {
      assert cs == [bare];
    } else {
      assert [bare, short][..1] == [bare];
      BelowGreatest([bare, short], k);
      if |e| < 32 {
        assert cs == [bare, short];
      } else {
        assert cs == [bare, short, long] && cs[..2] == [bare, short];
        BelowGreatest(cs, k);
      }
    }
  }

  lemma BelowGreatest(cs: seq<Bytes>, k: Bytes)
    requires |cs| >= 2
    ensures Less(k, Greatest(cs[..|cs| - 1])) || Less(k, cs[|cs| - 1]) ==> Less(k, Greatest(cs))
  {
    BelowGreater(k, Greatest(cs[..|cs| - 1]), cs[|cs| - 1]);
  }

  lemma BelowGreater(k: Bytes, a: Bytes, b: Bytes)
    ensures var g := if Less(a, b) then b else a;
            Less(k, a) || Less(k, b) ==> Less(k, g)
  {
    if Less(a, b) {
      if Less(k, a) { LessIsTransitive(k, a, b); }
    } else if Less(k, b) {
      LessIsTotal(a, b);
      if Less(b, a) { LessIsTransitive(k, b, a); }
    }
  }

  lemma ContractKey(o: Bytes)
    requires WellFormedKey(o) && Family(o, 0x04)
    ensures NewKey(o) == [0x02] + o[2..] && o == [0x04] + o[1..] && o == [0x04, o[1]] + o[2..]
    ensures MapOldToNew(o) == Some(if o[1] == 20 then [0x02] + o[2..] else [0x02] + o[1..])
  {
    LengthByteDropped(o);
    FirstTwo(o);
  }

  lemma InList(k: Bytes, s: Bytes, e: Until)
    ensures InRange([0x02] + k, Some([0x02] + s), Some(NewEnd(e))) <==> Within(k, s, e)
  {
    LessAfterPrefix([0x02], k, s);
    if e.Some? { LessAfterPrefix([0x02], k, e.value); }
  }

  lemma ListFamily(k: Bytes, s: Bytes, e: Until)
    requires InRange(k, Some([0x02] + s), Some(NewEnd(e)))
    ensures Family(k, 0x02)
  {
    if e.Some? { ExtensionInRange([0x02], k, s, e.value); } else { PageRange(k, 0x02, s); }
  }

  /** Where a stored contract stands to the window of old keys. */
  lemma InOldList(o: Bytes, s: Bytes, e: Until)
    requires WellFormedKey(o) && Family(o, 0x04)
    ensures Within(o[1..], s, e) ==> InRange(o, Some(OldStart(s)), Some(OldEnd(e)))
    ensures o[1] == 20 && Within(o[2..], s, e) ==> (InRange(o, Some(OldStart(s)), Some(OldEnd(e))) <==> Listed(o, s, e))
  {
    ContractKey(o);
    OldStartFacts(s, o);
    LessAfterPrefix([0x04], o[1..], s);
    if o[1] == 20 { LessAfterPrefix([0x04, 20], o[2..], s); }
    if e.Some? {
      OldEndFacts(e.value, o);
      LessAfterPrefix([0x04], o[1..], e.value);
      if o[1] == 20 { LessAfterPrefix([0x04, 20], o[2..], e.value); }
    }
  }

  ghost predicate AllListed(m: Store, s: Bytes, e: Until)
    requires WellFormed(m)
  {
    forall o :: o in m && Family(o, 0x04) ==> Listed(o, s, e)
  }

  lemma ListNamed(m: Store, s: Bytes, e: Until)
    requires WellFormed(m) && AllListed(m, s, e)
    ensures WindowNamed(m, Some(OldStart(s)), Some(OldEnd(e)), Some([0x02] + s), Some(NewEnd(e)))
  {
    forall o | o in m && Keeps(Entry(o, m[o]), Some([0x02] + s), Some(NewEnd(e)))
      ensures Family(o, 0x04) && o[1] == 20
    {
      KeptIsContract(m, s, e, o);
    }
    forall o | o in m && Family(o, 0x04) && o[1] == 20 ensures MapOldToNew(o) == Some(NewKey(o)) { ContractKey(o); }
    forall x, y | x in m && y in m && Family(x, 0x04) && Family(y, 0x04) && x[1] == 20 && y[1] == 20 && Less(x, y)
      ensures Less(NewKey(x), NewKey(y))
    {
      ContractKey(x);
      ContractKey(y);
      LessAfterPrefix([0x04, 20], x[2..], y[2..]);
      LessAfterPrefix([0x02], x[2..], y[2..]);
    }
  }

  lemma KeptIsContract(m: Store, s: Bytes, e: Until, o: Bytes)
    requires WellFormed(m) && AllListed(m, s, e)
    requires o in m && Keeps(Entry(o, m[o]), Some([0x02] + s), Some(NewEnd(e)))
    ensures Family(o, 0x04) && o[1] == 20
  {
    ListFamily(MapOldToNew(o).value, s, e);
    ContractFamily(o);
    ContractKey(o);
    InList(if o[1] == 20 then o[2..] else o[1..], s, e);
  }

  lemma ContractFamily(o: Bytes)
    requires MapOldToNew(o).Some? && Family(MapOldToNew(o).value, 0x02)
    ensures Family(o, 0x04)
  {
  }

  lemma ListCovers(m: Store, s: Bytes, e: Until)
    requires WellFormed(m) && AllListed(m, s, e)
    ensures WindowCovers(m, Some(OldStart(s)), Some(OldEnd(e)), Some([0x02] + s), Some(NewEnd(e)))
  {
    WithCountersWellFormed(m);
    forall o | o in WithCounters(m) && InRange(NewKey(o), Some([0x02] + s), Some(NewEnd(e)))
      ensures o in m && InRange(o, Some(OldStart(s)), Some(OldEnd(e))) && MapOldToNew(o) == Some(NewKey(o))
    {
      ListFamily(NewKey(o), s, e);
      FamilyOfNewKey(o);
      ContractKey(o);
      InList(o[2..], s, e);
      InOldList(o, s, e);
    }
  }

  /** A contract of the range that no key of the window is named for. */
  lemma ContractMissed(m: Store, m': Store, c: ValueCodec, s: Bytes, e: Until, o: Bytes)
    requires Migrated(m, m') && o in m && Family(o, 0x04) && Within(o[2..], s, e) && !Listed(o, s, e)
    ensures !ScanAgrees(m, m', c, Some([0x02] + s), Some(NewEnd(e)))
  {
    ListBounds(m, s, e);
    ContractKey(o);
    InList(o[2..], s, e);
    forall x | x in m && InRange(x, Some(OldStart(s)), Some(OldEnd(e))) ensures MapOldToNew(x) != Some(NewKey(o)) {
      NamedIsSame(o, x);
      InOldList(o, s, e);
    }
    Missed(m, m', c, Some([0x02] + s), Some(NewEnd(e)), Some(OldStart(s)), Some(OldEnd(e)), o);
  }

  /** Only a 20-byte contract is named for its own new key. */
  lemma NamedIsSame(o: Bytes, x: Bytes)
    requires WellFormedKey(o) && WellFormedKey(x) && Family(o, 0x04)
    ensures MapOldToNew(x) == Some(NewKey(o)) ==> x == o && o[1] == 20
  {
    ContractKey(o);
    if MapOldToNew(x) == Some(NewKey(o)) {
      ContractFamily(x);
      ContractKey(x);
      if x[1] == 20 {
        AfterFirst(0x02, o[2..]);
        AfterFirst(0x02, x[2..]);
      }
    }
  }

  /** A 32-byte contract is yielded under a key that no migrated entry has. */
  lemma ContractMisnamed(m: Store, m': Store, c: ValueCodec, s: Bytes, e: Until, o: Bytes)
    requires Migrated(m, m') && o in m && Family(o, 0x04) && o[1] == 32 && Within(o[1..], s, e)
    ensures !ScanAgrees(m, m', c, Some([0x02] + s), Some(NewEnd(e)))
  {
    ListBounds(m, s, e);
    ContractKey(o);
    InList(o[1..], s, e);
    InOldList(o, s, e);
    NoSuchContract(m, m', o);
    YieldedElsewhere(m, m', c, Some([0x02] + s), Some(NewEnd(e)), Some(OldStart(s)), Some(OldEnd(e)), o);
  }

  /** An entry yielded under a key that the migrated store does not have. */
  lemma YieldedElsewhere(m: Store, m': Store, c: ValueCodec, start: Bound, end: Bound, lo: Bound, hi: Bound, o: Bytes)
    requires (lo, hi) == TranslateBounds(m, start, end) && o in m && InRange(o, lo, hi)
    requires Keeps(Entry(o, m[o]), start, end) && MapOldToNew(o).value !in m'
    ensures !ScanAgrees(m, m', c, start, end)
  {
    ScanIsExact(m, lo, hi);
    TranslatedAre(Scan(m, lo, hi), c, start, end);
    assert Recode(c, Entry(o, m[o])) in ViewScan(m, c, start, end);
    RecodedScan(m', c, start, end);
  }

  lemma NoSuchContract(m: Store, m': Store, o: Bytes)
    requires Migrated(m, m') && o in m && Family(o, 0x04) && o[1] == 32
    ensures [0x02] + o[1..] !in m'
  {
    var k := [0x02] + o[1..];
    if k in m' {
      var x := Source(WithCounters(m), m', NewKey, k);
      WithCountersWellFormed(m);
      FamilyOfNewKey(x);
      ContractKey(x);
    }
  }

  /**
   * A range of the contract list between any two bounds, or from any start to the end, agrees exactly if
   * no 20-byte contract in it is cut off by a bound too short for an address and no 32-byte contract
   * is in it, with or without its length byte.
   */
  lemma ContractRangeIff(m: Store, m': Store, c: ValueCodec, s: Bytes, e: Until)
    requires Migrated(m, m')
    ensures ScanAgrees(m, m', c, Some([0x02] + s), Some(if e.Some? then [0x02] + e.value else [0x03])) <==> AllListed(m, s, e)
  {
    if AllListed(m, s, e) {
      ListBounds(m, s, e);
      ListNamed(m, s, e);
      ListCovers(m, s, e);
      WindowScan(m, m', c, Some([0x02] + s), Some(NewEnd(e)), Some(OldStart(s)), Some(OldEnd(e)));
    } else {
      var o :| o in m && Family(o, 0x04) && !Listed(o, s, e);
      if Within(o[2..], s, e) { ContractMissed(m, m', c, s, e, o); } else { ContractMisnamed(m, m', c, s, e, o); }
    }
  }

  /** All contracts: none of 32 bytes is outside the range that has no bounds. */
  lemma ContractListingIff(m: Store, m': Store, c: ValueCodec)
    requires Migrated(m, m')
    ensures ScanAgrees(m, m', c, Some([0x02]), Some([0x03])) <==>
            forall o :: o in m && Family(o, 0x04) ==> o[1] == 20
  {
    assert [0x02] + [] == [0x02];
    ContractRangeIff(m, m', c, [], None);
  }

  // ---- stores on which the view is wrong

  /** The migration of a store of one well-formed key. */
  method MigrateOne(k: Bytes) returns (m: Store, m': Store)
    requires WellFormedKey(k)
    ensures m == map[k := [7]] && Migrated(m, m') && AddressesPrefixFree(m)
  {
    m := map[k := [7]];
    OneKeyStore(m, k);
    var store := new KVStore(m);
    MigrateWasmKeys(store);
    m' := store.data;
  }

  lemma OneKeyStore(m: Store, k: Bytes)
    requires m == map[k := [7]] && WellFormedKey(k)
    ensures WellFormed(m) && NoSharedBody(m) && AddressesPrefixFree(m)
  {
    assert |k| >= 34 && k[1] == 20 ==> ([0x05, 32] + k[2..])[1] != k[1];
  }

  lemma StoredUnder(m: Store, a: Bytes)
    requires ValidAddress(a) && m == map[[0x05, |a|] + a := [7]]
    ensures HasStorage(m, a)
  {
    assert [0x05, |a|] + a in m;
  }

  /** All storage of a 20-byte contract whose address ends in 0xff. */
  method EndingInFFExample(c: ValueCodec) returns (m: Store, m': Store, a: Bytes)
    ensures Migrated(m, m') && |a| == 20 && HasStorage(m, a)
    ensures !ScanAgrees(m, m', c, Some([0x03] + a), EndOfPrefix([0x03] + a))
  {
    a := Zeros(19) + [0xff];
    m, m' := MigrateOne([0x05, 20] + a);
    StoredUnder(m, a);
    assert a[0] == 0;
    WholeContractIff(m, m', c, a);
  }

  /** All storage of a 32-byte contract whose next address has none. */
  method LongContractExample(c: ValueCodec) returns (m: Store, m': Store, a: Bytes)
    ensures Migrated(m, m') && |a| == 32 && HasStorage(m, a)
    ensures !ScanAgrees(m, m', c, Some([0x03] + a), EndOfPrefix([0x03] + a))
  {
    a := Zeros(32);
    m, m' := MigrateOne([0x05, 32] + a);
    StoredUnder(m, a);
    NoNeighbour(m, a);
    WholeContractIff(m, m', c, a);
  }

  lemma NoNeighbour(m: Store, a: Bytes)
    requires a == Zeros(32) && m == map[[0x05, 32] + a := [7]]
    ensures !HasStorage(m, Next(a))
  {
    var k, next: Bytes := [0x05, 32] + a, [0x05, 32] + Next(a);
    assert next[33] == 1 && k[33] == 0;
    assert !(next <= k);
  }

  /** The list of contracts when there is a 32-byte one. */
  method LongContractListingExample(c: ValueCodec) returns (m: Store, m': Store)
    ensures Migrated(m, m') && !ScanAgrees(m, m', c, Some([0x02]), Some([0x03]))
  {
    var k: Bytes := [0x04, 32] + Zeros(32);
    m, m' := MigrateOne(k);
    assert k in m && Family(k, 0x04) && k[1] == 32;
    ContractListingIff(m, m', c);
  }

  lemma UnpagedFrom15(k: Bytes, s: Bytes)
    requires |k| >= 3 && k[0] == 0x04 && k[1] == 20 && k[2] == 0x16 && s == [0x15]
    ensures Family(k, 0x04) && !Listed(k, s, None) && [0x02] + s == [0x02, 0x15]
  {
    assert k[2..][0] == 0x16 && k[1..][0] == 20;
  }

  /** A page of the list that starts at the byte 0x15, with a 20-byte contract behind it. */
  method ShortStartExample(c: ValueCodec) returns (m: Store, m': Store)
    ensures Migrated(m, m') && (forall o :: o in m ==> |o| == 22)
    ensures !ScanAgrees(m, m', c, Some([0x02, 0x15]), Some([0x03]))
  {
    var k: Bytes := [0x04, 20] + ([0x16] + Zeros(19));
    var s: Bytes := [0x15];
    UnpagedFrom15(k, s);
    m, m' := MigrateOne(k);
    assert k in m;
    ContractRangeIff(m, m', c, s, None);
  }

  /** The list of the secondary index when it has an entry. */
  method IndexListingExample(c: ValueCodec) returns (m: Store, m': Store)
    ensures Migrated(m, m') && !ScanAgrees(m, m', c, Some([0x06]), Some([0x07]))
  {
    var k: Bytes := [0x10, 1];
    m, m' := MigrateOne(k);
    assert k in m && IndexedFrom(k, []);
    assert [0x06] + [] == [0x06];
    IndexListingIff(m, m', c, []);
  }
}
