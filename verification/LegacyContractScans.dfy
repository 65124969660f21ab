/** Iterating one contract's storage, and listing a whole family, through the historical view. */
module LegacyContractScans {
  import opened Bytes
  import opened KVStores
  import opened WasmKeys
  import opened WasmMigration
  import opened WasmLossless
  import opened LegacyView
  import opened LegacyIterator
  import opened LegacyScans

  // ---- windows inside one contract's storage

  /** The contract at `a` has at least one storage key. */
  ghost predicate HasStorage(m: Store, a: Bytes) {
    ValidAddress(a) && AnyWithPrefix(m, [0x05, |a|] + a)
  }

  /**
   * The length a bound is read with: 20 if the 20-byte address it starts with has storage, else 32 if
   * the 32-byte one has, else 20; a bound shorter than an address has none.
   */
  lemma LengthReadIff(m: Store, a: Bytes, x: Bytes)
    requires ValidAddress(a)
    ensures AddressLengthPrefix(m, a + x) == Some(32) <==>
            |a + x| >= 32 && HasStorage(m, (a + x)[..32]) && !HasStorage(m, (a + x)[..20])
    ensures |a| == 20 && HasStorage(m, a) ==> AddressLengthPrefix(m, a + x) == Some(20)
    ensures |x| < 20 ==> AddressLengthPrefix(m, x) == None
  {
    if |a| == 20 { assert (a + x)[..20] == a; }
  }

  lemma OtherLengthElsewhere(m: Store, a: Bytes, o: Bytes)
    requires WellFormed(m) && AddressesPrefixFree(m) && HasStorage(m, a)
    requires o in m && Family(o, 0x05) && |o| >= 2 && o[1] != |a|
    ensures |o| >= 22 && o[2..22] != a[..20]
  {
    var k :| k in m && [0x05, |a|] + a <= k;
    assert k[..2 + |a|] == [0x05, |a|] + a;
    assert k[2..22] == k[..2 + |a|][2..22] == a[..20];
  }

  lemma NoShortAddress(m: Store, a: Bytes)
    requires WellFormed(m) && AddressesPrefixFree(m) && HasStorage(m, a) && |a| == 32
    ensures !AnyWithPrefix(m, [0x05, 20] + a[..20])
  {
    forall o | o in m && [0x05, 20] <= o ensures !([0x05, 20] + a[..20] <= o) {
      OtherLengthElsewhere(m, a, o);
      assert ([0x05, 20] + a[..20])[2..] == a[..20];
      assert o[..22][2..] == o[2..22];
    }
  }

  lemma LengthRecognized(m: Store, a: Bytes, s: Bytes)
    requires WellFormed(m) && AddressesPrefixFree(m) && HasStorage(m, a)
    ensures AddressLengthPrefix(m, a + s) == Some(|a|)
  {
    assert (a + s)[..|a|] == a && (a + s)[..20] == a[..20];
    if |a| == 32 { NoShortAddress(m, a); }
  }

  lemma OwnRange(m: Store, a: Bytes, lo: Bytes, hi: Bytes)
    requires WellFormed(m) && AddressesPrefixFree(m) && HasStorage(m, a)
    requires forall y :: InRange(y, Some(lo), Some(hi)) ==> a <= y
    ensures NoOtherLength(m, |a|, lo, hi)
  {
    forall o | o in m && Family(o, 0x05) && |o| >= 2 && o[1] != |a| ensures !InRange(o[2..], Some(lo), Some(hi)) {
      OtherLengthElsewhere(m, a, o);
      assert o[2..][..20] == o[2..22];
    }
  }

  /**
   * Inside the storage of one contract, of either address length, the view iterates exactly the
   * migrated entries.
   */
  lemma OneContractAgrees(m: Store, m': Store, c: ValueCodec, a: Bytes, s: Bytes, e: Bytes)
    requires Migrated(m, m') && AddressesPrefixFree(m) && HasStorage(m, a)
    ensures ScanAgrees(m, m', c, Some([0x03] + (a + s)), Some([0x03] + (a + e)))
  {
    LengthRecognized(m, a, s);
    LengthRecognized(m, a, e);
    forall y | InRange(y, Some(a + s), Some(a + e)) ensures a <= y { BetweenExtensions(a, s, e, y); }
    OwnRange(m, a, a + s, a + e);
    StorageWindowIff(m, m', c, |a|, a + s, a + e);
  }

  // ---- the whole of one contract's storage

  /** The least key above every extension of `k`, if there is one. */
  function EndOfPrefix(k: Bytes): Option<Bytes> {
    if k == [] then None
    else if k[|k| - 1] < 255 then Some(k[..|k| - 1] + [k[|k| - 1] + 1])
    else EndOfPrefix(k[..|k| - 1])
  }

  lemma {:induction false} BelowNext(a: Bytes, x: byte, y: Bytes)
    requires x < 255 && !Less(y, a + [x]) && Less(y, a + [x + 1])
    ensures a + [x] <= y
  {
    BetweenExtensions(a, [x], [x + 1], y);
    var r := y[|a|..];
    assert y == a + r;
    LessAfterPrefix(a, r, [x]);
    LessAfterPrefix(a, r, [x + 1]);
    assert !Less(r[1..], [x + 1 as byte][1..]);
  }

  function Next(a: Bytes): Bytes
    requires |a| > 0 && a[|a| - 1] < 255
  {
    a[..|a| - 1] + [a[|a| - 1] + 1]
  }

  lemma WholeBounds(a: Bytes)
    requires |a| > 0 && a[|a| - 1] < 255
    ensures EndOfPrefix([0x03] + a) == Some([0x03] + Next(a))
  {
    var k := [0x03] + a;
    assert k[..|k| - 1] == [0x03] + a[..|a| - 1];
    assert [0x03] + a[..|a| - 1] + [a[|a| - 1] + 1 as byte] == [0x03] + Next(a);
  }

  lemma BelowNextAddress(a: Bytes, y: Bytes)
    requires |a| > 0 && a[|a| - 1] < 255 && InRange(y, Some(a), Some(Next(a)))
    ensures a <= y
  {
    assert a == a[..|a| - 1] + [a[|a| - 1]];
    BelowNext(a[..|a| - 1], a[|a| - 1], y);
  }

  lemma WholeOwnRange(m: Store, a: Bytes)
    requires WellFormed(m) && AddressesPrefixFree(m) && HasStorage(m, a) && a[|a| - 1] < 255
    ensures NoOtherLength(m, |a|, a, Next(a)) && AddressLengthPrefix(m, a) == Some(|a|)
  {
    forall y | InRange(y, Some(a), Some(Next(a))) ensures a <= y { BelowNextAddress(a, y); }
    OwnRange(m, a, a, Next(a));
    assert a + [] == a;
    LengthRecognized(m, a, []);
  }

  /** All storage of a 20-byte contract is iterated rightly unless its address ends in 0xff. */
  lemma WholeContract20Agrees(m: Store, m': Store, c: ValueCodec, a: Bytes)
    requires Migrated(m, m') && AddressesPrefixFree(m) && HasStorage(m, a) && |a| == 20 && a[19] < 255
    ensures ScanAgrees(m, m', c, Some([0x03] + a), EndOfPrefix([0x03] + a))
  {
    WholeBounds(a);
    WholeOwnRange(m, a);
    StorageWindowIff(m, m', c, 20, a, Next(a));
  }

  lemma {:induction false} ShortEnd(a: Bytes)
    requires |a| > 0 && a[|a| - 1] == 255 && exists i :: 0 <= i < |a| && a[i] < 255
    ensures var end := EndOfPrefix([0x03] + a);
            end.Some? && Family(end.value, 0x03) && |end.value| <= |a|
  {
    var b := a[..|a| - 1];
    assert ([0x03] + a)[..|a|] == [0x03] + b;
    assert b != [] by { var i :| 0 <= i < |a| && a[i] < 255; }
    if b[|b| - 1] == 255 {
      var i :| 0 <= i < |a| && a[i] < 255;
      assert b[i] < 255;
      ShortEnd(b);
    } else {
      assert EndOfPrefix([0x03] + b) == Some(([0x03] + b)[..|b|] + [b[|b| - 1] + 1]);
    }
  }

  lemma EmptyWindow(m: Store, lo: Bytes, hi: Bytes)
    requires !Less(lo, hi)
    ensures Scan(m, Some(lo), Some(hi)) == []
  {
    forall k ensures !InRange(k, Some(lo), Some(hi)) {
      LessIsTotal(k, lo);
      LessIsTotal(k, hi);
      if Less(k, hi) && !Less(k, lo) && k != lo { LessIsTransitive(lo, k, hi); }
    }
    assert KeysInRange(m, Some(lo), Some(hi)) == {};
  }

  /** All storage of a 20-byte contract whose address ends in 0xff (and is not all 0xff) is iterated as empty. */
  lemma WholeContractEndingInFF(m: Store, c: ValueCodec, a: Bytes)
    requires |a| == 20 && a[19] == 255 && exists i :: 0 <= i < 20 && a[i] < 255
    ensures ViewScan(m, c, Some([0x03] + a), EndOfPrefix([0x03] + a)) == []
  {
    ShortEnd(a);
    var end := EndOfPrefix([0x03] + a);
    ShortEndBounds(m, a, end.value);
    LessIsTotal([0x05, LengthOf(m, a)] + a, [0x05, LengthOf(m, a)] + a);
    EmptyWindow(m, [0x05, LengthOf(m, a)] + a, [0x05, LengthOf(m, a)] + a);
  }

  function LengthOf(m: Store, a: Bytes): byte
    requires |a| == 20
  {
    AddressLengthPrefix(m, a).value
  }

  lemma ShortEndBounds(m: Store, a: Bytes, end: Bytes)
    requires |a| == 20 && Family(end, 0x03) && |end| <= 20
    ensures TranslateBounds(m, Some([0x03] + a), Some(end)) ==
            (Some([0x05, LengthOf(m, a)] + a), Some([0x05, LengthOf(m, a)] + a))
  {
    assert ([0x03] + a)[1..] == a;
  }

  /**
   * All storage of a 32-byte contract is iterated rightly exactly when the next address has storage
   * too: otherwise the end bound is taken for a 20-byte address and nothing is yielded.
   */
  lemma WholeContract32Iff(m: Store, m': Store, c: ValueCodec, a: Bytes)
    requires Migrated(m, m') && AddressesPrefixFree(m) && HasStorage(m, a) && |a| == 32 && a[31] < 255
    ensures ScanAgrees(m, m', c, Some([0x03] + a), EndOfPrefix([0x03] + a)) <==> HasStorage(m, Next(a))
    ensures !HasStorage(m, Next(a)) ==> ViewScan(m, c, Some([0x03] + a), EndOfPrefix([0x03] + a)) == []
  {
    WholeBounds(a);
    WholeOwnRange(m, a);
    NextLength(m, a);
    if HasStorage(m, Next(a)) {
      StorageWindowIff(m, m', c, 32, a, Next(a));
    } else {
      Whole32Empty(m, m', c, a);
    }
  }

  lemma NextLength(m: Store, a: Bytes)
    requires WellFormed(m) && AddressesPrefixFree(m) && HasStorage(m, a) && |a| == 32 && a[31] < 255
    ensures AddressLengthPrefix(m, Next(a)) == Some(if HasStorage(m, Next(a)) then 32 else 20)
  {
    assert Next(a)[..20] == a[..20] && Next(a)[..32] == Next(a);
    NoShortAddress(m, a);
  }

  lemma Whole32Bounds(m: Store, a: Bytes)
    requires |a| == 32 && a[31] < 255
    requires AddressLengthPrefix(m, a) == Some(32) && AddressLengthPrefix(m, Next(a)) == Some(20)
    ensures TranslateBounds(m, Some([0x03] + a), Some([0x03] + Next(a))) ==
            (Some([0x05, 32] + a), Some([0x05, 20] + Next(a)))
    ensures Scan(m, Some([0x05, 32] + a), Some([0x05, 20] + Next(a))) == []
  {
    assert ([0x03] + a)[1..] == a && ([0x03] + Next(a))[1..] == Next(a);
    var lo, hi := [0x05, 32] + a, [0x05, 20] + Next(a);
    assert lo[1..][0] == 32 && hi[1..][0] == 20;
    EmptyWindow(m, lo, hi);
  }

  lemma Whole32Empty(m: Store, m': Store, c: ValueCodec, a: Bytes)
    requires Migrated(m, m') && HasStorage(m, a) && |a| == 32 && a[31] < 255
    requires AddressLengthPrefix(m, a) == Some(32) && AddressLengthPrefix(m, Next(a)) == Some(20)
    ensures ViewScan(m, c, Some([0x03] + a), Some([0x03] + Next(a))) == []
    ensures !ScanAgrees(m, m', c, Some([0x03] + a), Some([0x03] + Next(a)))
  {
    Whole32Bounds(m, a);
    var k :| k in m && [0x05, 32] + a <= k;
    OwnKeyInRange(a, k);
    StoredMeansYielded(m, m', c, Some([0x03] + a), Some([0x03] + Next(a)), k);
  }

  /** A stored entry in range keeps a scan of the migrated store from being empty. */
  lemma StoredMeansYielded(m: Store, m': Store, c: ValueCodec, start: Bound, end: Bound, o: Bytes)
    requires Migrated(m, m') && o in m && InRange(NewKey(o), start, end)
    ensures RecodeValues(c, Scan(m', start, end)) != []
  {
    MigrationLosslessIff(m, m');
    RecodedScan(m', c, start, end);
    assert RecodeValue(c, Entry(NewKey(o), m[o])) in RecodeValues(c, Scan(m', start, end));
  }

  lemma OwnKeyInRange(a: Bytes, k: Bytes)
    requires |a| == 32 && a[31] < 255 && [0x05, 32] + a <= k && WellFormedKey(k)
    ensures InRange(NewKey(k), Some([0x03] + a), Some([0x03] + Next(a)))
  {
    StorageKey(k);
    var r := k[34..];
    AfterHead([0x05, 32], a, k);
    ExtensionBelowNext(a, r);
    RangeAfterPrefix([0x03], a + r, a, Next(a));
  }

  lemma AfterHead<T>(p: seq<T>, a: seq<T>, k: seq<T>)
    requires p + a <= k
    ensures k[|p|..] == a + k[|p| + |a|..]
  {
    assert k == p + a + k[|p| + |a|..];
  }

  lemma ExtensionBelowNext(a: Bytes, r: Bytes)
    requires |a| > 0 && a[|a| - 1] < 255
    ensures InRange(a + r, Some(a), Some(Next(a)))
  {
    var b, x := a[..|a| - 1], a[|a| - 1];
    assert a == b + [x] && a + r == b + ([x] + r);
    assert !Less(([x] + r)[1..], [x][1..]);
    RangeAfterPrefix(b, [x] + r, [x], [x + 1]);
  }

  // ---- addresses that end in 0xff

  /** All storage of a 32-byte contract whose address ends in 0xff (and is not all 0xff) is iterated as empty. */
  lemma WholeContract32EndingInFF(m: Store, c: ValueCodec, a: Bytes)
    requires WellFormed(m) && AddressesPrefixFree(m) && HasStorage(m, a)
    requires |a| == 32 && a[31] == 255 && exists i :: 0 <= i < 32 && a[i] < 255
    ensures ViewScan(m, c, Some([0x03] + a), EndOfPrefix([0x03] + a)) == []
  {
    ShortEnd(a);
    var end := EndOfPrefix([0x03] + a).value;
    assert a + [] == a && ([0x03] + a)[1..] == a;
    LengthRecognized(m, a, []);
    var lo := [0x05, 32] + a;
    var hi := if |end| - 1 < 20 then lo else [0x05, 20] + end[1..];
    BoundsBehind(m, a, end, lo, hi);
    if |end| - 1 >= 20 { ShorterFirst(a, end[1..]); } else { NotBelowItself(lo); }
    EmptyWindow(m, lo, hi);
  }

  lemma BoundsBehind(m: Store, a: Bytes, end: Bytes, lo: Bytes, hi: Bytes)
    requires AddressLengthPrefix(m, a) == Some(32) && Family(end, 0x03) && lo == [0x05, 32] + a
    requires if |end| - 1 < 20 then hi == lo else AddressLengthPrefix(m, end[1..]) == Some(20) && hi == [0x05, 20] + end[1..]
    ensures TranslateBounds(m, Some([0x03] + a), Some(end)) == (Some(lo), Some(hi))
  {
    assert ([0x03] + a)[1..] == a && ([0x03] + a)[0] == 0x03;
  }

  lemma ShorterFirst(a: Bytes, b: Bytes)
    ensures !Less([0x05, 32] + a, [0x05, 20] + b)
  {
    var lo, hi := [0x05, 32] + a, [0x05, 20] + b;
    assert lo[1..][0] == 32 && hi[1..][0] == 20;
  }

  lemma {:induction false} NotBelowItself(a: Bytes)
    ensures !Less(a, a)
  {
    if a != [] { NotBelowItself(a[1..]); }
  }

  predicate AllFF(a: Bytes) {
    forall i :: 0 <= i < |a| ==> a[i] == 255
  }

  /** Nothing but extensions comes after a string of 0xff bytes. */
  lemma {:induction false} OnlyExtensions(a: Bytes, y: Bytes)
    requires AllFF(a) && !Less(y, a)
    ensures a <= y
  {
    if a != [] {
      OnlyExtensions(a[1..], y[1..]);
      assert a == [a[0]] + a[1..] && y == [y[0]] + y[1..];
    }
  }

  lemma {:induction false} AllFFEnd(a: Bytes)
    requires AllFF(a)
    ensures EndOfPrefix([0x03] + a) == Some([0x04])
  {
    if a == [] {
      assert [0x03] + a == [0x03];
      assert [0x03][..0] + [0x04] == [0x04];
    } else {
      assert ([0x03] + a)[..|a|] == [0x03] + a[..|a| - 1];
      AllFFEnd(a[..|a| - 1]);
    }
  }

  lemma AboveAllFF(a: Bytes, k: Bytes)
    requires AllFF(a) && a != [] && InRange(k, Some([0x03] + a), Some([0x04]))
    ensures k != [] && k[0] == 0x03 && a <= k[1..]
  {
    assert ([0x03] + a)[1..] == a && [0x04][1..] == [];
    assert !Less(k[1..], []);
    OnlyExtensions(a, k[1..]);
  }

  /** Old keys that map into the storage of such an address are its own. */
  lemma OwnAllFF(m: Store, a: Bytes, o: Bytes)
    requires WellFormed(m) && AddressesPrefixFree(m) && HasStorage(m, a) && AllFF(a) && o in m && Family(o, 0x05)
    requires InRange(NewKey(o), Some([0x03] + a), Some([0x04]))
    ensures |o| >= 2 && o == [0x05, |a|] + o[2..] && a <= o[2..] && NewKey(o) == [0x03] + o[2..] && MapOldToNew(o) == Some(NewKey(o))
  {
    StorageKey(o);
    AboveAllFF(a, NewKey(o));
    assert NewKey(o)[1..] == o[2..];
    assert o == [0x05, o[1]] + o[2..];
    assert o[2..22] == o[2..][..|a|][..20] == a[..20];
    OwnLength(m, a, o);
  }

  lemma OwnLength(m: Store, a: Bytes, o: Bytes)
    requires WellFormed(m) && AddressesPrefixFree(m) && HasStorage(m, a) && o in m && Family(o, 0x05)
    requires |o| >= 22 && o[2..22] == a[..20]
    ensures o[1] == |a|
  {
    if o[1] != |a| { OtherLengthElsewhere(m, a, o); }
  }

  lemma StorageFamily(o: Bytes)
    requires MapOldToNew(o).Some? && MapOldToNew(o).value != [] && MapOldToNew(o).value[0] == 0x03
    ensures Family(o, 0x05)
  {
  }

  lemma AllFFNamed(m: Store, a: Bytes)
    requires WellFormed(m) && AddressesPrefixFree(m) && HasStorage(m, a) && AllFF(a)
    ensures WindowNamed(m, Some([0x05, |a|] + a), None, Some([0x03] + a), Some([0x04]))
  {
    forall o | o in m && Keeps(Entry(o, m[o]), Some([0x03] + a), Some([0x04])) ensures MapOldToNew(o) == Some(NewKey(o)) {
      KeptAllFF(m, a, o);
    }
    forall x, y | x in m && y in m && Less(x, y) && Keeps(Entry(x, m[x]), Some([0x03] + a), Some([0x04]))
                  && Keeps(Entry(y, m[y]), Some([0x03] + a), Some([0x04]))
      ensures Less(NewKey(x), NewKey(y))
    {
      KeptAllFF(m, a, x);
      KeptAllFF(m, a, y);
      LessAfterPrefix([0x05, |a|], x[2..], y[2..]);
      LessAfterPrefix([0x03], x[2..], y[2..]);
    }
  }

  lemma KeptAllFF(m: Store, a: Bytes, o: Bytes)
    requires WellFormed(m) && AddressesPrefixFree(m) && HasStorage(m, a) && AllFF(a)
    requires o in m && Keeps(Entry(o, m[o]), Some([0x03] + a), Some([0x04]))
    ensures |o| >= 2 && o == [0x05, |a|] + o[2..] && NewKey(o) == [0x03] + o[2..] && MapOldToNew(o) == Some(NewKey(o))
  {
    AboveAllFF(a, MapOldToNew(o).value);
    StorageFamily(o);
    StorageKey(o);
    OwnAllFF(m, a, o);
  }

  lemma AllFFCovers(m: Store, a: Bytes)
    requires WellFormed(m) && AddressesPrefixFree(m) && HasStorage(m, a) && AllFF(a)
    ensures WindowCovers(m, Some([0x05, |a|] + a), None, Some([0x03] + a), Some([0x04]))
  {
    WithCountersWellFormed(m);
    forall o | o in WithCounters(m) && InRange(NewKey(o), Some([0x03] + a), Some([0x04]))
      ensures o in m && InRange(o, Some([0x05, |a|] + a), None) && MapOldToNew(o) == Some(NewKey(o))
    {
      AboveAllFF(a, NewKey(o));
      FamilyOfNewKey(o);
      OwnAllFF(m, a, o);
      NotBelowPrefix([0x05, |a|] + a, o);
    }
  }

  lemma {:induction false} NotBelowPrefix(p: Bytes, k: Bytes)
    requires p <= k
    ensures !Less(k, p)
  {
    if p != [] { NotBelowPrefix(p[1..], k[1..]); }
  }

  /** All storage of a contract whose address is all 0xff, of either length, is iterated rightly. */
  lemma WholeContractAllFFAgrees(m: Store, m': Store, c: ValueCodec, a: Bytes)
    requires Migrated(m, m') && AddressesPrefixFree(m) && HasStorage(m, a) && AllFF(a)
    ensures ScanAgrees(m, m', c, Some([0x03] + a), EndOfPrefix([0x03] + a))
  {
    AllFFEnd(a);
    assert a + [] == a && ([0x03] + a)[1..] == a;
    LengthRecognized(m, a, []);
    AllFFNamed(m, a);
    AllFFCovers(m, a);
    WindowScan(m, m', c, Some([0x03] + a), Some([0x04]), Some([0x05, |a|] + a), None);
  }

  // ---- every address

  lemma {:induction false} OwnKeyBelowEnd(a: Bytes, r: Bytes)
    requires a != [] && exists i :: 0 <= i < |a| && a[i] < 255
    ensures EndOfPrefix([0x03] + a).Some? && InRange([0x03] + (a + r), Some([0x03] + a), EndOfPrefix([0x03] + a))
  {
    var n := |a| - 1;
    if a[n] < 255 {
      WholeBounds(a);
      ExtensionBelowNext(a, r);
      RangeAfterPrefix([0x03], a + r, a, Next(a));
    } else {
      var b := a[..n];
      var i :| 0 <= i < |a| && a[i] < 255;
      assert b[i] == a[i];
      OwnKeyBelowEnd(b, [a[n]] + r);
      assert ([0x03] + a)[..n + 1] == [0x03] + b;
      assert a + r == b + ([a[n]] + r);
      assert [0x03] + (a + r) == [0x03] + a + r;
      NotBelowPrefix([0x03] + a, [0x03] + (a + r));
    }
  }

  lemma OwnEntryInRange(a: Bytes, k: Bytes)
    requires ValidAddress(a) && !AllFF(a) && WellFormedKey(k) && [0x05, |a|] + a <= k
    ensures InRange(NewKey(k), Some([0x03] + a), EndOfPrefix([0x03] + a))
  {
    var r := RestOf(a, k);
    OwnKeyBelowEnd(a, r);
  }

  lemma RestOf(a: Bytes, k: Bytes) returns (r: Bytes)
    requires ValidAddress(a) && WellFormedKey(k) && [0x05, |a|] + a <= k
    ensures NewKey(k) == [0x03] + (a + r)
  {
    var p: Bytes := [0x05, |a|];
    r := k[2 + |a|..];
    StorageKey(k);
    AfterHead(p, a, k);
  }

  /** A contract with storage has an entry in the scan of the migrated store, so yielding nothing is wrong. */
  lemma EmptyScanDisagrees(m: Store, m': Store, c: ValueCodec, a: Bytes)
    requires Migrated(m, m') && HasStorage(m, a) && !AllFF(a)
    requires ViewScan(m, c, Some([0x03] + a), EndOfPrefix([0x03] + a)) == []
    ensures !ScanAgrees(m, m', c, Some([0x03] + a), EndOfPrefix([0x03] + a))
  {
    var k :| k in m && [0x05, |a|] + a <= k;
    OwnEntryInRange(a, k);
    StoredMeansYielded(m, m', c, Some([0x03] + a), EndOfPrefix([0x03] + a), k);
  }

  /**
   * The scan of all storage of a contract agrees exactly if the address is all 0xff, or does not end
   * in 0xff and, being 32 bytes long, is followed by an address that has storage too.
   */
  lemma WholeContractIff(m: Store, m': Store, c: ValueCodec, a: Bytes)
    requires Migrated(m, m') && AddressesPrefixFree(m) && HasStorage(m, a)
    ensures ScanAgrees(m, m', c, Some([0x03] + a), EndOfPrefix([0x03] + a)) <==>
            AllFF(a) || (a[|a| - 1] < 255 && (|a| == 20 || HasStorage(m, Next(a))))
  {
    if AllFF(a) {
      WholeContractAllFFAgrees(m, m', c, a);
    } else if a[|a| - 1] < 255 {
      if |a| == 20 { WholeContract20Agrees(m, m', c, a); } else { WholeContract32Iff(m, m', c, a); }
    } else {
      if |a| == 20 { WholeContractEndingInFF(m, c, a); } else { WholeContract32EndingInFF(m, c, a); }
      EmptyScanDisagrees(m, m', c, a);
    }
  }

  // ---- listing a family from any start

  lemma PageRange(k: Bytes, q: byte, s: Bytes)
    requires q < 255
    ensures InRange(k, Some([q] + s), Some([q + 1])) <==> Family(k, q) && !Less(k[1..], s)
  {
    var lo: Bytes, hi: Bytes := [q] + s, [q + 1];
    assert hi[1..] == [] && lo[1..] == s;
    assert |k| > 0 ==> !Less(k[1..], hi[1..]);
  }

  /** What a page of the secondary index that starts at `s` holds. */
  predicate IndexedFrom(o: Bytes, s: Bytes) {
    Family(o, 0x10) && !Less(o[1..], s)
  }

  lemma IndexBounds(m: Store, s: Bytes)
    ensures TranslateBounds(m, Some([0x06] + s), Some([0x07])) == (Some([0x10] + s), Some([0x07]))
    ensures Scan(m, Some([0x10] + s), Some([0x07])) == []
  {
    var start: Bytes := [0x06] + s;
    assert start[0] == 0x06 && start[1..] == s;
    EmptyWindow(m, [0x10] + s, [0x07]);
  }

  lemma IndexSource(m: Store, m': Store, k: Bytes, s: Bytes)
    requires Migrated(m, m') && k in m' && InRange(k, Some([0x06] + s), Some([0x07]))
    ensures exists o :: o in m && IndexedFrom(o, s)
  {
    PageRange(k, 0x06, s);
    var o :| o in WithCounters(m) && NewKey(o) == k;
    WithCountersWellFormed(m);
    FamilyOfNewKey(o);
    assert o in m && k[1..] == o[1..];
  }

  lemma NoIndexEntries(m: Store, m': Store, c: ValueCodec, s: Bytes)
    requires Migrated(m, m') && forall o :: o in m ==> !IndexedFrom(o, s)
    ensures RecodeValues(c, Scan(m', Some([0x06] + s), Some([0x07]))) == []
  {
    ScanIsExact(m', Some([0x06] + s), Some([0x07]));
    var es := Scan(m', Some([0x06] + s), Some([0x07]));
    if es != [] {
      assert es[0] in es;
      IndexSource(m, m', es[0].key, s);
    }
  }

  /** Listing the secondary index from any start yields nothing, so it agrees exactly when no entry is left. */
  lemma IndexListingIff(m: Store, m': Store, c: ValueCodec, s: Bytes)
    requires Migrated(m, m')
    ensures ViewScan(m, c, Some([0x06] + s), Some([0x07])) == []
    ensures ScanAgrees(m, m', c, Some([0x06] + s), Some([0x07])) <==> forall o :: o in m ==> !IndexedFrom(o, s)
  {
    IndexBounds(m, s);
    if o :| o in m && IndexedFrom(o, s) {
      FamilyOfNewKey(o);
      assert NewKey(o)[1..] == o[1..];
      PageRange(NewKey(o), 0x06, s);
      StoredMeansYielded(m, m', c, Some([0x06] + s), Some([0x07]), o);
    } else {
      NoIndexEntries(m, m', c, s);
    }
  }
}
