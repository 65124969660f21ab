/** When the key migration loses nothing. */
module WasmLossless {
  import opened Bytes
  import opened KVStores
  import opened Renamings
  import opened WasmKeys
  import opened WasmMigration

  /** Counters are single bytes; contract and contract-storage keys carry an address behind its length. */
  predicate WellFormedKey(k: Bytes) {
    && |k| > 0
    && (k[0] == 0x01 || k[0] == 0x02 ==> |k| == 1)
    && (k[0] == 0x04 ==> |k| >= 2 && (k[1] == 20 || k[1] == 32) && |k| == 2 + k[1])
    && (k[0] == 0x05 ==> |k| >= 2 && (k[1] == 20 || k[1] == 32) && |k| >= 2 + k[1])
  }

  ghost predicate WellFormed(m: Store) {
    forall k :: k in m ==> WellFormedKey(k)
  }

  /**
   * No byte string is both a 20-byte address with the rest of a storage key and a 32-byte address
   * with the rest of another.
   */
  ghost predicate NoSharedBody(m: Store) {
    forall k :: k in m && Family(k, 0x05) && |k| >= 34 && k[1] == 20 ==> [0x05, 32] + k[2..] !in m
  }

  /** No 20-byte contract address with storage starts a 32-byte one. */
  ghost predicate AddressesPrefixFree(m: Store) {
    forall a, b ::
      (a in m && b in m && Family(a, 0x05) && Family(b, 0x05) && |a| >= 22 && |b| >= 34 && a[1] == 20 && b[1] == 32)
      ==> a[2..22] != b[2..22]
  }

  lemma PrefixFreeMeansNoSharedBody(m: Store)
    requires AddressesPrefixFree(m)
    ensures NoSharedBody(m)
  {
    forall k | k in m && Family(k, 0x05) && |k| >= 34 && k[1] == 20 ensures [0x05, 32] + k[2..] !in m {
      var b := [0x05, 32] + k[2..];
      assert b[2..22] == k[2..22];
    }
  }

  lemma LengthByteDropped(k: Bytes)
    requires WellFormedKey(k)
    ensures Family(k, 0x04) ==> NewKey(k) == [0x02] + k[2..]
    ensures Family(k, 0x05) ==> NewKey(k) == [0x03] + k[2..]
  {
    if Family(k, 0x05) {
      RebuildersAgree(k[1..]);
      assert k[1..][1..] == k[2..];
    }
    if Family(k, 0x04) {
      assert k[1..][1..] == k[2..];
    }
  }

  /** The storage key with the same body behind the other address length. */
  function Twin(k: Bytes): Bytes
    requires |k| >= 2
  {
    [0x05, if k[1] == 20 then 32 else 20] + k[2..]
  }

  /** Only a storage key and its twin can be renamed to the same key. */
  lemma Collision(a: Bytes, b: Bytes)
    requires WellFormedKey(a) && WellFormedKey(b) && NewKey(a) == NewKey(b)
    ensures a == b || (Family(a, 0x05) && |a| >= 34 && b == Twin(a))
  {
    LengthByteDropped(a);
    LengthByteDropped(b);
    SameFamily(a, b);
    var x, y := NewKey(a), NewKey(b);
    if Family(a, 0x04) || Family(a, 0x05) {
      assert a == [a[0], a[1]] + a[2..] && b == [b[0], b[1]] + b[2..];
      assert x[1..] == a[2..] && y[1..] == b[2..];
    } else {
      assert a == [a[0]] + a[1..] && b == [b[0]] + b[1..];
      assert a[0] in {0x03, 0x06, 0x10} ==> x[1..] == a[1..] && y[1..] == b[1..];
    }
  }

  lemma SameFamily(a: Bytes, b: Bytes)
    requires WellFormedKey(a) && WellFormedKey(b) && NewKey(a) == NewKey(b)
    ensures a[0] == b[0]
  {
    assert NewKey(a)[0] == NewKey(b)[0];
    assert |NewCodeSeq| != |NewInstanceSeq|;
    if a[0] == 0x01 { assert a == OldCodeSeq; }
    if a[0] == 0x02 { assert a == OldInstanceSeq; }
    if b[0] == 0x01 { assert b == OldCodeSeq; }
    if b[0] == 0x02 { assert b == OldInstanceSeq; }
  }

  lemma WithCountersWellFormed(m: Store)
    requires WellFormed(m)
    ensures WellFormed(WithCounters(m))
    ensures NoSharedBody(WithCounters(m)) <==> NoSharedBody(m)
  {
    var full := WithCounters(m);
    forall k ensures Family(k, 0x05) ==> (k in full <==> k in m) { }
    forall k | k in m && Family(k, 0x05) && |k| >= 34 && k[1] == 20
      ensures [0x05, 32] + k[2..] in full <==> [0x05, 32] + k[2..] in m
    {
      assert Family([0x05, 32] + k[2..], 0x05);
    }
  }

  lemma InjectiveIff(m: Store)
    requires WellFormed(m)
    ensures InjectiveOn(m, NewKey) <==> NoSharedBody(m)
  {
    if NoSharedBody(m) {
      forall a, b | a in m && b in m && NewKey(a) == NewKey(b) ensures a == b {
        Collision(a, b);
        Collision(b, a);
      }
    } else {
      var k :| k in m && Family(k, 0x05) && |k| >= 34 && k[1] == 20 && [0x05, 32] + k[2..] in m;
      var l := [0x05, 32] + k[2..];
      LengthByteDropped(k);
      LengthByteDropped(l);
      assert l[2..] == k[2..];
    }
  }

  /**
   * On a well-formed store the migration keeps every entry apart exactly when no storage body is
   * shared between the two address lengths; then each old value is found unchanged at its new key
   * and nothing else is stored.
   */
  lemma MigrationLosslessIff(m: Store, m': Store)
    requires WellFormed(m) && RenamedBy(WithCounters(m), m', NewKey)
    ensures |m'| == |WithCounters(m)| <==> NoSharedBody(m)
    ensures NoSharedBody(m) ==> forall k :: k in m ==> NewKey(k) in m' && m'[NewKey(k)] == m[k]
  {
    WithCountersWellFormed(m);
    InjectiveIff(WithCounters(m));
    LosslessIffInjective(WithCounters(m), m', NewKey);
    forall k | k in m ensures k in WithCounters(m) && WithCounters(m)[k] == m[k] { }
  }

  /**
   * Where everything is afterwards, byte for byte: codes, history and the index behind their new
   * prefixes, contracts and their storage without the length of the address, the parameters, and the
   * two counters under their names.
   */
  lemma MigratedLayout(m: Store, m': Store, a: Bytes, x: Bytes)
    requires WellFormed(m) && NoSharedBody(m) && RenamedBy(WithCounters(m), m', NewKey)
    ensures [0x03] + x in m ==> Has(m', [0x01] + x, m[[0x03] + x])
    ensures [0x06] + x in m ==> Has(m', [0x05] + x, m[[0x06] + x])
    ensures [0x10] + x in m ==> Has(m', [0x06] + x, m[[0x10] + x])
    ensures ValidAddress(a) && [0x04, |a|] + a in m ==> Has(m', [0x02] + a, m[[0x04, |a|] + a])
    ensures ValidAddress(a) && [0x05, |a|] + a + x in m ==> Has(m', [0x03] + a + x, m[[0x05, |a|] + a + x])
    ensures [0x11] in m ==> Has(m', [0x10], m[[0x11]])
    ensures Has(m', CodeCounter, if [0x01] in m then m[[0x01]] else [0, 0, 0, 0, 0, 0, 0, 0])
    ensures Has(m', ContractCounter, if [0x02] in m then m[[0x02]] else [0, 0, 0, 0, 0, 0, 0, 0])
  {
    PlainLayout(x);
    if ValidAddress(a) {
      ContractLayout(a);
      StorageLayout(a, x);
    }
    FixedLayout();
    forall o | o in WithCounters(m) ensures Has(m', NewKey(o), WithCounters(m)[o]) { MovedAsIs(m, m', o); }
  }

  lemma MovedAsIs(m: Store, m': Store, o: Bytes)
    requires WellFormed(m) && NoSharedBody(m) && RenamedBy(WithCounters(m), m', NewKey) && o in WithCounters(m)
    ensures Has(m', NewKey(o), WithCounters(m)[o])
  {
    WithCountersWellFormed(m);
    InjectiveIff(WithCounters(m));
    var k := NewKey(o);
    var p :| p in WithCounters(m) && NewKey(p) == k && WithCounters(m)[p] == m'[k];
  }

  predicate Has(m: Store, k: Bytes, v: Bytes) { k in m && m[k] == v }

  /** The byte 4 and "lastCodeId"; the byte 4 and "lastContractId". */
  const CodeCounter: Bytes := [4, 108, 97, 115, 116, 67, 111, 100, 101, 73, 100]
  const ContractCounter: Bytes := [4, 108, 97, 115, 116, 67, 111, 110, 116, 114, 97, 99, 116, 73, 100]

  lemma PlainLayout(x: Bytes)
    ensures NewKey([0x03] + x) == [0x01] + x && NewKey([0x06] + x) == [0x05] + x && NewKey([0x10] + x) == [0x06] + x
  {
    assert ([0x03] + x)[1..] == x && ([0x06] + x)[1..] == x && ([0x10] + x)[1..] == x;
  }

  lemma ContractLayout(a: Bytes)
    requires ValidAddress(a)
    ensures NewKey([0x04, |a|] + a) == [0x02] + a
  {
    var k: Bytes := [0x04, |a|] + a;
    LengthByteDropped(k);
    assert k[2..] == a;
  }

  lemma StorageLayout(a: Bytes, x: Bytes)
    requires ValidAddress(a)
    ensures NewKey([0x05, |a|] + a + x) == [0x03] + a + x
  {
    var k: Bytes := [0x05, |a|] + a + x;
    LengthByteDropped(k);
    DropTwo([0x05, |a|], a, x);
    assert [0x03] + (a + x) == [0x03] + a + x;
  }

  lemma DropTwo<T>(p: seq<T>, a: seq<T>, x: seq<T>)
    requires |p| == 2
    ensures (p + a + x)[2..] == a + x
  {
  }

  lemma FixedLayout()
    ensures NewKey([0x11]) == [0x10] && NewKey([0x01]) == CodeCounter && NewKey([0x02]) == ContractCounter
  {
    assert [0x11 as byte][0] == 0x11 && [0x01 as byte][0] == 0x01 && [0x02 as byte][0] == 0x02;
  }

  lemma TwinStore(m: Store, body: Bytes)
    requires |body| == 32 && m == map[[0x05, 20] + body := [1], [0x05, 32] + body := [2]]
    ensures WellFormed(m) && !NoSharedBody(m)
  {
    var short: Bytes := [0x05, 20] + body;
    assert short in m && [0x05, 32] + short[2..] == [0x05, 32] + body;
  }

  /** A 20-byte and a 32-byte contract with storage under the same bytes: the migration keeps one entry of two. */
  method CollisionExample() returns (before: Store, after: Store)
    ensures WellFormed(before) && !NoSharedBody(before) && |before| == 2
    ensures RenamedBy(WithCounters(before), after, NewKey) && |after| < |WithCounters(before)|
  {
    var body: Bytes := seq(32, _ => 0);
    var short, long: Bytes := [0x05, 20] + body, [0x05, 32] + body;
    assert short[1] != long[1];
    before := map[short := [1], long := [2]];
    TwinStore(before, body);
    var store := new KVStore(before);
    MigrateWasmKeys(store);
    after := store.data;
    EntriesLost(before, after);
  }

  lemma TwoCounters(m: Store, m': Store, code: Bytes, contract: Bytes)
    requires m == map[OldCodeSeq := code, OldInstanceSeq := contract] && RenamedBy(WithCounters(m), m', NewKey)
    ensures m' == map[CodeCounter := code, ContractCounter := contract]
  {
    CountersApart();
    AlreadyThere(map[OldCodeSeq := ZeroCounter, OldInstanceSeq := ZeroCounter], m);
    RenamedPair(m, m', NewKey, OldCodeSeq, OldInstanceSeq);
  }

  lemma CountersApart()
    ensures OldCodeSeq != OldInstanceSeq && CodeCounter != ContractCounter
    ensures NewKey(OldCodeSeq) == CodeCounter && NewKey(OldInstanceSeq) == ContractCounter
  {
    FixedLayout();
    assert |CodeCounter| != |ContractCounter| && OldCodeSeq[0] != OldInstanceSeq[0];
  }

  lemma AlreadyThere<K, V>(d: map<K, V>, m: map<K, V>)
    requires d.Keys <= m.Keys
    ensures d + m == m
  {
  }

  /** A store of the two counters alone, taken through the migration. */
  method CountersExample(code: Bytes, contract: Bytes) returns (before: Store, after: Store)
    ensures before == map[[0x01] := code, [0x02] := contract]
    ensures after == map[CodeCounter := code, ContractCounter := contract]
  {
    before := map[OldCodeSeq := code, OldInstanceSeq := contract];
    var store := new KVStore(before);
    MigrateWasmKeys(store);
    after := store.data;
    TwoCounters(before, after, code, contract);
  }

  lemma EntriesLost(m: Store, m': Store)
    requires WellFormed(m) && !NoSharedBody(m) && RenamedBy(WithCounters(m), m', NewKey)
    ensures |m'| < |WithCounters(m)|
  {
    MigrationLosslessIff(m, m');
    LosslessIffInjective(WithCounters(m), m', NewKey);
  }
}
