/** Point reads through the historical view, which serves new-format keys from an unmigrated store. */
module LegacyView {
  import opened Bytes
  import opened KVStores
  import opened Renamings
  import opened WasmKeys
  import opened WasmMigration
  import opened WasmLossless

  /** The re-encodings of code and contract records, whose message types are not modelled. */
  datatype ValueCodec = ValueCodec(code: Bytes -> Bytes, contract: Bytes -> Bytes)

  function TranslateValue(c: ValueCodec, newKey: Bytes, v: Bytes): Bytes {
    if Family(newKey, 0x01) then c.code(v)
    else if Family(newKey, 0x02) then c.contract(v)
    else v
  }

  /** The first of the candidate old keys that is stored. */
  function FirstPresent(m: Store, candidates: seq<Bytes>): Option<Bytes> {
    if candidates == [] then None
    else if candidates[0] in m then Some(candidates[0])
    else FirstPresent(m, candidates[1..])
  }

  /** The old entry the view answers a new key with. */
  function Served(m: Store, k: Bytes): Option<Bytes> {
    FirstPresent(m, TranslateNewToOld(k))
  }

  function ViewGet(m: Store, c: ValueCodec, k: Bytes): Option<Bytes> {
    var o := FirstPresent(m, TranslateNewToOld(k));
    FirstPresentIsStored(m, TranslateNewToOld(k));
    if o.Some? then Some(TranslateValue(c, k, m[o.value])) else None
  }

  lemma {:induction false} FirstPresentIsStored(m: Store, candidates: seq<Bytes>)
    ensures var o := FirstPresent(m, candidates);
            o.Some? ==> o.value in m && o.value in candidates
    ensures FirstPresent(m, candidates).None? ==> forall c :: c in candidates ==> c !in m
  {
    if candidates != [] && candidates[0] !in m {
      FirstPresentIsStored(m, candidates[1..]);
      assert candidates == [candidates[0]] + candidates[1..];
    }
  }

  class LegacyWasmStore {
    const parent: KVStore
    const codec: ValueCodec

    constructor (parent: KVStore, codec: ValueCodec)
      ensures this.parent == parent && this.codec == codec
    {
      this.parent, this.codec := parent, codec;
    }

    method Get(key: Bytes) returns (r: Option<Bytes>)
      ensures r == ViewGet(parent.data, codec, key)
    {
      var candidates := TranslateNewToOld(key);
      var i := 0;
      while i < |candidates|
        invariant 0 <= i <= |candidates|
        invariant FirstPresent(parent.data, candidates) == FirstPresent(parent.data, candidates[i..])
      {
        var bz := parent.Get(candidates[i]);
        if bz.Some? {
          return Some(TranslateValue(codec, key, bz.value));
        }
        assert candidates[i..][1..] == candidates[i + 1..];
        i := i + 1;
      }
      return None;
    }

    method Has(key: Bytes) returns (r: bool)
      ensures r <==> Served(parent.data, key).Some?
    {
      var candidates := TranslateNewToOld(key);
      var i := 0;
      while i < |candidates|
        invariant 0 <= i <= |candidates|
        invariant FirstPresent(parent.data, candidates) == FirstPresent(parent.data, candidates[i..])
      {
        if candidates[i] in parent.data {
          return true;
        }
        assert candidates[i..][1..] == candidates[i + 1..];
        i := i + 1;
      }
      return false;
    }
  }

  // ---- agreement with the migrated store

  /** `m'` is what the migration makes of the well-formed store `m`, nothing lost. */
  ghost predicate Migrated(m: Store, m': Store) {
    WellFormed(m) && NoSharedBody(m) && RenamedBy(WithCounters(m), m', NewKey)
  }

  /** The view answers `k` from the very entry the migration moves to `k`, or from none if there is none. */
  ghost predicate ServesMigratedEntry(m: Store, m': Store, k: Bytes) {
    var o := Served(m, k);
    if o.Some? then NewKey(o.value) == k else k !in m'
  }

  /**
   * The key read as it stands is an old key of another meaning, or it is a counter the old store
   * does not have.
   */
  predicate Shadowed(m: Store, k: Bytes) {
    if k == NewCodeSeq then OldCodeSeq !in m
    else if k == NewInstanceSeq then OldInstanceSeq !in m
    else if Family(k, 0x02) then [0x04] + k[1..] in m
    else if Family(k, 0x03) then [0x05] + k[1..] in m
    else (Family(k, 0x04) || (Family(k, 0x10) && k != NewParams) || k == OldParams) && k in m
  }

  /** Every stored entry is a candidate for the key it is renamed to. */
  lemma Covered(o: Bytes)
    requires WellFormedKey(o)
    ensures o in TranslateNewToOld(NewKey(o))
  {
    if o[0] == 0x01 {
      assert o == OldCodeSeq;
    } else if o[0] == 0x02 {
      assert o == OldInstanceSeq;
    } else if o[0] == 0x04 || o[0] == 0x05 {
      AddressCovered(o);
    } else if o[0] == 0x03 || o[0] == 0x06 || o[0] == 0x10 {
      PlainCovered(o, if o[0] == 0x03 then 0x01 else if o[0] == 0x06 then 0x05 else 0x06);
    } else {
      OtherCovered(o);
    }
  }

  lemma PlainCovered(o: Bytes, q: byte)
    requires |o| > 0 && (o[0], q) in {(0x03, 0x01), (0x06, 0x05), (0x10, 0x06)}
    ensures o in TranslateNewToOld(NewKey(o))
  {
    var k := NewKey(o);
    assert k == [q] + o[1..];
    assert k[0] == q && k[1..] == o[1..] && o == [o[0]] + o[1..];
    assert TranslateNewToOld(k) == [o];
  }

  lemma OtherCovered(o: Bytes)
    requires |o| > 0 && o[0] !in {0x01, 0x02, 0x03, 0x04, 0x05, 0x06, 0x10}
    ensures o in TranslateNewToOld(NewKey(o))
  {
    if o == OldParams {
      assert NewKey(o) == NewParams && TranslateNewToOld(NewParams) == [OldParams];
    } else {
      assert NewKey(o) == o && TranslateNewToOld(o) == [o];
    }
  }

  lemma AddressCovered(o: Bytes)
    requires WellFormedKey(o) && (o[0] == 0x04 || o[0] == 0x05)
    ensures o in TranslateNewToOld(NewKey(o))
  {
    var base, body := o[0], o[2..];
    LengthByteDropped(o);
    assert o == [base, o[1]] + body;
    VariantListed(base, body, o[1]);
    assert NewKey(o)[1..] == body;
  }

  lemma VariantListed(base: byte, body: Bytes, n: byte)
    requires (n == 20 || n == 32) && |body| >= n
    ensures [base, n] + body in BuildLenVariants(base, body)
  {
  }

  /** A stored candidate is the right one unless it is the key read as it stands. */
  lemma CandidateIsRight(m: Store, k: Bytes, o: Bytes)
    requires WellFormed(m) && o in m && o in TranslateNewToOld(k)
    ensures NewKey(o) == k || Shadowed(m, k)
  {
    if Family(k, 0x02) || Family(k, 0x03) {
      VariantIsRight(k, o);
    } else if Family(k, 0x01) || Family(k, 0x05) || Family(k, 0x06) {
      assert o[1..] == k[1..];
      assert k == [k[0]] + k[1..];
    }
  }

  lemma VariantIsRight(k: Bytes, o: Bytes)
    requires Family(k, 0x02) || Family(k, 0x03)
    requires o in TranslateNewToOld(k) && WellFormedKey(o)
    ensures NewKey(o) == k || o == [if Family(k, 0x02) then 0x04 else 0x05] + k[1..]
  {
    var base: byte := if Family(k, 0x02) then 0x04 else 0x05;
    assert o in BuildLenVariants(base, k[1..]);
    if o != [base] + k[1..] {
      assert o[2..] == k[1..];
      LengthByteDropped(o);
      assert k == [k[0]] + k[1..];
    }
  }

  lemma RawIsWrong(m: Store, k: Bytes)
    requires WellFormed(m) && Shadowed(m, k) && k != NewCodeSeq && k != NewInstanceSeq
    ensures var o := TranslateNewToOld(k)[0];
            o in m && NewKey(o) != k
  {
    var o := TranslateNewToOld(k)[0];
    LengthByteDropped(o);
    if Family(k, 0x02) || Family(k, 0x03) {
      assert |NewKey(o)| == |k| - 1;
    } else {
      assert o == k;
      assert k == OldParams ==> NewKey(k)[0] == 0x10;
    }
  }

  /** A shadowed key is answered from an entry of another meaning, or a defaulted counter is not answered. */
  lemma ShadowedIsWrong(m: Store, m': Store, k: Bytes)
    requires Migrated(m, m') && Shadowed(m, k)
    ensures !ServesMigratedEntry(m, m', k)
  {
    FirstPresentIsStored(m, TranslateNewToOld(k));
    if k == NewCodeSeq {
      assert NewKey(OldCodeSeq) == k && OldCodeSeq in WithCounters(m);
    } else if k == NewInstanceSeq {
      assert NewKey(OldInstanceSeq) == k && OldInstanceSeq in WithCounters(m);
    } else {
      RawIsWrong(m, k);
    }
  }

  /** The view is right about a key exactly when the key is not shadowed. */
  lemma ServesIff(m: Store, m': Store, k: Bytes)
    requires Migrated(m, m')
    ensures ServesMigratedEntry(m, m', k) <==> !Shadowed(m, k)
  {
    if Shadowed(m, k) {
      ShadowedIsWrong(m, m', k);
    } else {
      FirstPresentIsStored(m, TranslateNewToOld(k));
      if Served(m, k).Some? {
        CandidateIsRight(m, k, Served(m, k).value);
      } else {
        NothingStoredThere(m, m', k);
      }
    }
  }

  lemma NothingStoredThere(m: Store, m': Store, k: Bytes)
    requires Migrated(m, m') && !Shadowed(m, k) && forall c :: c in TranslateNewToOld(k) ==> c !in m
    ensures k !in m'
  {
    forall o | o in WithCounters(m) ensures NewKey(o) != k {
      if o in m { Covered(o); }
    }
  }

  /**
   * Reads of every key that is not shadowed agree with the migrated store: code records re-encoded as
   * such, contract records as such, everything else as it is.
   */
  lemma ViewAgrees(m: Store, m': Store, c: ValueCodec, k: Bytes)
    requires Migrated(m, m') && !Shadowed(m, k)
    ensures Served(m, k).Some? <==> k in m'
    ensures k !in m' ==> ViewGet(m, c, k) == None
    ensures k in m' && |k| > 0 && k[0] == 0x01 ==> ViewGet(m, c, k) == Some(c.code(m'[k]))
    ensures k in m' && |k| > 0 && k[0] == 0x02 ==> ViewGet(m, c, k) == Some(c.contract(m'[k]))
    ensures k in m' && (|k| == 0 || k[0] !in {0x01, 0x02}) ==> ViewGet(m, c, k) == Some(m'[k])
  {
    ServesIff(m, m', k);
    FirstPresentIsStored(m, TranslateNewToOld(k));
    MigrationLosslessIff(m, m');
  }

  /**
   * A key of the new format is never shadowed: a counter the old store has, a contract key with an
   * address of either length, a storage key whose address does not start with a length byte.
   */
  lemma NewFormatKeysAreServed(m: Store, k: Bytes)
    requires WellFormed(m) && |k| > 0
    requires k[0] == 0x04 ==> (k == NewCodeSeq && OldCodeSeq in m) || (k == NewInstanceSeq && OldInstanceSeq in m)
    requires k[0] == 0x02 ==> ValidAddress(k[1..])
    requires k[0] == 0x03 ==> |k| > 20 && k[1] != 20 && k[1] != 32
    requires k[0] == 0x10 ==> |k| == 1
    requires k[0] != 0x11
    ensures !Shadowed(m, k)
  {
    if Family(k, 0x02) || Family(k, 0x03) {
      var raw := [if Family(k, 0x02) then 0x04 else 0x05] + k[1..];
      assert raw[1] == k[1] && |raw| == |k|;
    }
    if Family(k, 0x10) { assert k == NewParams; }
  }

  /**
   * The view can answer for the wrong contract: a storage entry of the all-zero address, which the
   * migration moves to that contract's key, is also served as storage of the address 20, 0, ..., 0.
   */
  lemma ShadowedReadExample(m: Store)
    requires m == map[[0x05, 20] + Zeros(21) := [7]]
    ensures Served(m, [0x03, 20] + Zeros(21)) == Some([0x05, 20] + Zeros(21))
    ensures NewKey([0x05, 20] + Zeros(21)) == [0x03] + Zeros(21)
  {
    var k, o := [0x03, 20] + Zeros(21), [0x05, 20] + Zeros(21);
    assert [0x05] + k[1..] == o;
    LengthByteDropped(o);
    assert o[2..] == Zeros(21);
  }

  function Zeros(n: nat): Bytes {
    seq(n, _ => 0)
  }
}
