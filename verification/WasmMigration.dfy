/**
 * The in-place renaming of every wasm key family (upgrade v13).  Old and new prefix ranges overlap, so
 * the order of the steps decides whether one family overwrites another.
 */
module WasmMigration {
  import opened Bytes
  import opened KVStores
  import opened Renamings
  import opened WasmKeys

  // ---- the steps

  /** What a step does to the key behind the prefix. */
  datatype Rewrite = Keep | Strip | Rebuild

  function Rewritten(rw: Rewrite, body: Bytes): Bytes {
    match rw
    case Keep => body
    case Strip => StripAddress(body)
    case Rebuild => RebuildCompositeKey(body)
  }

  function MoveKey(p: byte, q: byte, rw: Rewrite): Bytes -> Bytes {
    k => if Family(k, p) then [q] + Rewritten(rw, k[1..]) else k
  }

  lemma PrefixRange(k: Bytes, p: byte)
    requires p < 255
    ensures InRange(k, Some([p]), Some([p + 1])) <==> Family(k, p)
  {
    if |k| > 0 {
      assert !Less(k[1..], [p][1..]) && !Less(k[1..], [p + 1 as byte][1..]);
    }
  }

  /** The loop shared by the five prefix migrations: walk the old prefix, set the new key, delete the old. */
  method MovePrefix(store: KVStore, p: byte, q: byte, rw: Rewrite)
    requires p != q && p < 255
    modifies store
    ensures RenamedBy(old(store.data), store.data, MoveKey(p, q, rw))
  {
    var it := store.Iterator(Some([p]), Some([p + 1]));
    ghost var m, ks := store.data, KeysOf(it);
    var i := 0;
    while i < |it|
      invariant 0 <= i <= |it|
      invariant RenamedBy(m, store.data, MoveSome(Done(ks, i), MoveKey(p, q, rw)))
    {
      PrefixStep(m, store.data, p, q, rw, i);
      var Entry(k, v) := it[i];
      store.Set([q] + Rewritten(rw, k[1..]), v);
      store.Delete([p] + k[1..]);
      i := i + 1;
    }
    PrefixEnd(m, store.data, p, q, rw);
  }

  lemma PrefixStep(m: Store, d: Store, p: byte, q: byte, rw: Rewrite, i: nat)
    requires p != q && p < 255 && i < |Scan(m, Some([p]), Some([p + 1]))|
    requires RenamedBy(m, d, MoveSome(Done(KeysOf(Scan(m, Some([p]), Some([p + 1]))), i), MoveKey(p, q, rw)))
    ensures var it := Scan(m, Some([p]), Some([p + 1]));
            var Entry(k, v) := it[i];
            && |k| > 0
            && RenamedBy(m, d[[q] + Rewritten(rw, k[1..]) := v] - {[p] + k[1..]},
                         MoveSome(Done(KeysOf(it), i + 1), MoveKey(p, q, rw)))
  {
    var it := Scan(m, Some([p]), Some([p + 1]));
    var ks := KeysOf(it);
    PrefixWalk(m, p, q, rw);
    PrefixEntry(m, p, q, rw, i);
    assert ks[i] == it[i].key;
    WalkStep(m, d, ks, i, MoveKey(p, q, rw));
  }

  lemma PrefixEnd(m: Store, d: Store, p: byte, q: byte, rw: Rewrite)
    requires p != q && p < 255
    requires var ks := KeysOf(Scan(m, Some([p]), Some([p + 1])));
             RenamedBy(m, d, MoveSome(Done(ks, |ks|), MoveKey(p, q, rw)))
    ensures RenamedBy(m, d, MoveKey(p, q, rw))
  {
    PrefixWalk(m, p, q, rw);
    WalkEnd(m, d, KeysOf(Scan(m, Some([p]), Some([p + 1]))), MoveKey(p, q, rw));
  }

  lemma PrefixEntry(m: Store, p: byte, q: byte, rw: Rewrite, i: nat)
    requires p < 255 && i < |Scan(m, Some([p]), Some([p + 1]))|
    ensures var Entry(k, v) := Scan(m, Some([p]), Some([p + 1]))[i];
            && k in m && v == m[k] && |k| > 0 && k == [p] + k[1..]
            && MoveKey(p, q, rw)(k) == [q] + Rewritten(rw, k[1..])
  {
    PrefixScan(m, p);
  }

  lemma PrefixWalk(m: Store, p: byte, q: byte, rw: Rewrite)
    requires p != q && p < 255
    ensures IsWalk(m, KeysOf(Scan(m, Some([p]), Some([p + 1]))), MoveKey(p, q, rw))
  {
    PrefixScan(m, p);
    var it := Scan(m, Some([p]), Some([p + 1]));
    var ks := KeysOf(it);
    forall k | k in m && Family(k, p) ensures k in ks {
      var j :| 0 <= j < |it| && it[j] == Entry(k, m[k]);
      assert ks[j] == k;
    }
    forall a, b | a in ks && b in ks ensures MoveKey(p, q, rw)(a) != b { LeavesFamily(p, q, rw, a, b); }
  }

  lemma LeavesFamily(p: byte, q: byte, rw: Rewrite, a: Bytes, b: Bytes)
    requires p != q && Family(a, p) && Family(b, p)
    ensures MoveKey(p, q, rw)(a) != b
  {
    assert MoveKey(p, q, rw)(a)[0] == q && b[0] == p;
  }

  /** The walk over a prefix visits the keys of that family, each once. */
  lemma PrefixScan(m: Store, p: byte)
    requires p < 255
    ensures var it := Scan(m, Some([p]), Some([p + 1]));
            && (forall j :: 0 <= j < |it| ==> it[j].key in m && Family(it[j].key, p) && it[j].val == m[it[j].key])
            && (forall i, j :: 0 <= i < j < |it| ==> it[i].key != it[j].key)
            && (forall k :: k in m && Family(k, p) ==> Entry(k, m[k]) in it)
  {
    var it := Scan(m, Some([p]), Some([p + 1]));
    ScanIsExact(m, Some([p]), Some([p + 1]));
    forall j | 0 <= j < |it| ensures it[j].key in m && Family(it[j].key, p) && it[j].val == m[it[j].key] {
      assert it[j] in it;
      PrefixRange(it[j].key, p);
    }
    forall i, j | 0 <= i < j < |it| ensures it[i].key != it[j].key {
      LessIsTotal(it[i].key, it[j].key);
    }
    forall k | k in m && Family(k, p) ensures Entry(k, m[k]) in it {
      PrefixRange(k, p);
    }
  }

  datatype SequenceKeys = SequenceKeys(code: Option<Bytes>, instance: Option<Bytes>)

  const ZeroCounter: Bytes := [0, 0, 0, 0, 0, 0, 0, 0]

  function OrZero(v: Option<Bytes>): Bytes {
    if v.Some? then v.value else ZeroCounter
  }

  /** Without the old counters nothing is left under the prefix the contracts move to. */
  lemma ContractTargetClear(m: Store)
    requires CountersAreSingleKeys(m)
    ensures Clear(m - {OldCodeSeq, OldInstanceSeq}, 0x02)
  {
    forall k | k in m && Family(k, 0x02) ensures k == OldInstanceSeq {}
  }

  method SaveSequenceKeys(store: KVStore) returns (saved: SequenceKeys)
    modifies store
    ensures saved == SequenceKeys(old(store.Get(OldCodeSeq)), old(store.Get(OldInstanceSeq)))
    ensures store.data == old(store.data) - {OldCodeSeq, OldInstanceSeq}
    ensures CountersAreSingleKeys(old(store.data)) ==> Clear(store.data, 0x02)
  {
    if CountersAreSingleKeys(store.data) { ContractTargetClear(store.data); }
    saved := SequenceKeys(None, None);
    var v := store.Get(OldCodeSeq);
    if v.Some? {
      saved := saved.(code := v);
      store.Delete(OldCodeSeq);
    }
    v := store.Get(OldInstanceSeq);
    if v.Some? {
      saved := saved.(instance := v);
      store.Delete(OldInstanceSeq);
    }
  }

  /** An existing new-format counter wins over the saved one. */
  method MigrateSequenceKeys(store: KVStore, saved: SequenceKeys)
    modifies store
    ensures store.data ==
            map[NewCodeSeq := OrZero(saved.code), NewInstanceSeq := OrZero(saved.instance)] + old(store.data)
  {
    if NewCodeSeq !in store.data {
      store.Set(NewCodeSeq, OrZero(saved.code));
    }
    if NewInstanceSeq !in store.data {
      store.Set(NewInstanceSeq, OrZero(saved.instance));
    }
  }

  function MoveParams(k: Bytes): Bytes {
    if k == OldParams then NewParams else k
  }

  method MigrateParamsKey(store: KVStore)
    modifies store
    ensures RenamedBy(old(store.data), store.data, MoveParams)
  {
    var value := store.Get(OldParams);
    if value.None? {
      return;
    }
    store.Set(NewParams, value.value);
    store.Delete(OldParams);
    forall k | k in store.data
      ensures exists o :: o in old(store.data) && MoveParams(o) == k && old(store.data)[o] == store.data[k]
    {
      if k == NewParams { assert MoveParams(OldParams) == k; } else { assert MoveParams(k) == k; }
    }
  }

  // ---- the whole migration

  /** The old store with its two counters, an absent one reading as eight zero bytes. */
  function WithCounters(m: Store): Store {
    map[OldCodeSeq := ZeroCounter, OldInstanceSeq := ZeroCounter] + m
  }

  /** Where an old key's entry is when `stage` of the prefix steps after the counters have run. */
  function NewKeyAt(stage: nat, k: Bytes): Bytes {
    if k == OldCodeSeq then NewCodeSeq
    else if k == OldInstanceSeq then NewInstanceSeq
    else if Family(k, 0x04) then [0x02] + StripAddress(k[1..])
    else if Family(k, 0x03) && stage >= 2 then [0x01] + k[1..]
    else if Family(k, 0x05) && stage >= 3 then [0x03] + RebuildCompositeKey(k[1..])
    else if Family(k, 0x06) && stage >= 4 then [0x05] + k[1..]
    else if Family(k, 0x10) && stage >= 5 then [0x06] + k[1..]
    else if k == OldParams && stage >= 6 then NewParams
    else k
  }

  function NewKeyStage(stage: nat): Bytes -> Bytes {
    k => NewKeyAt(stage, k)
  }

  ghost predicate Clear(m: Store, p: byte) {
    forall k :: k in m ==> !Family(k, p)
  }

  /** The counters are the only keys under their prefixes. */
  ghost predicate CountersAreSingleKeys(m: Store) {
    forall k :: k in m && (Family(k, 0x01) || Family(k, 0x02)) ==> |k| == 1
  }

  /** Taking the counters out before the contract step and putting them back after it renames them too. */
  lemma CountersRestored(m: Store, m1: Store, m2: Store)
    requires RenamedBy(m - {OldCodeSeq, OldInstanceSeq}, m1, MoveKey(0x04, 0x02, Strip))
    requires m2 == map[NewCodeSeq := OrZero(Lookup(m, OldCodeSeq)),
                       NewInstanceSeq := OrZero(Lookup(m, OldInstanceSeq))] + m1
    ensures RenamedBy(WithCounters(m), m2, NewKeyStage(1))
  {
    CountersAside(m);
    ContractsMoved(m - {OldCodeSeq, OldInstanceSeq}, m1);
    FirstStage();
    RestorePair(WithCounters(m), m1, m2, OldCodeSeq, OldInstanceSeq, MoveKey(0x04, 0x02, Strip), NewKeyStage(1));
  }

  lemma CountersAside(m: Store)
    ensures var full := WithCounters(m);
            && full - {OldCodeSeq, OldInstanceSeq} == m - {OldCodeSeq, OldInstanceSeq}
            && OldCodeSeq in full && full[OldCodeSeq] == OrZero(Lookup(m, OldCodeSeq))
            && OldInstanceSeq in full && full[OldInstanceSeq] == OrZero(Lookup(m, OldInstanceSeq))
  {
  }

  lemma ContractsMoved(m: Store, m1: Store)
    requires RenamedBy(m, m1, MoveKey(0x04, 0x02, Strip))
    ensures Clear(m1, 0x04) && NewCodeSeq !in m1 && NewInstanceSeq !in m1
  {
    forall k | k in m1 ensures !Family(k, 0x04) {
      var o :| o in m && MoveKey(0x04, 0x02, Strip)(o) == k;
    }
    assert Family(NewCodeSeq, 0x04) && Family(NewInstanceSeq, 0x04);
  }

  lemma FirstStage()
    ensures NewKeyStage(1)(OldCodeSeq) == NewCodeSeq && NewKeyStage(1)(OldInstanceSeq) == NewInstanceSeq
    ensures NewCodeSeq != NewInstanceSeq
    ensures forall k :: k != OldCodeSeq && k != OldInstanceSeq ==>
              NewKeyStage(1)(k) == MoveKey(0x04, 0x02, Strip)(k)
  {
    assert |NewCodeSeq| != |NewInstanceSeq|;
  }

  function Lookup(m: Store, k: Bytes): Option<Bytes> {
    if k in m then Some(m[k]) else None
  }

  function Target(stage: nat): byte {
    match stage
    case 1 => 0x01
    case 2 => 0x03
    case 3 => 0x05
    case 4 => 0x06
    case _ => 0x10
  }

  /** Each step after the counters finds nothing under the prefix it is about to fill. */
  lemma NextTargetClear(m: Store, m': Store, stage: nat)
    requires 1 <= stage <= 5 && CountersAreSingleKeys(m)
    requires RenamedBy(WithCounters(m), m', NewKeyStage(stage))
    ensures Clear(m', Target(stage))
  {
    forall k | k in m' ensures !Family(k, Target(stage)) {
      var o := Source(WithCounters(m), m', NewKeyStage(stage), k);
      SingleCounters(m, o);
      StageAvoids(stage, o);
    }
  }

  lemma SingleCounters(m: Store, k: Bytes)
    requires CountersAreSingleKeys(m) && k in WithCounters(m)
    ensures Family(k, 0x01) || Family(k, 0x02) ==> |k| == 1
  {
  }

  lemma StageAvoids(stage: nat, k: Bytes)
    requires 1 <= stage <= 5 && (Family(k, 0x01) || Family(k, 0x02) ==> |k| == 1)
    ensures !Family(NewKeyStage(stage)(k), Target(stage))
  {
    assert NewKeyStage(stage)(k) == NewKeyAt(stage, k);
  }

  /** The renaming done by each step after the counters. */
  function Step(stage: nat): Bytes -> Bytes
    requires 1 <= stage <= 5
  {
    match stage
    case 1 => MoveKey(0x03, 0x01, Keep)
    case 2 => MoveKey(0x05, 0x03, Rebuild)
    case 3 => MoveKey(0x06, 0x05, Keep)
    case 4 => MoveKey(0x10, 0x06, Keep)
    case _ => MoveParams
  }

  lemma StepAdvances(stage: nat, k: Bytes)
    requires 1 <= stage <= 5
    ensures Step(stage)(NewKeyAt(stage, k)) == NewKeyAt(stage + 1, k)
  {
    var at := NewKeyAt(stage, k);
    assert at == OldParams ==> at[0] == 0x11;
  }

  /** Each step takes the renaming from one stage to the next. */
  lemma NextStage(m: Store, m1: Store, m2: Store, stage: nat)
    requires 1 <= stage <= 5
    requires RenamedBy(WithCounters(m), m1, NewKeyStage(stage)) && RenamedBy(m1, m2, Step(stage))
    ensures RenamedBy(WithCounters(m), m2, NewKeyStage(stage + 1))
  {
    forall k ensures NewKeyStage(stage + 1)(k) == Step(stage)(NewKeyStage(stage)(k)) { StepAdvances(stage, k); }
    RenamedByAgain(WithCounters(m), m1, m2, NewKeyStage(stage), Step(stage), NewKeyStage(stage + 1));
  }

  lemma LastStage(m: Store, m': Store)
    requires RenamedBy(m, m', NewKeyStage(6))
    ensures RenamedBy(m, m', NewKey)
  {
    assert forall k :: NewKeyStage(6)(k) == NewKey(k);
    SameRenaming(m, m', NewKeyStage(6), NewKey);
  }

  /** The five steps after the counters, each from its stage of the renaming to the next. */
  method RunStep(store: KVStore, stage: nat, ghost m: Store)
    requires 1 <= stage <= 5 && RenamedBy(WithCounters(m), store.data, NewKeyStage(stage))
    modifies store
    ensures RenamedBy(WithCounters(m), store.data, NewKeyStage(stage + 1))
  {
    ghost var before := store.data;
    match stage {
      case 1 => MovePrefix(store, 0x03, 0x01, Keep);
      case 2 => MovePrefix(store, 0x05, 0x03, Rebuild);
      case 3 => MovePrefix(store, 0x06, 0x05, Keep);
      case 4 => MovePrefix(store, 0x10, 0x06, Keep);
      case _ => MigrateParamsKey(store);
    }
    NextStage(m, before, store.data, stage);
  }

  /** The contract step, between taking the counters out and putting them back. */
  method MigrateContractsAndCounters(store: KVStore)
    modifies store
    ensures RenamedBy(WithCounters(old(store.data)), store.data, NewKeyStage(1))
  {
    ghost var m := store.data;
    var saved := SaveSequenceKeys(store);
    MovePrefix(store, 0x04, 0x02, Strip);
    ghost var s1 := store.data;
    MigrateSequenceKeys(store, saved);
    CountersRestored(m, s1, store.data);
  }

  /** The last three steps: contract history, the secondary index and the parameters. */
  method MigrateRest(store: KVStore, ghost m: Store)
    requires RenamedBy(WithCounters(m), store.data, NewKeyStage(3))
    modifies store
    ensures RenamedBy(WithCounters(m), store.data, NewKey)
  {
    RunStep(store, 3, m);
    RunStep(store, 4, m);
    RunStep(store, 5, m);
    LastStage(WithCounters(m), store.data);
  }

  /**
   * For every store whatever its contents, the seven steps leave exactly the renamed keys of the old
   * store, each with the value of an entry renamed there, absent counters becoming zero.
   */
  method MigrateWasmKeys(store: KVStore)
    modifies store
    ensures RenamedBy(WithCounters(old(store.data)), store.data, NewKey)
  {
    ghost var m := store.data;
    MigrateContractsAndCounters(store);
    RunStep(store, 1, m);
    RunStep(store, 2, m);
    MigrateRest(store, m);
  }
}
