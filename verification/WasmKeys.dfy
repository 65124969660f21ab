/** The two wasm key layouts and the pure functions that translate between them. */
module WasmKeys {
  import opened Bytes

  /** Address lengths the configured verifier accepts. */
  predicate ValidAddress(b: Bytes) { |b| == 20 || |b| == 32 }

  predicate Family(k: Bytes, p: byte) { |k| > 0 && k[0] == p }

  const SeqPrefix: byte := 0x04
  const LastCodeId: Bytes := [0x6c, 0x61, 0x73, 0x74, 0x43, 0x6f, 0x64, 0x65, 0x49, 0x64]
  const LastContractId: Bytes :=
    [0x6c, 0x61, 0x73, 0x74, 0x43, 0x6f, 0x6e, 0x74, 0x72, 0x61, 0x63, 0x74, 0x49, 0x64]

  const OldCodeSeq: Bytes := [0x01]
  const OldInstanceSeq: Bytes := [0x02]
  const NewCodeSeq: Bytes := [SeqPrefix] + LastCodeId
  const NewInstanceSeq: Bytes := [SeqPrefix] + LastContractId
  const OldParams: Bytes := [0x11]
  const NewParams: Bytes := [0x10]

  // ---- translators of the upgrade handler

  /** The address a byte string stands for, and whether a length byte was dropped. */
  function RemoveLengthPrefix(b: Bytes): (r: (Bytes, bool)) {
    if ValidAddress(b) then (b, false)
    else if |b| > 1 && b[0] == |b| - 1 && ValidAddress(b[1..]) then (b[1..], true)
    else (b, false)
  }

  function StripAddress(b: Bytes): Bytes { RemoveLengthPrefix(b).0 }

  function RebuildCompositeKey(b: Bytes): (r: Bytes) {
    if |b| > 1 && b[0] + 1 <= |b| then
      var head, tail := b[..b[0] + 1], b[b[0] + 1..];
      var (bare, stripped) := RemoveLengthPrefix(head);
      if stripped then bare + tail else b
    else b
  }

  /** Where the upgrade puts the entry stored at an old key: the whole renaming, family by family. */
  function NewKey(k: Bytes): (r: Bytes) {
    if k == OldCodeSeq then NewCodeSeq
    else if k == OldInstanceSeq then NewInstanceSeq
    else if k == OldParams then NewParams
    else if Family(k, 0x03) then [0x01] + k[1..]
    else if Family(k, 0x04) then [0x02] + StripAddress(k[1..])
    else if Family(k, 0x05) then [0x03] + RebuildCompositeKey(k[1..])
    else if Family(k, 0x06) then [0x05] + k[1..]
    else if Family(k, 0x10) then [0x06] + k[1..]
    else k
  }

  // ---- translators of the historical read view

  function RebuildContractStoreBody(rest: Bytes): Bytes {
    if |rest| > 0 && (rest[0] == 20 || rest[0] == 32) && |rest| >= 1 + rest[0] then rest[1..] else rest
  }

  function StripLegacyLenPrefix(b: Bytes): Bytes {
    if |b| >= 21 && b[0] == 20 && b[0] == |b| - 1 then b[1..] else b
  }

  function MapOldToNew(k: Bytes): (r: Option<Bytes>) {
    if |k| == 0 then None
    else if k == OldCodeSeq then Some(NewCodeSeq)
    else if k == OldInstanceSeq then Some(NewInstanceSeq)
    else if k == OldParams then Some(NewParams)
    else match k[0]
      case 0x03 => Some([0x01] + k[1..])
      case 0x04 => Some([0x02] + StripLegacyLenPrefix(k[1..]))
      case 0x05 => Some([0x03] + RebuildContractStoreBody(k[1..]))
      case 0x06 => Some([0x05] + k[1..])
      case 0x10 => Some([0x06] + k[1..])
      case _ => None
  }

  /** The raw body, then the body behind a 20 and behind a 32 length byte where it is long enough. */
  function BuildLenVariants(base: byte, body: Bytes): (r: seq<Bytes>)
  {
    [[base] + body]
    + (if |body| >= 20 then [[base, 20] + body] else [])
    + (if |body| >= 32 then [[base, 32] + body] else [])
  }

  /** The old keys tried, in order, for a new key. */
  function TranslateNewToOld(k: Bytes): (r: seq<Bytes>)
    ensures |r| > 0
  {
    if |k| == 0 then [k]
    else if k == NewCodeSeq then [OldCodeSeq]
    else if k == NewInstanceSeq then [OldInstanceSeq]
    else if k == NewParams then [OldParams]
    else match k[0]
      case 0x01 => [[0x03] + k[1..]]
      case 0x02 => BuildLenVariants(0x04, k[1..])
      case 0x03 => BuildLenVariants(0x05, k[1..])
      case 0x05 => [[0x06] + k[1..]]
      case 0x06 => [[0x10] + k[1..]]
      case _ => [k]
  }

  // ---- how the two sets of translators relate

  /** Both code paths rebuild a contract-storage key identically, on every byte string. */
  lemma RebuildersAgree(b: Bytes)
    ensures RebuildCompositeKey(b) == RebuildContractStoreBody(b)
  {
    if |b| > 1 && b[0] + 1 <= |b| {
      var head, tail := b[..b[0] + 1], b[b[0] + 1..];
      assert head[1..] + tail == b[1..];
    }
  }

  /**
   * The view's address stripper forgets the 32-byte form: it matches the upgrade's on exactly the
   * other byte strings.
   */
  lemma StrippersAgreeIff(b: Bytes)
    ensures StripLegacyLenPrefix(b) == StripAddress(b) <==> !(|b| == 33 && b[0] == 32)
  {
    if |b| == 33 && b[0] == 32 {
      assert |StripAddress(b)| == 32;
    }
  }

  /**
   * The view names an old entry as the upgrade does except for length-prefixed 32-byte contract
   * keys; entries outside the migrated families are not named at all.
   */
  lemma MapOldToNewIff(k: Bytes)
    ensures MapOldToNew(k) == Some(NewKey(k)) <==>
              (k in {OldCodeSeq, OldInstanceSeq, OldParams}
               || (exists p | p in {0x03, 0x04, 0x05, 0x06, 0x10} :: Family(k, p)))
              && !(|k| == 34 && k[0] == 0x04 && k[1] == 32)
    ensures MapOldToNew(k).None? ==> NewKey(k) == k
  {
    if Family(k, 0x04) {
      StrippersAgreeIff(k[1..]);
      assert |k[1..]| == |k| - 1 && (|k| > 1 ==> k[1..][0] == k[1]);
      SamePrefix(0x02, StripLegacyLenPrefix(k[1..]), StripAddress(k[1..]));
    }
    if Family(k, 0x05) { RebuildersAgree(k[1..]); }
  }

  lemma SamePrefix(p: byte, a: Bytes, b: Bytes)
    ensures [p] + a == [p] + b <==> a == b
  {
    assert ([p] + a)[1..] == a && ([p] + b)[1..] == b;
  }
}
