/** Range iteration through the historical view. */
module LegacyIterator {
  import opened Bytes
  import opened KVStores
  import opened WasmKeys
  import opened LegacyView

  // ---- translating the bounds

  predicate AnyWithPrefix(m: Store, p: Bytes) {
    exists k :: k in m && p <= k
  }

  /** The length byte in front of the address that `body` starts with, judged by what is stored. */
  function AddressLengthPrefix(m: Store, body: Bytes): Option<byte> {
    if |body| < 20 then None
    else if AnyWithPrefix(m, [0x05, 20] + body[..20]) then Some(20)
    else if |body| >= 32 && AnyWithPrefix(m, [0x05, 32] + body[..32]) then Some(32)
    else Some(20)
  }

  function Least(cs: seq<Bytes>): Bytes
    requires cs != []
  {
    if |cs| == 1 then cs[0]
    else var r := Least(cs[..|cs| - 1]);
         if Less(cs[|cs| - 1], r) then cs[|cs| - 1] else r
  }

  function Greatest(cs: seq<Bytes>): Bytes
    requires cs != []
  {
    if |cs| == 1 then cs[0]
    else var r := Greatest(cs[..|cs| - 1]);
         if Less(r, cs[|cs| - 1]) then cs[|cs| - 1] else r
  }

  predicate Empty(bound: Option<Bytes>) { bound.None? || |bound.value| == 0 }

  predicate InFamily(bound: Option<Bytes>, p: byte) { bound.Some? && Family(bound.value, p) }

  function TranslateBounds(m: Store, start: Option<Bytes>, end: Option<Bytes>): (Option<Bytes>, Option<Bytes>) {
    if Empty(start) && Empty(end) then (None, None)
    else if InFamily(start, 0x03) then
      var n := AddressLengthPrefix(m, start.value[1..]);
      if n.None? then (Some([0x05, 0xff]), Some([0x05, 0xff]))
      else
        var lo := [0x05, n.value] + start.value[1..];
        if InFamily(end, 0x03) then
          var n' := AddressLengthPrefix(m, end.value[1..]);
          if n'.None? then (Some(lo), Some(lo)) else (Some(lo), Some([0x05, n'.value] + end.value[1..]))
        else (Some(lo), None)
    else
      (if Empty(start) then None else Some(Least(TranslateNewToOld(start.value))),
       if Empty(end) then None else Some(Greatest(TranslateNewToOld(end.value))))
  }

  // ---- the iterator

  function Keeps(e: Entry, start: Option<Bytes>, end: Option<Bytes>): bool {
    var k := MapOldToNew(e.key);
    k.Some? && InRange(k.value, start, end)
  }

  /** The entries the iterator yields from the old entries still under its cursor. */
  function Translated(es: seq<Entry>, c: ValueCodec, start: Option<Bytes>, end: Option<Bytes>): seq<Entry> {
    if es == [] then []
    else
      var rest := Translated(es[1..], c, start, end);
      if Keeps(es[0], start, end) then
        var k := MapOldToNew(es[0].key).value;
        [Entry(k, TranslateValue(c, k, es[0].val))] + rest
      else rest
  }

  class Iterator {
    var under: seq<Entry>
    const codec: ValueCodec
    const start: Option<Bytes>
    const end: Option<Bytes>
    var valid: bool
    var key: Bytes
    var val: Bytes

    /** What the iterator still has to yield, its current entry first. */
    ghost function Pending(): seq<Entry>
      reads this
    {
      if valid then [Entry(key, val)] + Translated(under, codec, start, end) else []
    }

    constructor (under: seq<Entry>, codec: ValueCodec, start: Option<Bytes>, end: Option<Bytes>)
      ensures Pending() == Translated(under, codec, start, end)
      ensures !valid ==> this.under == []
    {
      this.under, this.codec, this.start, this.end := under, codec, start, end;
      valid, key, val := false, [], [];
      new;
      Advance();
    }

    method Advance()
      modifies this
      ensures Pending() == old(Translated(under, codec, start, end))
      ensures !valid ==> under == []
    {
      while under != []
        invariant Translated(under, codec, start, end) == old(Translated(under, codec, start, end))
        decreases |under|
      {
        var newKey := MapOldToNew(under[0].key);
        if newKey.Some? && InRange(newKey.value, start, end) {
          key := newKey.value;
          val := TranslateValue(codec, newKey.value, under[0].val);
          valid := true;
          under := under[1..];
          return;
        }
        under := under[1..];
      }
      valid := false;
    }

    method Next()
      requires valid
      modifies this
      ensures Pending() == old(Pending())[1..]
      ensures !valid ==> under == []
    {
      Advance();
    }
  }

  /** What iterating the view over `[start, end)` yields. */
  ghost function ViewScan(m: Store, c: ValueCodec, start: Option<Bytes>, end: Option<Bytes>): seq<Entry> {
    var (lo, hi) := TranslateBounds(m, start, end);
    Translated(Scan(m, lo, hi), c, start, end)
  }

  method OpenIterator(s: LegacyWasmStore, start: Option<Bytes>, end: Option<Bytes>) returns (it: Iterator)
    ensures fresh(it) && it.Pending() == ViewScan(s.parent.data, s.codec, start, end)
  {
    var (lo, hi) := TranslateBounds(s.parent.data, start, end);
    var under := s.parent.Iterator(lo, hi);
    it := new Iterator(under, s.codec, start, end);
  }

  /** Reading an iterator to its end, as every query over the view does. */
  method Drain(it: Iterator) returns (es: seq<Entry>)
    modifies it
    ensures es == old(it.Pending()) && !it.valid
  {
    es := [];
    while it.valid
      invariant es + it.Pending() == old(it.Pending())
      decreases |it.Pending()|
    {
      es := es + [Entry(it.key, it.val)];
      it.Next();
    }
  }

  // ---- what it yields

  lemma {:induction false} TranslatedAre(es: seq<Entry>, c: ValueCodec, start: Option<Bytes>, end: Option<Bytes>)
    ensures forall e :: e in Translated(es, c, start, end) <==>
              exists x :: x in es && Keeps(x, start, end) && e == Recode(c, x)
  {
    if es != [] {
      TranslatedAre(es[1..], c, start, end);
      assert es == [es[0]] + es[1..];
    }
  }

  function Recode(c: ValueCodec, x: Entry): Entry {
    var k := MapOldToNew(x.key);
    if k.Some? then Entry(k.value, TranslateValue(c, k.value, x.val)) else x
  }

  /** Whatever the bounds, a yielded pair is in range and is the image of a stored old entry. */
  lemma ViewScanIsSound(m: Store, c: ValueCodec, start: Option<Bytes>, end: Option<Bytes>, e: Entry)
    requires e in ViewScan(m, c, start, end)
    ensures InRange(e.key, start, end)
    ensures exists o :: o in m && MapOldToNew(o) == Some(e.key) && e.val == TranslateValue(c, e.key, m[o])
  {
    var (lo, hi) := TranslateBounds(m, start, end);
    TranslatedAre(Scan(m, lo, hi), c, start, end);
    ScanIsExact(m, lo, hi);
    var x :| x in Scan(m, lo, hi) && Keeps(x, start, end) && e == Recode(c, x);
    assert x.key in m;
  }

  lemma {:induction false} TranslatedAscends(es: seq<Entry>, c: ValueCodec, start: Option<Bytes>, end: Option<Bytes>)
    requires AscendingEntries(es)
    requires forall x, y :: x in es && y in es && Keeps(x, start, end) && Keeps(y, start, end) && Less(x.key, y.key)
               ==> Less(Recode(c, x).key, Recode(c, y).key)
    ensures AscendingEntries(Translated(es, c, start, end))
  {
    if es != [] {
      var rest := Translated(es[1..], c, start, end);
      TranslatedAscends(es[1..], c, start, end);
      TranslatedAre(es[1..], c, start, end);
      if Keeps(es[0], start, end) {
        forall j | 0 <= j < |rest| ensures Less(Recode(c, es[0]).key, rest[j].key) {
          assert rest[j] in rest;
          var x :| x in es[1..] && Keeps(x, start, end) && rest[j] == Recode(c, x);
          assert x in es && Less(es[0].key, x.key);
        }
      }
    }
  }
}
