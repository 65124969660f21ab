/** Decoding what was encoded. */
module SwapRoundTrip {
  import opened Bytes
  import opened SwapCodec
  import opened SwapDecoder

  /** `s` stands in `b` at index `i`. */
  predicate Occurs(b: Bytes, i: nat, s: Bytes) {
    i + |s| <= |b| && b[i..i + |s|] == s
  }

  lemma OccursSplit(b: Bytes, i: nat, x: Bytes, y: Bytes)
    requires Occurs(b, i, x + y)
    ensures Occurs(b, i, x) && Occurs(b, i + |x|, y)
  {
    var w := b[i..i + |x + y|];
    assert b[i..i + |x|] == w[..|x|];
    assert b[i + |x|..i + |x| + |y|] == w[|x|..];
  }

  // ---- varints

  lemma {:induction false} Shl7Splits(v: nat, k: nat)
    ensures Shl7(v % 128, k) + Shl7(v / 128, k + 1) == Shl7(v, k)
  {
    if k > 0 { Shl7Splits(v, k - 1); }
  }

  /** Ten groups of seven bits reach past 64 bits. */
  lemma {:induction false} Shl7Grows(v: nat, k: nat)
    requires v > 0 && k >= 10
    ensures Shl7(v, k) >= TwoTo64
  {
    if k == 10 {
      assert Shl7(v, 1) >= 128;
      assert Shl7(v, 2) >= 16384;
      assert Shl7(v, 3) >= 2097152;
      assert Shl7(v, 4) >= 268435456;
      assert Shl7(v, 5) >= 34359738368;
      assert Shl7(v, 6) >= 4398046511104;
      assert Shl7(v, 7) >= 562949953421312;
      assert Shl7(v, 8) >= 72057594037927936;
      assert Shl7(v, 9) >= 9223372036854775808;
    } else {
      Shl7Grows(v, k - 1);
    }
  }

  lemma ReadMore(b: Bytes, i: nat, k: nat, acc: nat, v: nat)
    requires i < |b| && k < 10 && v >= 128 && b[i] == v % 128 + 128 && acc + Shl7(v, k) < TwoTo64
    ensures ReadVarint(b, i, k, acc) == ReadVarint(b, i + 1, k + 1, acc + Shl7(v % 128, k))
  {
    Shl7Splits(v, k);
    assert b[i] % 128 == v % 128;
  }

  lemma ReadLast(b: Bytes, i: nat, k: nat, acc: nat, v: nat)
    requires i < |b| && k < 10 && b[i] == v < 128 && acc + Shl7(v, k) < TwoTo64
    ensures ReadVarint(b, i, k, acc) == Ok(At(acc + Shl7(v, k), i + 1))
  {
    assert b[i] % 128 == v;
  }

  /** The reader inverts the writer for every 64-bit value. */
  lemma {:induction false} ReadBack(b: Bytes, i: nat, k: nat, acc: nat, v: nat)
    requires Occurs(b, i, Varint(v))
    requires (k == 0 || v > 0) && acc + Shl7(v, k) < TwoTo64
    ensures ReadVarint(b, i, k, acc) == Ok(At(acc + Shl7(v, k), i + |Varint(v)|))
    decreases v
  {
    if k >= 10 { Shl7Grows(v, k); }
    if v >= 128 {
      OccursSplit(b, i, [v % 128 + 128], Varint(v / 128));
      assert b[i] == b[i..i + 1][0];
      ReadMore(b, i, k, acc, v);
      Shl7Splits(v, k);
      ReadBack(b, i + 1, k + 1, acc + Shl7(v % 128, k), v / 128);
    } else {
      assert b[i] == b[i..i + 1][0];
      ReadLast(b, i, k, acc, v);
    }
  }

  lemma ReadVarintAt(b: Bytes, i: nat, v: nat)
    requires Occurs(b, i, Varint(v)) && v < TwoTo64
    ensures ReadVarint(b, i, 0, 0) == Ok(At(v, i + |Varint(v)|))
  {
    ReadBack(b, i, 0, 0, v);
  }

  // ---- strings and fields

  lemma Int64Small(u: nat)
    requires u < TwoTo63
    ensures Int64(u) == u
  {
  }

  lemma ReadStringAt(b: Bytes, i: nat, s: Bytes)
    requires Occurs(b, i, Varint(|s|) + s) && |b| < TwoTo63
    ensures ReadString(b, 2, i) == Ok(At(s, i + |Varint(|s|)| + |s|))
  {
    OccursSplit(b, i, Varint(|s|), s);
    ReadVarintAt(b, i, |s|);
    var next := i + |Varint(|s|)|;
    Int64Small(|s|);
    Int64Small(next + |s|);
  }

  lemma ReadTag(b: Bytes, i: nat, tag: byte)
    requires Occurs(b, i, [tag]) && tag < 128
    ensures ReadVarint(b, i, 0, 0) == Ok(At(tag, i + 1))
  {
    assert b[i] == b[i..i + 1][0];
  }

  /** The field numbers and the tags they are written with. */
  function TagOf(fieldNum: int): byte { if fieldNum == 1 then OfferTag else AskTag }

  function PutField(m: SwapRequest, fieldNum: int, s: Bytes): SwapRequest {
    if s == [] then m else SetField(m, fieldNum, s)
  }

  lemma DecodeKnownField(b: Bytes, i: nat, fieldNum: int, s: Bytes, m: SwapRequest)
    requires 1 <= fieldNum <= 2 && s != []
    requires Occurs(b, i, EncodeField(TagOf(fieldNum), s)) && |b| < TwoTo63
    ensures DecodeFrom(b, i, m) == DecodeFrom(b, i + |EncodeField(TagOf(fieldNum), s)|, SetField(m, fieldNum, s))
  {
    var tag := TagOf(fieldNum);
    assert EncodeField(tag, s) == [tag] + (Varint(|s|) + s);
    OccursSplit(b, i, [tag], Varint(|s|) + s);
    ReadTag(b, i, tag);
    ReadStringAt(b, i + 1, s);
  }

  /** Decoding past one encoded field sets it, or leaves it when the field is empty and so not encoded. */
  lemma DecodePastField(b: Bytes, i: nat, end: nat, fieldNum: int, s: Bytes, m: SwapRequest, m': SwapRequest)
    requires 1 <= fieldNum <= 2 && |b| < TwoTo63
    requires Occurs(b, i, EncodeField(TagOf(fieldNum), s)) && end == i + |EncodeField(TagOf(fieldNum), s)|
    requires m' == PutField(m, fieldNum, s)
    ensures DecodeFrom(b, i, m) == DecodeFrom(b, end, m')
  {
    if s != [] { DecodeKnownField(b, i, fieldNum, s, m); }
  }

  /** The later message's fields win where it has them. */
  function Merge(m: SwapRequest, n: SwapRequest): SwapRequest {
    SwapRequest(if n.offerCoin == [] then m.offerCoin else n.offerCoin,
                if n.askDenom == [] then m.askDenom else n.askDenom)
  }

  lemma DecodePastMessage(b: Bytes, i: nat, end: nat, n: SwapRequest, m: SwapRequest)
    requires Occurs(b, i, Encode(n)) && |b| < TwoTo63 && end == i + |Encode(n)|
    ensures DecodeFrom(b, i, m) == DecodeFrom(b, end, Merge(m, n))
  {
    var f, g := EncodeField(OfferTag, n.offerCoin), EncodeField(AskTag, n.askDenom);
    var mid, m1 := i + |f|, PutField(m, 1, n.offerCoin);
    OccursSplit(b, i, f, g);
    MergeByFields(m, n);
    assert end == mid + |g|;
    DecodePastField(b, i, mid, 1, n.offerCoin, m, m1);
    DecodePastField(b, mid, end, 2, n.askDenom, m1, Merge(m, n));
  }

  lemma MergeByFields(m: SwapRequest, n: SwapRequest)
    ensures PutField(PutField(m, 1, n.offerCoin), 2, n.askDenom) == Merge(m, n)
    ensures |Encode(n)| == |EncodeField(OfferTag, n.offerCoin)| + |EncodeField(AskTag, n.askDenom)|
    ensures TagOf(1) == OfferTag && TagOf(2) == AskTag
  {
  }

  const Blank := SwapRequest([], [])

  /** Decoding an encoded request gives it back, for every request that fits in memory. */
  lemma RoundTrip(m: SwapRequest)
    requires Size(m) < TwoTo63
    ensures |Encode(m)| == Size(m) && DecodeFrom(Encode(m), 0, Blank) == Ok(m)
  {
    FieldSizeIsLength(OfferTag, m.offerCoin);
    FieldSizeIsLength(AskTag, m.askDenom);
    DecodePastMessage(Encode(m), 0, |Encode(m)|, m, Blank);
  }

  /** Concatenated encodings decode to the merge of the messages. */
  lemma ConcatenationMerges(m: SwapRequest, n: SwapRequest)
    requires |Encode(m) + Encode(n)| < TwoTo63
    ensures DecodeFrom(Encode(m) + Encode(n), 0, Blank) == Ok(Merge(m, n))
  {
    var b := Encode(m) + Encode(n);
    assert b[0..|b|] == b;
    OccursSplit(b, 0, Encode(m), Encode(n));
    DecodePastMessage(b, 0, |Encode(m)|, m, Blank);
    DecodePastMessage(b, |Encode(m)|, |b|, n, m);
  }

  // ---- the bytes on the wire

  /** A number of two groups, the lower one first with its top bit set. */
  lemma TwoGroups(v: nat)
    requires 128 <= v < 16384
    ensures Varint(v) == [v % 128 + 128, v / 128]
  {
    assert v / 128 < 128;
  }

  /** Field 1 is the offer and field 2 the asked denom, each a tag, a length and the text. */
  lemma WireFormat(m: SwapRequest)
    ensures 0 < |m.offerCoin| < 128 && 0 < |m.askDenom| < 128 ==>
              Encode(m) == [0x0a, |m.offerCoin|] + m.offerCoin + [0x12, |m.askDenom|] + m.askDenom
    ensures 128 <= |m.offerCoin| < 16384 && m.askDenom == [] ==>
              Encode(m) == [0x0a, |m.offerCoin| % 128 + 128, |m.offerCoin| / 128] + m.offerCoin
    ensures m.offerCoin == [] && 0 < |m.askDenom| < 128 ==> Encode(m) == [0x12, |m.askDenom|] + m.askDenom
  {
    if 128 <= |m.offerCoin| < 16384 { TwoGroups(|m.offerCoin|); }
  }
}
