/** The protobuf encoding of a swap query, after the Protocol Buffers encoding guide. */
module SwapCodec {
  import opened Bytes

  datatype SwapRequest = SwapRequest(offerCoin: Bytes, askDenom: Bytes)

  const TwoTo31: nat := 0x8000_0000
  const TwoTo32: nat := 0x1_0000_0000
  const TwoTo63: nat := 0x8000_0000_0000_0000
  const TwoTo64: nat := 0x1_0000_0000_0000_0000

  // ---- encoding

  /** Base-128 varint, least significant group first. */
  function Varint(v: nat): (r: Bytes) {
    if v < 128 then [v] else [v % 128 + 128] + Varint(v / 128)
  }

  /** bits.Len64 */
  function BitLen(x: nat): nat {
    if x == 0 then 0 else 1 + BitLen(x / 2)
  }

  function Or1(x: nat): nat { if x % 2 == 0 then x + 1 else x }

  /** The predicted length of a varint. */
  function Sov(x: nat): nat { (BitLen(Or1(x)) + 6) / 7 }

  lemma {:induction false} BitLenOr1(x: nat)
    requires x > 0
    ensures BitLen(Or1(x)) == BitLen(x)
  {
    assert Or1(x) / 2 == x / 2;
  }

  lemma BitLenShift7(x: nat)
    requires x >= 128
    ensures BitLen(x) == 7 + BitLen(x / 128)
  {
    var h1 := x / 2;
    var h2 := h1 / 2;
    var h3 := h2 / 2;
    var h4 := h3 / 2;
    var h5 := h4 / 2;
    var h6 := h5 / 2;
    Halve(x);
    Halve(h1);
    Halve(h2);
    Halve(h3);
    Halve(h4);
    Halve(h5);
    Halve(h6);
    assert h6 / 2 == x / 128;
  }

  lemma Halve(x: nat)
    ensures x > 0 ==> BitLen(x) == 1 + BitLen(x / 2)
  {
  }

  /** The length formula is exact for every value. */
  lemma {:induction false} SovIsLength(x: nat)
    ensures Sov(x) == |Varint(x)|
  {
    if x < 128 {
      assert 1 <= BitLen(Or1(x)) <= 7 by { SmallBitLen(Or1(x)); }
    } else {
      SovIsLength(x / 128);
      BitLenOr1(x);
      BitLenOr1(x / 128);
      BitLenShift7(x);
    }
  }

  lemma SmallBitLen(x: nat)
    requires 0 < x < 128
    ensures 1 <= BitLen(x) <= 7
  {
    assert BitLen(x) == 1 + BitLen(x / 2);
    BitLenBelow(x / 2, 64, 6);
  }

  lemma {:induction false} BitLenBelow(x: nat, bound: nat, bits: nat)
    requires x < bound && bound == Pow2(bits)
    ensures BitLen(x) <= bits
    decreases bits
  {
    if bits > 0 && x > 0 {
      BitLenBelow(x / 2, bound / 2, bits - 1);
    }
  }

  function Pow2(n: nat): nat { if n == 0 then 1 else 2 * Pow2(n - 1) }

  /** A length-delimited field; an empty string is not encoded. */
  function EncodeField(tag: byte, s: Bytes): Bytes {
    if s == [] then [] else [tag] + Varint(|s|) + s
  }

  const OfferTag: byte := 0x0a
  const AskTag: byte := 0x12

  function Encode(m: SwapRequest): Bytes {
    EncodeField(OfferTag, m.offerCoin) + EncodeField(AskTag, m.askDenom)
  }

  function FieldSize(s: Bytes): nat {
    if |s| > 0 then 1 + |s| + Sov(|s|) else 0
  }

  function Size(m: SwapRequest): nat { FieldSize(m.offerCoin) + FieldSize(m.askDenom) }

  lemma FieldSizeIsLength(tag: byte, s: Bytes)
    ensures FieldSize(s) == |EncodeField(tag, s)|
  {
    SovIsLength(|s|);
  }

  /** Writes a varint so that it ends just before `offset`. */
  method EncodeVarint(buf: array<byte>, offset: int, v: nat) returns (base: int)
    requires Sov(v) <= offset <= buf.Length
    modifies buf
    ensures base == offset - Sov(v)
    ensures buf[..] == old(buf[..base]) + Varint(v) + old(buf[offset..])
  {
    SovIsLength(v);
    base := offset - Sov(v);
    var i, rest := base, v;
    while rest >= 128
      invariant base <= i && |Varint(rest)| == offset - i
      invariant buf[..i] + Varint(rest) == old(buf[..base]) + Varint(v)
      invariant buf[offset..] == old(buf[offset..])
      decreases rest
    {
      ghost var before := buf[..i];
      buf[i] := rest % 128 + 128;
      assert buf[..i + 1] == before + [rest % 128 + 128];
      rest := rest / 128;
      i := i + 1;
    }
    ghost var before := buf[..i];
    buf[i] := rest;
    assert buf[..i + 1] == before + [rest];
    assert buf[..] == buf[..offset] + buf[offset..];
  }

  /** Writes a field so that it ends just before `end`. */
  method WriteField(buf: array<byte>, end: int, tag: byte, s: Bytes) returns (start: int)
    requires FieldSize(s) <= end <= buf.Length
    modifies buf
    ensures start == end - FieldSize(s)
    ensures buf[..] == old(buf[..start]) + EncodeField(tag, s) + old(buf[end..])
  {
    start := end;
    if |s| > 0 {
      ghost var was := buf[..];
      start := start - |s|;
      CopyInto(buf, start, s);
      ghost var copied := buf[..];
      var i := EncodeVarint(buf, start, |s|);
      ghost var sized := buf[..];
      buf[i - 1] := tag;
      FieldAssembled(was, copied, sized, i - 1, start, end, tag, Varint(|s|), s);
      start := i - 1;
    } else {
      assert buf[..] == buf[..end] + buf[end..];
    }
  }

  lemma FieldAssembled(was: Bytes, copied: Bytes, sized: Bytes, start: int, at: int, end: int, tag: byte, v: Bytes, s: Bytes)
    requires 0 <= start && start + 1 + |v| == at && at + |s| == end <= |was|
    requires copied == was[..at] + s + was[end..]
    requires sized == copied[..start + 1] + v + copied[at..]
    ensures sized[start := tag] == was[..start] + ([tag] + v + s) + was[end..]
  {
    assert copied[at..] == s + was[end..];
    assert copied[..start + 1] == was[..start + 1];
    assert sized == was[..start] + [was[start]] + v + s + was[end..];
  }

  method CopyInto(buf: array<byte>, at: int, s: Bytes)
    requires 0 <= at && at + |s| <= buf.Length
    modifies buf
    ensures buf[..] == old(buf[..at]) + s + old(buf[at + |s|..])
  {
    var i := 0;
    while i < |s|
      invariant 0 <= i <= |s|
      invariant buf[..] == old(buf[..at]) + s[..i] + old(buf[at + i..])
    {
      ghost var was := buf[..];
      buf[at + i] := s[i];
      assert buf[..] == was[at + i := s[i]];
      assert s[..i + 1] == s[..i] + [s[i]];
      i := i + 1;
    }
    assert s[..|s|] == s;
  }

  /** Two stretches written one before the other at the end of a buffer. */
  lemma TwoFields<T>(was: seq<T>, half: seq<T>, now: seq<T>, i: nat, mid: nat, f: seq<T>, g: seq<T>)
    requires i <= mid <= |was| == |half| && mid == i + |f| && |was| == mid + |g|
    requires half == was[..mid] + g + was[|was|..] && now == half[..i] + f + half[mid..]
    ensures now == was[..i] + (f + g)
  {
    assert half[..i] == was[..i] && half[mid..] == g;
  }

  /** The backward writer fills exactly the end of the buffer that the predicted size asks for. */
  method MarshalToSizedBuffer(m: SwapRequest, buf: array<byte>) returns (n: int)
    requires Size(m) <= buf.Length
    modifies buf
    ensures n == Size(m) == |Encode(m)|
    ensures buf[..] == old(buf[..buf.Length - n]) + Encode(m)
  {
    FieldSizeIsLength(OfferTag, m.offerCoin);
    FieldSizeIsLength(AskTag, m.askDenom);
    var i := buf.Length;
    ghost var was := buf[..];
    i := WriteField(buf, i, AskTag, m.askDenom);
    ghost var half, mid := buf[..], i;
    i := WriteField(buf, i, OfferTag, m.offerCoin);
    TwoFields(was, half, buf[..], i, mid, EncodeField(OfferTag, m.offerCoin), EncodeField(AskTag, m.askDenom));
    n := buf.Length - i;
  }

  method Marshal(m: SwapRequest) returns (data: Bytes)
    ensures data == Encode(m)
  {
    FieldSizeIsLength(OfferTag, m.offerCoin);
    FieldSizeIsLength(AskTag, m.askDenom);
    var buf := new byte[Size(m)];
    var n := MarshalToSizedBuffer(m, buf);
    data := buf[..n];
  }
}
