/** Fields of other schemas, of every wire type and nested to any depth, among those of a swap request. */
module SwapFields {
  import opened Bytes
  import opened SwapCodec
  import opened SwapDecoder
  import opened SwapRoundTrip

  datatype Payload =
    | Int(value: nat)
    | Fixed64(bytes: Bytes)
    | Blob(bytes: Bytes)
    | Group(fields: seq<Field>)
    | Fixed32(bytes: Bytes)

  datatype Field = Field(number: nat, payload: Payload)

  function WireType(p: Payload): nat {
    match p
    case Int(_) => 0
    case Fixed64(_) => 1
    case Blob(_) => 2
    case Group(_) => 3
    case Fixed32(_) => 5
  }

  function Tag(number: nat, wireType: nat): Bytes { Varint(8 * number + wireType) }

  /** A field as any writer of the format puts it: a group ends with its own closing tag. */
  function Written(f: Field): Bytes
    decreases f
  {
    Tag(f.number, WireType(f.payload)) + Body(f.number, f.payload)
  }

  function Body(number: nat, p: Payload): Bytes
    decreases p
  {
    match p
    case Int(v) => Varint(v)
    case Fixed64(b) => b
    case Blob(b) => Varint(|b|) + b
    case Group(fs) => AllWritten(fs) + Tag(number, 4)
    case Fixed32(b) => b
  }

  function AllWritten(fs: seq<Field>): Bytes
    decreases fs
  {
    if fs == [] then [] else Written(fs[0]) + AllWritten(fs[1..])
  }

  /** Numbers and values fit in 64 bits and fixed payloads have their length, at every depth. */
  predicate Valid(f: Field) {
    f.number < TwoTo61 &&
    match f.payload
    case Int(v) => v < TwoTo64
    case Fixed64(b) => |b| == 8
    case Blob(_) => true
    case Group(fs) => forall g :: g in fs ==> Valid(g)
    case Fixed32(b) => |b| == 4
  }

  const TwoTo61: nat := 0x2000_0000_0000_0000

  // ---- skipping

  /** Where a skip stands after a field that ends at `end`. */
  function After(b: Bytes, end: nat, depth: nat): Result<nat>
    requires |b| < TwoTo63
  {
    if depth == 0 then Ok(end) else SkipFrom(b, end, depth)
  }

  lemma SkipStep(b: Bytes, i: nat, t: nat, j: nat, depth: nat, end: nat, depth': nat)
    requires i < |b| < TwoTo63 && j <= |b| && ReadVarint(b, i, 0, 0) == Ok(At(t, j))
    requires SkipPayload(b, t % 8, j, depth) == Ok((end, depth'))
    ensures SkipFrom(b, i, depth) == After(b, end, depth')
  {
  }

  lemma TagFacts(number: nat, wireType: nat)
    requires number < TwoTo61 && wireType < 8
    ensures var t := 8 * number + wireType;
            t < TwoTo64 && t % 8 == wireType && t / 8 == number
  {
  }

  lemma ReadTagAt(b: Bytes, i: nat, j: nat, number: nat, wireType: nat)
    requires number < TwoTo61 && wireType < 8 && Occurs(b, i, Tag(number, wireType)) && j == i + |Tag(number, wireType)|
    ensures ReadVarint(b, i, 0, 0) == Ok(At(8 * number + wireType, j)) && i < j <= |b|
  {
    TagFacts(number, wireType);
    ReadVarintAt(b, i, 8 * number + wireType);
  }

  lemma SkipInt(b: Bytes, j: nat, end: nat, v: nat, depth: nat)
    requires Occurs(b, j, Varint(v)) && v < TwoTo64 && |b| < TwoTo63 && end == j + |Varint(v)|
    ensures SkipPayload(b, 0, j, depth) == Ok((end, depth))
  {
    ReadVarintAt(b, j, v);
  }

  lemma SkipBlob(b: Bytes, j: nat, end: nat, s: Bytes, depth: nat)
    requires Occurs(b, j, Varint(|s|) + s) && |b| < TwoTo63 && end == j + |Varint(|s|)| + |s|
    ensures SkipPayload(b, 2, j, depth) == Ok((end, depth))
  {
    OccursSplit(b, j, Varint(|s|), s);
    ReadVarintAt(b, j, |s|);
    Int64Small(|s|);
    Int64Small(end);
  }

  lemma SkipFixed(b: Bytes, j: nat, end: nat, depth: nat)
    requires j <= end <= |b| < TwoTo63
    ensures end == j + 8 ==> SkipPayload(b, 1, j, depth) == Ok((end, depth))
    ensures end == j + 4 ==> SkipPayload(b, 5, j, depth) == Ok((end, depth))
  {
    Int64Small(end);
  }

  /** Skipping a field that is not a group. */
  lemma SkipPlain(b: Bytes, i: nat, j: nat, end: nat, f: Field, depth: nat)
    requires Valid(f) && !f.payload.Group? && |b| < TwoTo63
    requires Occurs(b, i, Tag(f.number, WireType(f.payload))) && j == i + |Tag(f.number, WireType(f.payload))|
    requires Occurs(b, j, Body(f.number, f.payload)) && end == j + |Body(f.number, f.payload)|
    ensures SkipFrom(b, i, depth) == After(b, end, depth)
  {
    var w := WireType(f.payload);
    ReadTagAt(b, i, j, f.number, w);
    TagFacts(f.number, w);
    match f.payload {
      case Int(v) => SkipInt(b, j, end, v, depth);
      case Fixed64(_) => SkipFixed(b, j, end, depth);
      case Blob(s) => SkipBlob(b, j, end, s, depth);
      case Fixed32(_) => SkipFixed(b, j, end, depth);
    }
    SkipStep(b, i, 8 * f.number + w, j, depth, end, depth);
  }

  lemma SkipOpen(b: Bytes, i: nat, j: nat, number: nat, depth: nat)
    requires number < TwoTo61 && |b| < TwoTo63 && Occurs(b, i, Tag(number, 3)) && j == i + |Tag(number, 3)|
    ensures SkipFrom(b, i, depth) == SkipFrom(b, j, depth + 1)
  {
    ReadTagAt(b, i, j, number, 3);
    TagFacts(number, 3);
    SkipStep(b, i, 8 * number + 3, j, depth, j, depth + 1);
  }

  lemma SkipClose(b: Bytes, i: nat, end: nat, number: nat, depth: nat)
    requires number < TwoTo61 && |b| < TwoTo63 && Occurs(b, i, Tag(number, 4)) && end == i + |Tag(number, 4)|
    ensures SkipFrom(b, i, depth + 1) == After(b, end, depth)
  {
    ReadTagAt(b, i, end, number, 4);
    TagFacts(number, 4);
    SkipStep(b, i, 8 * number + 4, end, depth + 1, end, depth);
  }

  /** A skip consumes exactly one field, whatever its wire type and however deep its groups. */
  lemma {:induction false} SkipField(b: Bytes, i: nat, end: nat, f: Field, depth: nat)
    requires Valid(f) && |b| < TwoTo63 && Occurs(b, i, Written(f)) && end == i + |Written(f)|
    ensures SkipFrom(b, i, depth) == After(b, end, depth)
    decreases f, 0
  {
    if f.payload.Group? {
      var fs := f.payload.fields;
      var j, mid := GroupParts(b, i, end, f);
      SkipOpen(b, i, j, f.number, depth);
      SkipFields(b, j, mid, fs, depth + 1);
      SkipClose(b, mid, end, f.number, depth);
    } else {
      var tag := Tag(f.number, WireType(f.payload));
      OccursSplit(b, i, tag, Body(f.number, f.payload));
      SkipPlain(b, i, i + |tag|, end, f, depth);
    }
  }

  /** A group is its opening tag, its fields and its closing tag. */
  lemma GroupParts(b: Bytes, i: nat, end: nat, f: Field) returns (j: nat, mid: nat)
    requires f.payload.Group? && Occurs(b, i, Written(f)) && end == i + |Written(f)|
    ensures Occurs(b, i, Tag(f.number, 3)) && j == i + |Tag(f.number, 3)|
    ensures Occurs(b, j, AllWritten(f.payload.fields)) && mid == j + |AllWritten(f.payload.fields)|
    ensures Occurs(b, mid, Tag(f.number, 4)) && end == mid + |Tag(f.number, 4)|
  {
    var open, inner, close := Tag(f.number, 3), AllWritten(f.payload.fields), Tag(f.number, 4);
    j, mid := i + |open|, i + |open| + |inner|;
    assert Written(f) == open + (inner + close);
    OccursSplit(b, i, open, inner + close);
    OccursSplit(b, j, inner, close);
  }

  lemma {:induction false} SkipFields(b: Bytes, i: nat, end: nat, fs: seq<Field>, depth: nat)
    requires (forall g :: g in fs ==> Valid(g)) && depth > 0
    requires |b| < TwoTo63 && Occurs(b, i, AllWritten(fs)) && end == i + |AllWritten(fs)|
    ensures SkipFrom(b, i, depth) == SkipFrom(b, end, depth)
    decreases fs, 1
  {
    if fs != [] {
      var mid := i + |Written(fs[0])|;
      OccursSplit(b, i, Written(fs[0]), AllWritten(fs[1..]));
      SkipField(b, i, mid, fs[0], depth);
      SkipFields(b, mid, end, fs[1..], depth);
    }
  }

  // ---- decoding past it

  /** Offsets do not matter: a field skipped from its own start is skipped in place. */
  lemma OccursInTail(b: Bytes, i: nat, s: Bytes)
    requires Occurs(b, i, s)
    ensures Occurs(b[i..], 0, s)
  {
    assert b[i..][0..|s|] == b[i..i + |s|];
  }

  lemma PassOver(b: Bytes, i: nat, end: nat, n: nat, t: nat, j: nat, m: SwapRequest)
    requires i < j <= |b| < TwoTo63 && end == i + n <= |b| && ReadVarint(b, i, 0, 0) == Ok(At(t, j))
    requires t % 8 != 4 && 2 < t / 8 < TwoTo31 && SkipFrom(b[i..], 0, 0) == Ok(n)
    ensures DecodeFrom(b, i, m) == DecodeFrom(b, end, m)
  {
    Int64Small(end);
    assert DecodeFrom(b, i, m) == DecodeField(b, i, m, t / 8, t % 8, j);
  }

  /** A field of a number this schema does not know has no effect, wherever it stands and whatever it holds. */
  lemma UnknownFieldIgnored(b: Bytes, i: nat, end: nat, f: Field, m: SwapRequest)
    requires Valid(f) && 2 < f.number < TwoTo31 && |b| < TwoTo63 && Occurs(b, i, Written(f)) && end == i + |Written(f)|
    ensures DecodeFrom(b, i, m) == DecodeFrom(b, end, m)
  {
    var w := WireType(f.payload);
    var j := i + |Tag(f.number, w)|;
    OccursSplit(b, i, Tag(f.number, w), Body(f.number, f.payload));
    ReadTagAt(b, i, j, f.number, w);
    TagFacts(f.number, w);
    OccursInTail(b, i, Written(f));
    SkipField(b[i..], 0, |Written(f)|, f, 0);
    PassOver(b, i, end, |Written(f)|, 8 * f.number + w, j, m);
  }

  // ---- whole messages

  /** A part of a message: one of the two known fields, or a field of another schema. */
  datatype Part = Known(number: int, text: Bytes) | Unknown(field: Field)

  predicate ValidPart(p: Part) {
    match p
    case Known(number, _) => 1 <= number <= 2
    case Unknown(f) => Valid(f) && 2 < f.number < TwoTo31
  }

  function PartWritten(p: Part): Bytes {
    match p
    case Known(number, text) => [TagOf(number)] + (Varint(|text|) + text)
    case Unknown(f) => Written(f)
  }

  function PartsWritten(ps: seq<Part>): Bytes {
    if ps == [] then [] else PartWritten(ps[0]) + PartsWritten(ps[1..])
  }

  /** The last text written for each known field. */
  function Gathered(ps: seq<Part>, m: SwapRequest): SwapRequest {
    if ps == [] then m
    else Gathered(ps[1..], Taken(ps[0], m))
  }

  function Taken(p: Part, m: SwapRequest): SwapRequest {
    if p.Known? then SetField(m, p.number, p.text) else m
  }

  lemma {:induction false} DecodeParts(b: Bytes, i: nat, end: nat, ps: seq<Part>, m: SwapRequest)
    requires (forall p :: p in ps ==> ValidPart(p)) && |b| < TwoTo63
    requires Occurs(b, i, PartsWritten(ps)) && end == i + |PartsWritten(ps)|
    ensures DecodeFrom(b, i, m) == DecodeFrom(b, end, Gathered(ps, m))
    decreases ps
  {
    if ps != [] {
      assert ps[0] in ps && forall p :: p in ps[1..] ==> p in ps;
      var mid := FirstPart(b, i, end, ps);
      DecodePart(b, i, mid, ps[0], m);
      DecodeParts(b, mid, end, ps[1..], Taken(ps[0], m));
    }
  }

  lemma FirstPart(b: Bytes, i: nat, end: nat, ps: seq<Part>) returns (mid: nat)
    requires ps != [] && Occurs(b, i, PartsWritten(ps)) && end == i + |PartsWritten(ps)|
    ensures Occurs(b, i, PartWritten(ps[0])) && mid == i + |PartWritten(ps[0])|
    ensures Occurs(b, mid, PartsWritten(ps[1..])) && end == mid + |PartsWritten(ps[1..])|
  {
    mid := SplitAt(b, i, end, PartWritten(ps[0]), PartsWritten(ps[1..]));
  }

  lemma SplitAt(b: Bytes, i: nat, end: nat, x: Bytes, y: Bytes) returns (mid: nat)
    requires Occurs(b, i, x + y) && end == i + |x + y|
    ensures Occurs(b, i, x) && mid == i + |x| && Occurs(b, mid, y) && end == mid + |y|
  {
    mid := i + |x|;
    OccursSplit(b, i, x, y);
  }

  lemma DecodePart(b: Bytes, i: nat, end: nat, p: Part, m: SwapRequest)
    requires ValidPart(p) && |b| < TwoTo63 && Occurs(b, i, PartWritten(p)) && end == i + |PartWritten(p)|
    ensures DecodeFrom(b, i, m) == DecodeFrom(b, end, Taken(p, m))
  {
    if p.Known? {
      OccursSplit(b, i, [TagOf(p.number)], Varint(|p.text|) + p.text);
      ReadTag(b, i, TagOf(p.number));
      ReadStringAt(b, i + 1, p.text);
    } else {
      UnknownFieldIgnored(b, i, end, p.field, m);
    }
  }

  /** Known and unknown fields in any order and number decode to the last text of each known field. */
  lemma AnyMessageDecodes(ps: seq<Part>)
    requires (forall p :: p in ps ==> ValidPart(p)) && |PartsWritten(ps)| < TwoTo63
    ensures DecodeFrom(PartsWritten(ps), 0, Blank) == Ok(Gathered(ps, Blank))
  {
    var b := PartsWritten(ps);
    assert b[0..|b|] == b;
    DecodeParts(b, 0, |b|, ps, Blank);
  }

  // ---- what is refused

  lemma DecodeBehind(ps: seq<Part>, rest: Bytes, b: Bytes, i: nat)
    requires (forall p :: p in ps ==> ValidPart(p)) && b == PartsWritten(ps) + rest && |b| < TwoTo63 && i == |PartsWritten(ps)|
    ensures DecodeFrom(b, 0, Blank) == DecodeFrom(b, i, Gathered(ps, Blank)) && b[i..] == rest
  {
    assert b[0..0 + i] == PartsWritten(ps);
    DecodeParts(b, 0, i, ps, Blank);
  }

  /**
   * After any fields, a message is refused at a tag that closes no group, that has number zero, that
   * gives a known field another wire type than that of text, or that gives an unknown one none there is.
   */
  lemma BadTagRefused(ps: seq<Part>, number: nat, wireType: nat, rest: Bytes, b: Bytes)
    requires (forall p :: p in ps ==> ValidPart(p)) && number < TwoTo31 && wireType < 8
    requires b == PartsWritten(ps) + (Tag(number, wireType) + rest) && |b| < TwoTo63
    ensures wireType == 4 ==> DecodeFrom(b, 0, Blank) == Fail(EndGroup)
    ensures wireType != 4 && number == 0 ==> DecodeFrom(b, 0, Blank) == Fail(IllegalTag)
    ensures wireType != 4 && wireType != 2 && 1 <= number <= 2 ==> DecodeFrom(b, 0, Blank) == Fail(WrongWireType)
    ensures wireType > 5 && number > 2 ==> DecodeFrom(b, 0, Blank) == Fail(IllegalWireType)
  {
    var i, j := TagBehind(ps, number, wireType, rest, b);
    AtTag(b, i, j, number, wireType, Gathered(ps, Blank));
    if wireType > 5 && number > 2 { NoSuchWireType(b, i, number, wireType, rest); }
  }

  lemma NoSuchWireType(b: Bytes, i: nat, number: nat, wireType: nat, rest: Bytes)
    requires i < |b| < TwoTo63 && b[i..] == Tag(number, wireType) + rest && number < TwoTo31 && 5 < wireType < 8
    ensures SkipFrom(b[i..], 0, 0) == Fail(IllegalWireType)
  {
    var c, tag := b[i..], Tag(number, wireType);
    assert c[0..0 + |tag|] == tag;
    ReadTagAt(c, 0, |tag|, number, wireType);
    TagFacts(number, wireType);
  }

  /** So is a text that is shorter than its length says, and a tag that does not end. */
  lemma CutOffRefused(ps: seq<Part>, number: nat, n: nat, text: Bytes, b: Bytes)
    requires (forall p :: p in ps ==> ValidPart(p)) && 1 <= number <= 2 && |text| < n < TwoTo31
    requires b == PartsWritten(ps) + (Tag(number, 2) + (Varint(n) + text)) && |b| < TwoTo31
    ensures DecodeFrom(b, 0, Blank) == Fail(UnexpectedEOF)
  {
    CutRefused(ps, number, Varint(n) + text, b, n, text);
  }

  lemma CutRefused(ps: seq<Part>, number: nat, rest: Bytes, b: Bytes, n: nat, text: Bytes)
    requires (forall p :: p in ps ==> ValidPart(p)) && 1 <= number <= 2 && |b| < TwoTo31
    requires b == PartsWritten(ps) + (Tag(number, 2) + rest) && rest == Varint(n) + text && |text| < n < TwoTo31
    ensures DecodeFrom(b, 0, Blank) == Fail(UnexpectedEOF)
  {
    var i, j := TagBehind(ps, number, 2, rest, b);
    CutTextRefused(b, i, j, number, n, text, Gathered(ps, Blank));
  }

  lemma CutTextRefused(b: Bytes, i: nat, j: nat, number: nat, n: nat, text: Bytes, m: SwapRequest)
    requires i < j <= |b| < TwoTo31 && 1 <= number <= 2 && ReadVarint(b, i, 0, 0) == Ok(At(8 * number + 2, j))
    requires b[j..] == Varint(n) + text && |text| < n < TwoTo31
    ensures DecodeFrom(b, i, m) == Fail(UnexpectedEOF)
  {
    ReadStringCut(b, j, n, text);
    TextRefused(b, i, j, number, m);
  }

  lemma TextRefused(b: Bytes, i: nat, j: nat, number: nat, m: SwapRequest)
    requires i < j <= |b| < TwoTo63 && 1 <= number <= 2 && ReadVarint(b, i, 0, 0) == Ok(At(8 * number + 2, j))
    requires ReadString(b, 2, j) == Fail(UnexpectedEOF)
    ensures DecodeFrom(b, i, m) == Fail(UnexpectedEOF)
  {
    AtTag(b, i, j, number, 2, m);
  }

  lemma AtTag(b: Bytes, i: nat, j: nat, number: nat, wireType: nat, m: SwapRequest)
    requires i < j <= |b| < TwoTo63 && number < TwoTo31 && wireType < 8
    requires ReadVarint(b, i, 0, 0) == Ok(At(8 * number + wireType, j))
    ensures DecodeFrom(b, i, m) == DecodeField(b, i, m, number, wireType, j)
  {
    TagFacts(number, wireType);
  }

  lemma TagBehind(ps: seq<Part>, number: nat, wireType: nat, rest: Bytes, b: Bytes) returns (i: nat, j: nat)
    requires (forall p :: p in ps ==> ValidPart(p)) && number < TwoTo31 && wireType < 8
    requires b == PartsWritten(ps) + (Tag(number, wireType) + rest) && |b| < TwoTo63
    ensures i < j <= |b| && ReadVarint(b, i, 0, 0) == Ok(At(8 * number + wireType, j))
    ensures b[i..] == Tag(number, wireType) + rest && b[j..] == rest
    ensures DecodeFrom(b, 0, Blank) == DecodeFrom(b, i, Gathered(ps, Blank))
  {
    var tag := Tag(number, wireType);
    i, j := |PartsWritten(ps)|, |PartsWritten(ps)| + |tag|;
    DecodeBehind(ps, tag + rest, b, i);
    assert b[i..i + |tag|] == b[i..][..|tag|] == tag;
    assert b[j..] == b[i..][|tag|..] == rest;
    ReadTagAt(b, i, j, number, wireType);
  }

  lemma ReadStringCut(b: Bytes, j: nat, n: nat, text: Bytes)
    requires j <= |b| < TwoTo31 && b[j..] == Varint(n) + text && |text| < n < TwoTo31
    ensures ReadString(b, 2, j) == Fail(UnexpectedEOF)
  {
    var k := j + |Varint(n)|;
    assert |b| == k + |text|;
    assert b[j..k] == b[j..][..|Varint(n)|] == Varint(n);
    ReadVarintAt(b, j, n);
    Int64Small(n);
    Int64Small(k + n);
  }
}
