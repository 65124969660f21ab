/** Decoding a swap query from arbitrary bytes, under 64-bit wrapping arithmetic. */
module SwapDecoder {
  import opened Bytes
  import opened SwapCodec

  datatype Error =
    | IntOverflow | UnexpectedEOF | InvalidLength | EndGroup | IllegalTag | WrongWireType
    | UnexpectedEndOfGroup | IllegalWireType

  datatype Result<+T> = Ok(value: T) | Fail(error: Error)

  /** A decoded value and the index after it. */
  datatype At<+T> = At(value: T, next: nat)

  /** The signed 64-bit reading of a sum or an unsigned value. */
  function Int64(u: nat): int {
    if u < TwoTo63 then u else Signed(u % TwoTo64, TwoTo64)
  }

  function Int32(u: nat): int {
    if u < TwoTo31 then u else Signed(u % TwoTo32, TwoTo32)
  }

  function Signed(w: nat, modulus: nat): int {
    if 2 * w >= modulus then w - modulus else w
  }

  // ---- what the loops compute

  /** `x << (7 * k)`, before truncation to 64 bits. */
  function Shl7(x: nat, k: nat): nat {
    if k == 0 then x else 128 * Shl7(x, k - 1)
  }

  /** Adding a seven-bit group in 64 bits; groups do not overlap and only the tenth can reach past bit 63. */
  function AddGroup(acc: nat, group: nat, k: nat): nat {
    var sum := acc + Shl7(group, k);
    if k < 9 then sum else sum % TwoTo64
  }

  /** Reading a varint of which `k` groups have been read; more than ten groups overflow. */
  function ReadVarint(b: Bytes, i: nat, k: nat, acc: nat): (r: Result<At<nat>>)
    requires i <= |b|
    ensures r.Ok? ==> i < r.value.next <= |b|
    decreases |b| - i
  {
    if 7 * k >= 64 then Fail(IntOverflow)
    else if i == |b| then Fail(UnexpectedEOF)
    else
      var acc' := AddGroup(acc, b[i] % 128, k);
      if b[i] < 128 then Ok(At(acc', i + 1)) else ReadVarint(b, i + 1, k + 1, acc')
  }

  /** Skipping the payload of one tag: the index after it (or a wrapped one) and the group depth. */
  function SkipPayload(b: Bytes, wireType: nat, j: nat, depth: nat): (r: Result<(int, nat)>)
    requires j <= |b| < TwoTo63
    ensures r.Ok? && r.value.0 >= 0 ==> r.value.0 >= j
  {
    match wireType
    case 0 =>
      var v := ReadVarint(b, j, 0, 0);
      if v.Fail? then Fail(v.error) else Ok((v.value.next, depth))
    case 1 => Ok((Int64(j + 8), depth))
    case 2 =>
      var v := ReadVarint(b, j, 0, 0);
      if v.Fail? then Fail(v.error)
      else if Int64(v.value.value) < 0 then Fail(InvalidLength)
      else Ok((Int64(v.value.next + Int64(v.value.value)), depth))
    case 3 => Ok((j, depth + 1))
    case 4 => if depth == 0 then Fail(UnexpectedEndOfGroup) else Ok((j, depth - 1))
    case 5 => Ok((Int64(j + 4), depth))
    case _ => Fail(IllegalWireType)
  }

  /** Skipping one field, or a whole nested group, from index `i`; every skip makes progress. */
  function SkipFrom(b: Bytes, i: nat, depth: nat): (r: Result<nat>)
    requires |b| < TwoTo63
    ensures r.Ok? ==> r.value > i
    decreases |b| - i
  {
    if i >= |b| then Fail(UnexpectedEOF)
    else
      var wire := ReadVarint(b, i, 0, 0);
      if wire.Fail? then Fail(wire.error)
      else
        var p := SkipPayload(b, wire.value.value % 8, wire.value.next, depth);
        if p.Fail? then Fail(p.error)
        else if p.value.0 < 0 then Fail(InvalidLength)
        else if p.value.1 == 0 then Ok(p.value.0)
        else SkipFrom(b, p.value.0, p.value.1)
  }

  /** The string of a length-delimited field and the index after it. */
  function ReadString(b: Bytes, wireType: nat, j: nat): (r: Result<At<Bytes>>)
    requires j <= |b| < TwoTo63
    ensures r.Ok? ==> j < r.value.next <= |b|
  {
    if wireType != 2 then Fail(WrongWireType)
    else
      var v := ReadVarint(b, j, 0, 0);
      if v.Fail? then Fail(v.error)
      else if Int64(v.value.value) < 0 then Fail(InvalidLength)
      else
        var post := Int64(v.value.next + Int64(v.value.value));
        if post < 0 then Fail(InvalidLength)
        else if post > |b| then Fail(UnexpectedEOF)
        else Ok(At(b[v.value.next..post], post))
  }

  /** Decoding from index `i` into a message of which the fields before `i` are set. */
  function DecodeFrom(b: Bytes, i: nat, m: SwapRequest): Result<SwapRequest>
    requires i <= |b| < TwoTo63
    decreases |b| - i, 1
  {
    if i == |b| then Ok(m)
    else
      var wire := ReadVarint(b, i, 0, 0);
      if wire.Fail? then Fail(wire.error)
      else DecodeField(b, i, m, Int32(wire.value.value / 8), wire.value.value % 8, wire.value.next)
  }

  /** Decoding on from the field at `i` whose payload starts at `j`. */
  function DecodeField(b: Bytes, i: nat, m: SwapRequest, fieldNum: int, wireType: nat, j: nat): Result<SwapRequest>
    requires i < j <= |b| < TwoTo63
    decreases |b| - i, 0
  {
    if wireType == 4 then Fail(EndGroup)
    else if fieldNum <= 0 then Fail(IllegalTag)
    else if fieldNum <= 2 then
      var s := ReadString(b, wireType, j);
      if s.Fail? then Fail(s.error)
      else DecodeFrom(b, s.value.next, SetField(m, fieldNum, s.value.value))
    else
      var n := SkipFrom(b[i..], 0, 0);
      if n.Fail? then Fail(n.error)
      else if Int64(i + n.value) < 0 then Fail(InvalidLength)
      else if Int64(i + n.value) > |b| then Fail(UnexpectedEOF)
      else
        SkipFits(b, i, n.value);
        DecodeFrom(b, i + n.value, m)
  }

  function SetField(m: SwapRequest, fieldNum: int, s: Bytes): SwapRequest {
    if fieldNum == 1 then m.(offerCoin := s) else m.(askDenom := s)
  }

  lemma SkipFits(b: Bytes, i: nat, n: nat)
    requires i < |b| < TwoTo63 && SkipFrom(b[i..], 0, 0) == Ok(n) && 0 <= Int64(i + n) <= |b|
    ensures i < i + n <= |b|
  {
    SkipBelow(b[i..], 0, 0);
  }

  /** A skipped length stays below 2^63, so adding it to an index cannot wrap past zero. */
  lemma {:induction false} SkipBelow(b: Bytes, i: nat, depth: nat)
    requires |b| < TwoTo63
    ensures SkipFrom(b, i, depth).Ok? ==> SkipFrom(b, i, depth).value < TwoTo63
    decreases |b| - i
  {
    if i < |b| {
      var wire := ReadVarint(b, i, 0, 0);
      if wire.Ok? {
        var p := SkipPayload(b, wire.value.value % 8, wire.value.next, depth);
        if p.Ok? && p.value.0 >= 0 && p.value.1 != 0 {
          SkipBelow(b, p.value.0, p.value.1);
        }
      }
    }
  }

  // ---- the loops

  method DecodeVarint(b: Bytes, start: nat) returns (r: Result<At<nat>>)
    requires start <= |b|
    ensures r == ReadVarint(b, start, 0, 0)
  {
    var i: nat, k: nat, acc: nat := start, 0, 0;
    while true
      invariant start <= i <= |b| && i == start + k
      invariant ReadVarint(b, start, 0, 0) == ReadVarint(b, i, k, acc)
      decreases |b| - i
    {
      if 7 * k >= 64 {
        return Fail(IntOverflow);
      }
      if i >= |b| {
        return Fail(UnexpectedEOF);
      }
      var c := b[i];
      i := i + 1;
      acc := AddGroup(acc, c % 128, k);
      if c < 128 {
        return Ok(At(acc, i));
      }
      k := k + 1;
    }
  }

  method SkipOne(b: Bytes, wireType: nat, start: nat, depth: nat) returns (r: Result<(int, nat)>)
    requires start <= |b| < TwoTo63
    ensures r == SkipPayload(b, wireType, start, depth)
  {
    match wireType {
      case 0 =>
        var v := DecodeVarint(b, start);
        if v.Fail? { return Fail(v.error); }
        return Ok((v.value.next, depth));
      case 1 => return Ok((Int64(start + 8), depth));
      case 2 =>
        var v := DecodeVarint(b, start);
        if v.Fail? { return Fail(v.error); }
        var length := Int64(v.value.value);
        if length < 0 { return Fail(InvalidLength); }
        return Ok((Int64(v.value.next + length), depth));
      case 3 => return Ok((start, depth + 1));
      case 4 =>
        if depth == 0 { return Fail(UnexpectedEndOfGroup); }
        return Ok((start, depth - 1));
      case 5 => return Ok((Int64(start + 4), depth));
      case _ => return Fail(IllegalWireType);
    }
  }

  method SkipQuery(b: Bytes) returns (r: Result<nat>)
    requires |b| < TwoTo63
    ensures r == SkipFrom(b, 0, 0)
  {
    var i: nat, depth: nat := 0, 0;
    while i < |b|
      invariant SkipFrom(b, 0, 0) == SkipFrom(b, i, depth)
      decreases |b| - i
    {
      var wire := DecodeVarint(b, i);
      if wire.Fail? { return Fail(wire.error); }
      var p := SkipOne(b, wire.value.value % 8, wire.value.next, depth);
      if p.Fail? { return Fail(p.error); }
      if p.value.0 < 0 { return Fail(InvalidLength); }
      depth := p.value.1;
      if depth == 0 { return Ok(p.value.0); }
      i := p.value.0;
    }
    return Fail(UnexpectedEOF);
  }

  method DecodeString(b: Bytes, wireType: nat, j: nat) returns (r: Result<At<Bytes>>)
    requires j <= |b| < TwoTo63
    ensures r == ReadString(b, wireType, j)
  {
    if wireType != 2 { return Fail(WrongWireType); }
    var v := DecodeVarint(b, j);
    if v.Fail? { return Fail(v.error); }
    var length := Int64(v.value.value);
    if length < 0 { return Fail(InvalidLength); }
    var post := Int64(v.value.next + length);
    if post < 0 { return Fail(InvalidLength); }
    if post > |b| { return Fail(UnexpectedEOF); }
    return Ok(At(b[v.value.next..post], post));
  }

  /** On every input the decoder stops in bounds, having rejected it or consumed all of it. */
  method Unmarshal(b: Bytes) returns (r: Result<SwapRequest>, consumed: nat)
    requires |b| < TwoTo63
    ensures r == DecodeFrom(b, 0, SwapRequest([], []))
    ensures consumed <= |b| && (r.Ok? ==> consumed == |b|)
  {
    var m := SwapRequest([], []);
    consumed := 0;
    while consumed < |b|
      invariant consumed <= |b|
      invariant DecodeFrom(b, 0, SwapRequest([], [])) == DecodeFrom(b, consumed, m)
    {
      var wire := DecodeVarint(b, consumed);
      if wire.Fail? { return Fail(wire.error), consumed; }
      var fieldNum, wireType, j := Int32(wire.value.value / 8), wire.value.value % 8, wire.value.next;
      if wireType == 4 { return Fail(EndGroup), consumed; }
      if fieldNum <= 0 { return Fail(IllegalTag), consumed; }
      if fieldNum == 1 {
        var s := DecodeString(b, wireType, j);
        if s.Fail? { return Fail(s.error), consumed; }
        m, consumed := m.(offerCoin := s.value.value), s.value.next;
      } else if fieldNum == 2 {
        var s := DecodeString(b, wireType, j);
        if s.Fail? { return Fail(s.error), consumed; }
        m, consumed := m.(askDenom := s.value.value), s.value.next;
      } else {
        var n := SkipQuery(b[consumed..]);
        if n.Fail? { return Fail(n.error), consumed; }
        if Int64(consumed + n.value) < 0 { return Fail(InvalidLength), consumed; }
        if Int64(consumed + n.value) > |b| { return Fail(UnexpectedEOF), consumed; }
        SkipFits(b, consumed, n.value);
        consumed := consumed + n.value;
      }
    }
    return Ok(m), consumed;
  }
}
