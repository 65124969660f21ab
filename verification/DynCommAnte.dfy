/** The check of commission edits in a transaction, however deeply they are wrapped. */
module DynCommAnte {
  import opened Bytes
  import opened Decimals

  /**
   * Messages as the check tells them apart: an edit, an authorization exec whose messages can or
   * cannot be decoded, a packet that is not JSON, one that is not a transaction, one whose
   * transaction can or cannot be decoded, the creation of a validator, and anything else.
   */
  datatype Msg<K> =
    | Edit(operator: K, rate: Option<Dec>)
    | Exec(inner: seq<Msg<K>>)
    | BadExec
    | BadPacket
    | OtherPacket
    | TxPacket(inner: seq<Msg<K>>)
    | BadTxPacket
    | Create(operator: K, initial: Dec, maxRate: Dec)
    | Other

  /** A message that the check passes over. */
  predicate Neutral<K>(m: Msg<K>) { m.Other? || m.Create? }

  function MinOf<K(==)>(mins: map<K, Dec>, op: K): Dec {
    if op in mins then mins[op] else 0
  }

  predicate EditOk<K(==)>(mins: map<K, Dec>, op: K, rate: Option<Dec>) {
    rate.None? || rate.value >= MinOf(mins, op)
  }

  /** Whether the messages pass, when the variable for the error already holds one or not. */
  predicate Passes<K(==)>(mins: map<K, Dec>, msgs: seq<Msg<K>>, stale: bool)
    decreases msgs
  {
    if msgs == [] then true
    else
      match msgs[0]
      case Edit(op, rate) => EditOk(mins, op, rate) && Passes(mins, msgs[1..], false)
      case BadExec => !stale && Passes(mins, msgs[1..], false)
      case Exec(ms) => Passes(mins, ms, false) && Passes(mins, msgs[1..], false)
      case BadPacket => Passes(mins, msgs[1..], true)
      case OtherPacket => Passes(mins, msgs[1..], false)
      case BadTxPacket => Passes(mins, msgs[1..], false)
      case TxPacket(ms) => Passes(mins, ms, false) && Passes(mins, msgs[1..], false)
      case Create(_, _, _) => Passes(mins, msgs[1..], stale)
      case Other => Passes(mins, msgs[1..], stale)
  }

  /** The error of a packet that is not JSON is kept while the loop goes on to the next message. */
  method FilterMsgsAndProcessMsgs<K(==)>(mins: map<K, Dec>, msgs: seq<Msg<K>>) returns (rejected: bool)
    ensures rejected <==> !Passes(mins, msgs, false)
    decreases msgs
  {
    var err := false;
    for i := 0 to |msgs|
      invariant Passes(mins, msgs, false) <==> Passes(mins, msgs[i..], err)
    {
      assert msgs[i..][0] == msgs[i] && msgs[i..][1..] == msgs[i + 1..];
      match msgs[i] {
        case Edit(op, rate) =>
          err := ProcessEditValidator(mins, op, rate);
        case Exec(ms) =>
          err := FilterMsgsAndProcessMsgs(mins, ms);
        case BadExec =>
        case BadPacket =>
          err := true;
          continue;
        case OtherPacket =>
          err := false;
          continue;
        case TxPacket(ms) =>
          err := FilterMsgsAndProcessMsgs(mins, ms);
        case BadTxPacket =>
          err := false;
        case Create(_, _, _) =>
          continue;
        case Other =>
          continue;
      }
      if err {
        return true;
      }
    }
    return false;
  }

  method ProcessEditValidator<K(==)>(mins: map<K, Dec>, op: K, rate: Option<Dec>) returns (err: bool)
    ensures err <==> rate.Some? && rate.value < if op in mins then mins[op] else 0
  {
    if rate.None? {
      return false;
    }
    var dynMinRate := MinOf(mins, op);
    return rate.value < dynMinRate;
  }

  // ---- what passes

  /** Every edit that can be decoded, at any depth, respects the minimum of its operator. */
  predicate EditsOk<K(==)>(mins: map<K, Dec>, msgs: seq<Msg<K>>)
    decreases msgs
  {
    forall m :: m in msgs ==>
      && (m.Edit? ==> EditOk(mins, m.operator, m.rate))
      && (m.Exec? || m.TxPacket? ==> EditsOk(mins, m.inner))
  }

  /** At `i`, an exec that cannot be decoded, with only unrelated messages since a packet that is not JSON. */
  ghost predicate HitsStale<K(!new)>(msgs: seq<Msg<K>>, i: int, stale: bool) {
    && 0 <= i < |msgs|
    && msgs[i].BadExec?
    && ((stale && forall k :: 0 <= k < i ==> Neutral(msgs[k]))
        || exists j :: 0 <= j < i && msgs[j].BadPacket? && forall k :: j < k < i ==> Neutral(msgs[k]))
  }

  /** No such exec in any list of messages. */
  ghost predicate NoStale<K(!new)>(msgs: seq<Msg<K>>, stale: bool)
    decreases msgs
  {
    && (forall i :: !HitsStale(msgs, i, stale))
    && forall m :: m in msgs && (m.Exec? || m.TxPacket?) ==> NoStale(m.inner, false)
  }

  /** The error variable after a message, as far as it can be carried on. */
  function Carried<K(==)>(m: Msg<K>, stale: bool): bool {
    m.BadPacket? || (Neutral(m) && stale)
  }

  lemma HitsStaleNext<K(!new)>(msgs: seq<Msg<K>>, i: int, stale: bool)
    requires msgs != [] && 0 < i < |msgs|
    ensures HitsStale(msgs, i, stale) <==> HitsStale(msgs[1..], i - 1, Carried(msgs[0], stale))
  {
    var rest := msgs[1..];
    if HitsStale(msgs, i, stale) && !(stale && forall k :: 0 <= k < i ==> Neutral(msgs[k])) {
      var j :| 0 <= j < i && msgs[j].BadPacket? && forall k :: j < k < i ==> Neutral(msgs[k]);
      assert forall k :: j <= k < i - 1 ==> rest[k] == msgs[k + 1];
      if j > 0 { assert rest[j - 1].BadPacket?; }
    }
    if HitsStale(rest, i - 1, Carried(msgs[0], stale)) {
      if forall k :: 0 <= k < i - 1 ==> Neutral(rest[k]) {
        assert forall k :: 1 <= k < i ==> msgs[k] == rest[k - 1];
      } else {
        var j :| 0 <= j < i - 1 && rest[j].BadPacket? && forall k :: j < k < i - 1 ==> Neutral(rest[k]);
        assert msgs[j + 1].BadPacket? && forall k :: j + 1 < k < i ==> msgs[k] == rest[k - 1];
      }
    }
  }

  lemma NoStaleNext<K(!new)>(msgs: seq<Msg<K>>, stale: bool)
    requires msgs != []
    ensures NoStale(msgs, stale) <==>
            && !(msgs[0].BadExec? && stale)
            && ((msgs[0].Exec? || msgs[0].TxPacket?) ==> NoStale(msgs[0].inner, false))
            && NoStale(msgs[1..], Carried(msgs[0], stale))
  {
    var rest, carried := msgs[1..], Carried(msgs[0], stale);
    assert forall m :: m in msgs <==> m == msgs[0] || m in rest;
    assert HitsStale(msgs, 0, stale) <==> msgs[0].BadExec? && stale;
    forall i | 0 < i < |msgs| ensures HitsStale(msgs, i, stale) <==> HitsStale(rest, i - 1, carried) {
      HitsStaleNext(msgs, i, stale);
    }
    if forall i :: !HitsStale(msgs, i, stale) {
      forall i ensures !HitsStale(rest, i, carried) {
        if 0 <= i < |rest| { assert HitsStale(msgs, i + 1, stale) <==> HitsStale(rest, i + 1 - 1, carried); }
      }
    }
    if !HitsStale(msgs, 0, stale) && forall i :: !HitsStale(rest, i, carried) {
      forall i ensures !HitsStale(msgs, i, stale) {
        if 0 < i < |msgs| { assert !HitsStale(rest, i - 1, carried); }
      }
    }
  }

  lemma EditsOkNext<K(!new)>(mins: map<K, Dec>, msgs: seq<Msg<K>>)
    requires msgs != []
    ensures EditsOk(mins, msgs) <==>
            && (msgs[0].Edit? ==> EditOk(mins, msgs[0].operator, msgs[0].rate))
            && (msgs[0].Exec? || msgs[0].TxPacket? ==> EditsOk(mins, msgs[0].inner))
            && EditsOk(mins, msgs[1..])
  {
    assert forall m :: m in msgs <==> m == msgs[0] || m in msgs[1..];
  }

  /**
   * A transaction passes exactly if every edit in it that can be decoded respects the minimum, and no
   * exec that cannot be decoded inherits the error of an earlier packet.
   */
  lemma {:induction false} PassesIff<K(!new)>(mins: map<K, Dec>, msgs: seq<Msg<K>>, stale: bool)
    ensures Passes(mins, msgs, stale) <==> EditsOk(mins, msgs) && NoStale(msgs, stale)
    decreases msgs
  {
    if msgs != [] {
      EditsOkNext(mins, msgs);
      NoStaleNext(msgs, stale);
      PassesIff(mins, msgs[1..], Carried(msgs[0], stale));
      match msgs[0] {
        case Exec(ms) => PassesIff(mins, ms, false);
        case TxPacket(ms) => PassesIff(mins, ms, false);
        case _ =>
      }
    }
  }

  /** Two harmless messages, each of which passes alone, are refused together in this order. */
  lemma StaleErrorExample<K(!new)>(mins: map<K, Dec>)
    ensures Passes(mins, [BadPacket], false) && Passes(mins, [BadExec], false)
    ensures !Passes(mins, [BadPacket, BadExec], false) && Passes(mins, [BadExec, BadPacket], false)
  {
    var packet: Msg<K>, exec: Msg<K> := BadPacket, BadExec;
    assert [packet, exec][1..] == [exec] && [exec, packet][1..] == [packet];
  }
}
