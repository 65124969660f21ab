/** A whole transaction: the check before it, its messages at any depth, and the targets set after it. */
module DynCommTx {
  import opened Bytes
  import opened Decimals
  import opened DynComm
  import opened DynCommAnte

  /** What staking decides for reasons of its own: daily changes, chain minimum, who may sign. */
  datatype Staking<!K> = Staking(edits: (K, Validator, Dec) -> bool, creates: (K, Dec, Dec) -> bool)

  // ---- what took effect

  /** A rate set by an edit or a creation that took effect, and whether its message stood at the top. */
  datatype Action<K> = Edited(op: K, rate: Dec, top: bool) | Created(op: K, rate: Dec, maxRate: Dec, top: bool)

  /** New validators are not bonded before the block ends. */
  function Effect<K>(vs: map<K, Validator>, a: Action<K>): map<K, Validator> {
    match a
    case Edited(op, rate, _) => if op in vs then vs[op := vs[op].(rate := rate)] else vs
    case Created(op, rate, maxRate, _) => vs[op := Validator(rate, maxRate, false, 0)]
  }

  function Replay<K>(log: seq<Action<K>>, vs: map<K, Validator>): map<K, Validator> {
    if log == [] then vs else Effect(Replay(log[..|log| - 1], vs), log[|log| - 1])
  }

  /** The stored rates after the messages at the top have set their targets. */
  function RatesAfter<K>(log: seq<Action<K>>, rates: map<K, Stored>): map<K, Stored> {
    if log == [] then rates
    else
      var n := |log| - 1;
      Retargeted(RatesAfter(log[..n], rates), log[n])
  }

  /** Edits are of existing validators, within their maximum, and passed the check; creations are new. */
  ghost predicate Fits<K>(a: Action<K>, vs: map<K, Validator>, rates: map<K, Stored>) {
    match a
    case Edited(op, rate, _) => op in vs && rate <= vs[op].maxRate && rate >= StoredOf(rates, op).min
    case Created(op, rate, maxRate, _) => op !in vs && rate <= maxRate
  }

  ghost predicate LogOk<K>(log: seq<Action<K>>, vs: map<K, Validator>, rates: map<K, Stored>) {
    log == [] ||
    var n := |log| - 1;
    LogOk(log[..n], vs, rates) && Fits(log[n], Replay(log[..n], vs), rates)
  }

  lemma {:induction false} ReplaySplit<K>(a: seq<Action<K>>, b: seq<Action<K>>, vs: map<K, Validator>, rates: map<K, Stored>)
    ensures Replay(a + b, vs) == Replay(b, Replay(a, vs))
    ensures LogOk(a, vs, rates) && LogOk(b, Replay(a, vs), rates) ==> LogOk(a + b, vs, rates)
  {
    if b == [] {
      assert a + b == a;
    } else {
      var m := |b| - 1;
      assert (a + b)[..|a + b| - 1] == a + b[..m];
      ReplaySplit(a, b[..m], vs, rates);
    }
  }

  // ---- when all validators are still held

  /** The last action on an operator's validator. */
  function LastOf<K(==)>(log: seq<Action<K>>, op: K): Option<Action<K>> {
    if log == [] then None
    else
      var n := |log| - 1;
      if log[n].op == op then Some(log[n]) else LastOf(log[..n], op)
  }

  /** The rate last set for an operator by a message at the top. */
  function LastTopRate<K(==)>(log: seq<Action<K>>, op: K): Option<Dec> {
    if log == [] then None
    else
      var n := |log| - 1;
      if log[n].op == op && log[n].top then Some(log[n].rate) else LastTopRate(log[..n], op)
  }

  /** The maximum an operator's validator was created with, if it was. */
  function CreatedMax<K(==)>(log: seq<Action<K>>, op: K): Option<Dec> {
    if log == [] then None
    else
      var n := |log| - 1;
      if log[n].op == op && log[n].Created? then Some(log[n].maxRate) else CreatedMax(log[..n], op)
  }

  /**
   * A created validator is not left below the stored minimum, which any later edit mends, and does not
   * keep a left-over target above its maximum, which any message at the top replaces.
   */
  ghost predicate CreationRespects<K(!new)>(log: seq<Action<K>>, rates: map<K, Stored>, op: K) {
    var last, max, s := LastOf(log, op), CreatedMax(log, op), StoredOf(rates, op);
    && (last.Some? && last.value.Created? ==> last.value.rate >= s.min)
    && (max.Some? && LastTopRate(log, op).None? ==> s.target <= max.value)
  }

  /** Where an operator's validator stands after all actions. */
  ghost predicate StandsAt<K(!new)>(log: seq<Action<K>>, vs: map<K, Validator>, rates: map<K, Stored>, op: K) {
    var last, max, top := LastOf(log, op), CreatedMax(log, op), LastTopRate(log, op);
    var vs', s' := Replay(log, vs), StoredOf(RatesAfter(log, rates), op);
    && (op in vs' <==> op in vs || max.Some?)
    && (last.Some? ==> op in vs')
    && (top.Some? ==> last.Some?)
    && s' == StoredOf(rates, op).(target := if top.Some? then top.value else StoredOf(rates, op).target)
    && (op in vs' ==>
          && (last.Some? || op in vs)
          && vs'[op].rate == (if last.Some? then last.value.rate else vs[op].rate)
          && vs'[op].maxRate == (if max.Some? then max.value else vs[op].maxRate)
          && (last.Some? ==> vs'[op].rate <= vs'[op].maxRate)
          && (last.Some? && last.value.Edited? ==> vs'[op].rate >= StoredOf(rates, op).min)
          && (max.Some? ==> last.Some? && op !in vs)
          && (top.Some? ==> top.value <= vs'[op].maxRate))
  }

  lemma {:induction false} StandsAfter<K(!new)>(log: seq<Action<K>>, vs: map<K, Validator>, rates: map<K, Stored>, op: K)
    requires LogOk(log, vs, rates)
    ensures StandsAt(log, vs, rates, op)
  {
    if log != [] { StandsAfter(log[..|log| - 1], vs, rates, op); }
  }

  lemma HeldIff<K(!new)>(log: seq<Action<K>>, vs: map<K, Validator>, rates: map<K, Stored>, op: K)
    requires LogOk(log, vs, rates) && AllHeld(vs, rates) && op in Replay(log, vs)
    ensures Held(Replay(log, vs)[op], StoredOf(RatesAfter(log, rates), op)) <==> CreationRespects(log, rates, op)
  {
    StandsAfter(log, vs, rates, op);
    if op in vs { assert Held(vs[op], StoredOf(rates, op)); }
  }

  lemma {:induction false} UntouchedRespects<K(!new)>(log: seq<Action<K>>, rates: map<K, Stored>, op: K)
    requires forall a :: a in log ==> a.op != op
    ensures CreationRespects(log, rates, op)
  {
    if log != [] {
      var n := |log| - 1;
      assert log[n] in log && forall a :: a in log[..n] ==> a in log;
      UntouchedRespects(log[..n], rates, op);
    }
  }

  /** All validators are held after the actions exactly if every creation among them respects what was stored. */
  lemma AllHeldIff<K(!new)>(log: seq<Action<K>>, vs: map<K, Validator>, rates: map<K, Stored>)
    requires LogOk(log, vs, rates) && AllHeld(vs, rates)
    ensures AllHeld(Replay(log, vs), RatesAfter(log, rates)) <==> forall a :: a in log ==> CreationRespects(log, rates, a.op)
  {
    var vs', rates' := Replay(log, vs), RatesAfter(log, rates);
    forall op ensures op in vs' ==> (Held(vs'[op], StoredOf(rates', op)) <==> CreationRespects(log, rates, op)) {
      if op in vs' { HeldIff(log, vs, rates, op); }
    }
    forall a | a in log ensures a.op in vs' { ActedOnIsThere(log, vs, rates, a); }
    if forall a :: a in log ==> CreationRespects(log, rates, a.op) {
      forall op | op in vs' ensures CreationRespects(log, rates, op) {
        if forall a :: a in log ==> a.op != op { UntouchedRespects(log, rates, op); }
      }
    }
  }

  lemma {:induction false} ActedOnIsThere<K(!new)>(log: seq<Action<K>>, vs: map<K, Validator>, rates: map<K, Stored>, a: Action<K>)
    requires LogOk(log, vs, rates) && a in log
    ensures a.op in Replay(log, vs)
  {
    var n := |log| - 1;
    if a in log[..n] { ActedOnIsThere(log[..n], vs, rates, a); }
  }

  // ---- carrying out the messages

  /** The actions of the messages at the top, as the handler after the transaction sees them. */
  function TopActions<K>(msgs: seq<Msg<K>>): seq<Action<K>> {
    if msgs == [] then []
    else
      var n := |msgs| - 1;
      TopActions(msgs[..n]) + TopAction(msgs[n])
  }

  function TopAction<K>(m: Msg<K>): seq<Action<K>> {
    match m
    case Edit(op, rate) => if rate.Some? then [Edited(op, rate.value, true)] else []
    case Create(op, rate, maxRate) => [Created(op, rate, maxRate, true)]
    case _ => []
  }

  function OnlyTop<K>(log: seq<Action<K>>): seq<Action<K>> {
    if log == [] then []
    else
      var n := |log| - 1;
      OnlyTop(log[..n]) + (if log[n].top then [log[n]] else [])
  }

  lemma {:induction false} OnlyTopSplit<K>(a: seq<Action<K>>, b: seq<Action<K>>)
    ensures OnlyTop(a + b) == OnlyTop(a) + OnlyTop(b)
  {
    if b == [] {
      assert a + b == a;
    } else {
      assert (a + b)[..|a + b| - 1] == a + b[..|b| - 1];
      OnlyTopSplit(a, b[..|b| - 1]);
    }
  }

  function Retargeted<K>(rates: map<K, Stored>, a: Action<K>): map<K, Stored> {
    if a.top then rates[a.op := StoredOf(rates, a.op).(target := a.rate)] else rates
  }

  lemma {:induction false} RatesAfterMore<K>(a: seq<Action<K>>, b: seq<Action<K>>, rates: map<K, Stored>)
    ensures RatesAfter(a + b, rates) == RatesAfter(b, RatesAfter(a, rates))
  {
    if b == [] {
      assert a + b == a;
    } else {
      assert (a + b)[..|a + b| - 1] == a + b[..|b| - 1];
      RatesAfterMore(a, b[..|b| - 1], rates);
    }
  }

  /** Only actions at the top set targets. */
  lemma {:induction false} RatesOfTop<K>(log: seq<Action<K>>, rates: map<K, Stored>)
    ensures RatesAfter(OnlyTop(log), rates) == RatesAfter(log, rates)
  {
    if log != [] {
      var n := |log| - 1;
      RatesOfTop(log[..n], rates);
      var last := if log[n].top then [log[n]] else [];
      assert last != [] ==> last[..0] == [];
      RatesAfterMore(OnlyTop(log[..n]), last, rates);
    }
  }

  /** The minimums the check reads. */
  function Minimums<K>(rates: map<K, Stored>): map<K, Dec> {
    map op | op in rates :: rates[op].min
  }

  /** Whether messages go through, and the actions that took effect until then. */
  datatype Outcome<K> = Outcome(ok: bool, log: seq<Action<K>>)

  /** Messages go through one after the other until one is refused. */
  function Outcomes<K(==)>(msgs: seq<Msg<K>>, top: bool, staking: Staking<K>, vs: map<K, Validator>): Outcome<K>
    decreases msgs
  {
    if msgs == [] then Outcome(true, [])
    else
      var n := |msgs| - 1;
      var first := Outcomes(msgs[..n], top, staking, vs);
      if first.ok then
        var next := OutcomeOf(msgs[n], top, staking, Replay(first.log, vs));
        Outcome(next.ok, first.log + next.log)
      else first
  }

  /** A packet whose messages are refused goes through without them. */
  function OutcomeOf<K(==)>(m: Msg<K>, top: bool, staking: Staking<K>, vs: map<K, Validator>): Outcome<K>
    decreases m
  {
    match m
    case Edit(op, rate) =>
      if op !in vs then Outcome(false, [])
      else if rate.None? then Outcome(true, [])
      else if rate.value <= vs[op].maxRate && staking.edits(op, vs[op], rate.value) then Outcome(true, [Edited(op, rate.value, top)])
      else Outcome(false, [])
    case Create(op, rate, maxRate) =>
      if op !in vs && rate <= maxRate && staking.creates(op, rate, maxRate) then Outcome(true, [Created(op, rate, maxRate, top)])
      else Outcome(false, [])
    case Exec(ms) => Outcomes(ms, false, staking, vs)
    case TxPacket(ms) =>
      var r := Outcomes(ms, false, staking, vs);
      if r.ok then r else Outcome(true, [])
    case BadExec => Outcome(false, [])
    case _ => Outcome(true, [])
  }

  lemma OutcomesNext<K>(msgs: seq<Msg<K>>, i: nat, top: bool, staking: Staking<K>, vs: map<K, Validator>)
    requires i < |msgs|
    ensures var first := Outcomes(msgs[..i], top, staking, vs);
            var next := OutcomeOf(msgs[i], top, staking, Replay(first.log, vs));
            Outcomes(msgs[..i + 1], top, staking, vs) == if first.ok then Outcome(next.ok, first.log + next.log) else first
  {
    assert msgs[..i + 1][..i] == msgs[..i];
  }

  // ---- what goes through takes effect

  /** No message of a packet, at any depth. */
  ghost predicate NoPacket<K(!new)>(msgs: seq<Msg<K>>)
    decreases msgs
  {
    forall m :: m in msgs ==> !m.TxPacket? && (m.Exec? ==> NoPacket(m.inner))
  }

  /** Every edit and creation among the messages, in order and at any depth. */
  function Flat<K>(msgs: seq<Msg<K>>, top: bool): seq<Action<K>>
    decreases msgs
  {
    if msgs == [] then []
    else
      var n := |msgs| - 1;
      Flat(msgs[..n], top) + FlatOne(msgs[n], top)
  }

  function FlatOne<K>(m: Msg<K>, top: bool): seq<Action<K>>
    decreases m
  {
    if m.Edit? && m.rate.Some? then [Edited(m.operator, m.rate.value, top)]
    else if m.Create? then [Created(m.operator, m.initial, m.maxRate, top)]
    else if m.Exec? then Flat(m.inner, false)
    else []
  }

  /** Messages that go through without packets have all their edits and creations carried out, however wrapped. */
  lemma {:induction false} AllTakeEffect<K(!new)>(msgs: seq<Msg<K>>, top: bool, staking: Staking<K>, vs: map<K, Validator>)
    requires NoPacket(msgs) && Outcomes(msgs, top, staking, vs).ok
    ensures Outcomes(msgs, top, staking, vs).log == Flat(msgs, top)
    decreases msgs
  {
    if msgs != [] {
      var n := |msgs| - 1;
      NoPacketFirstAndLast(msgs);
      AllTakeEffect(msgs[..n], top, staking, vs);
      OneTakesEffect(msgs[n], top, staking, Replay(Flat(msgs[..n], top), vs));
    }
  }

  lemma NoPacketFirstAndLast<K(!new)>(msgs: seq<Msg<K>>)
    requires msgs != [] && NoPacket(msgs)
    ensures var n := |msgs| - 1;
            NoPacket(msgs[..n]) && !msgs[n].TxPacket? && (msgs[n].Exec? ==> NoPacket(msgs[n].inner))
  {
    var n := |msgs| - 1;
    assert msgs[n] in msgs && forall m :: m in msgs[..n] ==> m in msgs;
  }

  lemma OneTakesEffect<K(!new)>(m: Msg<K>, top: bool, staking: Staking<K>, vs: map<K, Validator>)
    requires !m.TxPacket? && (m.Exec? ==> NoPacket(m.inner)) && OutcomeOf(m, top, staking, vs).ok
    ensures OutcomeOf(m, top, staking, vs).log == FlatOne(m, top)
    decreases m
  {
    if m.Exec? { AllTakeEffect(m.inner, false, staking, vs); }
  }

  /** A packet does what an exec of its messages does, but where the exec is refused it does nothing. */
  lemma PacketIsExec<K>(ms: seq<Msg<K>>, top: bool, staking: Staking<K>, vs: map<K, Validator>)
    ensures var exec, packet := OutcomeOf(Exec(ms), top, staking, vs), OutcomeOf(TxPacket(ms), top, staking, vs);
            packet.ok && packet.log == if exec.ok then exec.log else []
  {
  }

  /** An edit of an existing validator or a creation of a new one, within the maximum and as staking allows. */
  ghost predicate Accepted<K>(a: Action<K>, staking: Staking<K>, vs: map<K, Validator>) {
    match a
    case Edited(op, rate, _) => op in vs && rate <= vs[op].maxRate && staking.edits(op, vs[op], rate)
    case Created(op, rate, maxRate, _) => op !in vs && rate <= maxRate && staking.creates(op, rate, maxRate)
  }

  ghost predicate AllAccepted<K>(log: seq<Action<K>>, staking: Staking<K>, vs: map<K, Validator>) {
    log == [] ||
    var n := |log| - 1;
    AllAccepted(log[..n], staking, vs) && Accepted(log[n], staking, Replay(log[..n], vs))
  }

  lemma {:induction false} AcceptedSplit<K>(a: seq<Action<K>>, b: seq<Action<K>>, staking: Staking<K>, vs: map<K, Validator>)
    ensures AllAccepted(a + b, staking, vs) <==> AllAccepted(a, staking, vs) && AllAccepted(b, staking, Replay(a, vs))
  {
    if b == [] {
      assert a + b == a;
    } else {
      var m := |b| - 1;
      assert (a + b)[..|a + b| - 1] == a + b[..m];
      AcceptedSplit(a, b[..m], staking, vs);
      ReplaySplit(a, b[..m], vs, map[]);
    }
  }

  /** No packets, nothing that cannot be decoded, and every edit sets a rate, at any depth. */
  ghost predicate Plain<K(!new)>(msgs: seq<Msg<K>>)
    decreases msgs
  {
    forall m :: m in msgs ==> !m.TxPacket? && !m.BadExec? && (m.Edit? ==> m.rate.Some?) && (m.Exec? ==> Plain(m.inner))
  }

  lemma {:induction false} PlainHasNoPacket<K(!new)>(msgs: seq<Msg<K>>)
    requires Plain(msgs)
    ensures NoPacket(msgs)
    decreases msgs
  {
    forall m | m in msgs && m.Exec? ensures NoPacket(m.inner) { PlainHasNoPacket(m.inner); }
  }

  lemma OneAccepted<K>(a: Action<K>, staking: Staking<K>, vs: map<K, Validator>)
    ensures AllAccepted([a], staking, vs) <==> Accepted(a, staking, vs)
  {
    assert [a][..0] == [];
  }

  /** Wrapping changes nothing: messages go through exactly if their edits and creations are accepted one after the other. */
  lemma {:induction false} GoesThroughIff<K(!new)>(msgs: seq<Msg<K>>, top: bool, staking: Staking<K>, vs: map<K, Validator>)
    requires Plain(msgs)
    ensures Outcomes(msgs, top, staking, vs).ok <==> AllAccepted(Flat(msgs, top), staking, vs)
    decreases msgs
  {
    if msgs != [] {
      var n := |msgs| - 1;
      PlainFirstAndLast(msgs);
      GoesThroughIff(msgs[..n], top, staking, vs);
      var first := Flat(msgs[..n], top);
      AcceptedSplit(first, FlatOne(msgs[n], top), staking, vs);
      if Outcomes(msgs[..n], top, staking, vs).ok {
        PlainHasNoPacket(msgs[..n]);
        AllTakeEffect(msgs[..n], top, staking, vs);
        OneGoesThroughIff(msgs[n], top, staking, Replay(first, vs));
      }
    }
  }

  lemma PlainFirstAndLast<K(!new)>(msgs: seq<Msg<K>>)
    requires msgs != [] && Plain(msgs)
    ensures var n := |msgs| - 1;
            && Plain(msgs[..n]) && !msgs[n].TxPacket? && !msgs[n].BadExec?
            && (msgs[n].Edit? ==> msgs[n].rate.Some?) && (msgs[n].Exec? ==> Plain(msgs[n].inner))
  {
    var n := |msgs| - 1;
    assert msgs[n] in msgs && forall m :: m in msgs[..n] ==> m in msgs;
  }

  lemma OneGoesThroughIff<K(!new)>(m: Msg<K>, top: bool, staking: Staking<K>, vs: map<K, Validator>)
    requires !m.TxPacket? && !m.BadExec? && (m.Edit? ==> m.rate.Some?) && (m.Exec? ==> Plain(m.inner))
    ensures OutcomeOf(m, top, staking, vs).ok <==> AllAccepted(FlatOne(m, top), staking, vs)
    decreases m
  {
    if m.Exec? {
      GoesThroughIff(m.inner, false, staking, vs);
    } else if m.Edit? || m.Create? {
      OneAccepted(FlatOne(m, top)[0], staking, vs);
    }
  }

  /** Nothing is carried out after a refusal. */
  lemma {:induction false} RefusalStops<K>(msgs: seq<Msg<K>>, i: nat, top: bool, staking: Staking<K>, vs: map<K, Validator>)
    requires i <= |msgs| && !Outcomes(msgs[..i], top, staking, vs).ok
    ensures Outcomes(msgs, top, staking, vs) == Outcomes(msgs[..i], top, staking, vs)
    decreases |msgs| - i
  {
    if i == |msgs| {
      assert msgs[..i] == msgs;
    } else {
      OutcomesNext(msgs, i, top, staking, vs);
      RefusalStops(msgs, i + 1, top, staking, vs);
    }
  }

  /**
   * Carries out messages in order, going into those that wrap others. A refusal stops them, except
   * inside a packet, which is undone and answered with an error. The stored rates are left alone.
   */
  method Execute<K(==, !new)>(k: Keeper<K>, msgs: seq<Msg<K>>, top: bool, staking: Staking<K>)
    returns (ok: bool, ghost log: seq<Action<K>>)
    modifies k
    ensures Outcome(ok, log) == Outcomes(msgs, top, staking, old(k.validators))
    ensures k.validators == Replay(log, old(k.validators)) && k.rates == old(k.rates)
    decreases msgs
  {
    log := [];
    for i := 0 to |msgs|
      invariant Outcome(true, log) == Outcomes(msgs[..i], top, staking, old(k.validators))
      invariant k.validators == Replay(log, old(k.validators)) && k.rates == old(k.rates)
    {
      OutcomesNext(msgs, i, top, staking, old(k.validators));
      ghost var more;
      ok, more := ExecuteOne(k, msgs[i], top, staking);
      ReplaySplit(log, more, old(k.validators), k.rates);
      log := log + more;
      if !ok {
        RefusalStops(msgs, i + 1, top, staking, old(k.validators));
        return;
      }
    }
    assert msgs[..|msgs|] == msgs;
    ok := true;
  }

  method ExecuteOne<K(==, !new)>(k: Keeper<K>, m: Msg<K>, top: bool, staking: Staking<K>)
    returns (ok: bool, ghost log: seq<Action<K>>)
    modifies k
    ensures Outcome(ok, log) == OutcomeOf(m, top, staking, old(k.validators))
    ensures k.validators == Replay(log, old(k.validators)) && k.rates == old(k.rates)
    decreases m
  {
    log := [];
    match m {
      case Edit(op, rate) =>
        if op !in k.validators {
          return false, [];
        }
        if rate.Some? {
          if rate.value > k.validators[op].maxRate || !staking.edits(op, k.validators[op], rate.value) {
            return false, [];
          }
          log := [Edited(op, rate.value, top)];
          ReplayOne(log[0], k.validators);
          k.EditValidator(op, rate.value, false);
        }
      case Create(op, rate, maxRate) =>
        if op in k.validators || rate > maxRate || !staking.creates(op, rate, maxRate) {
          return false, [];
        }
        log := [Created(op, rate, maxRate, top)];
        ReplayOne(log[0], k.validators);
        k.CreateValidator(op, rate, maxRate, false, 0, false);
      case Exec(ms) =>
        ok, log := Execute(k, ms, false, staking);
        return;
      case TxPacket(ms) =>
        var before := k.validators;
        ok, log := Execute(k, ms, false, staking);
        if !ok {
          k.validators := before;
          log := [];
        }
      case BadExec =>
        return false, [];
      case _ =>
    }
    ok := true;
  }

  lemma ReplayOne<K>(a: Action<K>, vs: map<K, Validator>)
    ensures Replay([a], vs) == Effect(vs, a)
  {
    assert [a][..0] == [];
  }

  // ---- what took effect passed the check

  /** No message creates a validator, at any depth. */
  ghost predicate NoCreation<K(!new)>(msgs: seq<Msg<K>>)
    decreases msgs
  {
    forall m :: m in msgs ==> !m.Create? && (m.Exec? || m.TxPacket? ==> NoCreation(m.inner))
  }

  ghost predicate OnlyEdits<K(!new)>(log: seq<Action<K>>) {
    forall a :: a in log ==> a.Edited?
  }

  /** Every action fits the state it finds, and those at the top are the ones the handler afterwards sees. */
  lemma {:induction false} OutcomesFit<K(!new)>(msgs: seq<Msg<K>>, top: bool, staking: Staking<K>, vs: map<K, Validator>,
                                                rates: map<K, Stored>)
    requires EditsOk(Minimums(rates), msgs)
    ensures var r := Outcomes(msgs, top, staking, vs);
            && LogOk(r.log, vs, rates)
            && (r.ok ==> OnlyTop(r.log) == if top then TopActions(msgs) else [])
            && (NoCreation(msgs) ==> OnlyEdits(r.log))
    decreases msgs
  {
    if msgs != [] {
      var n := |msgs| - 1;
      FirstAndLast(msgs, Minimums(rates));
      OutcomesFit(msgs[..n], top, staking, vs, rates);
      var first := Outcomes(msgs[..n], top, staking, vs);
      if first.ok {
        OutcomeFits(msgs[n], top, staking, Replay(first.log, vs), rates);
        var next := OutcomeOf(msgs[n], top, staking, Replay(first.log, vs));
        ReplaySplit(first.log, next.log, vs, rates);
        OnlyTopSplit(first.log, next.log);
      }
    }
  }

  lemma OutcomeFits<K(!new)>(m: Msg<K>, top: bool, staking: Staking<K>, vs: map<K, Validator>, rates: map<K, Stored>)
    requires m.Edit? ==> EditOk(Minimums(rates), m.operator, m.rate)
    requires m.Exec? || m.TxPacket? ==> EditsOk(Minimums(rates), m.inner)
    ensures var r := OutcomeOf(m, top, staking, vs);
            && LogOk(r.log, vs, rates)
            && (r.ok ==> OnlyTop(r.log) == if top then TopAction(m) else [])
            && (NoCreation([m]) ==> OnlyEdits(r.log))
    decreases m
  {
    assert m in [m];
    var r := OutcomeOf(m, top, staking, vs);
    if m.Exec? || m.TxPacket? {
      OutcomesFit(m.inner, false, staking, vs, rates);
    } else if r.log != [] {
      OneFits(r.log[0], vs, rates);
    }
  }

  lemma OneFits<K>(a: Action<K>, vs: map<K, Validator>, rates: map<K, Stored>)
    requires Fits(a, vs, rates)
    ensures LogOk([a], vs, rates) && OnlyTop([a]) == if a.top then [a] else []
  {
    assert [a][..0] == [];
  }

  lemma FirstAndLast<K(!new)>(msgs: seq<Msg<K>>, mins: map<K, Dec>)
    requires msgs != [] && EditsOk(mins, msgs)
    ensures var n := |msgs| - 1;
            && EditsOk(mins, msgs[..n])
            && (msgs[n].Edit? ==> EditOk(mins, msgs[n].operator, msgs[n].rate))
            && (msgs[n].Exec? || msgs[n].TxPacket? ==> EditsOk(mins, msgs[n].inner))
            && (NoCreation(msgs) ==> NoCreation(msgs[..n]) && NoCreation([msgs[n]]))
  {
    var n := |msgs| - 1;
    assert msgs[n] in msgs && forall m :: m in msgs[..n] ==> m in msgs;
  }

  // ---- the whole transaction

  lemma TopActionsNext<K>(msgs: seq<Msg<K>>, i: nat)
    requires i < |msgs|
    ensures TopActions(msgs[..i + 1]) == TopActions(msgs[..i]) + TopAction(msgs[i])
  {
    assert msgs[..i + 1][..i] == msgs[..i];
  }

  /** The handler after the transaction looks at the messages at the top only. */
  method PostHandle<K(==, !new)>(k: Keeper<K>, msgs: seq<Msg<K>>)
    modifies k`rates
    ensures k.rates == RatesAfter(TopActions(msgs), old(k.rates))
  {
    for i := 0 to |msgs|
      invariant k.rates == RatesAfter(TopActions(msgs[..i]), old(k.rates))
    {
      TopActionsNext(msgs, i);
      RatesAfterMore(TopActions(msgs[..i]), TopAction(msgs[i]), old(k.rates));
      PostHandleOne(k, msgs[i]);
    }
    assert msgs[..|msgs|] == msgs;
  }

  method PostHandleOne<K(==, !new)>(k: Keeper<K>, m: Msg<K>)
    modifies k`rates
    ensures k.rates == RatesAfter(TopAction(m), old(k.rates))
  {
    ghost var seen := TopAction(m);
    assert seen != [] ==> seen[..0] == [];
    match m {
      case Edit(op, rate) =>
        if rate.Some? { k.SetTargetCommissionRate(op, rate.value); }
      case Create(op, rate, _) =>
        k.SetTargetCommissionRate(op, rate);
      case _ =>
    }
  }

  lemma {:induction false} EditsRespect<K(!new)>(log: seq<Action<K>>, rates: map<K, Stored>, op: K)
    requires OnlyEdits(log)
    ensures CreationRespects(log, rates, op)
  {
    if log != [] {
      var n := |log| - 1;
      assert log[n] in log && forall a :: a in log[..n] ==> a in log;
      EditsRespect(log[..n], rates, op);
    }
  }

  /**
   * A transaction of any messages, wrapped to any depth. If the check or staking refuses it nothing
   * changes. Otherwise every validator is between its stored minimum and its maximum afterwards
   * exactly if each creation that took effect respects what was stored for its operator; so edits
   * alone, however they are wrapped, never break it.
   */
  method Deliver<K(==, !new)>(k: Keeper<K>, msgs: seq<Msg<K>>, staking: Staking<K>) returns (ok: bool, ghost log: seq<Action<K>>)
    requires k.Valid()
    modifies k
    ensures !ok ==> k.validators == old(k.validators) && k.rates == old(k.rates)
    ensures ok <==> Passes(Minimums(old(k.rates)), msgs, false) && Outcomes(msgs, true, staking, old(k.validators)).ok
    ensures ok ==> log == Outcomes(msgs, true, staking, old(k.validators)).log
    ensures ok ==> k.validators == Replay(log, old(k.validators)) && k.rates == RatesAfter(log, old(k.rates))
    ensures ok ==> LogOk(log, old(k.validators), old(k.rates)) && OnlyTop(log) == TopActions(msgs)
    ensures ok ==> (k.Valid() <==> forall a :: a in log ==> CreationRespects(log, old(k.rates), a.op))
    ensures NoCreation(msgs) ==> k.Valid()
  {
    log := [];
    var rejected := FilterMsgsAndProcessMsgs(Minimums(k.rates), msgs);
    PassesIff(Minimums(k.rates), msgs, false);
    if rejected {
      return false, [];
    }
    OutcomesFit(msgs, true, staking, k.validators, k.rates);
    var before := k.validators;
    ok, log := Execute(k, msgs, true, staking);
    if !ok {
      k.validators := before;
      return;
    }
    PostHandle(k, msgs);
    RatesOfTop(log, old(k.rates));
    AllHeldIff(log, old(k.validators), old(k.rates));
    if OnlyEdits(log) {
      forall a | a in log ensures CreationRespects(log, old(k.rates), a.op) { EditsRespect(log, old(k.rates), a.op); }
    }
  }
}
