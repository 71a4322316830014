/** Runs of the transaction coordinator, one storage action at a time, with crashes allowed anywhere. */
module TransactionRuns {
  import opened Bytes
  import opened Outcomes
  import opened Transactions

  /** How far the running commit has got. */
  datatype Stage = Taken | Logged | Applying(done: nat)

  datatype Commit = Commit(id: TransactionId, ops: seq<Operation>, stage: Stage)

  datatype System<I> = System(
    active: map<TransactionId, Transaction>,
    commit: Option<Commit>,
    log: seq<Record>,
    synced: nat,              // length of the log known to be on disk
    index: I,
    // history
    used: set<TransactionId>,
    dead: set<TransactionId>, // aborted, expired, or failed to commit
    applied: seq<Operation>,  // since the index was last built from the log
    missing: seq<Operation>,  // logged, but given up before they were applied, since then
    late: bool,               // something was applied after something was given up
    acked: seq<nat>)          // log positions of acknowledged commits

  datatype Event =
    | Begin(id: TransactionId, now: nat)
    | Add(id: TransactionId, op: Operation)
    | Abort(id: TransactionId)
    | Cleanup(now: nat)
    | StartCommit(id: TransactionId)
    | AppendToLog
    | LogFull                 // the segment refuses the record
    | Sync
    | SyncFails
    | ApplyNext
    | Acknowledge
    | Crash(kept: nat)        // unsynced records may survive or not

  datatype Limits = Limits(maxActive: nat, timeout: nat)

  function Start<I>(setup: Setup<I>): System<I> {
    System(map[], None, [], 0, setup.init, {}, {}, [], [], false, [])
  }

  function OpsOf(log: seq<Record>): seq<Operation>
    decreases |log|
  {
    if log == [] then [] else OpsOf(log[..|log| - 1]) + log[|log| - 1].ops
  }

  /** Applies every operation, whether or not one reports a failure: what replaying them yields. */
  function Replay<I>(setup: Setup<I>, ops: seq<Operation>): I
    decreases |ops|
  {
    if ops == [] then setup.init else setup.apply(Replay(setup, ops[..|ops| - 1]), ops[|ops| - 1]).0
  }

  function Live(limits: Limits, active: map<TransactionId, Transaction>, now: nat): map<TransactionId, Transaction> {
    map id | id in active && !Expired(active[id], now, limits.timeout) :: active[id]
  }

  predicate Enabled<I>(s: System<I>, ev: Event) {
    match ev
    case Begin(id, _) => id !in s.used
    case Add(id, op) => id in s.active && ValidateOperation(op).Ok?
    case Abort(id) => id in s.active
    case Cleanup(_) => true
    case StartCommit(id) => s.commit.None? && id in s.active
    case AppendToLog => s.commit.Some? && s.commit.value.stage.Taken?
    case LogFull => s.commit.Some? && s.commit.value.stage.Taken?
    case Sync => s.commit.Some? && s.commit.value.stage.Logged?
    case SyncFails => s.commit.Some? && s.commit.value.stage.Logged?
    case ApplyNext =>
      s.commit.Some? && s.commit.value.stage.Applying? && s.commit.value.stage.done < |s.commit.value.ops|
    case Acknowledge =>
      s.commit.Some? && s.commit.value.stage.Applying? && s.commit.value.stage.done == |s.commit.value.ops|
      && s.log != []
    case Crash(kept) => s.synced <= kept <= |s.log|
  }

  function Step<I>(setup: Setup<I>, limits: Limits, s: System<I>, ev: Event): System<I>
    requires Enabled(s, ev)
  {
    match ev
    case Begin(id, now) =>
      if |s.active| >= limits.maxActive then s
      else s.(active := s.active[id := Transaction(now, [])], used := s.used + {id})
    case Add(id, op) => s.(active := s.active[id := s.active[id].(ops := s.active[id].ops + [op])])
    case Abort(id) => s.(active := s.active - {id}, dead := s.dead + {id})
    case Cleanup(now) =>
      var live := Live(limits, s.active, now);
      s.(active := live, dead := s.dead + (s.active.Keys - live.Keys))
    case StartCommit(id) => s.(active := s.active - {id}, commit := Some(Commit(id, s.active[id].ops, Taken)))
    case AppendToLog =>
      var c := s.commit.value;
      if ValidateAll(c.ops, setup.config(s.index)).Err? || c.ops == []
      then s.(commit := None, dead := s.dead + {c.id})
      else s.(commit := Some(c.(stage := Logged)), log := s.log + [Record(c.id, c.ops)])
    case LogFull => s.(commit := None, dead := s.dead + {s.commit.value.id})
    case Sync => s.(commit := Some(s.commit.value.(stage := Applying(0))), synced := |s.log|)
    case SyncFails => s.(commit := None, missing := s.missing + s.commit.value.ops)
    case ApplyNext =>
      var c := s.commit.value;
      var op := c.ops[c.stage.done];
      var (index, ok) := setup.apply(s.index, op);
      if ok
      then s.(index := index, applied := s.applied + [op], late := s.late || s.missing != [],
              commit := Some(c.(stage := Applying(c.stage.done + 1))))
      else s.(index := index, missing := s.missing + c.ops[c.stage.done..], commit := None)
    case Acknowledge => s.(commit := None, acked := s.acked + [|s.log| - 1])
    case Crash(kept) =>
      var log := s.log[..kept];
      s.(active := map[], commit := None, log := log, synced := kept, index := Replay(setup, OpsOf(log)),
         applied := OpsOf(log), missing := [], late := false)
  }

  function Do<I>(setup: Setup<I>, limits: Limits, s: System<I>, ev: Event): System<I> {
    if Enabled(s, ev) then Step(setup, limits, s, ev) else s
  }

  function Run<I>(setup: Setup<I>, limits: Limits, s: System<I>, evs: seq<Event>): System<I>
    decreases |evs|
  {
    if evs == [] then s else Run(setup, limits, Do(setup, limits, s, evs[0]), evs[1..])
  }

  /** The event is neither a failed sync nor an operation that the index fails to apply. */
  predicate Applies<I>(setup: Setup<I>, s: System<I>, ev: Event) {
    && !ev.SyncFails?
    && (ev.ApplyNext? && Enabled(s, ev) ==> setup.apply(s.index, s.commit.value.ops[s.commit.value.stage.done]).1)
  }

  predicate FaultFree<I>(setup: Setup<I>, limits: Limits, s: System<I>, evs: seq<Event>)
    decreases |evs|
  {
    evs != [] ==> Applies(setup, s, evs[0]) && FaultFree(setup, limits, Do(setup, limits, s, evs[0]), evs[1..])
  }

  // Who may be in the log

  predicate Clean(ops: seq<Operation>) {
    forall i :: 0 <= i < |ops| ==> ValidateOperation(ops[i]).Ok?
  }

  /** Identifiers are used once, and the dead ones appear nowhere else. */
  ghost predicate IdentityInv<I>(limits: Limits, s: System<I>) {
    && |s.active| <= limits.maxActive
    && (forall id :: id in s.active ==> id in s.used && id !in s.dead && Clean(s.active[id].ops))
    && (forall id :: id in s.dead ==> id in s.used)
    && (s.commit.Some? ==>
          && s.commit.value.id in s.used && s.commit.value.id !in s.dead && s.commit.value.id !in s.active
          && Clean(s.commit.value.ops)
          && (s.commit.value.stage.Taken? ==> forall r :: r in s.log ==> r.id != s.commit.value.id)
          && (!s.commit.value.stage.Taken? ==>
                s.log != [] && s.log[|s.log| - 1] == Record(s.commit.value.id, s.commit.value.ops)))
    && (forall r :: r in s.log ==>
          r.id in s.used && r.id !in s.dead && r.id !in s.active && r.ops != [] && Clean(r.ops))
    && (forall i, j :: 0 <= i < j < |s.log| ==> s.log[i].id != s.log[j].id)
  }

  lemma SmallerMap<K, V>(small: map<K, V>, big: map<K, V>)
    requires small.Keys <= big.Keys
    ensures |small| <= |big|
    decreases |big|
  {
    if k :| k in big.Keys && k !in small.Keys {
      assert big.Keys == (big - {k}).Keys + {k};
      SmallerMap(small, big - {k});
    } else {
      assert small.Keys == big.Keys;
      assert |small| == |small.Keys| && |big| == |big.Keys|;
    }
  }

  lemma IdentityShrinks<I>(setup: Setup<I>, limits: Limits, s: System<I>, ev: Event)
    requires IdentityInv(limits, s) && Enabled(s, ev) && (ev.Abort? || ev.Cleanup? || ev.StartCommit?)
    ensures IdentityInv(limits, Step(setup, limits, s, ev))
  {
    SmallerMap(Step(setup, limits, s, ev).active, s.active);
  }

  lemma IdentityGrows<I>(setup: Setup<I>, limits: Limits, s: System<I>, ev: Event)
    requires IdentityInv(limits, s) && Enabled(s, ev) && (ev.Begin? || ev.Add?)
    ensures IdentityInv(limits, Step(setup, limits, s, ev))
  {
    if ev.Add? {
      assert s.active[ev.id := s.active[ev.id]].Keys == s.active.Keys;
      assert Step(setup, limits, s, ev).active.Keys == s.active.Keys;
      assert |Step(setup, limits, s, ev).active| == |s.active.Keys| == |s.active|;
    }
  }

  lemma IdentityLogs<I>(setup: Setup<I>, limits: Limits, s: System<I>)
    requires IdentityInv(limits, s) && Enabled(s, AppendToLog)
    ensures IdentityInv(limits, Step(setup, limits, s, AppendToLog))
  {
  }

  lemma IdentityEnds<I>(setup: Setup<I>, limits: Limits, s: System<I>, ev: Event)
    requires IdentityInv(limits, s) && Enabled(s, ev)
    requires ev.LogFull? || ev.Sync? || ev.SyncFails? || ev.ApplyNext? || ev.Acknowledge?
    ensures IdentityInv(limits, Step(setup, limits, s, ev))
  {
    var t := Step(setup, limits, s, ev);
    assert t.log == s.log && t.active == s.active && t.used == s.used;
  }

  lemma IdentityCrash<I>(setup: Setup<I>, limits: Limits, s: System<I>, ev: Event)
    requires IdentityInv(limits, s) && Enabled(s, ev) && ev.Crash?
    ensures IdentityInv(limits, Step(setup, limits, s, ev))
  {
    assert forall r :: r in s.log[..ev.kept] ==> r in s.log;
  }

  lemma IdentityStep<I>(setup: Setup<I>, limits: Limits, s: System<I>, ev: Event)
    requires IdentityInv(limits, s)
    ensures IdentityInv(limits, Do(setup, limits, s, ev))
  {
    if Enabled(s, ev) {
      match ev
      case Abort(_) => IdentityShrinks(setup, limits, s, ev);
      case Cleanup(_) => IdentityShrinks(setup, limits, s, ev);
      case StartCommit(_) => IdentityShrinks(setup, limits, s, ev);
      case Begin(_, _) => IdentityGrows(setup, limits, s, ev);
      case Add(_, _) => IdentityGrows(setup, limits, s, ev);
      case AppendToLog => IdentityLogs(setup, limits, s);
      case Crash(_) => IdentityCrash(setup, limits, s, ev);
      case _ => IdentityEnds(setup, limits, s, ev);
    }
  }

  // What the index may contain

  /** Logged operations that the running commit has yet to apply. */
  function Unapplied<I>(s: System<I>): seq<Operation> {
    match s.commit
    case None => []
    case Some(c) =>
      match c.stage
      case Taken => []
      case Logged => c.ops
      case Applying(done) => if done <= |c.ops| then c.ops[done..] else []
  }

  lemma ReplayNext<I>(setup: Setup<I>, ops: seq<Operation>, op: Operation)
    ensures Replay(setup, ops + [op]) == setup.apply(Replay(setup, ops), op).0
  {
    assert (ops + [op])[..|ops|] == ops;
  }

  lemma StartIsValid<I>(setup: Setup<I>, limits: Limits)
    ensures GapInv(setup, Start(setup)) && IdentityInv(limits, Start(setup))
  {
  }

  lemma {:induction false} RunKeepsIdentity<I>(setup: Setup<I>, limits: Limits, s: System<I>, evs: seq<Event>)
    requires IdentityInv(limits, s)
    ensures IdentityInv(limits, Run(setup, limits, s, evs))
    decreases |evs|
  {
    if evs != [] {
      IdentityStep(setup, limits, s, evs[0]);
      RunKeepsIdentity(setup, limits, Do(setup, limits, s, evs[0]), evs[1..]);
    }
  }

  /**
   * In every run, with failures and crashes: no aborted, expired or failed transaction is in the log, none is
   * logged twice, every logged transaction is non-empty, stores no empty text and adds only postings with a range
   * of 32 bits and a vector of finite components, and the limit on active transactions holds.
   */
  lemma OnlyValidTransactionsAreLogged<I>(setup: Setup<I>, limits: Limits, evs: seq<Event>)
    ensures var s := Run(setup, limits, Start(setup), evs);
            && |s.active| <= limits.maxActive
            && (forall r :: r in s.log ==> r.id !in s.dead && r.id !in s.active && r.ops != [])
            && (forall i, j :: 0 <= i < j < |s.log| ==> s.log[i].id != s.log[j].id)
            && (forall r, op :: r in s.log && op in r.ops ==>
                  && (op.StoreDocumentText? ==> op.text != [])
                  && (op.AddPosting? ==>
                        && op.length > 0 && op.start + op.length < U32_LIMIT
                        && op.vector != [] && forall x :: x in op.vector ==> x.Finite?))
  {
    StartIsValid(setup, limits);
    RunKeepsIdentity(setup, limits, Start(setup), evs);
    var s := Run(setup, limits, Start(setup), evs);
    forall r, op | r in s.log && op in r.ops
      ensures ValidateOperation(op).Ok?
    {
      assert Clean(r.ops);
    }
  }

  // Where a transaction is

  ghost predicate PlacedAt<I>(s: System<I>, id: TransactionId) {
    || id in s.active || id in s.dead || (s.commit.Some? && s.commit.value.id == id)
    || exists r :: r in s.log && r.id == id
  }

  /** Each identifier ever used is that of an active, dead, running or logged transaction. */
  ghost predicate Placed<I>(s: System<I>) {
    forall id :: id in s.used ==> PlacedAt(s, id)
  }

  lemma LogOnlyGrows<I>(setup: Setup<I>, limits: Limits, s: System<I>, ev: Event, id: TransactionId)
    requires Enabled(s, ev) && !ev.Crash? && exists r :: r in s.log && r.id == id
    ensures exists r :: r in Step(setup, limits, s, ev).log && r.id == id
  {
    var r :| r in s.log && r.id == id;
    assert r in Step(setup, limits, s, ev).log;
  }

  lemma PlacedOne<I>(setup: Setup<I>, limits: Limits, s: System<I>, ev: Event, id: TransactionId)
    requires Enabled(s, ev) && !ev.Crash? && id in Step(setup, limits, s, ev).used
    requires id in s.used ==> PlacedAt(s, id)
    requires s.commit.Some? && !s.commit.value.stage.Taken? ==>
               exists r :: r in s.log && r.id == s.commit.value.id
    ensures PlacedAt(Step(setup, limits, s, ev), id)
  {
    if exists r :: r in s.log && r.id == id {
      LogOnlyGrows(setup, limits, s, ev, id);
    }
  }

  lemma PlacedStep<I>(setup: Setup<I>, limits: Limits, s: System<I>, ev: Event)
    requires IdentityInv(limits, s) && Placed(s) && !ev.Crash?
    ensures Placed(Do(setup, limits, s, ev))
  {
    if Enabled(s, ev) {
      if s.commit.Some? && !s.commit.value.stage.Taken? {
        assert s.log[|s.log| - 1] in s.log;
      }
      forall id | id in Step(setup, limits, s, ev).used
        ensures PlacedAt(Step(setup, limits, s, ev), id)
      {
        PlacedOne(setup, limits, s, ev, id);
      }
    }
  }

  lemma {:induction false} PlacedRun<I>(setup: Setup<I>, limits: Limits, s: System<I>, evs: seq<Event>)
    requires IdentityInv(limits, s) && Placed(s) && forall ev :: ev in evs ==> !ev.Crash?
    ensures Placed(Run(setup, limits, s, evs))
    decreases |evs|
  {
    if evs != [] {
      PlacedStep(setup, limits, s, evs[0]);
      IdentityStep(setup, limits, s, evs[0]);
      PlacedRun(setup, limits, Do(setup, limits, s, evs[0]), evs[1..]);
    }
  }

  /**
   * Until a crash, each transaction ever begun is in exactly one place: active, dead (aborted, expired or failed),
   * about to be logged, or in the log.
   */
  lemma EachTransactionIsInOnePlace<I>(setup: Setup<I>, limits: Limits, evs: seq<Event>, id: TransactionId)
    requires forall ev :: ev in evs ==> !ev.Crash?
    ensures var s := Run(setup, limits, Start(setup), evs);
            var (active, dead) := (id in s.active, id in s.dead);
            var logging := s.commit.Some? && s.commit.value.stage.Taken? && s.commit.value.id == id;
            var logged := exists r :: r in s.log && r.id == id;
            && (id in s.used <==> active || dead || logging || logged)
            && !(active && dead) && !(active && logging) && !(active && logged)
            && !(dead && logging) && !(dead && logged) && !(logging && logged)
  {
    StartIsValid(setup, limits);
    RunKeepsIdentity(setup, limits, Start(setup), evs);
    PlacedRun(setup, limits, Start(setup), evs);
    var s := Run(setup, limits, Start(setup), evs);
    if s.commit.Some? && !s.commit.value.stage.Taken? {
      assert s.log[|s.log| - 1] in s.log;
    }
  }

  // What an active transaction holds

  lemma StaysActiveStep<I>(setup: Setup<I>, limits: Limits, s: System<I>, ev: Event, id: TransactionId)
    requires id in s.active && id in s.used
    ensures id in Do(setup, limits, s, ev).active <==>
              && ev != Abort(id) && !(ev == StartCommit(id) && s.commit.None?)
              && !(ev.Crash? && s.synced <= ev.kept <= |s.log|)
              && !(ev.Cleanup? && ev.now > s.active[id].startTime + limits.timeout)
  {
  }

  lemma HoldsMoreStep<I>(setup: Setup<I>, limits: Limits, s: System<I>, ev: Event, id: TransactionId)
    requires id in s.active && id in s.used && id in Do(setup, limits, s, ev).active
    ensures Do(setup, limits, s, ev).active[id]
         == if ev.Add? && ev.id == id && ValidateOperation(ev.op).Ok?
            then Transaction(s.active[id].startTime, s.active[id].ops + [ev.op]) else s.active[id]
  {
  }

  /**
   * A step keeps a transaction active unless it aborts or commits it, crashes, or cleans up after its time; what
   * was added to it stays, and only an added operation that makes sense on its own joins.
   */
  lemma StaysActiveExactly<I>(setup: Setup<I>, limits: Limits, before: seq<Event>, ev: Event, id: TransactionId)
    requires id in Run(setup, limits, Start(setup), before).active
    ensures var s := Run(setup, limits, Start(setup), before); var t := Do(setup, limits, s, ev);
            && (id in t.active <==>
                  && ev != Abort(id) && !(ev == StartCommit(id) && s.commit.None?)
                  && !(ev.Crash? && s.synced <= ev.kept <= |s.log|)
                  && !(ev.Cleanup? && ev.now > s.active[id].startTime + limits.timeout))
            && (id in t.active ==>
                  t.active[id] ==
                  if ev.Add? && ev.id == id && (ev.op.StoreDocumentText? ==> ev.op.text != [])
                     && (ev.op.AddPosting? ==>
                           && ev.op.length > 0 && ev.op.start + ev.op.length < U32_LIMIT
                           && ev.op.vector != [] && forall x :: x in ev.op.vector ==> x.Finite?)
                  then Transaction(s.active[id].startTime, s.active[id].ops + [ev.op]) else s.active[id])
  {
    ReachedState(setup, limits, before);
    var s := Run(setup, limits, Start(setup), before);
    StaysActiveStep(setup, limits, s, ev, id);
    if id in Do(setup, limits, s, ev).active {
      HoldsMoreStep(setup, limits, s, ev, id);
      if ev.Add? {
        ValidExactly(ev.op);
      }
    }
  }

  /** The operations that a run adds to a transaction and that make sense on their own. */
  function Added(evs: seq<Event>, id: TransactionId): seq<Operation> {
    if evs == [] then []
    else
      var (front, last) := (evs[..|evs| - 1], evs[|evs| - 1]);
      Added(front, id) + if last.Add? && last.id == id && ValidateOperation(last.op).Ok? then [last.op] else []
  }

  /** No abort, commit or crash ends the transaction, and no clean-up comes after its time. */
  predicate Spares(limits: Limits, evs: seq<Event>, id: TransactionId, startTime: nat) {
    && Abort(id) !in evs && StartCommit(id) !in evs
    && forall ev :: ev in evs ==> !ev.Crash? && (ev.Cleanup? ==> ev.now <= startTime + limits.timeout)
  }

  lemma NextHeld<I>(setup: Setup<I>, limits: Limits, before: seq<Event>, id: TransactionId, now: nat,
                    evs: seq<Event>, ev: Event)
    requires var s := Run(setup, limits, Start(setup), before);
             id in s.active && s.active[id] == Transaction(now, Added(evs, id))
    requires Spares(limits, [ev], id, now)
    ensures var s := Run(setup, limits, Start(setup), before + [ev]);
            id in s.active && s.active[id] == Transaction(now, Added(evs + [ev], id))
  {
    assert ev in [ev];
    RunLast(setup, limits, before, ev);
    StaysActiveExactly(setup, limits, before, ev, id);
    assert (evs + [ev])[..|evs|] == evs;
    assert Added(evs, id) + [] == Added(evs, id);
  }

  /** So it holds exactly those, in order. */
  lemma {:induction false} ActiveHoldsWhatWasAdded<I>(setup: Setup<I>, limits: Limits, before: seq<Event>,
                                                      id: TransactionId, now: nat, evs: seq<Event>)
    requires var s := Run(setup, limits, Start(setup), before); id !in s.used && |s.active| < limits.maxActive
    requires Spares(limits, evs, id, now)
    ensures var s := Run(setup, limits, Start(setup), before + [Begin(id, now)] + evs);
            id in s.active && s.active[id] == Transaction(now, Added(evs, id))
  {
    var begun := before + [Begin(id, now)];
    if evs == [] {
      RunLast(setup, limits, before, Begin(id, now));
      assert begun + [] == begun;
    } else {
      var (front, last) := (evs[..|evs| - 1], evs[|evs| - 1]);
      ActiveHoldsWhatWasAdded(setup, limits, before, id, now, front);
      NextHeld(setup, limits, begun + front, id, now, front, last);
      assert evs == front + [last] && begun + evs == (begun + front) + [last];
    }
  }

  lemma LogsWhatIsActive<I>(setup: Setup<I>, limits: Limits, s: System<I>, id: TransactionId, ops: seq<Operation>)
    requires s.commit.None? && id in s.active && s.active[id].ops == ops
    ensures var t := Do(setup, limits, Do(setup, limits, s, StartCommit(id)), AppendToLog);
            var config := setup.config(s.index);
            t.log == if ops != []
                        && forall op :: op in ops ==>
                             && (op.StoreDocumentText? ==> config.hasTextStorage && |op.text| <= config.maxTextSize)
                             && (op.AddPosting? ==> |op.vector| == config.vectorSize)
                     then s.log + [Record(id, ops)] else s.log
  {
    var t := Do(setup, limits, Do(setup, limits, s, StartCommit(id)), AppendToLog);
    ValidateAllExactly(ops, setup.config(s.index));
    CommitUpToLog(setup, limits, s, id, Synced, ValidateAll(ops, setup.config(s.index)).Ok? && ops != [], t);
  }

  /**
   * What a commit then logs is what was added since the transaction began, in order, if the index takes each of
   * these operations and there is one; otherwise it logs nothing.
   */
  lemma CommitLogsWhatWasAdded<I>(setup: Setup<I>, limits: Limits, before: seq<Event>, id: TransactionId, now: nat,
                                  evs: seq<Event>)
    requires var s := Run(setup, limits, Start(setup), before); id !in s.used && |s.active| < limits.maxActive
    requires Spares(limits, evs, id, now)
    requires Run(setup, limits, Start(setup), before + [Begin(id, now)] + evs).commit.None?
    ensures var s := Run(setup, limits, Start(setup), before + [Begin(id, now)] + evs);
            var t := Do(setup, limits, Do(setup, limits, s, StartCommit(id)), AppendToLog);
            var config := setup.config(s.index);
            t.log == if Added(evs, id) != []
                        && forall op :: op in Added(evs, id) ==>
                             && (op.StoreDocumentText? ==> config.hasTextStorage && |op.text| <= config.maxTextSize)
                             && (op.AddPosting? ==> |op.vector| == config.vectorSize)
                     then s.log + [Record(id, Added(evs, id))] else s.log
  {
    ActiveHoldsWhatWasAdded(setup, limits, before, id, now, evs);
    LogsWhatIsActive(setup, limits, Run(setup, limits, Start(setup), before + [Begin(id, now)] + evs), id,
                     Added(evs, id));
  }

  // Acknowledged commits are durable

  ghost predicate AckInv<I>(s: System<I>) {
    && s.synced <= |s.log|
    && (s.commit.Some? && s.commit.value.stage.Applying? ==> s.synced == |s.log|)
    && (forall i :: 0 <= i < |s.acked| ==> s.acked[i] < s.synced)
  }

  lemma SyncedStep<I>(setup: Setup<I>, limits: Limits, s: System<I>, ev: Event)
    requires AckInv(s)
    ensures var u := Do(setup, limits, s, ev);
            AckInv(u) && s.synced <= u.synced && u.log[..s.synced] == s.log[..s.synced] && s.acked <= u.acked
  {
  }

  /** Every synced record stays where it is, whatever happens, and acknowledged positions are synced. */
  lemma {:induction false} SyncedRecordsStay<I>(setup: Setup<I>, limits: Limits, s: System<I>, evs: seq<Event>)
    requires AckInv(s)
    ensures var t := Run(setup, limits, s, evs);
            && AckInv(t) && s.synced <= t.synced && t.log[..s.synced] == s.log[..s.synced] && s.acked <= t.acked
    decreases |evs|
  {
    if evs != [] {
      var u := Do(setup, limits, s, evs[0]);
      SyncedStep(setup, limits, s, evs[0]);
      SyncedRecordsStay(setup, limits, u, evs[1..]);
      var t := Run(setup, limits, u, evs[1..]);
      assert t.log[..s.synced] == t.log[..u.synced][..s.synced] == u.log[..u.synced][..s.synced];
    }
  }

  /** An acknowledged commit survives every later crash: its record stays in the log, at its place. */
  lemma AcknowledgedIsDurable<I>(setup: Setup<I>, limits: Limits, before: seq<Event>, after: seq<Event>, i: nat)
    requires i < |Run(setup, limits, Start(setup), before).acked|
    ensures var s := Run(setup, limits, Start(setup), before); var t := Run(setup, limits, s, after);
            && i < |t.acked| && t.acked[i] == s.acked[i] < |s.log| && s.acked[i] < |t.log|
            && t.log[s.acked[i]] == s.log[s.acked[i]]
  {
    SyncedRecordsStay(setup, limits, Start(setup), before);
    var s := Run(setup, limits, Start(setup), before);
    SyncedRecordsStay(setup, limits, s, after);
    var t := Run(setup, limits, s, after);
    assert t.log[s.acked[i]] == t.log[..s.synced][s.acked[i]];
  }

  /** What a crash leaves of the log is on disk: it is there after whatever happens next, further crashes included. */
  lemma CrashLeavesDurableLog<I>(setup: Setup<I>, limits: Limits, before: seq<Event>, kept: nat, after: seq<Event>)
    requires var s := Run(setup, limits, Start(setup), before); s.synced <= kept <= |s.log|
    ensures var s := Run(setup, limits, Start(setup), before); var c := Do(setup, limits, s, Crash(kept));
            && c.log == s.log[..kept] && c.log <= Run(setup, limits, c, after).log
            && c.active == map[] && c.commit.None? && c.index == Replay(setup, OpsOf(c.log))
  {
    SyncedRecordsStay(setup, limits, Start(setup), before);
    var s := Run(setup, limits, Start(setup), before);
    var c := Do(setup, limits, s, Crash(kept));
    SyncedStep(setup, limits, s, Crash(kept));
    SyncedRecordsStay(setup, limits, c, after);
    assert c.log[..c.synced] == c.log;
  }

  // Logged operations that never reach the index

  /**
   * The logged operations are those applied, those given up and those still to come; in this order as long as
   * nothing was applied after something was given up.
   */
  ghost predicate Accounted(logged: seq<Operation>, applied: seq<Operation>, missing: seq<Operation>,
                            rest: seq<Operation>, late: bool)
  {
    && multiset(logged) == multiset(applied) + multiset(missing) + multiset(rest)
    && (!late ==> logged == applied + missing + rest)
    && (missing == [] ==> !late)
  }

  lemma AccountLog(logged: seq<Operation>, applied: seq<Operation>, missing: seq<Operation>, ops: seq<Operation>,
                   late: bool)
    requires Accounted(logged, applied, missing, [], late)
    ensures Accounted(logged + ops, applied, missing, ops, late)
  {
    assert applied + missing + [] == applied + missing;
  }

  lemma AccountApply(logged: seq<Operation>, applied: seq<Operation>, missing: seq<Operation>, op: Operation,
                     rest: seq<Operation>, late: bool)
    requires Accounted(logged, applied, missing, [op] + rest, late)
    ensures Accounted(logged, applied + [op], missing, rest, late || missing != [])
  {
    if missing == [] {
      assert applied + [] + ([op] + rest) == applied + [op] + [] + rest;
    }
  }

  lemma AccountGiveUp(logged: seq<Operation>, applied: seq<Operation>, missing: seq<Operation>, rest: seq<Operation>,
                      late: bool)
    requires Accounted(logged, applied, missing, rest, late)
    ensures Accounted(logged, applied, missing + rest, [], late)
  {
    assert applied + (missing + rest) + [] == applied + missing + rest;
  }

  ghost predicate GapInv<I>(setup: Setup<I>, s: System<I>) {
    && Accounted(OpsOf(s.log), s.applied, s.missing, Unapplied(s), s.late)
    && (s.missing == [] ==> s.index == Replay(setup, s.applied))
  }

  lemma OpsOfMore(log: seq<Record>, r: Record)
    ensures OpsOf(log + [r]) == OpsOf(log) + r.ops
  {
    assert (log + [r])[..|log|] == log;
  }

  lemma UnappliedLogged<I>(setup: Setup<I>, limits: Limits, s: System<I>)
    requires Enabled(s, AppendToLog)
    ensures Unapplied(s) == []
    ensures var t := Step(setup, limits, s, AppendToLog);
            && t.applied == s.applied && t.missing == s.missing && t.late == s.late && t.index == s.index
            && ((t.log == s.log && Unapplied(t) == [])
                || (t.log == s.log + [Record(s.commit.value.id, s.commit.value.ops)]
                    && Unapplied(t) == s.commit.value.ops))
  {
  }

  lemma GapLogs<I>(setup: Setup<I>, limits: Limits, s: System<I>)
    requires GapInv(setup, s) && Enabled(s, AppendToLog)
    ensures GapInv(setup, Step(setup, limits, s, AppendToLog))
  {
    var c, t := s.commit.value, Step(setup, limits, s, AppendToLog);
    UnappliedLogged(setup, limits, s);
    OpsOfMore(s.log, Record(c.id, c.ops));
    AccountLog(OpsOf(s.log), s.applied, s.missing, c.ops, s.late);
    GapFrom(setup, s, t, Unapplied(t));
  }

  lemma GapFrom<I>(setup: Setup<I>, s: System<I>, t: System<I>, rest: seq<Operation>)
    requires Accounted(OpsOf(t.log), s.applied, s.missing, rest, s.late) && rest == Unapplied(t)
    requires t.applied == s.applied && t.missing == s.missing && t.late == s.late && t.index == s.index
    requires s.missing == [] ==> s.index == Replay(setup, s.applied)
    ensures GapInv(setup, t)
  {
  }

  lemma UnappliedNext<I>(setup: Setup<I>, limits: Limits, s: System<I>, op: Operation, rest: seq<Operation>)
    requires Enabled(s, ApplyNext)
    requires op == s.commit.value.ops[s.commit.value.stage.done]
    requires rest == s.commit.value.ops[s.commit.value.stage.done + 1..]
    ensures Unapplied(s) == [op] + rest
    ensures var t := Step(setup, limits, s, ApplyNext);
            && t.log == s.log
            && if Applies(setup, s, ApplyNext)
               then t.applied == s.applied + [op] && t.missing == s.missing && Unapplied(t) == rest
                    && t.late == (s.late || s.missing != []) && t.index == setup.apply(s.index, op).0
               else t.applied == s.applied && t.missing == s.missing + ([op] + rest) && Unapplied(t) == []
                    && t.late == s.late
  {
    assert s.commit.value.ops[s.commit.value.stage.done..] == [op] + rest;
  }

  lemma GapApplies<I>(setup: Setup<I>, limits: Limits, s: System<I>)
    requires GapInv(setup, s) && Enabled(s, ApplyNext)
    ensures GapInv(setup, Step(setup, limits, s, ApplyNext))
  {
    var c := s.commit.value;
    var (op, rest) := (c.ops[c.stage.done], c.ops[c.stage.done + 1..]);
    UnappliedNext(setup, limits, s, op, rest);
    GapKept(setup, s, Step(setup, limits, s, ApplyNext), op, rest, Applies(setup, s, ApplyNext));
  }

  lemma GapKept<I>(setup: Setup<I>, s: System<I>, t: System<I>, op: Operation, rest: seq<Operation>, ok: bool)
    requires Accounted(OpsOf(s.log), s.applied, s.missing, [op] + rest, s.late) && t.log == s.log
    requires s.missing == [] ==> s.index == Replay(setup, s.applied)
    requires if ok
             then t.applied == s.applied + [op] && t.missing == s.missing && Unapplied(t) == rest
                  && t.late == (s.late || s.missing != []) && t.index == setup.apply(s.index, op).0
             else t.applied == s.applied && t.missing == s.missing + ([op] + rest) && Unapplied(t) == []
                  && t.late == s.late
    ensures GapInv(setup, t)
  {
    if ok {
      AccountApply(OpsOf(s.log), s.applied, s.missing, op, rest, s.late);
      ReplayNext(setup, s.applied, op);
    } else {
      AccountGiveUp(OpsOf(s.log), s.applied, s.missing, [op] + rest, s.late);
    }
  }

  lemma GapSyncFails<I>(setup: Setup<I>, limits: Limits, s: System<I>)
    requires GapInv(setup, s) && Enabled(s, SyncFails)
    ensures GapInv(setup, Step(setup, limits, s, SyncFails))
  {
    AccountGiveUp(OpsOf(s.log), s.applied, s.missing, s.commit.value.ops, s.late);
    assert s.missing + s.commit.value.ops == [] ==> s.missing == [];
  }

  lemma GapCrash<I>(setup: Setup<I>, limits: Limits, s: System<I>, kept: nat)
    requires Enabled(s, Crash(kept))
    ensures GapInv(setup, Step(setup, limits, s, Crash(kept)))
  {
    var applied := Step(setup, limits, s, Crash(kept)).applied;
    assert applied + [] + [] == applied;
  }

  lemma GapOther<I>(setup: Setup<I>, limits: Limits, s: System<I>, ev: Event)
    requires GapInv(setup, s) && Enabled(s, ev)
    requires !ev.AppendToLog? && !ev.ApplyNext? && !ev.SyncFails? && !ev.Crash?
    ensures GapInv(setup, Step(setup, limits, s, ev))
  {
    var t := Step(setup, limits, s, ev);
    assert Unapplied(t) == Unapplied(s) && t.log == s.log && t.applied == s.applied;
    GapFrom(setup, s, t, Unapplied(t));
  }

  lemma GapStep<I>(setup: Setup<I>, limits: Limits, s: System<I>, ev: Event)
    requires GapInv(setup, s)
    ensures GapInv(setup, Do(setup, limits, s, ev))
  {
    if Enabled(s, ev) {
      match ev
      case AppendToLog => GapLogs(setup, limits, s);
      case ApplyNext => GapApplies(setup, limits, s);
      case SyncFails => GapSyncFails(setup, limits, s);
      case Crash(kept) => GapCrash(setup, limits, s, kept);
      case _ => GapOther(setup, limits, s, ev);
    }
  }

  lemma {:induction false} RunKeepsGap<I>(setup: Setup<I>, limits: Limits, s: System<I>, evs: seq<Event>)
    requires GapInv(setup, s) && IdentityInv(limits, s)
    ensures GapInv(setup, Run(setup, limits, s, evs)) && IdentityInv(limits, Run(setup, limits, s, evs))
    decreases |evs|
  {
    if evs != [] {
      GapStep(setup, limits, s, evs[0]);
      IdentityStep(setup, limits, s, evs[0]);
      RunKeepsGap(setup, limits, Do(setup, limits, s, evs[0]), evs[1..]);
    }
  }

  lemma ReachedState<I>(setup: Setup<I>, limits: Limits, evs: seq<Event>)
    ensures GapInv(setup, Run(setup, limits, Start(setup), evs))
    ensures IdentityInv(limits, Run(setup, limits, Start(setup), evs))
  {
    StartIsValid(setup, limits);
    RunKeepsGap(setup, limits, Start(setup), evs);
  }

  lemma FaultFreeStep<I>(setup: Setup<I>, limits: Limits, s: System<I>, ev: Event)
    requires s.missing == [] && Applies(setup, s, ev)
    ensures Do(setup, limits, s, ev).missing == []
  {
  }

  lemma {:induction false} NothingMissingWithoutFaults<I>(setup: Setup<I>, limits: Limits, s: System<I>,
                                                          evs: seq<Event>)
    requires s.missing == [] && FaultFree(setup, limits, s, evs)
    ensures Run(setup, limits, s, evs).missing == []
    decreases |evs|
  {
    if evs != [] {
      FaultFreeStep(setup, limits, s, evs[0]);
      NothingMissingWithoutFaults(setup, limits, Do(setup, limits, s, evs[0]), evs[1..]);
    }
  }

  /**
   * Write-ahead safety, crashes included: what the index has applied is a prefix of what the log holds, all of it
   * once no commit is running, so that replaying the log yields the state of all committed transactions.
   */
  lemma WriteAheadSafety<I>(setup: Setup<I>, limits: Limits, evs: seq<Event>)
    requires FaultFree(setup, limits, Start(setup), evs)
    ensures var s := Run(setup, limits, Start(setup), evs);
            && s.applied <= OpsOf(s.log) && s.index == Replay(setup, s.applied)
            && (s.commit.None? ==> s.index == Replay(setup, OpsOf(s.log)))
  {
    NothingMissingWithoutFaults(setup, limits, Start(setup), evs);
    AppliedIsLogExactly(setup, limits, evs);
  }

  /**
   * In every run, failures and crashes included: the operations applied, with those the running commit has yet to
   * apply, are all that is logged if and only if none was given up since the last crash. Then the index is what
   * replaying them gives.
   */
  lemma AppliedIsLogExactly<I>(setup: Setup<I>, limits: Limits, evs: seq<Event>)
    ensures var s := Run(setup, limits, Start(setup), evs);
            && (s.applied + Unapplied(s) == OpsOf(s.log) <==> s.missing == [])
            && (s.commit.None? ==> (s.applied == OpsOf(s.log) <==> s.missing == []))
            && (s.missing == [] ==> s.index == Replay(setup, s.applied))
  {
    ReachedState(setup, limits, evs);
    var s := Run(setup, limits, Start(setup), evs);
    AllAppliedExactly(OpsOf(s.log), s.applied, s.missing, Unapplied(s), s.late);
    assert s.applied + [] == s.applied;
  }

  lemma AllAppliedExactly(logged: seq<Operation>, applied: seq<Operation>, missing: seq<Operation>,
                          rest: seq<Operation>, late: bool)
    requires Accounted(logged, applied, missing, rest, late)
    ensures applied + rest == logged <==> missing == []
  {
    if missing == [] {
      assert applied + missing + rest == applied + rest;
    } else {
      assert |logged| == |multiset(logged)| == |applied| + |missing| + |rest|;
    }
  }

  /**
   * The first operation applied after others were given up keeps the applied ones a prefix of the log if and only
   * if it equals the first one given up.
   */
  lemma GapBreaksPrefixExactly<I>(setup: Setup<I>, limits: Limits, evs: seq<Event>)
    requires var s := Run(setup, limits, Start(setup), evs);
             s.missing != [] && !s.late && Enabled(s, ApplyNext) && Applies(setup, s, ApplyNext)
    ensures var s := Run(setup, limits, Start(setup), evs); var t := Do(setup, limits, s, ApplyNext);
            && s.applied <= OpsOf(s.log)
            && (t.applied <= OpsOf(t.log) <==> s.commit.value.ops[s.commit.value.stage.done] == s.missing[0])
  {
    ReachedState(setup, limits, evs);
    var s := Run(setup, limits, Start(setup), evs);
    NextInPrefix(OpsOf(s.log), s.applied, s.missing, Unapplied(s), s.commit.value.ops[s.commit.value.stage.done]);
  }

  lemma NextInPrefix(logged: seq<Operation>, applied: seq<Operation>, missing: seq<Operation>, rest: seq<Operation>,
                     op: Operation)
    requires logged == applied + missing + rest && missing != []
    ensures applied <= logged && (applied + [op] <= logged <==> op == missing[0])
  {
    assert logged[|applied|] == missing[0];
  }

  /** A failed apply or sync gives up what was left of its transaction, which stays in the log. */
  predicate GivesUp<I>(setup: Setup<I>, s: System<I>, ev: Event) {
    Enabled(s, ev) && !Applies(setup, s, ev)
  }

  predicate NothingGivenUp<I>(setup: Setup<I>, limits: Limits, s: System<I>, evs: seq<Event>)
    decreases |evs|
  {
    evs != [] ==>
      !GivesUp(setup, s, evs[0]) && NothingGivenUp(setup, limits, Do(setup, limits, s, evs[0]), evs[1..])
  }

  lemma GivingUpIsMissing<I>(setup: Setup<I>, limits: Limits, s: System<I>, ev: Event)
    requires IdentityInv(limits, s) && !ev.Crash? && s.missing == []
    ensures Do(setup, limits, s, ev).missing == [] <==> !GivesUp(setup, s, ev)
  {
    if GivesUp(setup, s, ev) {
      assert s.log[|s.log| - 1] in s.log && s.commit.value.ops != [];
    }
  }

  lemma {:induction false} MissingExactly<I>(setup: Setup<I>, limits: Limits, s: System<I>, evs: seq<Event>)
    requires IdentityInv(limits, s) && s.missing == [] && forall ev :: ev in evs ==> !ev.Crash?
    ensures Run(setup, limits, s, evs).missing == [] <==> NothingGivenUp(setup, limits, s, evs)
    decreases |evs|
  {
    if evs != [] {
      var t := Do(setup, limits, s, evs[0]);
      GivingUpIsMissing(setup, limits, s, evs[0]);
      IdentityStep(setup, limits, s, evs[0]);
      if t.missing == [] {
        MissingExactly(setup, limits, t, evs[1..]);
      } else {
        MissingStays(setup, limits, t, evs[1..]);
      }
    }
  }

  /** Nothing has happened yet, or a crash last. */
  predicate StartsAfresh<I>(setup: Setup<I>, limits: Limits, before: seq<Event>) {
    before != [] ==>
      var (front, last) := (before[..|before| - 1], before[|before| - 1]);
      last.Crash? && Enabled(Run(setup, limits, Start(setup), front), last)
  }

  /**
   * From the start or a crash on, and up to the next crash: the operations applied, with those the running commit
   * has yet to apply, are all that is logged if and only if no apply and no sync has failed.
   */
  lemma AppliedUnlessFailedExactly<I>(setup: Setup<I>, limits: Limits, before: seq<Event>, after: seq<Event>)
    requires StartsAfresh(setup, limits, before)
    requires forall ev :: ev in after ==> !ev.Crash?
    ensures var s := Run(setup, limits, Start(setup), before); var t := Run(setup, limits, s, after);
            t.applied + Unapplied(t) == OpsOf(t.log) <==> NothingGivenUp(setup, limits, s, after)
  {
    var s := Run(setup, limits, Start(setup), before);
    NothingMissing(setup, limits, before);
    ReachedState(setup, limits, before);
    MissingExactly(setup, limits, s, after);
    RunConcat(setup, limits, Start(setup), before, after);
    AppliedIsLogExactly(setup, limits, before + after);
  }

  lemma CrashForgetsMissing<I>(setup: Setup<I>, limits: Limits, s: System<I>, ev: Event)
    requires ev.Crash? && Enabled(s, ev)
    ensures Do(setup, limits, s, ev).missing == []
  {
  }

  lemma NothingMissing<I>(setup: Setup<I>, limits: Limits, before: seq<Event>)
    requires StartsAfresh(setup, limits, before)
    ensures Run(setup, limits, Start(setup), before).missing == []
  {
    if before != [] {
      var (front, last) := (before[..|before| - 1], before[|before| - 1]);
      RunLast(setup, limits, front, last);
      CrashForgetsMissing(setup, limits, Run(setup, limits, Start(setup), front), last);
      assert before == front + [last];
    }
  }

  lemma RunLast<I>(setup: Setup<I>, limits: Limits, front: seq<Event>, last: Event)
    ensures Run(setup, limits, Start(setup), front + [last])
         == Do(setup, limits, Run(setup, limits, Start(setup), front), last)
  {
    RunConcat(setup, limits, Start(setup), front, [last]);
    assert [last][1..] == [];
  }

  lemma MissingStep<I>(setup: Setup<I>, limits: Limits, s: System<I>, ev: Event)
    requires !ev.Crash?
    ensures s.missing <= Do(setup, limits, s, ev).missing
  {
  }

  lemma {:induction false} MissingStays<I>(setup: Setup<I>, limits: Limits, s: System<I>, evs: seq<Event>)
    requires forall ev :: ev in evs ==> !ev.Crash?
    ensures s.missing <= Run(setup, limits, s, evs).missing
    decreases |evs|
  {
    if evs != [] {
      MissingStep(setup, limits, s, evs[0]);
      MissingStays(setup, limits, Do(setup, limits, s, evs[0]), evs[1..]);
    }
  }

  /** From then on, and until a crash, the index lacks logged operations. */
  lemma FailureLeavesGap<I>(setup: Setup<I>, limits: Limits, before: seq<Event>, ev: Event, after: seq<Event>)
    requires GivesUp(setup, Run(setup, limits, Start(setup), before), ev)
    requires forall e :: e in after ==> !e.Crash?
    ensures var t := Run(setup, limits, Start(setup), before + [ev] + after);
            t.missing != [] && t.applied + Unapplied(t) != OpsOf(t.log)
  {
    var s := Run(setup, limits, Start(setup), before);
    ReachedState(setup, limits, before);
    RunConcat(setup, limits, Start(setup), before, [ev] + after);
    assert before + [ev] + after == before + ([ev] + after);
    assert ([ev] + after)[1..] == after;
    assert Do(setup, limits, s, ev).missing == s.missing + Unapplied(s) && Unapplied(s) != [];
    MissingStays(setup, limits, Do(setup, limits, s, ev), after);
    AppliedIsLogExactly(setup, limits, before + [ev] + after);
  }

  lemma {:induction false} LoggedOperation(log: seq<Record>, op: Operation)
    requires op in OpsOf(log)
    ensures exists r :: r in log && op in r.ops
  {
    var n := |log| - 1;
    if op !in log[n].ops {
      LoggedOperation(log[..n], op);
    }
  }

  /**
   * In every run, what reaches the index, completely or up to a failure, belongs to a logged transaction, and so
   * nothing of an aborted, expired or rejected one does.
   */
  lemma OnlyLoggedReachesIndex<I>(setup: Setup<I>, limits: Limits, evs: seq<Event>, op: Operation)
    requires var s := Run(setup, limits, Start(setup), evs); op in s.applied || op in s.missing
    ensures var s := Run(setup, limits, Start(setup), evs);
            exists r :: r in s.log && op in r.ops && r.id !in s.dead && r.id !in s.active
  {
    ReachedState(setup, limits, evs);
    var s := Run(setup, limits, Start(setup), evs);
    assert op in multiset(s.applied) || op in multiset(s.missing);
    assert op in multiset(OpsOf(s.log));
    LoggedOperation(s.log, op);
  }

  // The coordinator's commit is a run of these steps

  function Applications(n: nat): (evs: seq<Event>)
    ensures |evs| == n
  {
    if n == 0 then [] else [ApplyNext] + Applications(n - 1)
  }

  lemma {:induction false} RunConcat<I>(setup: Setup<I>, limits: Limits, s: System<I>, a: seq<Event>, b: seq<Event>)
    ensures Run(setup, limits, s, a + b) == Run(setup, limits, Run(setup, limits, s, a), b)
    decreases |a|
  {
    if a == [] {
      assert a + b == b;
    } else {
      assert (a + b)[1..] == a[1..] + b;
      RunConcat(setup, limits, Do(setup, limits, s, a[0]), a[1..], b);
    }
  }

  /** How many operations are tried: all of them, or those up to the first that fails. */
  function Tried<I>(setup: Setup<I>, index: I, ops: seq<Operation>): (n: nat)
    ensures n <= |ops|
    decreases |ops|
  {
    if ops == [] then 0
    else
      var (next, ok) := setup.apply(index, ops[0]);
      1 + if ok then Tried(setup, next, ops[1..]) else 0
  }

  lemma {:induction false} ApplicationsRun<I>(setup: Setup<I>, limits: Limits, s: System<I>)
    requires s.commit.Some? && s.commit.value.stage.Applying? && s.commit.value.stage.done <= |s.commit.value.ops|
    ensures var c := s.commit.value; var rest := c.ops[c.stage.done..];
            var t := Run(setup, limits, s, Applications(Tried(setup, s.index, rest)));
            && t.active == s.active && t.log == s.log && t.acked == s.acked
            && t.index == ApplyOps(setup, s.index, rest).0
            && t.commit == if ApplyOps(setup, s.index, rest).1 then Some(c.(stage := Applying(|c.ops|))) else None
    decreases |s.commit.value.ops| - s.commit.value.stage.done
  {
    var c := s.commit.value;
    var k := c.stage.done;
    if k < |c.ops| {
      var rest, u := c.ops[k..], Do(setup, limits, s, ApplyNext);
      assert rest[1..] == c.ops[k + 1..];
      assert Applications(Tried(setup, s.index, rest))[1..] == Applications(Tried(setup, s.index, rest) - 1);
      if u.commit.Some? {
        ApplicationsRun(setup, limits, u);
      }
    }
  }

  lemma RunThree<I>(setup: Setup<I>, limits: Limits, s: System<I>, a: Event, b: Event, c: Event)
    ensures Run(setup, limits, s, [a, b, c]) == Do(setup, limits, Do(setup, limits, Do(setup, limits, s, a), b), c)
  {
    assert [a, b, c][1..] == [b, c] && [b, c][1..] == [c] && [c][1..] == [];
    var s1 := Do(setup, limits, s, a);
    var s2 := Do(setup, limits, s1, b);
    assert Run(setup, limits, s2, [c]) == Run(setup, limits, Do(setup, limits, s2, c), []);
    assert Run(setup, limits, s1, [b, c]) == Run(setup, limits, s2, [c]);
  }

  lemma ApplyAndAcknowledge<I>(setup: Setup<I>, limits: Limits, s: System<I>)
    requires s.commit.Some? && s.commit.value.stage == Applying(0) && s.log != []
    ensures var ops := s.commit.value.ops; var (index, ok) := ApplyOps(setup, s.index, ops);
            var t := Run(setup, limits, s, Applications(Tried(setup, s.index, ops)) + [Acknowledge]);
            && t.active == s.active && t.log == s.log && t.commit.None? && t.index == index
            && t.acked == if ok then s.acked + [|s.log| - 1] else s.acked
  {
    var ops := s.commit.value.ops;
    var applications := Applications(Tried(setup, s.index, ops));
    assert ops[0..] == ops;
    ApplicationsRun(setup, limits, s);
    RunConcat(setup, limits, s, applications, [Acknowledge]);
    var u := Run(setup, limits, s, applications);
    assert [Acknowledge][1..] == [];
    assert Run(setup, limits, u, [Acknowledge]) == Do(setup, limits, u, Acknowledge);
  }

  /** The steps that a commit takes, as far as they can happen; the last ones are applications and acknowledgement. */
  function CommitSteps(id: TransactionId, disk: LogWrite): seq<Event> {
    match disk
    case Refused => [StartCommit(id), LogFull, Sync]
    case Unsynced => [StartCommit(id), AppendToLog, SyncFails]
    case Synced => [StartCommit(id), AppendToLog, Sync]
  }

  /** The first two of them log the transaction, or end it. */
  lemma CommitUpToLog<I>(setup: Setup<I>, limits: Limits, s: System<I>, id: TransactionId, disk: LogWrite,
                         logs: bool, t: System<I>)
    requires s.commit.None? && id in s.active
    requires logs == (ValidateAll(s.active[id].ops, setup.config(s.index)).Ok? && s.active[id].ops != []
                      && !disk.Refused?)
    requires t == Do(setup, limits, Do(setup, limits, s, StartCommit(id)), CommitSteps(id, disk)[1])
    ensures t.active == s.active - {id} && t.index == s.index && t.acked == s.acked
    ensures t.log == (if logs then s.log + [Record(id, s.active[id].ops)] else s.log)
    ensures t.commit == if logs then Some(Commit(id, s.active[id].ops, Logged)) else None
  {
  }

  /** The first three of them: the transaction is over, or about to be applied. */
  lemma CommitUpToSync<I>(setup: Setup<I>, limits: Limits, s: System<I>, id: TransactionId, disk: LogWrite,
                          logs: bool)
    requires s.commit.None? && id in s.active
    requires logs == (ValidateAll(s.active[id].ops, setup.config(s.index)).Ok? && s.active[id].ops != []
                      && !disk.Refused?)
    ensures var ops := s.active[id].ops; var t := Run(setup, limits, s, CommitSteps(id, disk));
            && t.active == s.active - {id} && t.index == s.index && t.acked == s.acked
            && t.log == (if logs then s.log + [Record(id, ops)] else s.log)
            && t.commit == if logs && disk.Synced? then Some(Commit(id, ops, Applying(0))) else None
  {
    var steps := CommitSteps(id, disk);
    var t := Do(setup, limits, Do(setup, limits, s, StartCommit(id)), steps[1]);
    RunThree(setup, limits, s, steps[0], steps[1], steps[2]);
    assert steps == [steps[0], steps[1], steps[2]];
    CommitUpToLog(setup, limits, s, id, disk, logs, t);
  }

  lemma NothingToApply<I>(setup: Setup<I>, limits: Limits, s: System<I>, n: nat)
    requires s.commit.None?
    ensures Run(setup, limits, s, Applications(n) + [Acknowledge]) == s
  {
    if n == 0 {
      assert [] + [Acknowledge] == [Acknowledge] && [Acknowledge][1..] == [];
      assert Run(setup, limits, s, [Acknowledge]) == Do(setup, limits, s, Acknowledge);
    } else {
      assert (Applications(n) + [Acknowledge])[1..] == Applications(n - 1) + [Acknowledge];
      NothingToApply(setup, limits, s, n - 1);
    }
  }

  /**
   * `commit_transaction`, whether it fails or not, is a run of steps: start, log, sync, apply the operations up to
   * the first that fails, acknowledge. It reports success exactly if it is acknowledged.
   */
  lemma CommitIsARun<I>(setup: Setup<I>, limits: Limits, s: System<I>, id: TransactionId, disk: LogWrite)
    requires s.commit.None? && id in s.active
    ensures var (books, result) := Transactions.Commit(setup, Books(s.active, s.log, s.index), id, disk);
            var tried := Tried(setup, s.index, s.active[id].ops);
            var t := Run(setup, limits, s, CommitSteps(id, disk) + (Applications(tried) + [Acknowledge]));
            && Books(t.active, t.log, t.index) == books && t.commit.None?
            && t.acked == if result.Ok? then s.acked + [|s.log|] else s.acked
  {
    var tried := Tried(setup, s.index, s.active[id].ops);
    var logs := ValidateAll(s.active[id].ops, setup.config(s.index)).Ok? && s.active[id].ops != [] && !disk.Refused?;
    CommitUpToSync(setup, limits, s, id, disk, logs);
    RunConcat(setup, limits, s, CommitSteps(id, disk), Applications(tried) + [Acknowledge]);
    var t := Run(setup, limits, s, CommitSteps(id, disk));
    if t.commit.Some? {
      ApplyAndAcknowledge(setup, limits, t);
    } else {
      NothingToApply(setup, limits, t, tried);
    }
  }
}
