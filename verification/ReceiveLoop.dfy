/** The connector's receive loop with its surroundings: users issuing and sending requests, the connection failing and
    coming back, and the connector being destroyed. Everything runs on one strand, so a run is a sequence of steps. */
module ReceiveLoop {
  import opened Requests

  /** Where the loop is: about to test the state, waiting for a connection or a message, left, or ended by an
      exception. */
  datatype Phase = AtTop | AwaitConnect | AwaitMessage | Exited | Crashed

  datatype Machine = Machine(
    table: Table,
    phase: Phase,
    stopPosted: bool,      // the destructor has run and its step on the strand has not
    credentials: bool,
    schemaVersion: nat)

  datatype Event =
    | Issue(cb: Callback)                           // generate_id, from any thread
    | Sends(id: nat)                                // the body of send_request, on the strand
    | Drop                                          // the last reference to the connector goes
    | StopRuns                                      // the destructor's step on the strand
    | Top(order: seq<nat>)                          // the test at the head of the loop
    | Connects(ok: bool, dropped: bool)             // connect completes; `dropped` while the loop holds a reference
    | Receives(sync: nat, schemaVersion: nat)       // receive_message completes with a message
    | ReadFails(order: seq<nat>)                    // receive_message completes with an error
    | Throws(canceled: bool, order: seq<nat>)       // an awaited operation throws a system error

  function Start(credentials: bool): Machine
  {
    Machine(FRESH, AtTop, false, credentials, 0)
  }

  ghost predicate Enabled(m: Machine, e: Event)
  {
    match e
    case Issue(_) => m.table.alive
    case Sends(id) => m.table.alive && id in m.table.unsent && id in m.table.issued
    case Drop => m.table.alive
    case StopRuns => m.stopPosted
    case Top(order) => m.phase == AtTop && Enumerates(order, m.table.pending.Keys)
    case Connects(_, dropped) => m.phase == AwaitConnect && (dropped ==> m.table.alive)
    case Receives(_, _) => m.phase == AwaitMessage
    case ReadFails(order) => m.phase == AwaitMessage && Enumerates(order, m.table.pending.Keys)
    case Throws(_, order) =>
      (m.phase == AwaitConnect || m.phase == AwaitMessage) && Enumerates(order, m.table.pending.Keys)
  }

  /** A reset inside the loop's try block. If it throws, the handler for unexpected exceptions resets once more, and an
      exception from that ends the loop. */
  function TryReset(g: Guard, m: Machine, order: seq<nat>, next: Phase): (m': Machine)
    ensures m'.table.nextId >= m.table.nextId && m'.table.refused >= m.table.refused
    ensures m.table.log <= m'.table.log && m.table.handed <= m'.table.handed
    ensures m'.table.link == if m.table.link == Stopped then Stopped else Connecting
    ensures m'.table.alive == m.table.alive && m'.stopPosted == m.stopPosted && m'.credentials == m.credentials
  {
    match Reset(g, m.table, order)
    case Finished(t) => m.(table := t, phase := next)
    case Threw(t) =>
      match Reset(g, t, order)
      case Finished(t') => m.(table := t', phase := AtTop)
      case Threw(t') => m.(table := t', phase := Crashed)
  }

  /** The destructor run by the loop itself when it gives up the last reference: its step runs at once. */
  function Released(m: Machine, dropped: bool): (m': Machine)
  {
    if dropped then m.(table := m.table.(alive := false, link := Stopped)) else m
  }

  /** Re-authentication after a reconnect is an ordinary request, sent before the link counts as connected; its handler
      issues nothing. */
  function Step(g: Guard, m: Machine, e: Event): (m': Machine)
  {
    match e
    case Issue(cb) =>
      m.(table := GenerateId(m.table, cb).(unsent := m.table.unsent + {m.table.nextId % ID_LIMIT}))
    case Sends(id) => if id in m.table.issued then m.(table := Dispatch(g, m.table, id)) else m
    case Drop => m.(table := m.table.(alive := false), stopPosted := true)
    case StopRuns => m.(table := m.table.(link := Stopped), stopPosted := false)
    case Top(order) =>
      if m.table.link == Stopped then TryReset(g, m, order, Exited)
      else m.(phase := if m.table.link == Connected then AwaitMessage else AwaitConnect)
    case Connects(ok, dropped) =>
      if !ok then m.(phase := AtTop)
      else if !m.table.alive then m.(phase := Exited)
      else if m.credentials then Released(m.(table := Request(g, m.table, QUIET), phase := AtTop), dropped)
      else Released(m.(table := m.table.(link := Connected), phase := AwaitMessage), dropped)
    case Receives(sync, schemaVersion) =>
      m.(table := Deliver(g, m.table, sync), phase := AtTop, schemaVersion := schemaVersion)
    case ReadFails(order) => TryReset(g, m, order, AtTop)
    case Throws(canceled, order) =>
      match Reset(g, m.table, order)
      case Finished(t) => m.(table := t, phase := if canceled then Exited else AtTop)
      case Threw(t) => m.(table := t, phase := Crashed)
  }

  function Run(g: Guard, m: Machine, es: seq<Event>): (m': Machine)
    decreases |es|
  {
    if es == [] then m else Run(g, Step(g, m, es[0]), es[1..])
  }

  ghost predicate EnabledAll(g: Guard, m: Machine, es: seq<Event>)
    decreases |es|
  {
    es == [] || (Enabled(m, es[0]) && EnabledAll(g, Step(g, m, es[0]), es[1..]))
  }

  lemma RunCons(g: Guard, m: Machine, e: Event, es: seq<Event>)
    ensures Run(g, m, [e] + es) == Run(g, Step(g, m, e), es)
    ensures EnabledAll(g, m, [e] + es) <==> Enabled(m, e) && EnabledAll(g, Step(g, m, e), es)
  {
    hide Step, Enabled;
    assert ([e] + es)[0] == e && ([e] + es)[1..] == es;
  }

  // ---------------------------------------------------------------- what every step keeps

  /** All requests are accounted for. Nothing is pending while the link is down, on the way up, or once the loop is
      left, which happens only with the link down. A stopped link means a destroyed connector, and the loop never
      dies. */
  ghost predicate Inv(m: Machine)
  {
    && Settled(m.table)
    && (m.table.link == Connecting ==> m.table.pending == map[])
    && (m.phase == AwaitConnect || m.phase == Exited ==> m.table.link != Connected && m.table.pending == map[])
    && (m.phase == AwaitMessage ==> m.table.link != Connecting)
    && (m.table.link == Stopped || m.stopPosted ==> !m.table.alive)
    && m.phase != Crashed
  }

  lemma StartInv(credentials: bool)
    ensures Inv(Start(credentials))
  {
    assert Completed([]) == {};
  }

  lemma StepMonotone(g: Guard, m: Machine, e: Event)
    ensures Step(g, m, e).table.nextId >= m.table.nextId
    ensures Step(g, m, e).table.refused >= m.table.refused
  {
    hide Step;
    StepIssues(g, m, e);
    StepRefuses(g, m, e);
  }

  lemma StepIssues(g: Guard, m: Machine, e: Event)
    ensures Step(g, m, e).table.nextId >= m.table.nextId
  {
    hide Request, Deliver, Reset, Dispatch, TryReset;
  }

  lemma StepRefuses(g: Guard, m: Machine, e: Event)
    ensures Step(g, m, e).table.refused >= m.table.refused
  {
    hide Request, Deliver, Reset, Dispatch, TryReset;
  }

  lemma StepRecords(g: Guard, m: Machine, e: Event)
    ensures m.table.log <= Step(g, m, e).table.log && m.table.handed <= Step(g, m, e).table.handed
  {
    hide Step;
    StepLogs(g, m, e);
    StepHands(g, m, e);
  }

  lemma StepLogs(g: Guard, m: Machine, e: Event)
    ensures m.table.log <= Step(g, m, e).table.log
  {
    hide Request, Deliver, Reset, Dispatch, TryReset;
  }

  lemma StepHands(g: Guard, m: Machine, e: Event)
    ensures m.table.handed <= Step(g, m, e).table.handed
  {
    hide Request, Deliver, Reset, Dispatch, TryReset;
  }

  lemma {:induction false} RunMonotone(g: Guard, m: Machine, es: seq<Event>)
    ensures Run(g, m, es).table.nextId >= m.table.nextId
    ensures Run(g, m, es).table.refused >= m.table.refused
    decreases |es|
  {
    hide Step;
    if es != [] {
      StepMonotone(g, m, es[0]);
      RunMonotone(g, Step(g, m, es[0]), es[1..]);
    }
  }

  lemma IssueKeeps(t: Table, cb: Callback)
    requires Settled(t) && t.nextId < ID_LIMIT
    ensures Settled(GenerateId(t, cb).(unsent := t.unsent + {t.nextId % ID_LIMIT}))
  {
    hide Completed;
    GenerateKeeps(t, cb, {});
    var t1 := GenerateId(t, cb);
    var t2 := t1.(unsent := t.unsent + {t.nextId});
    assert forall x :: Waiting(t2, x) == Waiting(t1, x);
  }

  lemma FieldsKeep(t: Table, link: Link, alive: bool)
    ensures Settled(t.(link := link, alive := alive)) <==> Settled(t)
  {
    hide Completed;
    assert forall x :: Waiting(t.(link := link, alive := alive), x) == Waiting(t, x);
  }

  /** With the guard exclusive every step keeps the invariant, as long as ids do not run out. */
  lemma StepKeeps(m: Machine, e: Event)
    requires Inv(m) && Enabled(m, e) && Step(Exclusive, m, e).table.nextId <= ID_LIMIT
    ensures Inv(Step(Exclusive, m, e))
  {
    hide Settled, Dispatch, Deliver, Reset, Request;
    var t := m.table;
    match e
    case Issue(cb) => IssueKeeps(t, cb);
    case Sends(id) => DispatchStep(m, id);
    case Drop => FieldsKeep(t, t.link, false);
    case StopRuns => FieldsKeep(t, Stopped, t.alive);
    case Top(order) =>
      if t.link == Stopped {
        ResetKeeps(t, order);
      }
    case Connects(ok, dropped) => ConnectsStep(m, ok, dropped);
    case Receives(sync, _) => DeliverKeeps(t, sync);
    case ReadFails(order) => ResetKeeps(t, order);
    case Throws(_, order) => ResetKeeps(t, order);
  }

  lemma DispatchStep(m: Machine, id: nat)
    requires Inv(m) && Enabled(m, Sends(id)) && Step(Exclusive, m, Sends(id)).table.nextId <= ID_LIMIT
    ensures Inv(Step(Exclusive, m, Sends(id)))
  {
    hide Settled, Send;
    DispatchKeeps(m.table, id);
  }

  lemma ConnectsStep(m: Machine, ok: bool, dropped: bool)
    requires Inv(m) && Enabled(m, Connects(ok, dropped))
    requires Step(Exclusive, m, Connects(ok, dropped)).table.nextId <= ID_LIMIT
    ensures Inv(Step(Exclusive, m, Connects(ok, dropped)))
  {
    hide Accounted, Request;
    var t := m.table;
    if ok && t.alive {
      if m.credentials {
        RequestKeeps(t, QUIET, {});
        FieldsKeep(Request(Exclusive, t, QUIET), Stopped, false);
      } else {
        FieldsKeep(t, Connected, true);
        FieldsKeep(t, Stopped, false);
      }
    }
  }

  /** Over every run, with the guard exclusive and fewer than 2^64 ids. */
  lemma {:induction false} RunKeeps(m: Machine, es: seq<Event>)
    requires Inv(m) && EnabledAll(Exclusive, m, es) && Run(Exclusive, m, es).table.nextId <= ID_LIMIT
    ensures Inv(Run(Exclusive, m, es))
    decreases |es|
  {
    hide Inv, Step, Enabled;
    if es != [] {
      RunMonotone(Exclusive, Step(Exclusive, m, es[0]), es[1..]);
      StepKeeps(m, es[0]);
      RunKeeps(Step(Exclusive, m, es[0]), es[1..]);
    }
  }

  /** From the start, whatever happens: each request is unsent, pending or completed exactly once, and when the loop is
      left none is pending and the link is down, so that none will be accepted either. */
  lemma EveryRun(credentials: bool, es: seq<Event>)
    requires EnabledAll(Exclusive, Start(credentials), es)
    requires Run(Exclusive, Start(credentials), es).table.nextId <= 0x1_0000_0000_0000_0000
    ensures var m := Run(Exclusive, Start(credentials), es);
            && Settled(m.table)
            && (m.phase == Exited ==> m.table.pending == map[] && m.table.link != Connected)
            && m.phase != Crashed
  {
    hide Settled;
    StartInv(credentials);
    RunKeeps(Start(credentials), es);
  }

  // ---------------------------------------------------------------- stopping

  /** Holds of every state, with either guard: only a destroyed connector is stopped. */
  ghost predicate StopInv(m: Machine)
  {
    m.table.link == Stopped || m.stopPosted ==> !m.table.alive
  }

  lemma StepKeepsStopInv(g: Guard, m: Machine, e: Event)
    requires StopInv(m) && Enabled(m, e)
    ensures StopInv(Step(g, m, e))
    ensures m.table.link == Stopped ==> Step(g, m, e).table.link == Stopped
  {
    hide Request, Deliver, Reset, Dispatch, TryReset;
  }

  /** Stopped is absorbing: no run of the code, as shipped or as meant, leaves it. */
  lemma {:induction false} StoppedForGood(g: Guard, m: Machine, es: seq<Event>)
    requires StopInv(m) && EnabledAll(g, m, es)
    ensures StopInv(Run(g, m, es))
    ensures m.table.link == Stopped ==> Run(g, m, es).table.link == Stopped
    decreases |es|
  {
    hide Step, Enabled, StopInv;
    if es != [] {
      StepKeepsStopInv(g, m, es[0]);
      StoppedForGood(g, Step(g, m, es[0]), es[1..]);
    }
  }

  predicate IsLoopStep(e: Event) {
    e.Top? || e.Connects? || e.Receives? || e.ReadFails? || e.Throws?
  }

  /** How many steps a stopped loop can still take. */
  function Rank(phase: Phase): (n: nat)
  {
    match phase
    case AwaitConnect => 2
    case AwaitMessage => 2
    case AtTop => 1
    case Exited => 0
    case Crashed => 0
  }

  function LoopSteps(es: seq<Event>): (n: nat)
  {
    if es == [] then 0 else (if IsLoopStep(es[0]) then 1 else 0) + LoopSteps(es[1..])
  }

  /** Needs neither the guard nor the invariant: a stopped connector is gone, so nothing is issued any more and a reset
      that threw throws again. */
  lemma StoppedStepDescends(g: Guard, m: Machine, e: Event)
    requires StopInv(m) && Enabled(m, e) && m.table.link == Stopped
    ensures Rank(Step(g, m, e).phase) + (if IsLoopStep(e) then 1 else 0) <= Rank(m.phase)
    ensures Step(g, m, e).table.nextId == m.table.nextId
  {
    hide Dispatch, Deliver, Reset, Request;
    match e
    case Receives(sync, _) => DeliverDead(g, m.table, sync);
    case Top(order) => ResetDead(g, m.table, order);
    case ReadFails(order) => ResetDead(g, m.table, order);
    case Throws(_, order) => ResetDead(g, m.table, order);
    case _ =>
  }

  /** Once stopped, the loop takes at most two more steps in any run of the code, as shipped or as meant, and then it
      has ended. From a state that satisfies the invariant, with the guard exclusive, it has been left properly. */
  lemma {:induction false} StoppedLoopEnds(g: Guard, m: Machine, es: seq<Event>)
    requires StopInv(m) && EnabledAll(g, m, es) && m.table.link == Stopped
    ensures LoopSteps(es) + Rank(Run(g, m, es).phase) <= Rank(m.phase) <= 2
    ensures LoopSteps(es) == 2 ==> Run(g, m, es).phase == Exited || Run(g, m, es).phase == Crashed
    ensures Run(g, m, es).table.nextId == m.table.nextId
    ensures g == Exclusive && Inv(m) && m.table.nextId <= ID_LIMIT ==> Run(g, m, es).phase != Crashed
    decreases |es|
  {
    hide Inv, StopInv, Step, Enabled, IsLoopStep;
    if es != [] {
      StepKeepsStopInv(g, m, es[0]);
      StoppedStepDescends(g, m, es[0]);
      StoppedLoopEnds(g, Step(g, m, es[0]), es[1..]);
    }
    if g == Exclusive && Inv(m) && m.table.nextId <= ID_LIMIT {
      RunKeeps(m, es);
      InvStops(Run(g, m, es));
    }
  }

  lemma InvStops(m: Machine)
    requires Inv(m)
    ensures StopInv(m) && m.phase != Crashed
  {
  }

  // ---------------------------------------------------------------- leaving the loop

  /** A step leaves the loop only for a destroyed connector or a cancelled operation, and destruction is final. */
  lemma StepExits(g: Guard, m: Machine, e: Event)
    requires StopInv(m) && Enabled(m, e)
    ensures !m.table.alive ==> !Step(g, m, e).table.alive
    ensures Step(g, m, e).phase == Exited ==>
              m.phase == Exited || !Step(g, m, e).table.alive || (e.Throws? && e.canceled)
  {
    hide Request, Deliver, Reset, Dispatch;
  }

  /** Over every run, as shipped and as meant: the loop is left only when the connector is gone, or when an awaited
      operation was cancelled. */
  lemma {:induction false} ExitCause(g: Guard, m: Machine, es: seq<Event>)
    requires StopInv(m) && EnabledAll(g, m, es)
    ensures !m.table.alive ==> !Run(g, m, es).table.alive
    ensures Run(g, m, es).phase == Exited ==>
              || m.phase == Exited || !Run(g, m, es).table.alive
              || exists e :: e in es && e.Throws? && e.canceled
    decreases |es|
  {
    hide Step, Enabled, StopInv;
    if es != [] {
      var m1 := Step(g, m, es[0]);
      StepKeepsStopInv(g, m, es[0]);
      StepExits(g, m, es[0]);
      ExitCause(g, m1, es[1..]);
      assert es[0] in es && forall e :: e in es[1..] ==> e in es;
    }
  }

  lemma ExitsFromStart(g: Guard, credentials: bool, es: seq<Event>)
    requires EnabledAll(g, Start(credentials), es)
    ensures Run(g, Start(credentials), es).phase == Exited ==>
              !Run(g, Start(credentials), es).table.alive || exists e :: e in es && e.Throws? && e.canceled
  {
    ExitCause(g, Start(credentials), es);
  }

  /** Destroying the connector always leads to stopping it: it is stopped, or about to be. */
  lemma StepStops(g: Guard, m: Machine, e: Event)
    requires Enabled(m, e) && (!m.table.alive <==> m.table.link == Stopped || m.stopPosted)
    ensures var m' := Step(g, m, e); !m'.table.alive <==> m'.table.link == Stopped || m'.stopPosted
  {
    hide Request, Deliver, Reset, Dispatch, TryReset;
  }

  lemma {:induction false} GoneIffStopping(g: Guard, m: Machine, es: seq<Event>)
    requires EnabledAll(g, m, es) && (!m.table.alive <==> m.table.link == Stopped || m.stopPosted)
    ensures var m' := Run(g, m, es); !m'.table.alive <==> m'.table.link == Stopped || m'.stopPosted
    decreases |es|
  {
    hide Step, Enabled;
    if es != [] {
      StepStops(g, m, es[0]);
      GoneIffStopping(g, Step(g, m, es[0]), es[1..]);
    }
  }

  /** The shutdown in full: dropped, stopped, and at the next turn of the loop everything pending is cancelled and the
      loop left. */
  lemma ShutsDown(m: Machine, order: seq<nat>)
    requires Inv(m) && m.table.alive && m.phase == AtTop && Enumerates(order, m.table.pending.Keys)
    requires m.table.nextId <= ID_LIMIT
    ensures var es := [Drop] + ([StopRuns] + ([Top(order)] + []));
            && EnabledAll(Exclusive, m, es)
            && var m' := Run(Exclusive, m, es);
            && m'.phase == Exited && m'.table.link == Stopped && m'.table.pending == map[]
            && forall id :: id in m.table.pending ==> Completion(id, Canceled) in m'.table.log
  {
    hide Settled, Reset, Dispatch, Deliver, Request;
    var m1 := Step(Exclusive, m, Drop);
    var m2 := Step(Exclusive, m1, StopRuns);
    FieldsKeep(m.table, Stopped, false);
    ResetDead(Exclusive, m2.table, order);
    ResetKeeps(m2.table, order);
    RunCons(Exclusive, m2, Top(order), []);
    RunCons(Exclusive, m1, StopRuns, [Top(order)] + []);
    RunCons(Exclusive, m, Drop, [StopRuns] + ([Top(order)] + []));
  }

  // ---------------------------------------------------------------- the schema version

  function LastVersion(es: seq<Event>, before: nat): (v: nat)
  {
    if es == [] then before
    else LastVersion(es[1..], if es[0].Receives? then es[0].schemaVersion else before)
  }

  /** It is that of the last message received. */
  lemma {:induction false} SchemaVersionIs(g: Guard, m: Machine, es: seq<Event>)
    ensures Run(g, m, es).schemaVersion == LastVersion(es, m.schemaVersion)
    decreases |es|
  {
    hide Request, Deliver, Reset, Dispatch;
    if es != [] {
      SchemaVersionIs(g, Step(g, m, es[0]), es[1..]);
    }
  }

  // ---------------------------------------------------------------- reconnecting

  /** A completed connect brings the link up exactly without credentials: with them, the authentication request is
      refused because the link is not up yet. */
  lemma ReconnectIff(g: Guard, m: Machine)
    requires m.phase == AwaitConnect && m.table.alive && m.table.link == Connecting
    ensures Step(g, m, Connects(true, false)).table.link == Connected <==> !m.credentials
  {
    hide Request;
  }

  /** Where a completed connect leads: out of the loop exactly if it succeeded for a destroyed connector, to the next
      message exactly if it succeeded without credentials, and back to the head of the loop otherwise. */
  lemma ConnectsIff(g: Guard, m: Machine, ok: bool, dropped: bool)
    requires Enabled(m, Connects(ok, dropped))
    ensures var m' := Step(g, m, Connects(ok, dropped));
            && (m'.phase == Exited <==> ok && !m.table.alive)
            && (m'.phase == AwaitMessage <==> ok && m.table.alive && !m.credentials)
            && (m'.phase == AtTop <==> !ok || (m.table.alive && m.credentials))
            && (ok && m.table.alive && dropped ==> !m'.table.alive && m'.table.link == Stopped)
            && (!ok || !m.table.alive ==> m'.table == m.table)
  {
    hide Request;
  }

  /** So with credentials a lost connection stays lost, in every run and with either guard. */
  lemma {:induction false} LostWithCredentials(g: Guard, m: Machine, es: seq<Event>)
    requires m.credentials && m.table.link != Connected && EnabledAll(g, m, es)
    ensures Run(g, m, es).table.link != Connected
    decreases |es|
  {
    hide Request, Deliver, Reset, Dispatch, TryReset;
    if es != [] {
      LostWithCredentials(g, Step(g, m, es[0]), es[1..]);
    }
  }

  /** `n` attempts that fail, each followed by the test at the head of the loop. */
  function Failures(n: nat, order: seq<nat>): (es: seq<Event>)
  {
    if n == 0 then [] else [Connects(false, false), Top(order)] + Failures(n - 1, order)
  }

  /** A live connector without credentials tries again until it succeeds, as shipped and as meant: after any number of
      failed attempts one that succeeds brings the link up, and nothing else has changed. */
  lemma {:induction false} TriesAgain(g: Guard, m: Machine, n: nat, order: seq<nat>)
    requires m.phase == AwaitConnect && m.table.alive && m.table.link == Connecting && !m.credentials
    requires Enumerates(order, m.table.pending.Keys)
    ensures var es := Failures(n, order) + [Connects(true, false)];
            && EnabledAll(g, m, es)
            && Run(g, m, es) == m.(table := m.table.(link := Connected), phase := AwaitMessage)
  {
    hide Request, Reset, Enumerates;
    var last := [Connects(true, false)];
    if n == 0 {
      assert [] + last == last && last[1..] == [];
    } else {
      var rest := Failures(n - 1, order) + last;
      var es := Failures(n, order) + last;
      assert es == [Connects(false, false)] + ([Top(order)] + rest);
      var m1 := Step(g, m, Connects(false, false));
      RunCons(g, m, Connects(false, false), [Top(order)] + rest);
      RunCons(g, m1, Top(order), rest);
      TriesAgain(g, m, n - 1, order);
    }
  }

  /** Losing the connection and getting it back: every request pending is told of a broken pipe, and after any number of
      failed attempts the connector is connected again, with an empty table. */
  lemma Recovers(m: Machine, order: seq<nat>, n: nat)
    requires Inv(m) && m.phase == AwaitMessage && m.table.alive && m.table.link == Connected && !m.credentials
    requires Enumerates(order, m.table.pending.Keys)
    requires Step(Exclusive, m, ReadFails(order)).table.nextId <= ID_LIMIT
    ensures var es := [ReadFails(order)] + ([Top([])] + (Failures(n, []) + [Connects(true, false)]));
            && EnabledAll(Exclusive, m, es)
            && var m' := Run(Exclusive, m, es);
            && m'.table.link == Connected && m'.phase == AwaitMessage && m'.table.pending == map[]
            && forall id :: id in m.table.pending ==> Completion(id, BrokenPipe) in m'.table.log
  {
    hide Settled, Reset, Dispatch, Deliver, Request;
    var m1 := Step(Exclusive, m, ReadFails(order));
    ResetKeeps(m.table, order);
    var m2 := Step(Exclusive, m1, Top([]));
    var rest := Failures(n, []) + [Connects(true, false)];
    TriesAgain(Exclusive, m2, n, []);
    RunCons(Exclusive, m1, Top([]), rest);
    RunCons(Exclusive, m, ReadFails(order), [Top([])] + rest);
  }

  /** A cancelled operation ends the loop, any other failure of one does not. */
  lemma ThrowIff(m: Machine, canceled: bool, order: seq<nat>)
    requires Inv(m) && Enabled(m, Throws(canceled, order))
    requires Step(Exclusive, m, Throws(canceled, order)).table.nextId <= ID_LIMIT
    ensures var m' := Step(Exclusive, m, Throws(canceled, order));
            (m'.phase == Exited <==> canceled) && (m'.phase == AtTop <==> !canceled)
  {
    hide Settled, Reset;
    ResetKeeps(m.table, order);
  }
}
