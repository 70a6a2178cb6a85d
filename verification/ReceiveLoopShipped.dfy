/** The receive loop with the not-connected branch falling through, as the code has it: exactly when it keeps the
    invariant of the intended one, and what happens to the requests when it does not. */
module ReceiveLoopShipped {
  import opened Requests
  import opened RequestsShipped
  import opened ReceiveLoop

  // ---------------------------------------------------------------- agreement and disagreement

  /** The invariant holds in every state of the run. */
  ghost predicate Always(g: Guard, m: Machine, es: seq<Event>)
    decreases |es|
  {
    Inv(m) && (es == [] || Always(g, Step(g, m, es[0]), es[1..]))
  }

  lemma StepAgrees(m: Machine, e: Event)
    requires Enabled(m, e) && Step(FallsThrough, m, e).table.refused == m.table.refused
    ensures Step(FallsThrough, m, e) == Step(Exclusive, m, e)
  {
    hide Request, Deliver, Reset, Send;
    var t := m.table;
    match e
    case Sends(id) => SendAgrees(t.(unsent := t.unsent - {id}), id, t.issued[id]);
    case Top(order) => if t.link == Stopped { TryResetAgrees(m, order, Exited); }
    case Connects(ok, dropped) => if ok && t.alive && m.credentials { RequestAgrees(t, QUIET); }
    case Receives(sync, _) => DeliverAgrees(t, sync);
    case ReadFails(order) => TryResetAgrees(m, order, AtTop);
    case Throws(_, order) => ResetAgrees(t, order);
    case _ =>
  }

  lemma TryResetAgrees(m: Machine, order: seq<nat>, next: Phase)
    requires TryReset(FallsThrough, m, order, next).table.refused == m.table.refused
    ensures TryReset(FallsThrough, m, order, next) == TryReset(Exclusive, m, order, next)
  {
    hide Reset;
    var r := Reset(FallsThrough, m.table, order);
    ResetAgrees(m.table, order);
    if r.Threw? {
      ResetAgrees(r.table, order);
    }
  }

  /** A step that takes the branch breaks the invariant. */
  lemma StepBreaks(m: Machine, e: Event)
    requires Inv(m) && Enabled(m, e) && Step(FallsThrough, m, e).table.refused > m.table.refused
    requires Step(FallsThrough, m, e).table.nextId <= ID_LIMIT
    ensures !Inv(Step(FallsThrough, m, e))
  {
    hide Request, Deliver, Reset, Dispatch, TryReset, Settled;
    var t := m.table;
    match e
    case Sends(id) => DispatchTaints(t, id);
    case Top(order) => TryResetBreaks(m, order, Exited);
    case Connects(_, dropped) =>
      RequestTaints(t, QUIET);
      FieldsKeep(Request(FallsThrough, t, QUIET), Stopped, false);
    case Receives(sync, _) => DeliverNotRefused(m, sync);
    case ReadFails(order) => TryResetBreaks(m, order, AtTop);
    case Throws(_, order) => ResetBreaks(t, order);
  }

  /** Handlers called with a reply find the link up, or the connector gone. */
  lemma DeliverNotRefused(m: Machine, sync: nat)
    requires Inv(m) && m.phase == AwaitMessage
    ensures Deliver(FallsThrough, m.table, sync).refused == m.table.refused
  {
    hide RequestAll;
    var t := m.table;
    if sync in t.pending && t.pending[sync].Live? && t.alive {
      RequestAllConnected(t.(pending := t.pending - {sync}, log := t.log + [Completion(sync, Reply(sync))]),
                          t.pending[sync].cb.onReply);
    }
  }

  lemma SendConnected(t: Table, id: nat, cb: Callback)
    requires t.link == Connected
    ensures Send(FallsThrough, t, id, cb) == Register(t, id, Live(cb))
  {
  }

  lemma {:induction false} RequestAllConnected(t: Table, cbs: seq<Callback>)
    requires t.link == Connected
    ensures RequestAll(FallsThrough, t, cbs).refused == t.refused
    decreases |cbs|
  {
    if cbs != [] {
      var t1 := Request(FallsThrough, t, cbs[0]);
      SendConnected(GenerateId(t, cbs[0]), t.nextId % ID_LIMIT, cbs[0]);
      RequestAllConnected(t1, cbs[1..]);
    }
  }

  /** A refused send during a reset disturbs the walk. */
  lemma ResetBreaks(t: Table, order: seq<nat>)
    requires Settled(t) && Enumerates(order, t.pending.Keys)
    requires Reset(FallsThrough, t, order).table.refused > t.refused
    requires Reset(FallsThrough, t, order).table.nextId <= ID_LIMIT
    ensures !Settled(Reset(FallsThrough, t, order).table)
  {
    hide Visit;
    SettledBelow(t);
    VisitRefusedDisturbs(Leaving(t), order, ResetOutcome(t));
    assert Reset(FallsThrough, t, order).table.disturbed;
  }

  lemma {:induction false} VisitRefusedDisturbs(t: Table, order: seq<nat>, outcome: Outcome)
    requires Below(t) && t.iterating && Visit(FallsThrough, t, order, outcome).table.refused > t.refused
    requires Visit(FallsThrough, t, order, outcome).table.nextId <= ID_LIMIT
    ensures Visit(FallsThrough, t, order, outcome).table.disturbed
    decreases |order|
  {
    hide Complete;
    var id := order[0];
    var t1 := t.(pending := t.pending[id := Spent]);
    var t2 := Complete(FallsThrough, t1, id, t.pending[id].cb, outcome);
    CompleteGrows(t1, id, t.pending[id].cb, outcome);
    if t2.refused > t.refused {
      VisitDisturbedStays(t2, order[1..], outcome);
    } else {
      VisitRefusedDisturbs(t2, order[1..], outcome);
    }
  }

  lemma TryResetBreaks(m: Machine, order: seq<nat>, next: Phase)
    requires Inv(m) && Enumerates(order, m.table.pending.Keys)
    requires TryReset(FallsThrough, m, order, next).table.refused > m.table.refused
    requires TryReset(FallsThrough, m, order, next).table.nextId <= ID_LIMIT
    ensures !Inv(TryReset(FallsThrough, m, order, next))
  {
    hide Reset;
    var t := m.table;
    SettledBelow(t);
    var r := Reset(FallsThrough, t, order);
    if r.Threw? {
      ResetThrowsAgain(t, order);
    } else {
      ResetBreaks(t, order);
    }
  }

  // ---------------------------------------------------------------- when the branch is taken

  lemma {:induction false} VisitRefusedIff(t: Table, order: seq<nat>, outcome: Outcome)
    requires t.link != Connected && !outcome.Reply?
    requires forall id :: id in order ==> id in t.pending && t.pending[id].Live?
    requires forall i, j :: 0 <= i < j < |order| ==> order[i] != order[j]
    ensures Visit(FallsThrough, t, order, outcome).table.refused == t.refused
            <==> forall id :: id in order ==> Harmless(t, id)
    decreases |order|
  {
    if order != [] {
      var id := order[0];
      assert id in order;
      var cb := t.pending[id].cb;
      var t1 := t.(pending := t.pending[id := Spent]);
      var t2 := Complete(FallsThrough, t1, id, cb, outcome);
      if t.alive && cb.onError != [] {
        RefusedWhenIssuing(t1, id, cb, outcome);
        assert Visit(FallsThrough, t, order, outcome) == Visit(FallsThrough, t2, order[1..], outcome);
        assert !Harmless(t, id);
      } else {
        CompleteQuiet(t1, id, cb, outcome);
        forall x | x in order[1..]
          ensures x in order && x in t2.pending && t2.pending[x] == t.pending[x]
        {
          var k :| 0 <= k < |order| - 1 && order[1..][k] == x;
          assert order[0] != order[k + 1] && x in order;
        }
        VisitRefusedIff(t2, order[1..], outcome);
        assert forall x :: x in order ==> x == id || x in order[1..];
        assert forall x :: x in order[1..] ==> (Harmless(t2, x) <==> Harmless(t, x));
      }
    }
  }

  ghost predicate AllHarmless(t: Table)
  {
    forall id :: id in t.pending ==> Harmless(t, id)
  }

  /** A reset of a settled table takes the branch exactly when one of the handlers in it issues a request on failure. */
  lemma ResetRefusedIff(t: Table, order: seq<nat>)
    requires Settled(t) && Enumerates(order, t.pending.Keys)
    ensures Reset(FallsThrough, t, order).table.refused == t.refused <==> AllHarmless(t)
    ensures AllHarmless(t) ==> Reset(FallsThrough, t, order).Finished?
  {
    hide Visit;
    var t1 := Leaving(t);
    forall id | id in order
      ensures id in t1.pending && t1.pending[id].Live?
    {
      assert Waiting(t, id);
    }
    assert forall id :: Harmless(t1, id) <==> Harmless(t, id);
    VisitRefusedIff(t1, order, ResetOutcome(t));
    if AllHarmless(t) {
      VisitHarmless(t1, order, ResetOutcome(t));
    }
  }

  lemma TryResetRefusedIff(m: Machine, order: seq<nat>, next: Phase)
    requires Settled(m.table) && Enumerates(order, m.table.pending.Keys)
    ensures TryReset(FallsThrough, m, order, next).table.refused == m.table.refused <==> AllHarmless(m.table)
  {
    hide Reset, Settled, AllHarmless;
    ResetRefusedIff(m.table, order);
  }

  /** Whether this step sends nothing while the link is down, read off the state before it: a user sends over a link
      that is up, a reconnect needs no authentication, and no handler a reset is about to call issues a request. */
  ghost predicate Clean(m: Machine, e: Event)
  {
    match e
    case Sends(_) => m.table.link == Connected
    case Connects(ok, _) => ok && m.table.alive ==> !m.credentials
    case ReadFails(_) => AllHarmless(m.table)
    case Throws(_, _) => AllHarmless(m.table)
    case _ => true
  }

  lemma StepRefusedIff(m: Machine, e: Event)
    requires Inv(m) && Enabled(m, e)
    ensures Step(FallsThrough, m, e).table.refused == m.table.refused <==> Clean(m, e)
  {
    hide Deliver, Reset, TryReset, Complete, Settled, AllHarmless;
    var t := m.table;
    match e
    case Top(order) =>
      if t.link == Stopped {
        AllHarmlessDead(t);
        TryResetRefusedIff(m, order, Exited);
      }
    case Receives(sync, _) => DeliverNotRefused(m, sync);
    case ReadFails(order) => TryResetRefusedIff(m, order, AtTop);
    case Throws(_, order) => ResetRefusedIff(t, order);
    case _ =>
  }

  lemma AllHarmlessDead(t: Table)
    requires Settled(t) && !t.alive
    ensures AllHarmless(t)
  {
    assert forall id :: id in t.pending ==> Waiting(t, id);
  }

  ghost predicate CleanRun(m: Machine, es: seq<Event>)
    decreases |es|
  {
    es == [] || (Clean(m, es[0]) && CleanRun(Step(FallsThrough, m, es[0]), es[1..]))
  }

  /** The code as shipped keeps the invariant through a run exactly when every step of it is clean. */
  lemma {:induction false} ShippedIff(m: Machine, es: seq<Event>)
    requires Inv(m) && EnabledAll(FallsThrough, m, es) && Run(FallsThrough, m, es).table.nextId <= ID_LIMIT
    ensures Always(FallsThrough, m, es) <==> CleanRun(m, es)
    decreases |es|
  {
    hide Inv, Step, Enabled, Clean;
    if es != [] {
      var m1 := Step(FallsThrough, m, es[0]);
      RunMonotone(FallsThrough, m1, es[1..]);
      StepMonotone(FallsThrough, m, es[0]);
      StepRefusedIff(m, es[0]);
      if Clean(m, es[0]) {
        StepAgrees(m, es[0]);
        StepKeeps(m, es[0]);
        ShippedIff(m1, es[1..]);
      } else {
        StepBreaks(m, es[0]);
      }
    }
  }

  /** Over a clean run the code does what it was meant to do. */
  lemma {:induction false} CleanRunAgrees(m: Machine, es: seq<Event>)
    requires Inv(m) && EnabledAll(FallsThrough, m, es) && Run(FallsThrough, m, es).table.nextId <= ID_LIMIT
    requires CleanRun(m, es)
    ensures EnabledAll(Exclusive, m, es) && Run(FallsThrough, m, es) == Run(Exclusive, m, es)
    decreases |es|
  {
    hide Inv, Step, Enabled, Clean;
    if es != [] {
      RunMonotone(FallsThrough, Step(FallsThrough, m, es[0]), es[1..]);
      StepRefusedIff(m, es[0]);
      StepAgrees(m, es[0]);
      StepKeeps(m, es[0]);
      CleanRunAgrees(Step(FallsThrough, m, es[0]), es[1..]);
    }
  }

  // ---------------------------------------------------------------- a run that goes wrong

  /** The connection is lost and the loop is reconnecting. */
  const DOWN := Machine(FRESH.(link := Connecting), AwaitConnect, false, false, 0)

  /** A request was sent meanwhile: completed at once, and with the branch falling through also passed on, leaving its
      empty handler in the table. */
  function Refused(g: Guard): Machine
  {
    DOWN.(table := DOWN.table.(
            nextId := 1, issued := map[0 := QUIET], log := [Completion(0, NotConnected)], refused := 1,
            pending := if g == Exclusive then map[] else map[0 := Spent],
            handed := if g == Exclusive then [] else [0]))
  }

  /** The connection came back and another request was sent. */
  function Restored(g: Guard): Machine
  {
    var m := Refused(g);
    m.(phase := AwaitMessage,
       table := m.table.(
         link := Connected, nextId := 2, issued := map[0 := QUIET, 1 := QUIET],
         pending := m.table.pending[1 := Live(QUIET)], handed := m.table.handed + [1]))
  }

  lemma LossyDown(g: Guard)
    ensures Step(g, Step(g, Step(g, Start(false), Top([])), ReadFails([])), Top([])) == DOWN
  {
    var m := Step(g, Start(false), Top([]));
    assert Step(g, m, ReadFails([])) == m.(table := FRESH.(link := Connecting), phase := AtTop);
  }

  lemma LossyRefused(g: Guard)
    ensures Step(g, Step(g, DOWN, Issue(QUIET)), Sends(0)) == Refused(g)
  {
    var t := Step(g, DOWN, Issue(QUIET)).table;
    assert t == DOWN.table.(nextId := 1, issued := map[0 := QUIET], unsent := {0});
    var t1 := t.(unsent := {}, refused := 1);
    assert t.(unsent := t.unsent - {0}, refused := t.refused + 1) == t1;
    var t2 := t1.(log := [Completion(0, NotConnected)]);
    assert t1.log + [Completion(0, NotConnected)] == t2.log;
    CompleteQuietly(g, t1, 0, NotConnected);
  }

  lemma CompleteQuietly(g: Guard, t: Table, id: nat, outcome: Outcome)
    ensures Complete(g, t, id, QUIET, outcome) == t.(log := t.log + [Completion(id, outcome)])
  {
    var t1 := t.(log := t.log + [Completion(id, outcome)]);
    assert RequestAll(g, t1, []) == t1;
  }

  lemma LossyRestored(g: Guard)
    ensures Step(g, Step(g, Step(g, Refused(g), Connects(true, false)), Issue(QUIET)), Sends(1)) == Restored(g)
  {
    var m := Step(g, Refused(g), Connects(true, false));
    assert m == Refused(g).(phase := AwaitMessage, table := Refused(g).table.(link := Connected));
    var t := Step(g, m, Issue(QUIET)).table;
    assert t == m.table.(nextId := 2, issued := map[0 := QUIET, 1 := QUIET], unsent := {1});
    assert t.(unsent := t.unsent - {1}) == t.(unsent := {});
  }

  /** The events that lead there. */
  const LOSSY: seq<Event> :=
    [Top([])] + ([ReadFails([])] + ([Top([])] + ([Issue(QUIET)] + ([Sends(0)]
    + ([Connects(true, false)] + ([Issue(QUIET)] + ([Sends(1)] + [])))))))

  lemma LossyReached(g: Guard)
    ensures EnabledAll(g, Start(false), LOSSY) && Run(g, Start(false), LOSSY) == Restored(g)
  {
    hide Step, Enabled;
    LossyDown(g);
    LossyRefused(g);
    LossyRestored(g);
    LossyEnabled(g);
    var m1 := Step(g, Start(false), Top([]));
    var m2 := Step(g, m1, ReadFails([]));
    var m4 := Step(g, DOWN, Issue(QUIET));
    var m6 := Step(g, Refused(g), Connects(true, false));
    var m7 := Step(g, m6, Issue(QUIET));
    RunCons(g, m7, Sends(1), []);
    RunCons(g, m6, Issue(QUIET), [Sends(1)] + []);
    RunCons(g, Refused(g), Connects(true, false), [Issue(QUIET)] + ([Sends(1)] + []));
    var late := [Connects(true, false)] + ([Issue(QUIET)] + ([Sends(1)] + []));
    RunCons(g, m4, Sends(0), late);
    RunCons(g, DOWN, Issue(QUIET), [Sends(0)] + late);
    RunCons(g, m2, Top([]), [Issue(QUIET)] + ([Sends(0)] + late));
    RunCons(g, m1, ReadFails([]), [Top([])] + ([Issue(QUIET)] + ([Sends(0)] + late)));
    RunCons(g, Start(false), Top([]), [ReadFails([])] + ([Top([])] + ([Issue(QUIET)] + ([Sends(0)] + late))));
  }

  lemma LossyEnabled(g: Guard)
    ensures Enabled(Start(false), Top([]))
    ensures var m := Step(g, Start(false), Top([]));
            Enabled(m, ReadFails([])) && Enabled(Step(g, m, ReadFails([])), Top([]))
    ensures Enabled(DOWN, Issue(QUIET)) && Enabled(Step(g, DOWN, Issue(QUIET)), Sends(0))
    ensures var m := Step(g, Refused(g), Connects(true, false));
            && Enabled(Refused(g), Connects(true, false)) && Enabled(m, Issue(QUIET))
            && Enabled(Step(g, m, Issue(QUIET)), Sends(1))
  {
    var m := Step(g, Start(false), Top([]));
    assert Step(g, m, ReadFails([])) == m.(table := FRESH.(link := Connecting), phase := AtTop);
  }

  /** When the connection is lost again, the intended guard fails the waiting request. */
  lemma LossyAsMeant()
    ensures Enumerates([1], Restored(Exclusive).table.pending.Keys)
    ensures var t := Step(Exclusive, Restored(Exclusive), ReadFails([1])).table;
            t.pending == map[] && t.log == [Completion(0, NotConnected), Completion(1, BrokenPipe)]
  {
    var t := Leaving(Restored(Exclusive).table);
    CompleteQuietly(Exclusive, t.(pending := t.pending[1 := Spent]), 1, BrokenPipe);
    assert [1][1..] == [];
    var first, second := Completion(0, NotConnected), Completion(1, BrokenPipe);
    assert [first] + [second] == [first, second];
  }

  /** The code as shipped stumbles over the empty handler, the loop dies, and the request is left waiting. The first
      request was told that it was not connected and was passed on to the server all the same. */
  lemma LossyAsShipped()
    ensures Enumerates([0, 1], Restored(FallsThrough).table.pending.Keys)
    ensures var m := Step(FallsThrough, Restored(FallsThrough), ReadFails([0, 1]));
            && m.phase == Crashed && m.table.pending == map[0 := Spent, 1 := Live(QUIET)]
            && m.table.nextId == 2 && m.table.unsent == {}
            && m.table.log == [Completion(0, NotConnected)] && m.table.handed == [0, 1]
  {
    hide Complete;
    assert [0] + [1] == [0, 1];
    var t := Leaving(Restored(FallsThrough).table);
    assert Visit(FallsThrough, t, [0, 1], BrokenPipe) == Threw(t);
  }

  // ---------------------------------------------------------------- after a crash

  /** No id waits both to be sent and to be answered, and none beyond the counter does either. Holds throughout every
      run, clean or not. */
  ghost predicate Separate(t: Table)
  {
    Below(t) && forall id :: id in t.unsent ==> id < t.nextId && id !in t.pending
  }

  lemma SendSeparate(t: Table, id: nat)
    requires Separate(t) && id in t.unsent && id in t.issued && Dispatch(FallsThrough, t, id).nextId <= ID_LIMIT
    ensures Separate(Dispatch(FallsThrough, t, id)) && Grown(t, Dispatch(FallsThrough, t, id), 0)
  {
    hide Send;
    var t1 := t.(unsent := t.unsent - {id});
    SendTaints(t1, id, t.issued[id]);
    SendNewKeys(t1, id, t.issued[id]);
  }

  lemma SendNewKeys(t: Table, id: nat, cb: Callback)
    requires Below(t) && id < t.nextId && id !in t.pending && Send(FallsThrough, t, id, cb).nextId <= ID_LIMIT
    ensures forall k :: k in Send(FallsThrough, t, id, cb).pending && k !in t.pending ==> k == id || k >= t.nextId
  {
    hide Complete;
    if t.link != Connected {
      CompleteGrows(t.(refused := t.refused + 1), id, cb, NotConnected);
    }
  }

  lemma DeliverSeparate(t: Table, sync: nat)
    requires Separate(t) && Deliver(FallsThrough, t, sync).nextId <= ID_LIMIT
    ensures Separate(Deliver(FallsThrough, t, sync))
  {
    hide Complete;
    if sync in t.pending && t.pending[sync].Live? {
      CompleteGrows(t.(pending := t.pending - {sync}), sync, t.pending[sync].cb, Reply(sync));
    }
  }

  lemma {:induction false} VisitSeparate(t: Table, order: seq<nat>, outcome: Outcome)
    requires Separate(t) && Visit(FallsThrough, t, order, outcome).table.nextId <= ID_LIMIT
    ensures Separate(Visit(FallsThrough, t, order, outcome).table)
    decreases |order|
  {
    hide Complete;
    if order != [] && order[0] in t.pending && t.pending[order[0]].Live? {
      var t1 := t.(pending := t.pending[order[0] := Spent]);
      CompleteGrows(t1, order[0], t.pending[order[0]].cb, outcome);
      VisitSeparate(Complete(FallsThrough, t1, order[0], t.pending[order[0]].cb, outcome), order[1..], outcome);
    }
  }

  lemma ResetSeparate(t: Table, order: seq<nat>)
    requires Separate(t) && Reset(FallsThrough, t, order).table.nextId <= ID_LIMIT
    ensures Separate(Reset(FallsThrough, t, order).table)
  {
    hide Visit;
    VisitSeparate(Leaving(t), order, ResetOutcome(t));
  }

  lemma TryResetSeparate(m: Machine, order: seq<nat>, next: Phase)
    requires Separate(m.table) && TryReset(FallsThrough, m, order, next).table.nextId <= ID_LIMIT
    ensures Separate(TryReset(FallsThrough, m, order, next).table)
  {
    hide Reset, Separate;
    var r := Reset(FallsThrough, m.table, order);
    ResetSeparate(m.table, order);
    if r.Threw? {
      ResetSeparate(r.table, order);
    }
  }

  lemma StepSeparate(m: Machine, e: Event)
    requires Separate(m.table) && Enabled(m, e) && Step(FallsThrough, m, e).table.nextId <= ID_LIMIT
    ensures Separate(Step(FallsThrough, m, e).table)
  {
    hide Dispatch, Deliver, Reset, Request, TryReset;
    match e
    case Sends(id) => SendSeparate(m.table, id);
    case Top(order) => if m.table.link == Stopped { TryResetSeparate(m, order, Exited); }
    case Connects(ok, _) => if ok && m.table.alive && m.credentials { RequestGrows(m.table, QUIET); }
    case Receives(sync, _) => DeliverSeparate(m.table, sync);
    case ReadFails(order) => TryResetSeparate(m, order, AtTop);
    case Throws(_, order) => ResetSeparate(m.table, order);
    case _ =>
  }

  lemma {:induction false} RunSeparate(m: Machine, es: seq<Event>)
    requires Separate(m.table) && EnabledAll(FallsThrough, m, es)
    requires Run(FallsThrough, m, es).table.nextId <= ID_LIMIT
    ensures Separate(Run(FallsThrough, m, es).table)
    decreases |es|
  {
    hide Step, Enabled, Separate;
    if es != [] {
      RunMonotone(FallsThrough, Step(FallsThrough, m, es[0]), es[1..]);
      StepSeparate(m, es[0]);
      RunSeparate(Step(FallsThrough, m, es[0]), es[1..]);
    }
  }

  /** From `t` to `t'` no entry of `t` was touched and no handler was called under its id. */
  ghost predicate Ignored(t: Table, t': Table)
  {
    && (forall id :: id in t.pending ==> id in t'.pending && t'.pending[id] == t.pending[id])
    && t.log <= t'.log
    && forall i :: |t.log| <= i < |t'.log| ==> t'.log[i].id !in t.pending
  }

  lemma CrashedStep(m: Machine, e: Event)
    requires m.phase == Crashed && Separate(m.table) && Enabled(m, e)
    requires Step(FallsThrough, m, e).table.nextId <= ID_LIMIT
    ensures Step(FallsThrough, m, e).phase == Crashed && Ignored(m.table, Step(FallsThrough, m, e).table)
  {
    hide Send;
    if e.Sends? {
      SendSeparate(m.table, e.id);
      SendCalls(m.table.(unsent := m.table.unsent - {e.id}), e.id, m.table.issued[e.id]);
    }
  }

  lemma {:induction false} CrashedRun(m: Machine, es: seq<Event>)
    requires m.phase == Crashed && Separate(m.table) && EnabledAll(FallsThrough, m, es)
    requires Run(FallsThrough, m, es).table.nextId <= ID_LIMIT
    ensures Run(FallsThrough, m, es).phase == Crashed && Ignored(m.table, Run(FallsThrough, m, es).table)
    decreases |es|
  {
    hide Step, Enabled, Separate;
    if es != [] {
      var m1 := Step(FallsThrough, m, es[0]);
      RunMonotone(FallsThrough, m1, es[1..]);
      CrashedStep(m, es[0]);
      StepSeparate(m, es[0]);
      CrashedRun(m1, es[1..]);
    }
  }

  /** Requests waiting when the loop dies wait for ever: however a run from the start got there, no continuation touches
      their entries or calls their handlers. */
  lemma CrashedForGood(credentials: bool, before: seq<Event>, after: seq<Event>)
    requires EnabledAll(FallsThrough, Start(credentials), before)
    requires var m := Run(FallsThrough, Start(credentials), before);
             m.phase == Crashed && EnabledAll(FallsThrough, m, after)
             && Run(FallsThrough, m, after).table.nextId <= ID_LIMIT
    ensures var m := Run(FallsThrough, Start(credentials), before);
            var m' := Run(FallsThrough, m, after);
            m'.phase == Crashed && Ignored(m.table, m'.table)
  {
    hide Run, EnabledAll, Ignored;
    var m := Run(FallsThrough, Start(credentials), before);
    RunMonotone(FallsThrough, m, after);
    RunSeparate(Start(credentials), before);
    CrashedRun(m, after);
  }

  /** The run above, continued in any way: the second request is never answered, failed or sent again. */
  lemma LossyForGood(after: seq<Event>)
    requires var m := Step(FallsThrough, Restored(FallsThrough), ReadFails([0, 1]));
             EnabledAll(FallsThrough, m, after) && Run(FallsThrough, m, after).table.nextId <= ID_LIMIT
    ensures var m := Run(FallsThrough, Step(FallsThrough, Restored(FallsThrough), ReadFails([0, 1])), after);
            && m.phase == Crashed && 1 in m.table.pending && m.table.pending[1] == Live(QUIET)
            && forall c :: c in m.table.log ==> c.id != 1
  {
    hide Step, Run, EnabledAll;
    var m := Step(FallsThrough, Restored(FallsThrough), ReadFails([0, 1]));
    LossyAsShipped();
    CrashedRun(m, after);
  }
}
