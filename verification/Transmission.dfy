/** The request table and the sending side on one strand: what becomes of the data of each request, and of the requests
    whose data a write error drops. In the pipeline a buffer stands as the id of its request. */
module Transmission {
  import opened Requests
  import Loop = ReceiveLoop
  import Shipped = ReceiveLoopShipped
  import Pipeline = SendPipeline

  datatype System = System(machine: Loop.Machine, pipe: Pipeline.Pipe<nat>)

  /** A step of the connector, or the completion of a write. */
  datatype Move = Strand(e: Loop.Event) | Completes(failed: bool)

  function Begin(credentials: bool): System
  {
    System(Loop.Start(credentials), Pipeline.Idle())
  }

  function SubmitAll(p: Pipeline.Pipe<nat>, ids: seq<nat>): (q: Pipeline.Pipe<nat>)
    decreases |ids|
  {
    if ids == [] then p else SubmitAll(Pipeline.Step(p, Pipeline.Submit(ids[0])), ids[1..])
  }

  /** What a step of the connector passes to `send_data` enters the pipeline, in order. */
  function Step(g: Guard, s: System, move: Move): (s': System)
  {
    match move
    case Strand(e) =>
      Loop.StepRecords(g, s.machine, e);
      var m := Loop.Step(g, s.machine, e);
      System(m, SubmitAll(s.pipe, m.table.handed[|s.machine.table.handed|..]))
    case Completes(failed) =>
      s.(pipe := Pipeline.Step(s.pipe, if failed then Pipeline.WriteFailed else Pipeline.Written))
  }

  ghost predicate Enabled(s: System, move: Move)
  {
    match move
    case Strand(e) => Loop.Enabled(s.machine, e)
    case Completes(_) => s.pipe.sending
  }

  function Run(g: Guard, s: System, moves: seq<Move>): (s': System)
    decreases |moves|
  {
    if moves == [] then s else Run(g, Step(g, s, moves[0]), moves[1..])
  }

  ghost predicate EnabledAll(g: Guard, s: System, moves: seq<Move>)
    decreases |moves|
  {
    moves == [] || (Enabled(s, moves[0]) && EnabledAll(g, Step(g, s, moves[0]), moves[1..]))
  }

  // ---------------------------------------------------------------- what every move keeps

  ghost predicate Inv(s: System)
  {
    Loop.Inv(s.machine) && Pipeline.Inv(s.pipe) && s.pipe.submitted == s.machine.table.handed
  }

  lemma {:induction false} SubmitAllKeeps(p: Pipeline.Pipe<nat>, ids: seq<nat>)
    requires Pipeline.Inv(p)
    ensures Pipeline.Inv(SubmitAll(p, ids)) && SubmitAll(p, ids).submitted == p.submitted + ids
    decreases |ids|
  {
    hide Pipeline.Inv;
    if ids != [] {
      var q := Pipeline.Step(p, Pipeline.Submit(ids[0]));
      Pipeline.StepKeepsInv(p, Pipeline.Submit(ids[0]));
      SubmitAllKeeps(q, ids[1..]);
      assert q.submitted + ids[1..] == p.submitted + ids;
    }
  }

  lemma StepKeeps(s: System, move: Move)
    requires Inv(s) && Enabled(s, move) && Step(Exclusive, s, move).machine.table.nextId <= ID_LIMIT
    ensures Inv(Step(Exclusive, s, move))
  {
    hide Loop.Inv, Loop.Step, Loop.Enabled, Pipeline.Inv, Pipeline.StartNext;
    match move
    case Strand(e) =>
      Loop.StepKeeps(s.machine, e);
      Loop.StepRecords(Exclusive, s.machine, e);
      var before, after := s.machine.table.handed, Loop.Step(Exclusive, s.machine, e).table.handed;
      SubmitAllKeeps(s.pipe, after[|before|..]);
      assert before + after[|before|..] == after;
    case Completes(failed) =>
      Pipeline.StepKeepsInv(s.pipe, if failed then Pipeline.WriteFailed else Pipeline.Written);
      CompletionSubmitsNothing(s.pipe, failed);
  }

  lemma CompletionSubmitsNothing(p: Pipeline.Pipe<nat>, failed: bool)
    ensures Pipeline.Step(p, if failed then Pipeline.WriteFailed else Pipeline.Written).submitted == p.submitted
  {
  }

  lemma StepMonotone(g: Guard, s: System, move: Move)
    ensures Step(g, s, move).machine.table.nextId >= s.machine.table.nextId
    ensures s.machine.table.log <= Step(g, s, move).machine.table.log
  {
    hide Loop.Step, Pipeline.Step;
    if move.Strand? {
      Loop.StepMonotone(g, s.machine, move.e);
      Loop.StepRecords(g, s.machine, move.e);
    }
  }

  lemma {:induction false} RunMonotone(g: Guard, s: System, moves: seq<Move>)
    ensures Run(g, s, moves).machine.table.nextId >= s.machine.table.nextId
    ensures s.machine.table.log <= Run(g, s, moves).machine.table.log
    decreases |moves|
  {
    hide Step;
    if moves != [] {
      StepMonotone(g, s, moves[0]);
      RunMonotone(g, Step(g, s, moves[0]), moves[1..]);
    }
  }

  lemma {:induction false} RunKeeps(s: System, moves: seq<Move>)
    requires Inv(s) && EnabledAll(Exclusive, s, moves) && Run(Exclusive, s, moves).machine.table.nextId <= ID_LIMIT
    ensures Inv(Run(Exclusive, s, moves))
    decreases |moves|
  {
    hide Inv, Step, Enabled;
    if moves != [] {
      RunMonotone(Exclusive, Step(Exclusive, s, moves[0]), moves[1..]);
      StepKeeps(s, moves[0]);
      RunKeeps(Step(Exclusive, s, moves[0]), moves[1..]);
    }
  }

  // ---------------------------------------------------------------- where each buffer is

  function WrittenIn(history: seq<Pipeline.Epoch<nat>>): (s: seq<nat>)
  {
    if history == [] then [] else WrittenIn(history[..|history| - 1]) + history[|history| - 1].done
  }

  function DroppedIn(history: seq<Pipeline.Epoch<nat>>): (s: seq<nat>)
  {
    if history == [] then [] else DroppedIn(history[..|history| - 1]) + history[|history| - 1].dropped
  }

  lemma {:induction false} PastSplits(history: seq<Pipeline.Epoch<nat>>)
    ensures multiset(Pipeline.Past(history)) == multiset(WrittenIn(history)) + multiset(DroppedIn(history))
  {
    if history != [] {
      PastSplits(history[..|history| - 1]);
    }
  }

  /** How often the data of request `id` was written, dropped by a write error, is being written, or is queued. */
  ghost function Places(p: Pipeline.Pipe<nat>, id: nat): (n: nat)
  {
    multiset(WrittenIn(p.history) + p.done)[id] + multiset(DroppedIn(p.history))[id]
    + multiset(p.flight)[id] + multiset(p.active)[id]
  }

  lemma PlacesCount(p: Pipeline.Pipe<nat>, id: nat)
    requires Pipeline.Inv(p)
    ensures Places(p, id) == multiset(p.submitted)[id]
  {
    hide Pipeline.Past, WrittenIn, DroppedIn;
    PastSplits(p.history);
  }

  lemma {:induction false} DistinctOnce(ids: seq<nat>, id: nat)
    requires Distinct(ids)
    ensures multiset(ids)[id] == if id in ids then 1 else 0
  {
    if ids != [] {
      var init, last := ids[..|ids| - 1], ids[|ids| - 1];
      assert ids == init + [last];
      DistinctOnce(init, id);
    }
  }

  /** In exactly one place if the request was accepted, and nowhere otherwise. An accepted request is waiting or was
      completed, once, and was never told that it was not connected. Everything waiting was accepted. */
  ghost predicate Tracked(s: System, id: nat)
  {
    var t := s.machine.table;
    && Places(s.pipe, id) == (if id in t.handed then 1 else 0)
    && (id in t.handed ==> id in t.issued && id !in t.unsent && Completion(id, NotConnected) !in t.log)
    && (id in t.handed ==> (Waiting(t, id) <==> id !in Completed(t.log)))
    && (id in t.pending ==> id in t.handed && Waiting(t, id))
  }

  lemma InvTracks(s: System, id: nat)
    requires Inv(s)
    ensures Tracked(s, id)
  {
    hide Places, Pipeline.Inv, Completed;
    PlacesCount(s.pipe, id);
    DistinctOnce(s.pipe.submitted, id);
    CompletedHas(s.machine.table.log);
  }

  /** Over every interleaving of the connector's steps with write completions, write errors included, the data of each
      request is in one place at most and agrees with what its handler was told. */
  lemma EveryBuffer(credentials: bool, moves: seq<Move>)
    requires EnabledAll(Exclusive, Begin(credentials), moves)
    requires Run(Exclusive, Begin(credentials), moves).machine.table.nextId <= ID_LIMIT
    ensures var s := Run(Exclusive, Begin(credentials), moves);
            CompletedOnce(s.machine.table.log) && forall id :: Tracked(s, id)
  {
    hide Run, EnabledAll, Tracked;
    BeginInv(credentials);
    RunKeeps(Begin(credentials), moves);
    var s := Run(Exclusive, Begin(credentials), moves);
    forall id
      ensures Tracked(s, id)
    {
      InvTracks(s, id);
    }
  }

  lemma BeginInv(credentials: bool)
    ensures Inv(Begin(credentials))
  {
    Loop.StartInv(credentials);
    Pipeline.IdleInv<nat>();
  }

  // ---------------------------------------------------------------- requests whose data was dropped

  /** The steps that reset the connection. */
  predicate Resets(m: Loop.Machine, e: Loop.Event) {
    e.ReadFails? || e.Throws? || (e.Top? && m.table.link == Stopped)
  }

  lemma ResetSettles(m: Loop.Machine, e: Loop.Event)
    requires Loop.Inv(m) && Loop.Enabled(m, e) && Resets(m, e)
    requires Loop.Step(Exclusive, m, e).table.nextId <= ID_LIMIT
    ensures var t := Loop.Step(Exclusive, m, e).table;
            t.pending == map[] && forall id :: id in m.table.pending ==> Completion(id, ResetOutcome(m.table)) in t.log
  {
    hide Settled, Reset;
    match e
    case Top(order) => ResetKeeps(m.table, order);
    case ReadFails(order) => ResetKeeps(m.table, order);
    case Throws(_, order) => ResetKeeps(m.table, order);
  }

  lemma AcceptedCompleted(s: System)
    requires Inv(s) && s.machine.table.pending == map[]
    ensures forall id :: id in s.pipe.submitted ==> id in Completed(s.machine.table.log)
  {
    hide Completed, Places;
    forall id | id in s.pipe.submitted
      ensures id in Completed(s.machine.table.log)
    {
      InvTracks(s, id);
    }
  }

  lemma CompletedMonotone(log: seq<Completion>, log': seq<Completion>)
    requires log <= log'
    ensures Completed(log) <= Completed(log')
    ensures forall c :: c in log ==> c in log'
  {
  }

  lemma DroppedAccepted(p: Pipeline.Pipe<nat>)
    requires Pipeline.Inv(p)
    ensures forall id :: id in DroppedIn(p.history) ==> id in p.submitted
  {
    hide Pipeline.Inv;
    forall id | id in DroppedIn(p.history)
      ensures id in p.submitted
    {
      PlacesCount(p, id);
      assert id in multiset(DroppedIn(p.history));
      assert multiset(p.submitted)[id] > 0;
    }
  }

  lemma StepSubmits(s: System, move: Move)
    requires Inv(s) && Inv(Step(Exclusive, s, move))
    ensures s.pipe.submitted <= Step(Exclusive, s, move).pipe.submitted
  {
    hide Loop.Inv, Loop.Step, Pipeline.Inv, Pipeline.Step;
    if move.Strand? {
      Loop.StepRecords(Exclusive, s.machine, move.e);
    }
  }

  /** The next reset fails every request still waiting, those whose data a write error dropped among them; and after it,
      in every continuation, each request accepted before has been completed exactly once. */
  lemma DroppedAreFailed(s: System, e: Loop.Event, after: seq<Move>)
    requires Inv(s) && Enabled(s, Strand(e)) && Resets(s.machine, e)
    requires var s1 := Step(Exclusive, s, Strand(e));
             EnabledAll(Exclusive, s1, after) && Run(Exclusive, s1, after).machine.table.nextId <= ID_LIMIT
    ensures var log := Run(Exclusive, Step(Exclusive, s, Strand(e)), after).machine.table.log;
            && CompletedOnce(log)
            && (forall id :: id in s.pipe.submitted ==> id in Completed(log))
            && (forall id :: id in s.machine.table.pending ==> Completion(id, ResetOutcome(s.machine.table)) in log)
            && (forall id :: id in DroppedIn(s.pipe.history) ==> id in s.pipe.submitted)
  {
    hide Loop.Step, Loop.Inv, Loop.Enabled, Pipeline.Inv, SubmitAll, Run, EnabledAll;
    hide Completed, CompletedOnce, DroppedIn;
    var s1 := Step(Exclusive, s, Strand(e));
    var s2 := Run(Exclusive, s1, after);
    RunMonotone(Exclusive, s1, after);
    ResetSettles(s.machine, e);
    StepKeeps(s, Strand(e));
    RunKeeps(s1, after);
    StepSubmits(s, Strand(e));
    AcceptedCompleted(s1);
    CompletedMonotone(s1.machine.table.log, s2.machine.table.log);
    DroppedAccepted(s.pipe);
    SettledOnce(s2.machine);
  }

  lemma SettledOnce(m: Loop.Machine)
    requires Loop.Inv(m)
    ensures CompletedOnce(m.table.log)
  {
  }

  // ---------------------------------------------------------------- dropped, but not waiting

  /** A request has been sent and its data is being written. */
  const SENT := System(
    Loop.Machine(FRESH.(nextId := 1, issued := map[0 := QUIET], pending := map[0 := Live(QUIET)], handed := [0]),
                 Loop.AwaitMessage, false, false, 0),
    Pipeline.Pipe(true, [], [], [0], false, [], [], [0]))

  /** The connection was lost and the request failed, while its write has not completed yet. */
  const FAILED := SENT.(machine := SENT.machine.(
                          phase := Loop.AtTop,
                          table := SENT.machine.table.(
                            link := Connecting, pending := map[], log := [Completion(0, BrokenPipe)])))

  const LATE: seq<Move> :=
    [Strand(Loop.Top([]))] + ([Strand(Loop.Issue(QUIET))] + ([Strand(Loop.Sends(0))]
    + ([Strand(Loop.ReadFails([0]))] + ([Completes(true)] + []))))

  lemma LateSent(g: Guard)
    ensures var s1 := Step(g, Begin(false), Strand(Loop.Top([])));
            var s2 := Step(g, s1, Strand(Loop.Issue(QUIET)));
            && Enabled(Begin(false), Strand(Loop.Top([]))) && Enabled(s1, Strand(Loop.Issue(QUIET)))
            && Enabled(s2, Strand(Loop.Sends(0))) && Step(g, s2, Strand(Loop.Sends(0))) == SENT
  {
    var s1 := Step(g, Begin(false), Strand(Loop.Top([])));
    assert s1 == System(Loop.Machine(FRESH, Loop.AwaitMessage, false, false, 0), Pipeline.Idle());
    var s2 := Step(g, s1, Strand(Loop.Issue(QUIET)));
    assert s2.machine.table == FRESH.(nextId := 1, issued := map[0 := QUIET], unsent := {0});
    var m := Loop.Step(g, s2.machine, Loop.Sends(0));
    assert m.table.unsent == {} && m.table.handed == [0];
    assert [0][1..] == [] && SubmitAll(SENT.pipe, []) == SENT.pipe;
    assert Pipeline.Step(Pipeline.Idle(), Pipeline.Submit(0)) == SENT.pipe;
    assert SubmitAll(Pipeline.Idle(), [0]) == SENT.pipe;
  }

  lemma LateFailed(g: Guard)
    ensures Enabled(SENT, Strand(Loop.ReadFails([0]))) && Step(g, SENT, Strand(Loop.ReadFails([0]))) == FAILED
  {
    var t := Leaving(SENT.machine.table);
    Shipped.CompleteQuietly(g, t.(pending := t.pending[0 := Spent]), 0, BrokenPipe);
    assert [0][1..] == [] && [] + [Completion(0, BrokenPipe)] == [Completion(0, BrokenPipe)];
    assert SubmitAll(SENT.pipe, []) == SENT.pipe;
  }

  lemma RunCons(g: Guard, s: System, move: Move, moves: seq<Move>)
    ensures Run(g, s, [move] + moves) == Run(g, Step(g, s, move), moves)
    ensures EnabledAll(g, s, [move] + moves) <==> Enabled(s, move) && EnabledAll(g, Step(g, s, move), moves)
  {
    hide Step, Enabled;
    assert ([move] + moves)[0] == move && ([move] + moves)[1..] == moves;
  }

  /** A dropped buffer need not belong to a waiting request: when the write completes in error only after the reset, its
      request has been failed already. */
  lemma DroppedAfterReset(g: Guard)
    ensures EnabledAll(g, Begin(false), LATE)
    ensures var s := Run(g, Begin(false), LATE);
            && s.pipe.history == [Pipeline.Epoch([], [0])]
            && s.machine.table.pending == map[] && s.machine.table.log == [Completion(0, BrokenPipe)]
  {
    hide Step, Enabled;
    LateSent(g);
    LateFailed(g);
    var s1 := Step(g, Begin(false), Strand(Loop.Top([])));
    var s2 := Step(g, s1, Strand(Loop.Issue(QUIET)));
    var late := [Strand(Loop.ReadFails([0]))] + ([Completes(true)] + []);
    RunCons(g, Begin(false), Strand(Loop.Top([])), [Strand(Loop.Issue(QUIET))] + ([Strand(Loop.Sends(0))] + late));
    RunCons(g, s1, Strand(Loop.Issue(QUIET)), [Strand(Loop.Sends(0))] + late);
    RunCons(g, s2, Strand(Loop.Sends(0)), late);
    RunCons(g, SENT, Strand(Loop.ReadFails([0])), [Completes(true)] + []);
    RunCons(g, FAILED, Completes(true), []);
    LateDropped(g);
  }

  lemma LateDropped(g: Guard)
    ensures Enabled(FAILED, Completes(true))
    ensures var s := Step(g, FAILED, Completes(true));
            s.machine == FAILED.machine && s.pipe.history == [Pipeline.Epoch([], [0])]
  {
    assert [0] + [] == [0];
  }

  // ---------------------------------------------------------------- written, but no longer waited for

  /** Everything written so far, in order. */
  ghost function Sent(p: Pipeline.Pipe<nat>): (ids: seq<nat>)
  {
    WrittenIn(p.history) + p.done
  }

  /** What was written from `p` to `q` was submitted in between. */
  ghost predicate OnlyNew(p: Pipeline.Pipe<nat>, q: Pipeline.Pipe<nat>)
  {
    && Sent(p) <= Sent(q)
    && forall i :: |Sent(p)| <= i < |Sent(q)| ==> Sent(q)[i] !in p.submitted
  }

  /** Nothing being written or queued is among `ids`. */
  ghost predicate Clear(p: Pipeline.Pipe<nat>, ids: seq<nat>)
  {
    (forall id :: id in p.flight ==> id !in ids) && forall id :: id in p.active ==> id !in ids
  }

  lemma {:induction false} SubmitAllClear(p: Pipeline.Pipe<nat>, ids: seq<nat>, earlier: seq<nat>)
    requires Clear(p, earlier) && forall id :: id in ids ==> id !in earlier
    ensures Clear(SubmitAll(p, ids), earlier) && Sent(SubmitAll(p, ids)) == Sent(p)
    decreases |ids|
  {
    hide Sent;
    if ids != [] {
      var q := Pipeline.Step(p, Pipeline.Submit(ids[0]));
      assert ids[0] in ids && Sent(q) == Sent(p) by { SubmitSendsNothing(p, ids[0]); }
      SubmitAllClear(q, ids[1..], earlier);
    }
  }

  lemma SubmitSendsNothing(p: Pipeline.Pipe<nat>, id: nat)
    ensures Sent(Pipeline.Step(p, Pipeline.Submit(id))) == Sent(p)
  {
  }

  lemma CompletionSends(p: Pipeline.Pipe<nat>, failed: bool)
    ensures var q := Pipeline.Step(p, if failed then Pipeline.WriteFailed else Pipeline.Written);
            Sent(q) == Sent(p) + if failed then [] else p.flight
  {
    if failed {
      var e := Pipeline.Epoch(p.done, p.flight + p.active);
      assert (p.history + [e])[..|p.history|] == p.history;
    }
  }

  lemma LaterAreNew(ids: seq<nat>, n: nat)
    requires Distinct(ids) && n <= |ids|
    ensures forall id :: id in ids[n..] ==> id !in ids[..n]
  {
  }

  lemma StepClear(s: System, move: Move, earlier: seq<nat>)
    requires Inv(s) && Enabled(s, move) && Step(Exclusive, s, move).machine.table.nextId <= ID_LIMIT
    requires earlier <= s.pipe.submitted && Clear(s.pipe, earlier)
    ensures var s' := Step(Exclusive, s, move);
            && Inv(s') && earlier <= s'.pipe.submitted && Clear(s'.pipe, earlier) && Sent(s.pipe) <= Sent(s'.pipe)
            && forall i :: |Sent(s.pipe)| <= i < |Sent(s'.pipe)| ==> Sent(s'.pipe)[i] !in earlier
  {
    hide Loop.Inv, Loop.Step, Loop.Enabled, Pipeline.Inv, Sent;
    StepKeeps(s, move);
    StepSubmits(s, move);
    match move
    case Strand(e) =>
      hide Pipeline.Step;
      Loop.StepRecords(Exclusive, s.machine, e);
      var before, after := s.machine.table.handed, Loop.Step(Exclusive, s.machine, e).table.handed;
      HandedDistinct(Step(Exclusive, s, move));
      LaterAreNew(after, |before|);
      assert forall id :: id in earlier ==> id in after[..|before|];
      SubmitAllClear(s.pipe, after[|before|..], earlier);
    case Completes(failed) => CompletionSends(s.pipe, failed);
  }

  lemma HandedDistinct(s: System)
    requires Inv(s)
    ensures Distinct(s.machine.table.handed)
  {
  }

  lemma {:induction false} RunClear(s: System, moves: seq<Move>, earlier: seq<nat>)
    requires Inv(s) && EnabledAll(Exclusive, s, moves) && Run(Exclusive, s, moves).machine.table.nextId <= ID_LIMIT
    requires earlier <= s.pipe.submitted && Clear(s.pipe, earlier)
    ensures var p := Run(Exclusive, s, moves).pipe;
            && Sent(s.pipe) <= Sent(p)
            && forall i :: |Sent(s.pipe)| <= i < |Sent(p)| ==> Sent(p)[i] !in earlier
    decreases |moves|
  {
    hide Inv, Step, Enabled, Clear, Sent;
    if moves != [] {
      RunMonotone(Exclusive, Step(Exclusive, s, moves[0]), moves[1..]);
      StepClear(s, moves[0], earlier);
      RunClear(Step(Exclusive, s, moves[0]), moves[1..], earlier);
    }
  }

  /** No continuation writes data submitted before `s`. */
  ghost predicate NothingStale(s: System)
  {
    forall moves :: EnabledAll(Exclusive, s, moves) && Run(Exclusive, s, moves).machine.table.nextId <= ID_LIMIT ==>
                      OnlyNew(s.pipe, Run(Exclusive, s, moves).pipe)
  }

  /** A reset leaves the pipeline alone. When all requests have been failed by it, data of failed requests may still be
      written, on whatever connection there is by then, exactly if a write was in progress. */
  lemma StaleIff(s: System)
    requires Inv(s) && s.machine.table.pending == map[] && s.machine.table.nextId <= ID_LIMIT
    ensures forall id :: id in s.pipe.submitted ==> id in Completed(s.machine.table.log)
    ensures NothingStale(s) <==> !s.pipe.sending
  {
    hide Completed, Loop.Inv, Run, EnabledAll;
    AcceptedCompleted(s);
    if s.pipe.sending {
      WrittenNext(s);
      assert !OnlyNew(s.pipe, Run(Exclusive, s, [Completes(false)]).pipe);
    } else {
      forall moves | EnabledAll(Exclusive, s, moves)
                     && Run(Exclusive, s, moves).machine.table.nextId <= ID_LIMIT
        ensures OnlyNew(s.pipe, Run(Exclusive, s, moves).pipe)
      {
        RunClear(s, moves, s.pipe.submitted);
      }
    }
  }

  lemma WrittenNext(s: System)
    requires Inv(s) && s.pipe.sending
    ensures EnabledAll(Exclusive, s, [Completes(false)])
    ensures Run(Exclusive, s, [Completes(false)]).machine == s.machine
    ensures !OnlyNew(s.pipe, Run(Exclusive, s, [Completes(false)]).pipe)
  {
    hide Loop.Inv, Pipeline.Step, Pipeline.Past, Sent;
    var s' := Step(Exclusive, s, Completes(false));
    assert [Completes(false)][1..] == [];
    assert Run(Exclusive, s, [Completes(false)]) == s';
    CompletionSends(s.pipe, false);
    var id := s.pipe.flight[0];
    assert Sent(s'.pipe)[|Sent(s.pipe)|] == id;
    assert id in s.pipe.done + s.pipe.flight + s.pipe.active;
  }

  /** A second request was sent meanwhile; its data waits in the queue. */
  const QUEUED := System(
    SENT.machine.(table := SENT.machine.table.(
                    nextId := 2, issued := map[0 := QUIET, 1 := QUIET],
                    pending := map[0 := Live(QUIET), 1 := Live(QUIET)], handed := [0, 1])),
    SENT.pipe.(active := [1], submitted := [0, 1]))

  /** The connection was lost and both requests failed. */
  const LOST := QUEUED.(machine := QUEUED.machine.(
                          phase := Loop.AtTop,
                          table := QUEUED.machine.table.(
                            link := Connecting, pending := map[],
                            log := [Completion(0, BrokenPipe), Completion(1, BrokenPipe)])))

  /** The next connection has been established. */
  const BACK := LOST.(machine := LOST.machine.(
                        phase := Loop.AwaitMessage, table := LOST.machine.table.(link := Connected)))

  const STALE: seq<Move> :=
    [Strand(Loop.Top([]))] + ([Strand(Loop.Issue(QUIET))] + ([Strand(Loop.Sends(0))] + STALE_END))

  const STALE_END: seq<Move> :=
    [Strand(Loop.Issue(QUIET))] + ([Strand(Loop.Sends(1))] + ([Strand(Loop.ReadFails([0, 1]))]
    + ([Strand(Loop.Top([]))] + ([Strand(Loop.Connects(true, false))]
    + ([Completes(false)] + ([Completes(false)] + []))))))

  lemma StaleQueued(g: Guard)
    ensures var s := Step(g, SENT, Strand(Loop.Issue(QUIET)));
            && Enabled(SENT, Strand(Loop.Issue(QUIET))) && Enabled(s, Strand(Loop.Sends(1)))
            && Step(g, s, Strand(Loop.Sends(1))) == QUEUED
  {
    var s := Step(g, SENT, Strand(Loop.Issue(QUIET)));
    assert SubmitAll(SENT.pipe, []) == SENT.pipe;
    assert s.machine.table == SENT.machine.table.(nextId := 2, issued := map[0 := QUIET, 1 := QUIET], unsent := {1});
    var m := Loop.Step(g, s.machine, Loop.Sends(1));
    assert m.table.unsent == {} && m.table.handed == [0] + [1] == [0, 1];
    assert [0, 1][1..] == [1] && [1][1..] == [] && SubmitAll(QUEUED.pipe, []) == QUEUED.pipe;
    assert [] + [1] == [1];
    assert Pipeline.Step(SENT.pipe, Pipeline.Submit(1)) == QUEUED.pipe;
    assert SubmitAll(SENT.pipe, [1]) == QUEUED.pipe;
  }

  lemma StaleLost(g: Guard)
    ensures Enabled(QUEUED, Strand(Loop.ReadFails([0, 1]))) && Step(g, QUEUED, Strand(Loop.ReadFails([0, 1]))) == LOST
  {
    hide Visit;
    StaleVisit(g);
    assert SubmitAll(QUEUED.pipe, []) == QUEUED.pipe;
  }

  lemma StaleVisit(g: Guard)
    ensures var t := Leaving(QUEUED.machine.table);
            Visit(g, t, [0, 1], BrokenPipe)
            == Finished(t.(pending := map[0 := Spent, 1 := Spent], log := LOST.machine.table.log))
  {
    hide Complete;
    var t := Leaving(QUEUED.machine.table);
    var t1 := t.(pending := t.pending[0 := Spent]);
    var first, second := Completion(0, BrokenPipe), Completion(1, BrokenPipe);
    Shipped.CompleteQuietly(g, t1, 0, BrokenPipe);
    assert [] + [first] == [first] && [first] + [second] == [first, second];
    var t2 := t1.(log := [first]);
    var t3 := t2.(pending := t2.pending[1 := Spent]);
    Shipped.CompleteQuietly(g, t3, 1, BrokenPipe);
    assert [0, 1][1..] == [1] && [1][1..] == [];
    assert Visit(g, t3.(log := [first, second]), [], BrokenPipe) == Finished(t3.(log := [first, second]));
    assert Visit(g, t2, [1], BrokenPipe) == Finished(t3.(log := [first, second]));
  }

  lemma StaleBack(g: Guard)
    ensures var s := Step(g, LOST, Strand(Loop.Top([])));
            && Enabled(LOST, Strand(Loop.Top([]))) && Enabled(s, Strand(Loop.Connects(true, false)))
            && Step(g, s, Strand(Loop.Connects(true, false))) == BACK
  {
    assert SubmitAll(LOST.pipe, []) == LOST.pipe;
  }

  lemma StaleDone(g: Guard)
    ensures var s := Step(g, BACK, Completes(false));
            && Enabled(BACK, Completes(false)) && Enabled(s, Completes(false))
            && Step(g, s, Completes(false)).machine == BACK.machine
            && Step(g, s, Completes(false)).pipe.done == [0, 1]
  {
    assert [] + [0] == [0] && [0] + [1] == [0, 1];
  }

  /** A run in which this happens: two requests are failed by a reset while the data of the first is being written and
      that of the second is queued, and with the next connection up both writes complete. */
  lemma StaleWritten(g: Guard)
    ensures EnabledAll(g, Begin(false), STALE)
    ensures var s := Run(g, Begin(false), STALE);
            && s.machine.table.link == Connected && s.machine.table.pending == map[]
            && s.machine.table.log == [Completion(0, BrokenPipe), Completion(1, BrokenPipe)]
            && s.pipe.done == [0, 1]
  {
    hide Step, Enabled, Run, EnabledAll;
    LateSent(g);
    StaleEnds(g);
    var s1 := Step(g, Begin(false), Strand(Loop.Top([])));
    var s2 := Step(g, s1, Strand(Loop.Issue(QUIET)));
    RunCons(g, Begin(false), Strand(Loop.Top([])),
            [Strand(Loop.Issue(QUIET))] + ([Strand(Loop.Sends(0))] + STALE_END));
    RunCons(g, s1, Strand(Loop.Issue(QUIET)), [Strand(Loop.Sends(0))] + STALE_END);
    RunCons(g, s2, Strand(Loop.Sends(0)), STALE_END);
  }

  lemma StaleEnds(g: Guard)
    ensures EnabledAll(g, SENT, STALE_END)
    ensures var s := Run(g, SENT, STALE_END); s.machine == BACK.machine && s.pipe.done == [0, 1]
  {
    hide Step, Enabled;
    StaleQueued(g);
    StaleLost(g);
    StaleBack(g);
    StaleDone(g);
    var s1 := Step(g, SENT, Strand(Loop.Issue(QUIET)));
    var s2 := Step(g, LOST, Strand(Loop.Top([])));
    var s3 := Step(g, BACK, Completes(false));
    var written := [Completes(false)] + ([Completes(false)] + []);
    var again := [Strand(Loop.Top([]))] + ([Strand(Loop.Connects(true, false))] + written);
    RunCons(g, SENT, Strand(Loop.Issue(QUIET)), [Strand(Loop.Sends(1))] + ([Strand(Loop.ReadFails([0, 1]))] + again));
    RunCons(g, s1, Strand(Loop.Sends(1)), [Strand(Loop.ReadFails([0, 1]))] + again);
    RunCons(g, QUEUED, Strand(Loop.ReadFails([0, 1])), again);
    RunCons(g, LOST, Strand(Loop.Top([])), [Strand(Loop.Connects(true, false))] + written);
    RunCons(g, s2, Strand(Loop.Connects(true, false)), written);
    RunCons(g, BACK, Completes(false), [Completes(false)] + []);
    RunCons(g, s3, Completes(false), []);
  }

  // ---------------------------------------------------------------- the code as shipped

  function Events(moves: seq<Move>): (es: seq<Loop.Event>)
  {
    if moves == [] then [] else (if moves[0].Strand? then [moves[0].e] else []) + Events(moves[1..])
  }

  /** All of this holds of the code as shipped in every run whose steps of the connector are clean. */
  lemma {:induction false} CleanAgrees(s: System, moves: seq<Move>)
    requires Loop.Inv(s.machine) && Shipped.CleanRun(s.machine, Events(moves))
    requires EnabledAll(FallsThrough, s, moves) && Run(FallsThrough, s, moves).machine.table.nextId <= ID_LIMIT
    ensures EnabledAll(Exclusive, s, moves) && Run(FallsThrough, s, moves) == Run(Exclusive, s, moves)
    decreases |moves|
  {
    hide Loop.Inv, Loop.Step, Loop.Enabled, Pipeline.Step, Shipped.Clean, SubmitAll;
    if moves != [] {
      var s1 := Step(FallsThrough, s, moves[0]);
      RunMonotone(FallsThrough, s1, moves[1..]);
      if moves[0].Strand? {
        var e := moves[0].e;
        assert Events(moves)[0] == e && Events(moves)[1..] == Events(moves[1..]);
        Shipped.StepRefusedIff(s.machine, e);
        Shipped.StepAgrees(s.machine, e);
        Loop.StepKeeps(s.machine, e);
      } else {
        assert [] + Events(moves[1..]) == Events(moves[1..]);
      }
      CleanAgrees(s1, moves[1..]);
    }
  }
}
