/** The request table of the connector: registering, completing and failing requests, with completion handlers that may
    issue further requests from inside the call. All of it runs on one strand. */
module Requests {

  /** The not-connected branch of `send_request` calls the handler and then goes on as if nothing had happened
      (FallsThrough, the code as shipped); it was evidently meant to return (Exclusive). */
  datatype Guard = FallsThrough | Exclusive

  /** A completion handler, as the requests it issues synchronously when called with a reply or with an error. */
  datatype Callback = Callback(onReply: seq<Callback>, onError: seq<Callback>)

  /** A handler that issues nothing. */
  const QUIET := Callback([], [])

  datatype Outcome = NotConnected | BrokenPipe | Canceled | Reply(sync: nat)

  /** A handler in the table: callable once, and empty afterwards. */
  datatype Slot = Live(cb: Callback) | Spent

  datatype Completion = Completion(id: nat, outcome: Outcome)

  datatype Link = Connecting | Connected | Stopped

  const ID_LIMIT: nat := 0x1_0000_0000_0000_0000

  datatype Table = Table(
    link: Link,
    pending: map<nat, Slot>,
    nextId: nat,
    alive: bool,                   // the Connector object still exists
    issued: map<nat, Callback>,    // every id handed out, with the handler it was issued for
    unsent: set<nat>,              // ids handed out and not yet passed to send_request
    log: seq<Completion>,          // every call of a handler, in order
    handed: seq<nat>,              // the ids whose data was passed to send_data, in order
    refused: nat,                  // how often the not-connected branch was taken
    iterating: bool,               // reset is walking over `pending`
    disturbed: bool)               // `pending` was inserted into during such a walk

  const FRESH := Table(Connected, map[], 0, true, map[], {}, [], [], 0, false, false)

  // ---------------------------------------------------------------- the code

  /** `fetch_add` on a 64-bit counter. */
  function GenerateId(t: Table, cb: Callback): (t': Table)
  {
    t.(nextId := t.nextId + 1, issued := t.issued[t.nextId % ID_LIMIT := cb])
  }

  /** `insert` leaves an existing entry alone; the data is passed on in any case. */
  function Register(t: Table, id: nat, slot: Slot): (t': Table)
  {
    var t := t.(handed := t.handed + [id]);
    if id in t.pending then t
    else t.(pending := t.pending[id := slot], disturbed := t.disturbed || t.iterating)
  }

  function Send(g: Guard, t: Table, id: nat, cb: Callback): (t': Table)
    ensures t'.nextId >= t.nextId && t'.refused >= t.refused
    ensures t'.link == t.link && t'.alive == t.alive && t'.iterating == t.iterating && t'.unsent == t.unsent
    ensures t.log <= t'.log && t.handed <= t'.handed
    decreases cb, 1
  {
    if t.link == Connected then Register(t, id, Live(cb))
    else
      var t := Complete(g, t.(refused := t.refused + 1), id, cb, NotConnected);
      if g == Exclusive then t else Register(t, id, Spent)
  }

  /** Calls a handler. It can reach the connector only while that exists. */
  function Complete(g: Guard, t: Table, id: nat, cb: Callback, outcome: Outcome): (t': Table)
    ensures t'.nextId >= t.nextId && t'.refused >= t.refused
    ensures t'.link == t.link && t'.alive == t.alive && t'.iterating == t.iterating && t'.unsent == t.unsent
    ensures t.log + [Completion(id, outcome)] <= t'.log && t.handed <= t'.handed
    decreases cb, 0
  {
    var t := t.(log := t.log + [Completion(id, outcome)]);
    if t.alive then RequestAll(g, t, if outcome.Reply? then cb.onReply else cb.onError) else t
  }

  function RequestAll(g: Guard, t: Table, cbs: seq<Callback>): (t': Table)
    ensures t'.nextId >= t.nextId && t'.refused >= t.refused
    ensures t'.link == t.link && t'.alive == t.alive && t'.iterating == t.iterating && t'.unsent == t.unsent
    ensures t.log <= t'.log && t.handed <= t'.handed
    decreases cbs
  {
    if cbs == [] then t else RequestAll(g, Request(g, t, cbs[0]), cbs[1..])
  }

  /** A new id and a send at once, as `ping`, `call` and `eval` do. */
  function Request(g: Guard, t: Table, cb: Callback): (t': Table)
    ensures t'.nextId > t.nextId && t'.refused >= t.refused
    ensures t'.link == t.link && t'.alive == t.alive && t'.iterating == t.iterating && t'.unsent == t.unsent
    ensures t.log <= t'.log && t.handed <= t'.handed
    decreases cb, 2
  {
    Send(g, GenerateId(t, cb), t.nextId % ID_LIMIT, cb)
  }

  /** Ids are the counter modulo 2^64, and a request is passed on under the id it was given. */
  lemma IdsWrap(g: Guard, t: Table, cb: Callback)
    ensures var id := t.nextId % 0x1_0000_0000_0000_0000;
            && GenerateId(t, cb).issued == t.issued[id := cb] && GenerateId(t, cb).nextId == t.nextId + 1
            && (t.link == Connected ==> Request(g, t, cb).handed == t.handed + [id])
  {
  }

  /** An id taken earlier is sent now. */
  function Dispatch(g: Guard, t: Table, id: nat): (t': Table)
    requires id in t.issued
    ensures t'.nextId >= t.nextId && t'.refused >= t.refused && t'.link == t.link && t'.alive == t.alive
    ensures t.log <= t'.log && t.handed <= t'.handed
  {
    Send(g, t.(unsent := t.unsent - {id}), id, t.issued[id])
  }

  /** A message for `sync`. An empty handler throws, and the exception is logged and dropped. */
  function Deliver(g: Guard, t: Table, sync: nat): (t': Table)
    ensures t'.nextId >= t.nextId && t'.refused >= t.refused && t'.link == t.link && t'.alive == t.alive
    ensures t.log <= t'.log && t.handed <= t'.handed
  {
    if sync !in t.pending then t
    else
      var rest := t.(pending := t.pending - {sync});
      match t.pending[sync]
      case Spent => rest
      case Live(cb) => Complete(g, rest, sync, cb, Reply(sync))
  }

  /** How a reset ends: all handlers called and the table cleared, or an empty handler throwing in the middle. */
  datatype ResetEnd = Finished(table: Table) | Threw(table: Table)

  /** The walk over the table, in whatever order it is stored. */
  function Visit(g: Guard, t: Table, order: seq<nat>, outcome: Outcome): (r: ResetEnd)
    ensures r.table.nextId >= t.nextId && r.table.refused >= t.refused
    ensures r.table.link == t.link && r.table.alive == t.alive && r.table.iterating == t.iterating
            && r.table.unsent == t.unsent
    ensures t.log <= r.table.log && t.handed <= r.table.handed
    decreases |order|
  {
    if order == [] || order[0] !in t.pending then Finished(t)
    else match t.pending[order[0]]
      case Spent => Threw(t)
      case Live(cb) =>
        Visit(g, Complete(g, t.(pending := t.pending[order[0] := Spent]), order[0], cb, outcome), order[1..], outcome)
  }

  function Leaving(t: Table): (t': Table)
  {
    t.(link := if t.link == Connected then Connecting else t.link, iterating := true)
  }

  function ResetOutcome(t: Table): Outcome
  {
    if t.link == Stopped then Canceled else BrokenPipe
  }

  function Reset(g: Guard, t: Table, order: seq<nat>): (r: ResetEnd)
    ensures r.table.link == if t.link == Stopped then Stopped else Connecting
    ensures r.table.alive == t.alive && !r.table.iterating && r.table.unsent == t.unsent
    ensures r.table.nextId >= t.nextId && r.table.refused >= t.refused
    ensures t.log <= r.table.log && t.handed <= r.table.handed
  {
    match Visit(g, Leaving(t), order, ResetOutcome(t))
    case Finished(t') => Finished(t'.(pending := map[], iterating := false))
    case Threw(t') => Threw(t'.(iterating := false))
  }

  /** `order` lists the keys of the table, each once. */
  ghost predicate Enumerates(order: seq<nat>, keys: set<nat>)
  {
    && (forall i, j :: 0 <= i < j < |order| ==> order[i] != order[j])
    && (forall id :: id in order <==> id in keys)
  }

  // ---------------------------------------------------------------- accounting

  ghost function Completed(log: seq<Completion>): (ids: set<nat>)
  {
    set c | c in log :: c.id
  }

  ghost predicate Distinct(ids: seq<nat>)
  {
    forall i, j :: 0 <= i < j < |ids| ==> ids[i] != ids[j]
  }

  ghost predicate CompletedOnce(log: seq<Completion>)
  {
    forall i, j :: 0 <= i < j < |log| ==> log[i].id != log[j].id
  }

  /** The request with this id is waiting in the table under its own handler. */
  ghost predicate Waiting(t: Table, id: nat)
  {
    id in t.pending && id in t.issued && t.pending[id] == Live(t.issued[id])
  }

  /** Every id handed out is in exactly one place: not sent yet, waiting under its own handler, or completed, once. A
      reply was given only to the request it names. No data was passed on for a request that was told it was not
      connected; the data of every request waiting was passed on, and none twice. `visited` are the entries a walk has
      called already, `moving` the id being moved from one place to another. */
  ghost predicate Accounted(t: Table, visited: set<nat>, moving: set<nat>)
  {
    var done := Completed(t.log);
    && (forall id :: id in t.issued ==> id < t.nextId)
    && (forall id :: id in t.issued <==> id in t.unsent || Waiting(t, id) || id in done || id in moving)
    && (forall id :: id in t.unsent ==> id !in t.pending && id !in done && id !in moving)
    && (forall id :: id in t.pending ==> id !in moving && if id in visited then t.pending[id] == Spent && id in done
                                                          else Waiting(t, id) && id !in done)
    && visited <= t.pending.Keys
    && moving !! done
    && CompletedOnce(t.log)
    && (forall c :: c in t.log && c.outcome.Reply? ==> c.outcome.sync == c.id)
    && (forall c :: c in t.log && c.outcome == NotConnected ==> c.id !in t.handed)
    && (forall id :: id in t.handed ==> id in t.issued && id !in t.unsent)
    && (forall id :: id in t.pending ==> id in t.handed)
    && Distinct(t.handed)
    && !t.disturbed
  }

  /** Between the steps of the strand nothing is on the move. */
  ghost predicate Settled(t: Table)
  {
    Accounted(t, {}, {}) && !t.iterating
  }

  lemma CompletedSnoc(log: seq<Completion>, c: Completion)
    ensures Completed(log + [c]) == Completed(log) + {c.id}
    ensures CompletedOnce(log) && c.id !in Completed(log) ==> CompletedOnce(log + [c])
  {
    assert forall x :: x in log + [c] <==> x in log || x == c;
    forall i | 0 <= i < |log|
      ensures log[i].id in Completed(log)
    {
      assert log[i] in log;
    }
  }

  lemma GenerateKeeps(t: Table, cb: Callback, visited: set<nat>)
    requires Accounted(t, visited, {}) && t.nextId < ID_LIMIT
    ensures Accounted(GenerateId(t, cb), visited, {t.nextId})
    ensures t.nextId !in t.handed
  {
    var t' := GenerateId(t, cb);
    forall id | id in t.pending
      ensures id != t.nextId && Waiting(t', id) == Waiting(t, id)
    {
      if id in visited {
        assert id in Completed(t.log);
      }
      assert id in t.issued;
    }
  }

  lemma RegisterKeeps(t: Table, id: nat)
    requires Accounted(t, {}, {id}) && !t.iterating && id in t.issued && id !in t.handed
    ensures Accounted(Register(t, id, Live(t.issued[id])), {}, {})
  {
    hide Completed;
    var t' := Register(t, id, Live(t.issued[id]));
    assert forall x :: Waiting(t', x) <==> Waiting(t, x) || x == id;
    assert forall c :: c in t.log ==> c.id in Completed(t.log) by { CompletedHas(t.log); }
  }

  lemma CompletedHas(log: seq<Completion>)
    ensures forall c :: c in log ==> c.id in Completed(log)
  {
  }

  /** Calling the handler of a request on the move completes that request. */
  lemma LogKeeps(t: Table, visited: set<nat>, id: nat, outcome: Outcome)
    requires Accounted(t, visited, {id})
    requires outcome.Reply? ==> outcome.sync == id
    requires outcome == NotConnected ==> id !in t.handed
    ensures Accounted(t.(log := t.log + [Completion(id, outcome)]), visited, {})
  {
    hide Completed;
    CompletedSnoc(t.log, Completion(id, outcome));
    var t' := t.(log := t.log + [Completion(id, outcome)]);
    assert forall x :: Waiting(t', x) <==> Waiting(t, x);
  }

  // ---------------------------------------------------------------- with the guard exclusive

  /** Where sends may come from: with the connection up no walk is going on. */
  ghost predicate Calm(t: Table, visited: set<nat>)
  {
    t.link == Connected ==> visited == {} && !t.iterating
  }

  lemma {:induction false} SendKeeps(t: Table, id: nat, cb: Callback, visited: set<nat>)
    requires Accounted(t, visited, {id}) && Calm(t, visited)
    requires id in t.issued && t.issued[id] == cb && id !in t.handed
    requires Send(Exclusive, t, id, cb).nextId <= ID_LIMIT
    ensures Accounted(Send(Exclusive, t, id, cb), visited, {})
    ensures t.link != Connected ==> Send(Exclusive, t, id, cb).pending == t.pending
    decreases cb, 1
  {
    hide Accounted, Complete;
    if t.link == Connected {
      RegisterKeeps(t, id);
    } else {
      var t1 := t.(refused := t.refused + 1);
      assert Accounted(t1, visited, {id}) by { RefusedIrrelevant(t, visited, {id}); }
      CompleteKeeps(t1, id, cb, NotConnected, visited);
    }
  }

  lemma RefusedIrrelevant(t: Table, visited: set<nat>, moving: set<nat>)
    requires Accounted(t, visited, moving)
    ensures Accounted(t.(refused := t.refused + 1), visited, moving)
  {
    assert forall x :: Waiting(t.(refused := t.refused + 1), x) == Waiting(t, x);
  }

  lemma {:induction false} CompleteKeeps(t: Table, id: nat, cb: Callback, outcome: Outcome, visited: set<nat>)
    requires Accounted(t, visited, {id}) && Calm(t, visited)
    requires outcome.Reply? ==> outcome.sync == id
    requires outcome == NotConnected ==> id !in t.handed
    requires Complete(Exclusive, t, id, cb, outcome).nextId <= ID_LIMIT
    ensures Accounted(Complete(Exclusive, t, id, cb, outcome), visited, {})
    ensures t.link != Connected ==> Complete(Exclusive, t, id, cb, outcome).pending == t.pending
    decreases cb, 0
  {
    hide Accounted, RequestAll;
    LogKeeps(t, visited, id, outcome);
    if t.alive {
      var cbs := if outcome.Reply? then cb.onReply else cb.onError;
      RequestAllKeeps(t.(log := t.log + [Completion(id, outcome)]), cbs, visited);
    }
  }

  lemma {:induction false} RequestAllKeeps(t: Table, cbs: seq<Callback>, visited: set<nat>)
    requires Accounted(t, visited, {}) && Calm(t, visited)
    requires RequestAll(Exclusive, t, cbs).nextId <= ID_LIMIT
    ensures Accounted(RequestAll(Exclusive, t, cbs), visited, {})
    ensures t.link != Connected ==> RequestAll(Exclusive, t, cbs).pending == t.pending
    decreases cbs
  {
    hide Accounted, Request;
    if cbs != [] {
      RequestKeeps(t, cbs[0], visited);
      RequestAllKeeps(Request(Exclusive, t, cbs[0]), cbs[1..], visited);
    }
  }

  lemma {:induction false} RequestKeeps(t: Table, cb: Callback, visited: set<nat>)
    requires Accounted(t, visited, {}) && Calm(t, visited)
    requires Request(Exclusive, t, cb).nextId <= ID_LIMIT
    ensures Accounted(Request(Exclusive, t, cb), visited, {})
    ensures t.link != Connected ==> Request(Exclusive, t, cb).pending == t.pending
    decreases cb, 2
  {
    hide Accounted, Send;
    GenerateKeeps(t, cb, visited);
    SendKeeps(GenerateId(t, cb), t.nextId, cb, visited);
  }

  lemma DispatchKeeps(t: Table, id: nat)
    requires Settled(t) && id in t.unsent && id in t.issued && Dispatch(Exclusive, t, id).nextId <= ID_LIMIT
    ensures Settled(Dispatch(Exclusive, t, id))
    ensures t.link != Connected ==> Dispatch(Exclusive, t, id).pending == t.pending
  {
    hide Send, Completed;
    var t1 := t.(unsent := t.unsent - {id});
    assert forall x :: Waiting(t1, x) == Waiting(t, x);
    assert Accounted(t1, {}, {id});
    SendKeeps(t1, id, t.issued[id], {});
  }

  lemma DeliverKeeps(t: Table, sync: nat)
    requires Settled(t) && Deliver(Exclusive, t, sync).nextId <= ID_LIMIT
    ensures Settled(Deliver(Exclusive, t, sync))
    ensures t.link != Connected ==> Deliver(Exclusive, t, sync).pending == t.pending - {sync}
  {
    hide Complete, Completed;
    if sync in t.pending {
      assert Waiting(t, sync);
      var t1 := t.(pending := t.pending - {sync});
      assert forall x :: Waiting(t1, x) <==> Waiting(t, x) && x != sync;
      assert Accounted(t1, {}, {sync});
      CompleteKeeps(t1, sync, t.issued[sync], Reply(sync), {});
    } else {
      assert t.pending - {sync} == t.pending;
    }
  }

  /** A reply calls the handler its request was issued for and completes that request; a duplicate, late or unknown one
      completes nothing. */
  lemma DeliverCompletes(g: Guard, t: Table, sync: nat)
    requires Settled(t)
    ensures sync in t.pending ==>
              && sync in t.issued
              && Deliver(g, t, sync)
                 == Complete(g, t.(pending := t.pending - {sync}), sync, t.issued[sync], Reply(sync))
    ensures sync in t.pending ==> t.log + [Completion(sync, Reply(sync))] <= Deliver(g, t, sync).log
    ensures sync !in t.pending ==> Deliver(g, t, sync) == t
  {
    hide Complete;
    if sync in t.pending {
      assert Waiting(t, sync);
    }
  }

  /** A message whose handler is empty already takes the entry out, and nothing else happens. */
  lemma DeliverToSpent(g: Guard, t: Table, sync: nat)
    requires sync in t.pending && t.pending[sync] == Spent
    ensures var t' := Deliver(g, t, sync);
            t'.pending == t.pending - {sync} && t'.log == t.log && t'.handed == t.handed && t'.nextId == t.nextId
  {
  }

  // ---------------------------------------------------------------- reset

  /** One handler of the walk is called. */
  lemma VisitOne(t: Table, id: nat, outcome: Outcome, visited: set<nat>)
    requires Accounted(t, visited, {}) && t.link != Connected
    requires id in t.pending && id !in visited && !outcome.Reply? && outcome != NotConnected
    requires Complete(Exclusive, t.(pending := t.pending[id := Spent]), id, t.issued[id], outcome).nextId <= ID_LIMIT
    ensures t.pending[id] == Live(t.issued[id])
    ensures var t' := Complete(Exclusive, t.(pending := t.pending[id := Spent]), id, t.issued[id], outcome);
            Accounted(t', visited + {id}, {}) && t'.pending == t.pending[id := Spent]
  {
    hide RequestAll;
    assert Waiting(t, id);
    var t1 := t.(pending := t.pending[id := Spent], log := t.log + [Completion(id, outcome)]);
    assert Accounted(t1, visited + {id}, {}) by { VisitLogs(t, id, outcome, visited); }
    if t.alive {
      RequestAllKeeps(t1, t.issued[id].onError, visited + {id});
    }
  }

  lemma VisitLogs(t: Table, id: nat, outcome: Outcome, visited: set<nat>)
    requires Accounted(t, visited, {}) && id in t.pending && id !in visited
    requires !outcome.Reply? && outcome != NotConnected
    ensures var t1 := t.(pending := t.pending[id := Spent], log := t.log + [Completion(id, outcome)]);
            Accounted(t1, visited + {id}, {})
  {
    hide Completed;
    CompletedSnoc(t.log, Completion(id, outcome));
    var t1 := t.(pending := t.pending[id := Spent], log := t.log + [Completion(id, outcome)]);
    assert forall x :: Waiting(t1, x) <==> Waiting(t, x) && x != id;
  }

  /** The walk calls every handler left to visit and never throws. */
  lemma {:induction false} VisitKeeps(t: Table, order: seq<nat>, outcome: Outcome, visited: set<nat>)
    requires Accounted(t, visited, {}) && t.link != Connected && !outcome.Reply? && outcome != NotConnected
    requires Enumerates(order, t.pending.Keys - visited)
    requires Visit(Exclusive, t, order, outcome).table.nextId <= ID_LIMIT
    ensures var r := Visit(Exclusive, t, order, outcome);
            && r.Finished? && Accounted(r.table, t.pending.Keys, {}) && r.table.pending.Keys == t.pending.Keys
            && forall id :: id in order ==> Completion(id, outcome) in r.table.log
    decreases |order|
  {
    hide Accounted, Complete;
    if order == [] {
      assert visited == t.pending.Keys by { VisitedAll(t, visited); }
    } else {
      var id := order[0];
      assert id in order;
      var t1 := t.(pending := t.pending[id := Spent]);
      assert id in t.issued && t.pending[id] == Live(t.issued[id]) by { VisitedNot(t, visited, id); }
      var t2 := Complete(Exclusive, t1, id, t.issued[id], outcome);
      VisitOne(t, id, outcome, visited);
      EnumeratesTail(order, t.pending.Keys - visited);
      assert t2.pending.Keys - (visited + {id}) == t.pending.Keys - visited - {id};
      VisitKeeps(t2, order[1..], outcome, visited + {id});
      assert t2.pending.Keys == t.pending.Keys;
      assert t2.log[|t.log|] == Completion(id, outcome);
      var r := Visit(Exclusive, t, order, outcome);
      assert r.table.log[|t.log|] == Completion(id, outcome);
      assert forall x :: x in order ==> x == id || x in order[1..];
    }
  }

  lemma VisitedAll(t: Table, visited: set<nat>)
    requires Accounted(t, visited, {}) && t.pending.Keys - visited == {}
    ensures visited == t.pending.Keys
  {
    assert forall x :: x in t.pending.Keys ==> x !in t.pending.Keys - visited;
  }

  lemma VisitedNot(t: Table, visited: set<nat>, id: nat)
    requires Accounted(t, visited, {}) && id in t.pending && id !in visited
    ensures id in t.issued && t.pending[id] == Live(t.issued[id])
  {
    assert Waiting(t, id);
  }

  lemma EnumeratesTail(order: seq<nat>, keys: set<nat>)
    requires order != [] && Enumerates(order, keys)
    ensures Enumerates(order[1..], keys - {order[0]})
  {
    forall id
      ensures id in order[1..] <==> id in keys - {order[0]}
    {
      if id in order[1..] {
        var k :| 0 <= k < |order| - 1 && order[1..][k] == id;
        assert order[0] != order[k + 1] && id in order;
      }
      if id in keys - {order[0]} {
        assert id in order;
      }
    }
  }

  /** Clearing the table after the walk leaves everything accounted for. */
  lemma ClearKeeps(t: Table)
    requires Accounted(t, t.pending.Keys, {})
    ensures Settled(t.(pending := map[], iterating := false))
  {
    hide Completed;
    var t' := t.(pending := map[], iterating := false);
    assert forall x :: !Waiting(t, x);
    assert forall x :: !Waiting(t', x);
  }

  /** With the guard exclusive, reset ends with an empty table, not connected, and has failed every request that was
      pending, whatever requests the handlers issue meanwhile and in whatever order the table is walked. Being settled,
      the log has each of them once. */
  lemma ResetKeeps(t: Table, order: seq<nat>)
    requires Settled(t) && Enumerates(order, t.pending.Keys)
    requires Reset(Exclusive, t, order).table.nextId <= ID_LIMIT
    ensures var r := Reset(Exclusive, t, order);
            && r.Finished? && Settled(r.table) && r.table.pending == map[]
            && forall id :: id in t.pending ==> Completion(id, ResetOutcome(t)) in r.table.log
  {
    hide Accounted, Visit;
    var t1 := Leaving(t);
    assert Accounted(t1, {}, {}) by { LeavingKeeps(t); }
    assert t1.pending.Keys - {} == t.pending.Keys;
    VisitKeeps(t1, order, ResetOutcome(t), {});
    ClearKeeps(Visit(Exclusive, t1, order, ResetOutcome(t)).table);
  }

  lemma LeavingKeeps(t: Table)
    requires Accounted(t, {}, {})
    ensures Accounted(Leaving(t), {}, {})
  {
    assert forall x :: Waiting(Leaving(t), x) == Waiting(t, x);
  }

  // ---------------------------------------------------------------- entries are never replaced

  ghost predicate Retains(t: Table, t': Table)
  {
    forall id :: id in t.pending ==> id in t'.pending && t'.pending[id] == t.pending[id]
  }

  /** Sending replaces no entry of the table, not even when ids have wrapped around and come up twice. */
  lemma {:induction false} SendRetains(g: Guard, t: Table, id: nat, cb: Callback)
    ensures Retains(t, Send(g, t, id, cb))
    decreases cb, 1
  {
    hide Complete;
    if t.link != Connected {
      CompleteRetains(g, t.(refused := t.refused + 1), id, cb, NotConnected);
    }
  }

  lemma {:induction false} CompleteRetains(g: Guard, t: Table, id: nat, cb: Callback, outcome: Outcome)
    ensures Retains(t, Complete(g, t, id, cb, outcome))
    decreases cb, 0
  {
    hide RequestAll;
    if t.alive {
      var cbs := if outcome.Reply? then cb.onReply else cb.onError;
      RequestAllRetains(g, t.(log := t.log + [Completion(id, outcome)]), cbs);
    }
  }

  lemma {:induction false} RequestAllRetains(g: Guard, t: Table, cbs: seq<Callback>)
    ensures Retains(t, RequestAll(g, t, cbs))
    decreases cbs
  {
    hide Send;
    if cbs != [] {
      SendRetains(g, GenerateId(t, cbs[0]), t.nextId % ID_LIMIT, cbs[0]);
      RequestAllRetains(g, Request(g, t, cbs[0]), cbs[1..]);
    }
  }

  // ---------------------------------------------------------------- with the connector gone

  lemma DeliverDead(g: Guard, t: Table, sync: nat)
    requires !t.alive
    ensures Deliver(g, t, sync).nextId == t.nextId
  {
  }

  /** Handlers that cannot reach the connector leave the keys alone; a walk that gets anywhere spends its first one. */
  lemma {:induction false} VisitDead(g: Guard, t: Table, order: seq<nat>, outcome: Outcome)
    requires !t.alive
    ensures var r := Visit(g, t, order, outcome);
            && r.table.nextId == t.nextId && r.table.pending.Keys == t.pending.Keys
            && (forall id :: id in t.pending && t.pending[id] == Spent ==> r.table.pending[id] == Spent)
            && (r.Threw? ==> order != [] && order[0] in t.pending && r.table.pending[order[0]] == Spent)
    decreases |order|
  {
    if order != [] && order[0] in t.pending && t.pending[order[0]].Live? {
      var t1 := t.(pending := t.pending[order[0] := Spent]);
      var t2 := Complete(g, t1, order[0], t.pending[order[0]].cb, outcome);
      assert t2.pending == t1.pending && t2.nextId == t.nextId;
      VisitDead(g, t2, order[1..], outcome);
    }
  }

  /** Without a connector a reset issues no ids, and one that threw throws again. */
  lemma ResetDead(g: Guard, t: Table, order: seq<nat>)
    requires !t.alive
    ensures var r := Reset(g, t, order);
            r.table.nextId == t.nextId && (r.Threw? ==> Reset(g, r.table, order) == r)
  {
    hide Complete;
    VisitDead(g, Leaving(t), order, ResetOutcome(t));
  }
}
