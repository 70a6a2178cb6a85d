/** The receive path feeding the request table: which handlers are called with a reply, given the bytes received. */
module Serving {
  import opened Bytes
  import opened FrameParser
  import opened ReceiveBuffer
  import opened Framing
  import opened Reconnect
  import opened Requests
  import opened ReceiveLoop
  import opened Connector

  // ---------------------------------------------------------------- replies in the log

  /** The requests whose handlers were called with a reply, in order. */
  function Answered(log: seq<Completion>): (ids: seq<nat>)
  {
    if log == [] then []
    else
      var init, last := Answered(log[..|log| - 1]), log[|log| - 1];
      if last.outcome.Reply? then init + [last.id] else init
  }

  lemma AnsweredSnoc(log: seq<Completion>, c: Completion)
    ensures Answered(log + [c]) == Answered(log) + if c.outcome.Reply? then [c.id] else []
  {
    assert (log + [c])[..|log|] == log;
  }

  lemma {:induction false} SendAnswers(g: Guard, t: Table, id: nat, cb: Callback)
    ensures Answered(Send(g, t, id, cb).log) == Answered(t.log)
    decreases cb, 1
  {
    hide Complete, Answered;
    if t.link != Connected {
      CompleteAnswers(g, t.(refused := t.refused + 1), id, cb, NotConnected);
    }
  }

  lemma {:induction false} CompleteAnswers(g: Guard, t: Table, id: nat, cb: Callback, outcome: Outcome)
    ensures Answered(Complete(g, t, id, cb, outcome).log) == Answered(t.log) + if outcome.Reply? then [id] else []
    decreases cb, 0
  {
    hide RequestAll, Answered;
    AnsweredSnoc(t.log, Completion(id, outcome));
    if t.alive {
      var cbs := if outcome.Reply? then cb.onReply else cb.onError;
      RequestAllAnswers(g, t.(log := t.log + [Completion(id, outcome)]), cbs);
    }
  }

  lemma {:induction false} RequestAllAnswers(g: Guard, t: Table, cbs: seq<Callback>)
    ensures Answered(RequestAll(g, t, cbs).log) == Answered(t.log)
    decreases cbs
  {
    hide Send, Answered;
    if cbs != [] {
      SendAnswers(g, GenerateId(t, cbs[0]), t.nextId % ID_LIMIT, cbs[0]);
      RequestAllAnswers(g, Request(g, t, cbs[0]), cbs[1..]);
    }
  }

  /** A reply with this sync finds a handler that can still be called. */
  predicate Finds(t: Table, sync: nat) {
    sync in t.pending && t.pending[sync].Live?
  }

  lemma DeliverAnswers(g: Guard, t: Table, sync: nat)
    ensures Answered(Deliver(g, t, sync).log) == Answered(t.log) + if Finds(t, sync) then [sync] else []
  {
    hide Complete, Answered;
    if Finds(t, sync) {
      CompleteAnswers(g, t.(pending := t.pending - {sync}), sync, t.pending[sync].cb, Reply(sync));
    } else {
      assert Answered(t.log) + [] == Answered(t.log);
    }
  }

  lemma {:induction false} VisitAnswers(g: Guard, t: Table, order: seq<nat>, outcome: Outcome)
    requires !outcome.Reply?
    ensures Answered(Visit(g, t, order, outcome).table.log) == Answered(t.log)
    decreases |order|
  {
    hide Complete, Answered;
    if order != [] && Finds(t, order[0]) {
      var t1 := t.(pending := t.pending[order[0] := Spent]);
      CompleteAnswers(g, t1, order[0], t.pending[order[0]].cb, outcome);
      VisitAnswers(g, Complete(g, t1, order[0], t.pending[order[0]].cb, outcome), order[1..], outcome);
    }
  }

  lemma ResetAnswers(g: Guard, t: Table, order: seq<nat>)
    ensures Answered(Reset(g, t, order).table.log) == Answered(t.log)
  {
    hide Visit, Answered;
    VisitAnswers(g, Leaving(t), order, ResetOutcome(t));
  }

  lemma TryResetAnswers(g: Guard, m: Machine, order: seq<nat>, next: Phase)
    ensures Answered(TryReset(g, m, order, next).table.log) == Answered(m.table.log)
  {
    hide Reset, Answered;
    var r := Reset(g, m.table, order);
    ResetAnswers(g, m.table, order);
    if r.Threw? {
      ResetAnswers(g, r.table, order);
    }
  }

  /** What a step answers: a message that finds its handler, and nothing else. */
  function Hit(m: Machine, e: Event): (ids: seq<nat>)
  {
    if e.Receives? && Finds(m.table, e.sync) then [e.sync] else []
  }

  lemma StepAnswers(g: Guard, m: Machine, e: Event)
    ensures Answered(Step(g, m, e).table.log) == Answered(m.table.log) + Hit(m, e)
  {
    hide Send, Deliver, Reset, TryReset, Answered;
    var t := m.table;
    match e
    case Receives(sync, _) => DeliverAnswers(g, t, sync);
    case Sends(id) => if id in t.issued { SendAnswers(g, t.(unsent := t.unsent - {id}), id, t.issued[id]); }
    case Connects(_, _) => SendAnswers(g, GenerateId(t, QUIET), t.nextId % ID_LIMIT, QUIET);
    case Top(order) => TryResetAnswers(g, m, order, Exited);
    case ReadFails(order) => TryResetAnswers(g, m, order, AtTop);
    case Throws(_, order) => ResetAnswers(g, t, order);
    case _ =>
  }

  /** The messages of a run that found their handlers, in order. */
  function Hits(g: Guard, m: Machine, es: seq<Event>): (ids: seq<nat>)
    decreases |es|
  {
    if es == [] then [] else Hit(m, es[0]) + Hits(g, Step(g, m, es[0]), es[1..])
  }

  /** Over every run, the handlers called with a reply are those of the messages that found one, in order. */
  lemma {:induction false} RunAnswers(g: Guard, m: Machine, es: seq<Event>)
    ensures Answered(Run(g, m, es).table.log) == Answered(m.table.log) + Hits(g, m, es)
    decreases |es|
  {
    hide Step, Answered, Hit;
    if es != [] {
      StepAnswers(g, m, es[0]);
      RunAnswers(g, Step(g, m, es[0]), es[1..]);
    }
  }

  // ---------------------------------------------------------------- messages and their syncs

  function Syncs(es: seq<Event>): (ids: seq<nat>)
  {
    if es == [] then [] else (if es[0].Receives? then [es[0].sync] else []) + Syncs(es[1..])
  }

  ghost predicate Within(a: seq<nat>, b: seq<nat>)
  {
    a == [] || (b != [] && if a[0] == b[0] then Within(a[1..], b[1..]) || Within(a, b[1..]) else Within(a, b[1..]))
  }

  /** The messages that found handlers are some of the messages received, in the order they came. */
  lemma {:induction false} HitsWithin(g: Guard, m: Machine, es: seq<Event>)
    ensures Within(Hits(g, m, es), Syncs(es))
    decreases |es|
  {
    hide Step;
    if es != [] {
      var rest := Hits(g, Step(g, m, es[0]), es[1..]);
      HitsWithin(g, Step(g, m, es[0]), es[1..]);
      if es[0].Receives? {
        var more := [es[0].sync] + Syncs(es[1..]);
        assert more[1..] == Syncs(es[1..]);
        assert ([es[0].sync] + rest)[1..] == rest;
        assert [] + rest == rest;
      } else {
        assert [] + rest == rest && [] + Syncs(es[1..]) == Syncs(es[1..]);
      }
    }
  }

  lemma {:induction false} SyncsConcat(a: seq<Event>, b: seq<Event>)
    ensures Syncs(a + b) == Syncs(a) + Syncs(b)
  {
    if a == [] {
      assert a + b == b && [] + Syncs(b) == Syncs(b);
    } else {
      assert (a + b)[0] == a[0] && (a + b)[1..] == a[1..] + b;
      SyncsConcat(a[1..], b);
      var first := if a[0].Receives? then [a[0].sync] else [];
      assert Syncs(a + b) == first + Syncs(a[1..] + b);
      assert first + (Syncs(a[1..]) + Syncs(b)) == (first + Syncs(a[1..])) + Syncs(b);
    }
  }

  lemma {:induction false} NoSyncs(es: seq<Event>)
    requires forall e :: e in es ==> !e.Receives?
    ensures Syncs(es) == []
  {
    if es != [] {
      assert es[0] in es;
      NoSyncs(es[1..]);
    }
  }

  lemma {:induction false} RunConcat(g: Guard, m: Machine, a: seq<Event>, b: seq<Event>)
    ensures Run(g, m, a + b) == Run(g, Run(g, m, a), b)
    decreases |a|
  {
    hide Step;
    if a == [] {
      assert a + b == b;
    } else {
      assert (a + b)[0] == a[0] && (a + b)[1..] == a[1..] + b;
      RunConcat(g, Step(g, m, a[0]), a[1..], b);
    }
  }

  function SyncsOf(ms: seq<Content>): (ids: seq<nat>)
    requires forall m :: m in ms ==> m.Message?
    ensures |ids| == |ms|
  {
    seq<nat>(|ms|, i requires 0 <= i < |ms| => assert ms[i] in ms; ms[i].header.sync)
  }

  // ---------------------------------------------------------------- the loop over a stream

  method TakeAll(connector: Connector, es: seq<Event>)
    modifies connector
    ensures connector.Abs() == Run(connector.guard, old(connector.Abs()), es)
  {
    hide Step;
    for i := 0 to |es|
      invariant Run(connector.guard, old(connector.Abs()), es) == Run(connector.guard, connector.Abs(), es[i..])
    {
      hide Step;
      assert es[i..][0] == es[i] && es[i..][1..] == es[i + 1..];
      connector.Take(es[i]);
    }
  }

  /** One turn: any other steps of the connector, then a message, if one comes. */
  method Round(connector: Connector, framing: IprotoFraming, es: seq<Event>) returns (more: bool, events: seq<Event>)
    requires framing.Valid() && forall e :: e in es ==> !e.Receives?
    modifies connector
    modifies framing`largest, framing.stream`pending, framing.buffer, framing.buffer.buffer, framing.buffer.buffer.data
    ensures framing.Valid() && connector.Abs() == Run(connector.guard, old(connector.Abs()), events)
    ensures framing.buffer.buffer == old(framing.buffer.buffer)
            || (fresh(framing.buffer.buffer) && fresh(framing.buffer.buffer.data))
    ensures more ==>
              var p := Parse(old(framing.Undelivered()));
              && p.Cut? && p.content.Message? && Syncs(events) == [p.content.header.sync]
              && framing.Undelivered() == old(framing.Undelivered())[p.used..]
    ensures !more ==> Syncs(events) == [] && (framing.stream.faulty || ParseAll(old(framing.Undelivered())) == [])
  {
    hide Parse, ParseAll, IprotoFraming.Valid, IprotoFraming.Undelivered, Step, Run, Syncs, Agrees;
    TakeAll(connector, es);
    NoSyncs(es);
    var r := framing.ReceiveMessage();
    if !r.Frame? {
      NothingMore(r, old(framing.Undelivered()), framing.stream.faulty);
      return false, es;
    }
    AgreesOnFrame(r, Parse(old(framing.Undelivered())).content);
    var e := Receives(r.header.sync, r.header.schemaVersion);
    connector.Take(e);
    OneReceived(connector.guard, old(connector.Abs()), es, e);
    return true, es + [e];
  }

  /** Messages are received and delivered one after the other, with any other steps of the connector in between. For
      every stream and every chunking the messages delivered are the first ones the parser finds in the stream, all of
      them if the rounds suffice and the socket is sound; and the handlers called with a reply are those of the syncs
      that find one, in that order. */
  method Serve(connector: Connector, framing: IprotoFraming, between: seq<seq<Event>>) returns (events: seq<Event>)
    requires framing.Valid()
    requires forall es, e :: es in between && e in es ==> !e.Receives?
    modifies connector
    modifies framing`largest, framing.stream`pending, framing.buffer, framing.buffer.buffer, framing.buffer.buffer.data
    ensures framing.Valid() && connector.Abs() == Run(connector.guard, old(connector.Abs()), events)
    ensures Syncs(events) <= SyncsOf(ParseAll(old(framing.Undelivered())))
    ensures !framing.stream.faulty && |between| > |ParseAll(old(framing.Undelivered()))| ==>
              Syncs(events) == SyncsOf(ParseAll(old(framing.Undelivered())))
    ensures var hits := Hits(connector.guard, old(connector.Abs()), events);
            && Answered(connector.log) == old(Answered(connector.log)) + hits
            && Within(hits, Syncs(events))
  {
    hide Parse, ParseAll, IprotoFraming.Valid, IprotoFraming.Undelivered, Run, Syncs, Hits, Answered;
    ghost var m0, all := connector.Abs(), ParseAll(framing.Undelivered());
    ghost var done, todo := [], framing.Undelivered();
    events := [];
    assert Syncs([]) == [] && Run(connector.guard, m0, []) == m0 by { NoEvents(connector.guard, m0); }
    assert done + ParseAll(todo) == all;
    for i := 0 to |between|
      invariant framing.Valid()
      invariant framing.buffer.buffer == old(framing.buffer.buffer)
                || (fresh(framing.buffer.buffer) && fresh(framing.buffer.buffer.data))
      invariant todo == framing.Undelivered() && all == done + ParseAll(todo) && |done| == i
      invariant connector.Abs() == Run(connector.guard, m0, events)
      invariant (forall m :: m in done ==> m.Message?) && Syncs(events) == SyncsOf(done)
    {
      hide Parse, ParseAll, IprotoFraming.Valid, IprotoFraming.Undelivered, Run, Syncs, Hits, Answered;
      var more, es := Round(connector, framing, between[i]);
      RunConcat(connector.guard, m0, events, es);
      SyncsConcat(events, es);
      events := events + es;
      if !more {
        break;
      }
      ParseAllStep(done, todo);
      done, todo := done + [Parse(todo).content], todo[Parse(todo).used..];
    }
    RunAnswers(connector.guard, m0, events);
    HitsWithin(connector.guard, m0, events);
  }

  lemma AgreesOnFrame(r: Received, c: Content)
    requires r.Frame? && r.body.InBounds() && Agrees(r, c)
    ensures c.Message? && c.header == r.header
  {
  }

  /** Something other than a frame ends the messages of the stream, unless the socket is to blame. */
  lemma NothingMore(r: Received, s: seq<byte>, faulty: bool)
    requires !r.Frame? && (r.SocketFailed? ==> faulty || Parse(s).Incomplete?)
    requires !r.SocketFailed? ==> Parse(s).Cut? && Agrees(r, Parse(s).content)
    ensures faulty || ParseAll(s) == []
  {
    hide Parse;
  }

  lemma OneReceived(g: Guard, m: Machine, es: seq<Event>, e: Event)
    requires e.Receives?
    ensures Syncs(es + [e]) == Syncs(es) + [e.sync] && Run(g, m, es + [e]) == Step(g, Run(g, m, es), e)
  {
    hide Step;
    SyncsConcat(es, [e]);
    RunConcat(g, m, es, [e]);
    assert [e][1..] == [];
  }

  lemma NoEvents(g: Guard, m: Machine)
    ensures Syncs([]) == [] && Run(g, m, []) == m
  {
  }

  /** The same from the connection attempt on: the stream is the one of the peer reached, from byte 128. */
  method Session(connection: Connection, resolved: Option<seq<Attempt>>, connector: Connector,
                 between: seq<seq<Event>>)
    returns (winner: Option<nat>, events: seq<Event>)
    requires connection.framing.Valid()
    requires forall es, e :: es in between && e in es ==> !e.Receives?
    modifies connector, connection, connection.framing, connection.framing.stream
    modifies connection.framing.buffer, connection.framing.buffer.buffer, connection.framing.buffer.buffer.data
    ensures winner.Some? ==>
              && HasAddress(resolved) && winner.value < |resolved.value| && Greets(resolved.value[winner.value])
              && var messages := ParseAll(resolved.value[winner.value].sends[HELLO_SIZE..]);
              && Syncs(events) <= SyncsOf(messages)
              && (!connection.framing.stream.faulty && |between| > |messages| ==> Syncs(events) == SyncsOf(messages))
    ensures connector.Abs() == Run(connector.guard, old(connector.Abs()), events)
    ensures var hits := Hits(connector.guard, old(connector.Abs()), events);
            && Answered(connector.log) == old(Answered(connector.log)) + hits
            && Within(hits, Syncs(events))
  {
    hide ParseAll, IprotoFraming.Valid, IprotoFraming.Undelivered, Step, Run, Syncs, Hits, Answered, Missed, Greets;
    winner := connection.Connect(resolved);
    events := [];
    if winner.None? {
      NoEvents(connector.guard, connector.Abs());
      RunAnswers(connector.guard, connector.Abs(), []);
      HitsWithin(connector.guard, connector.Abs(), []);
      return;
    }
    events := Serve(connector, connection.framing, between);
  }
}
