/** The connector's mutable state and the code that changes it, step for step the state machine of the receive loop. */
module Connector {
  import opened Requests
  import opened ReceiveLoop

  class Connector {
    const guard: Guard
    const credentials: bool
    var link: Link
    var pending: map<nat, Slot>
    var nextId: nat
    var alive: bool
    var phase: Phase
    var stopPosted: bool
    var schemaVersion: nat
    /** Every id handed out, with the handler that travels with it until it is sent. */
    var issued: map<nat, Callback>
    // the records
    ghost var unsent: set<nat>
    ghost var log: seq<Completion>
    ghost var handed: seq<nat>
    ghost var refused: nat
    ghost var iterating: bool
    ghost var disturbed: bool

    ghost function Now(): (t: Table)
      reads this
    {
      Table(link, pending, nextId, alive, issued, unsent, log, handed, refused, iterating, disturbed)
    }

    ghost function Abs(): (m: Machine)
      reads this
    {
      Machine(Now(), phase, stopPosted, credentials, schemaVersion)
    }

    /** What the request code leaves alone. */
    twostate predicate LoopUntouched()
      reads this
    {
      phase == old(phase) && stopPosted == old(stopPosted) && schemaVersion == old(schemaVersion)
    }

    constructor (g: Guard, withCredentials: bool)
      ensures guard == g && Abs() == Start(withCredentials)
    {
      guard, credentials := g, withCredentials;
      link, pending, nextId, alive := Connected, map[], 0, true;
      phase, stopPosted, schemaVersion := AtTop, false, 0;
      issued, unsent, log, handed, refused, iterating, disturbed := map[], {}, [], [], 0, false, false;
    }

    method NewId(cb: Callback) returns (id: nat)
      modifies this
      ensures id == old(nextId) % ID_LIMIT && Now() == GenerateId(old(Now()), cb) && LoopUntouched()
    {
      id := nextId % ID_LIMIT;
      nextId := nextId + 1;
      issued := issued[id := cb];
    }

    method Insert(id: nat, slot: Slot)
      modifies this
      ensures Now() == Register(old(Now()), id, slot) && LoopUntouched()
    {
      if id !in pending {
        pending := pending[id := slot];
        disturbed := disturbed || iterating;
      }
      handed := handed + [id];
    }

    method SendRequest(id: nat, cb: Callback)
      modifies this
      ensures Now() == Send(guard, old(Now()), id, cb) && LoopUntouched()
      decreases cb, 1
    {
      var handler := Live(cb);
      if link != Connected {
        refused := refused + 1;
        Invoke(id, cb, NotConnected);
        handler := Spent;
        if guard == Exclusive {
          return;
        }
      }
      Insert(id, handler);
    }

    /** Calls a handler and plays what it does. */
    method Invoke(id: nat, cb: Callback, outcome: Outcome)
      modifies this
      ensures Now() == Complete(guard, old(Now()), id, cb, outcome) && LoopUntouched()
      decreases cb, 0
    {
      hide RequestAll;
      log := log + [Completion(id, outcome)];
      if alive {
        RequestEach(if outcome.Reply? then cb.onReply else cb.onError);
      }
    }

    method RequestEach(cbs: seq<Callback>)
      modifies this
      ensures Now() == RequestAll(guard, old(Now()), cbs) && LoopUntouched()
      decreases cbs
    {
      hide Send;
      for i := 0 to |cbs|
        invariant LoopUntouched()
        invariant RequestAll(guard, old(Now()), cbs) == RequestAll(guard, Now(), cbs[i..])
      {
        hide Send;
        var id := NewId(cbs[i]);
        SendRequest(id, cbs[i]);
        assert cbs[i..][0] == cbs[i] && cbs[i..][1..] == cbs[i + 1..];
      }
    }

    /** A message has arrived: its handler is taken out of the table and called. */
    method OnMessage(sync: nat)
      modifies this
      ensures Now() == Deliver(guard, old(Now()), sync) && LoopUntouched()
    {
      if sync in pending {
        var handler := pending[sync];
        pending := pending - {sync};
        if handler.Live? {
          Invoke(sync, handler.cb, Reply(sync));
        }
      }
    }

    /** Leaves the connected state, then fails everything in the table. `order` is the order the table is stored in. */
    method DoReset(order: seq<nat>) returns (threw: bool)
      modifies this
      ensures Reset(guard, old(Now()), order) == (if threw then Threw(Now()) else Finished(Now())) && LoopUntouched()
    {
      hide Visit;
      if link == Connected {
        link := Connecting;
      }
      var outcome := if link == Stopped then Canceled else BrokenPipe;
      iterating := true;
      assert Now() == Leaving(old(Now()));
      threw := CallAll(order, outcome);
      if !threw {
        pending := map[];
      }
      iterating := false;
    }

    /** The walk itself. */
    method CallAll(order: seq<nat>, outcome: Outcome) returns (threw: bool)
      modifies this
      ensures Visit(guard, old(Now()), order, outcome) == (if threw then Threw(Now()) else Finished(Now()))
      ensures LoopUntouched()
    {
      hide Complete;
      var i := 0;
      while i < |order| && order[i] in pending
        invariant 0 <= i <= |order| && LoopUntouched()
        invariant Visit(guard, old(Now()), order, outcome) == Visit(guard, Now(), order[i..], outcome)
        decreases |order| - i
      {
        hide Complete;
        var handler := pending[order[i]];
        if handler == Spent {
          return true;
        }
        pending := pending[order[i] := Spent];
        Invoke(order[i], handler.cb, outcome);
        assert order[i..][1..] == order[i + 1..];
        i := i + 1;
      }
      return false;
    }

    method ResetInTry(order: seq<nat>, next: Phase)
      modifies this
      ensures Abs() == TryReset(guard, old(Abs()), order, next)
    {
      hide Reset;
      var threw := DoReset(order);
      if !threw {
        phase := next;
        return;
      }
      threw := DoReset(order);
      phase := if threw then Crashed else AtTop;
    }

    method OnConnect(ok: bool, dropped: bool)
      modifies this
      ensures Abs() == Step(guard, old(Abs()), Connects(ok, dropped))
    {
      hide Send;
      if !ok {
        phase := AtTop;
        return;
      }
      if !alive {
        phase := Exited;
        return;
      }
      if credentials {
        var id := NewId(QUIET);
        SendRequest(id, QUIET);
        phase := AtTop;
      } else {
        link := Connected;
        phase := AwaitMessage;
      }
      if dropped {
        alive, link := false, Stopped;
      }
    }

    method OnThrow(canceled: bool, order: seq<nat>)
      modifies this
      ensures Abs() == Step(guard, old(Abs()), Throws(canceled, order))
    {
      hide Reset;
      var threw := DoReset(order);
      phase := if threw then Crashed else if canceled then Exited else AtTop;
    }

    method DispatchNow(id: nat)
      requires id in issued
      modifies this
      ensures Now() == Dispatch(guard, old(Now()), id) && LoopUntouched()
    {
      hide Send;
      unsent := unsent - {id};
      SendRequest(id, issued[id]);
    }

    /** Takes one step of the strand. */
    method Take(e: Event)
      modifies this
      ensures Abs() == Step(guard, old(Abs()), e)
    {
      hide Reset, Request, Deliver, Dispatch, TryReset;
      match e
      case Issue(cb) =>
        var id := NewId(cb);
        unsent := unsent + {id};
      case Sends(id) =>
        if id in issued {
          DispatchNow(id);
        }
      case Drop => alive, stopPosted := false, true;
      case StopRuns => link, stopPosted := Stopped, false;
      case Top(order) =>
        if link == Stopped {
          ResetInTry(order, Exited);
        } else {
          phase := if link == Connected then AwaitMessage else AwaitConnect;
        }
      case Connects(ok, dropped) => OnConnect(ok, dropped);
      case Receives(sync, version) =>
        schemaVersion := version;
        OnMessage(sync);
        phase := AtTop;
      case ReadFails(order) => ResetInTry(order, AtTop);
      case Throws(canceled, order) =>
        OnThrow(canceled, order);
    }

    /** Takes any sequence of steps; with the guard exclusive the invariant of the loop holds at the end. */
    method Play(es: seq<Event>)
      requires EnabledAll(guard, Abs(), es)
      modifies this
      ensures Abs() == Run(guard, old(Abs()), es)
      ensures guard == Exclusive && old(Inv(Abs())) && nextId <= ID_LIMIT ==> Inv(Abs())
    {
      hide Step, Inv, Enabled;
      for i := 0 to |es|
        invariant Run(guard, old(Abs()), es) == Run(guard, Abs(), es[i..])
      {
        hide Step, Inv, Enabled;
        assert es[i..][0] == es[i] && es[i..][1..] == es[i + 1..];
        Take(es[i]);
      }
      if guard == Exclusive && old(Inv(Abs())) && nextId <= ID_LIMIT {
        RunKeeps(old(Abs()), es);
      }
    }
  }
}
