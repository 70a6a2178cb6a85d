/** The request table with the not-connected branch falling through, as the code has it: where it agrees with the
    intended guard, and what goes wrong where it does not. */
module RequestsShipped {
  import opened Requests

  // ---------------------------------------------------------------- agreement

  /** As long as the branch is not taken, the two guards are the same program. */
  lemma SendAgrees(t: Table, id: nat, cb: Callback)
    requires Send(FallsThrough, t, id, cb).refused == t.refused
    ensures Send(FallsThrough, t, id, cb) == Send(Exclusive, t, id, cb)
  {
    hide Complete;
  }

  lemma RequestAgrees(t: Table, cb: Callback)
    requires Request(FallsThrough, t, cb).refused == t.refused
    ensures Request(FallsThrough, t, cb) == Request(Exclusive, t, cb)
  {
    hide Send;
    SendAgrees(GenerateId(t, cb), t.nextId % ID_LIMIT, cb);
  }

  lemma {:induction false} RequestAllAgrees(t: Table, cbs: seq<Callback>)
    requires RequestAll(FallsThrough, t, cbs).refused == t.refused
    ensures RequestAll(FallsThrough, t, cbs) == RequestAll(Exclusive, t, cbs)
    decreases |cbs|
  {
    hide Request;
    if cbs != [] {
      RequestAgrees(t, cbs[0]);
      RequestAllAgrees(Request(FallsThrough, t, cbs[0]), cbs[1..]);
    }
  }

  lemma CompleteAgrees(t: Table, id: nat, cb: Callback, outcome: Outcome)
    requires Complete(FallsThrough, t, id, cb, outcome).refused == t.refused
    ensures Complete(FallsThrough, t, id, cb, outcome) == Complete(Exclusive, t, id, cb, outcome)
  {
    hide RequestAll;
    if t.alive {
      RequestAllAgrees(t.(log := t.log + [Completion(id, outcome)]), if outcome.Reply? then cb.onReply else cb.onError);
    }
  }

  lemma DeliverAgrees(t: Table, sync: nat)
    requires Deliver(FallsThrough, t, sync).refused == t.refused
    ensures Deliver(FallsThrough, t, sync) == Deliver(Exclusive, t, sync)
  {
    hide Complete;
    if sync in t.pending && t.pending[sync].Live? {
      CompleteAgrees(t.(pending := t.pending - {sync}), sync, t.pending[sync].cb, Reply(sync));
    }
  }

  lemma {:induction false} VisitAgrees(t: Table, order: seq<nat>, outcome: Outcome)
    requires Visit(FallsThrough, t, order, outcome).table.refused == t.refused
    ensures Visit(FallsThrough, t, order, outcome) == Visit(Exclusive, t, order, outcome)
    decreases |order|
  {
    hide Complete;
    if order != [] && order[0] in t.pending && t.pending[order[0]].Live? {
      var t1 := t.(pending := t.pending[order[0] := Spent]);
      CompleteAgrees(t1, order[0], t.pending[order[0]].cb, outcome);
      VisitAgrees(Complete(FallsThrough, t1, order[0], t.pending[order[0]].cb, outcome), order[1..], outcome);
    }
  }

  lemma ResetAgrees(t: Table, order: seq<nat>)
    requires Reset(FallsThrough, t, order).table.refused == t.refused
    ensures Reset(FallsThrough, t, order) == Reset(Exclusive, t, order)
  {
    hide Visit;
    VisitAgrees(Leaving(t), order, ResetOutcome(t));
  }

  // ---------------------------------------------------------------- disagreement

  ghost predicate Below(t: Table)
  {
    forall id :: id in t.pending ==> id < t.nextId
  }

  /** `t'` has all entries of `t`, and new ones only from `from` on. */
  ghost predicate Grown(t: Table, t': Table, from: nat)
  {
    && (forall id :: id in t.pending ==> id in t'.pending && t'.pending[id] == t.pending[id])
    && (forall id :: id in t'.pending && id !in t.pending ==> from <= id)
    && (t.disturbed ==> t'.disturbed)
  }

  /** An empty handler sits in the table, put there during a walk if one is going on. */
  ghost predicate Tainted(t: Table)
  {
    (exists id :: id in t.pending && t.pending[id] == Spent) && (t.iterating ==> t.disturbed)
  }

  lemma {:induction false} SendTaints(t: Table, id: nat, cb: Callback)
    requires Below(t) && id < t.nextId && id !in t.pending && Send(FallsThrough, t, id, cb).nextId <= ID_LIMIT
    ensures var t' := Send(FallsThrough, t, id, cb);
            Below(t') && Grown(t, t', id) && (t'.refused > t.refused ==> Tainted(t'))
    decreases cb, 1
  {
    hide Complete;
    if t.link != Connected {
      var t1 := t.(refused := t.refused + 1);
      CompleteGrows(t1, id, cb, NotConnected);
      var t2 := Complete(FallsThrough, t1, id, cb, NotConnected);
      assert id !in t2.pending;
      assert Register(t2, id, Spent).pending[id] == Spent;
    }
  }

  lemma {:induction false} CompleteGrows(t: Table, id: nat, cb: Callback, outcome: Outcome)
    requires Below(t) && Complete(FallsThrough, t, id, cb, outcome).nextId <= ID_LIMIT
    ensures var t' := Complete(FallsThrough, t, id, cb, outcome);
            Below(t') && Grown(t, t', t.nextId) && (t'.refused > t.refused ==> Tainted(t'))
    decreases cb, 0
  {
    hide RequestAll;
    if t.alive {
      RequestAllGrows(t.(log := t.log + [Completion(id, outcome)]), if outcome.Reply? then cb.onReply else cb.onError);
    }
  }

  lemma {:induction false} RequestAllGrows(t: Table, cbs: seq<Callback>)
    requires Below(t) && RequestAll(FallsThrough, t, cbs).nextId <= ID_LIMIT
    ensures var t' := RequestAll(FallsThrough, t, cbs);
            Below(t') && Grown(t, t', t.nextId) && (t'.refused > t.refused ==> Tainted(t'))
    decreases cbs
  {
    hide Request;
    if cbs != [] {
      var t1 := Request(FallsThrough, t, cbs[0]);
      RequestGrows(t, cbs[0]);
      RequestAllGrows(t1, cbs[1..]);
      if t1.refused > t.refused {
        TaintedStays(t1, RequestAll(FallsThrough, t1, cbs[1..]));
      }
    }
  }

  lemma {:induction false} RequestGrows(t: Table, cb: Callback)
    requires Below(t) && Request(FallsThrough, t, cb).nextId <= ID_LIMIT
    ensures var t' := Request(FallsThrough, t, cb);
            Below(t') && Grown(t, t', t.nextId) && (t'.refused > t.refused ==> Tainted(t'))
    decreases cb, 2
  {
    hide Send;
    SendTaints(GenerateId(t, cb), t.nextId, cb);
  }

  lemma TaintedStays(t: Table, t': Table)
    requires Tainted(t) && Grown(t, t', t.nextId) && t'.iterating == t.iterating
    ensures Tainted(t')
  {
    var id :| id in t.pending && t.pending[id] == Spent;
    assert t'.pending[id] == Spent;
  }

  /** From `t` to `t'` handlers were called only for `id` and for requests issued meanwhile. */
  ghost predicate CallsOnly(t: Table, t': Table, id: nat)
  {
    forall i :: |t.log| <= i < |t'.log| ==> t'.log[i].id == id || t'.log[i].id >= t.nextId
  }

  lemma {:induction false} SendCalls(t: Table, id: nat, cb: Callback)
    requires Send(FallsThrough, t, id, cb).nextId <= ID_LIMIT
    ensures CallsOnly(t, Send(FallsThrough, t, id, cb), id)
    decreases cb, 1
  {
    hide Complete;
    if t.link != Connected {
      CompleteCalls(t.(refused := t.refused + 1), id, cb, NotConnected);
    }
  }

  lemma {:induction false} CompleteCalls(t: Table, id: nat, cb: Callback, outcome: Outcome)
    requires Complete(FallsThrough, t, id, cb, outcome).nextId <= ID_LIMIT
    ensures CallsOnly(t, Complete(FallsThrough, t, id, cb, outcome), id)
    decreases cb, 0
  {
    hide RequestAll;
    if t.alive {
      var cbs := if outcome.Reply? then cb.onReply else cb.onError;
      RequestAllCalls(t.(log := t.log + [Completion(id, outcome)]), cbs, t.nextId);
    }
  }

  lemma {:induction false} RequestAllCalls(t: Table, cbs: seq<Callback>, first: nat)
    requires first <= t.nextId && RequestAll(FallsThrough, t, cbs).nextId <= ID_LIMIT
    ensures forall i :: |t.log| <= i < |RequestAll(FallsThrough, t, cbs).log| ==>
                          RequestAll(FallsThrough, t, cbs).log[i].id >= first
    decreases cbs
  {
    hide Send;
    if cbs != [] {
      var t1 := Request(FallsThrough, t, cbs[0]);
      SendCalls(GenerateId(t, cbs[0]), t.nextId, cbs[0]);
      RequestAllCalls(t1, cbs[1..], first);
    }
  }

  /** A send refused while no walk is going on leaves an empty handler behind. */
  lemma DispatchTaints(t: Table, id: nat)
    requires Settled(t) && id in t.unsent && id in t.issued && Dispatch(FallsThrough, t, id).nextId <= ID_LIMIT
    requires Dispatch(FallsThrough, t, id).refused > t.refused
    ensures !Settled(Dispatch(FallsThrough, t, id))
  {
    hide Send;
    SettledBelow(t);
    SendTaints(t.(unsent := t.unsent - {id}), id, t.issued[id]);
    TaintedUnsettled(Dispatch(FallsThrough, t, id));
  }

  lemma RequestTaints(t: Table, cb: Callback)
    requires Settled(t) && Request(FallsThrough, t, cb).nextId <= ID_LIMIT
    requires Request(FallsThrough, t, cb).refused > t.refused
    ensures !Settled(Request(FallsThrough, t, cb))
  {
    SettledBelow(t);
    RequestGrows(t, cb);
    TaintedUnsettled(Request(FallsThrough, t, cb));
  }

  lemma SettledBelow(t: Table)
    requires Settled(t)
    ensures Below(t)
  {
    forall id | id in t.pending
      ensures id < t.nextId
    {
      assert Waiting(t, id);
    }
  }

  lemma TaintedUnsettled(t: Table)
    requires Tainted(t)
    ensures !Settled(t)
  {
    var id :| id in t.pending && t.pending[id] == Spent;
    assert !Waiting(t, id);
  }

  // ---------------------------------------------------------------- reset

  /** The handler under this key can be called and issues nothing. */
  ghost predicate Harmless(t: Table, id: nat)
  {
    id in t.pending && t.pending[id].Live? && (t.alive ==> t.pending[id].cb.onError == [])
  }

  lemma CompleteQuiet(t: Table, id: nat, cb: Callback, outcome: Outcome)
    requires !outcome.Reply? && (t.alive ==> cb.onError == [])
    ensures Complete(FallsThrough, t, id, cb, outcome) == t.(log := t.log + [Completion(id, outcome)])
  {
    var t1 := t.(log := t.log + [Completion(id, outcome)]);
    assert RequestAll(FallsThrough, t1, []) == t1;
  }

  lemma {:induction false} VisitHarmless(t: Table, order: seq<nat>, outcome: Outcome)
    requires !outcome.Reply? && (forall i, j :: 0 <= i < j < |order| ==> order[i] != order[j])
    requires forall id :: id in order ==> Harmless(t, id)
    ensures Visit(FallsThrough, t, order, outcome).Finished?
    ensures Visit(FallsThrough, t, order, outcome).table.disturbed == t.disturbed
    decreases |order|
  {
    if order != [] {
      var id := order[0];
      assert id in order && Harmless(t, id);
      var t2 := Complete(FallsThrough, t.(pending := t.pending[id := Spent]), id, t.pending[id].cb, outcome);
      CompleteQuiet(t.(pending := t.pending[id := Spent]), id, t.pending[id].cb, outcome);
      forall x | x in order[1..]
        ensures Harmless(t2, x)
      {
        var k :| 0 <= k < |order| - 1 && order[1..][k] == x;
        assert order[0] != order[k + 1] && x in order && Harmless(t, x);
      }
      VisitHarmless(t2, order[1..], outcome);
    }
  }

  lemma {:induction false} VisitDisturbedStays(t: Table, order: seq<nat>, outcome: Outcome)
    requires Below(t) && t.disturbed && Visit(FallsThrough, t, order, outcome).table.nextId <= ID_LIMIT
    ensures Visit(FallsThrough, t, order, outcome).table.disturbed
    decreases |order|
  {
    hide Complete;
    if order != [] && order[0] in t.pending && t.pending[order[0]].Live? {
      var t1 := t.(pending := t.pending[order[0] := Spent]);
      CompleteGrows(t1, order[0], t.pending[order[0]].cb, outcome);
      VisitDisturbedStays(Complete(FallsThrough, t1, order[0], t.pending[order[0]].cb, outcome), order[1..], outcome);
    }
  }

  lemma {:induction false} VisitHarmed(t: Table, order: seq<nat>, outcome: Outcome, bad: nat)
    requires Below(t) && t.iterating && t.link != Connected && !outcome.Reply?
    requires Visit(FallsThrough, t, order, outcome).table.nextId <= ID_LIMIT
    requires (forall id :: id in order ==> id in t.pending) && bad in order && !Harmless(t, bad)
    requires forall i, j :: 0 <= i < j < |order| ==> order[i] != order[j]
    ensures var r := Visit(FallsThrough, t, order, outcome); r.Threw? || r.table.disturbed
    decreases |order|
  {
    var id := order[0];
    assert id in order;
    if t.pending[id].Live? {
      var cb := t.pending[id].cb;
      var t1 := t.(pending := t.pending[id := Spent]);
      var t2 := Complete(FallsThrough, t1, id, cb, outcome);
      CompleteGrows(t1, id, cb, outcome);
      if t.alive && cb.onError != [] {
        RefusedWhenIssuing(t1, id, cb, outcome);
        VisitDisturbedStays(t2, order[1..], outcome);
      } else {
        CompleteQuiet(t1, id, cb, outcome);
        assert bad != id;
        assert bad in order[1..];
        forall x | x in order[1..]
          ensures x in t2.pending && (Harmless(t2, x) <==> Harmless(t, x))
        {
          var k :| 0 <= k < |order| - 1 && order[1..][k] == x;
          assert order[0] != order[k + 1] && x in order;
        }
        VisitHarmed(t2, order[1..], outcome, bad);
      }
    }
  }

  /** A handler that issues a request while the connection is down takes the branch. */
  lemma RefusedWhenIssuing(t: Table, id: nat, cb: Callback, outcome: Outcome)
    requires t.alive && t.link != Connected && !outcome.Reply? && cb.onError != []
    ensures Complete(FallsThrough, t, id, cb, outcome).refused > t.refused
  {
    var t1 := t.(log := t.log + [Completion(id, outcome)]);
    assert Request(FallsThrough, t1, cb.onError[0]).refused > t1.refused;
  }

  /** As shipped, reset walks an undisturbed table to its end exactly when no handler in it is empty already and none of
      them issues a request on failure. */
  lemma ResetShippedIff(t: Table, order: seq<nat>)
    requires Below(t) && !t.disturbed && Enumerates(order, t.pending.Keys)
    requires Reset(FallsThrough, t, order).table.nextId <= ID_LIMIT
    ensures Reset(FallsThrough, t, order).Finished? && !Reset(FallsThrough, t, order).table.disturbed
            <==> forall id :: id in t.pending ==> Harmless(t, id)
  {
    hide Visit;
    var t1 := Leaving(t);
    if forall id :: id in t.pending ==> Harmless(t, id) {
      forall id | id in order
        ensures Harmless(t1, id)
      {
        assert Harmless(t, id);
      }
      VisitHarmless(t1, order, ResetOutcome(t));
    } else {
      var bad :| bad in t.pending && !Harmless(t, bad);
      assert bad in order && !Harmless(t1, bad);
      VisitHarmed(t1, order, ResetOutcome(t), bad);
    }
  }

  /** A reset that threw throws again, at once, when it is repeated: the first handler of the walk is empty by now. */
  lemma ResetThrowsAgain(t: Table, order: seq<nat>)
    requires Below(t) && Enumerates(order, t.pending.Keys)
    requires Reset(FallsThrough, t, order).Threw? && Reset(FallsThrough, t, order).table.nextId <= ID_LIMIT
    ensures var t' := Reset(FallsThrough, t, order).table; Reset(FallsThrough, t', order) == Threw(t')
  {
    hide Complete;
    var t1 := Leaving(t);
    VisitSpendsFirst(t1, order, ResetOutcome(t));
  }

  lemma {:induction false} VisitGrows(t: Table, order: seq<nat>, outcome: Outcome)
    requires Below(t) && Visit(FallsThrough, t, order, outcome).table.nextId <= ID_LIMIT
    ensures forall id :: id in t.pending && t.pending[id] == Spent ==>
              var t' := Visit(FallsThrough, t, order, outcome).table; id in t'.pending && t'.pending[id] == Spent
    decreases |order|
  {
    hide Complete;
    if order != [] && order[0] in t.pending && t.pending[order[0]].Live? {
      var t1 := t.(pending := t.pending[order[0] := Spent]);
      CompleteGrows(t1, order[0], t.pending[order[0]].cb, outcome);
      VisitGrows(Complete(FallsThrough, t1, order[0], t.pending[order[0]].cb, outcome), order[1..], outcome);
    }
  }

  lemma VisitSpendsFirst(t: Table, order: seq<nat>, outcome: Outcome)
    requires Below(t) && Visit(FallsThrough, t, order, outcome).Threw?
    requires Visit(FallsThrough, t, order, outcome).table.nextId <= ID_LIMIT
    ensures order != []
    ensures var t' := Visit(FallsThrough, t, order, outcome).table;
            order[0] in t'.pending && t'.pending[order[0]] == Spent
  {
    hide Complete;
    if t.pending[order[0]].Live? {
      var t1 := t.(pending := t.pending[order[0] := Spent]);
      CompleteGrows(t1, order[0], t.pending[order[0]].cb, outcome);
      VisitGrows(Complete(FallsThrough, t1, order[0], t.pending[order[0]].cb, outcome), order[1..], outcome);
    }
  }
}
