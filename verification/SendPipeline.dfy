/** The sending side of a connection: one write at a time, everything submitted meanwhile gathered in the active half
    of a double-buffered queue and sent as the next batch. */
module SendPipeline {
  import opened Bytes

  /** Buffers are treated as values. */
  type Data = seq<byte>

  // ---------------------------------------------------------------- the double-buffered queue

  /** A vector cut back to `n` elements, where 0 stands for no limit. */
  function Shrunk<T>(v: seq<T>, n: nat): (r: seq<T>)
  {
    if n != 0 && |v| > n then v[..n] else v
  }

  class DBQueue<T> {
    const defaultSize: nat
    var active: seq<T>
    var inactive: seq<T>
    /** Everything pushed since the last clear, and the batches handed out since then. */
    ghost var pushed: seq<T>
    ghost var taken: seq<T>

    /** Whatever the capacity, what was pushed is what was handed out followed by what waits, and the last batch is
        still in place. */
    ghost predicate Valid()
      reads this
    {
      taken + active == pushed && |inactive| <= |taken| && inactive == taken[|taken| - |inactive|..]
    }

    constructor (n: nat)
      ensures Valid() && defaultSize == n && active == [] && inactive == [] && pushed == [] && taken == []
    {
      defaultSize := n;
      active, inactive, pushed, taken := [], [], [], [];
    }

    method Push(x: T)
      requires Valid()
      modifies this`active, this`pushed
      ensures Valid() && active == old(active) + [x] && pushed == old(pushed) + [x]
    {
      active := active + [x];
      pushed := pushed + [x];
      assert taken + active == old(taken + active) + [x];
    }

    /** Exchanges the halves. The shrinking step touches only the batch sent before. */
    method Swap() returns (batch: seq<T>)
      requires Valid()
      modifies this`active, this`inactive, this`taken
      ensures Valid() && batch == inactive == old(active) && active == []
      ensures taken == old(taken) + batch
    {
      inactive, active := active, inactive;
      active := Shrunk(active, defaultSize);
      active := [];
      taken := taken + inactive;
      batch := inactive;
    }

    method Clear()
      requires Valid()
      modifies this
      ensures Valid() && active == [] && inactive == [] && pushed == [] && taken == []
    {
      active := Shrunk(active, defaultSize);
      inactive := Shrunk(inactive, defaultSize);
      active, inactive := [], [];
      pushed, taken := [], [];
    }
  }

  // ---------------------------------------------------------------- the pipeline as a state machine

  /** What became of the buffers submitted between two write errors. */
  datatype Epoch<T> = Epoch(done: seq<T>, dropped: seq<T>)

  /** `history` and `submitted` only record; everything else is what the connection and the socket hold. */
  datatype Pipe<T> = Pipe(
    sending: bool,
    active: seq<T>,
    batch: seq<T>,         // the queue's inactive half
    flight: seq<T>,        // the buffers of the write in progress
    fromQueue: bool,       // whether that write was started from the queue
    done: seq<T>,          // buffers written since the last write error
    history: seq<Epoch<T>>,
    submitted: seq<T>)

  datatype Event<T> = Submit(d: T) | Written | WriteFailed

  function Idle<T>(): Pipe<T>
  {
    Pipe(false, [], [], [], false, [], [], [])
  }

  /** Completions arrive only for a write that was started. */
  predicate Enabled<T>(p: Pipe<T>, e: Event<T>) {
    e.Submit? || p.sending
  }

  function StartNext<T>(p: Pipe<T>): (q: Pipe<T>)
  {
    if p.active == [] then p.(sending := false, flight := [])
    else p.(sending := true, batch := p.active, flight := p.active, fromQueue := true, active := [])
  }

  function Step<T>(p: Pipe<T>, e: Event<T>): (q: Pipe<T>)
  {
    match e
    case Submit(d) =>
      var p := p.(submitted := p.submitted + [d]);
      if p.sending then p.(active := p.active + [d])
      else p.(sending := true, flight := [d], fromQueue := false)
    case Written => StartNext(p.(done := p.done + p.flight, flight := []))
    case WriteFailed =>
      p.(sending := false, active := [], batch := [], flight := [], done := [],
         history := p.history + [Epoch(p.done, p.flight + p.active)])
  }

  function Run<T>(p: Pipe<T>, es: seq<Event<T>>): (q: Pipe<T>)
    decreases |es|
  {
    if es == [] then p else Run(Step(p, es[0]), es[1..])
  }

  predicate EnabledAll<T>(p: Pipe<T>, es: seq<Event<T>>)
    decreases |es|
  {
    es == [] || (Enabled(p, es[0]) && EnabledAll(Step(p, es[0]), es[1..]))
  }

  /** The buffers of past epochs, in order. */
  function Past<T>(history: seq<Epoch<T>>): (s: seq<T>)
  {
    if history == [] then []
    else Past(history[..|history| - 1]) + history[|history| - 1].done + history[|history| - 1].dropped
  }

  /** Every submitted buffer is accounted for exactly once and in order: written or dropped in an earlier epoch, written
      in this one, in flight, or queued. One write is in flight exactly while sending; a write from the queue has its
      vector intact; and an idle pipeline has nothing queued. */
  ghost predicate Inv<T>(p: Pipe<T>)
  {
    && p.submitted == Past(p.history) + (p.done + p.flight + p.active)
    && (p.sending <==> p.flight != [])
    && (!p.sending ==> p.active == [])
    && (p.sending && p.fromQueue ==> p.batch == p.flight)
  }

  lemma IdleInv<T>()
    ensures Inv(Idle<T>())
  {
    assert Past<T>([]) + ([] + [] + []) == [];
  }

  lemma PastSnoc<T>(history: seq<Epoch<T>>, e: Epoch<T>)
    ensures Past(history + [e]) == Past(history) + (e.done + e.dropped)
  {
    assert (history + [e])[..|history|] == history;
  }

  lemma StepKeepsInv<T>(p: Pipe<T>, e: Event<T>)
    requires Inv(p) && Enabled(p, e)
    ensures Inv(Step(p, e))
  {
    hide Past;
    match e
    case Submit(d) =>
      if p.sending {
        assert p.done + p.flight + (p.active + [d]) == (p.done + p.flight + p.active) + [d];
      } else {
        assert p.done + [d] + [] == (p.done + p.flight + p.active) + [d];
      }
    case Written =>
      assert p.done + p.flight + p.active + [] == p.done + p.flight + p.active;
    case WriteFailed =>
      PastSnoc(p.history, Epoch(p.done, p.flight + p.active));
      assert p.done + (p.flight + p.active) == p.done + p.flight + p.active;
      var past := Past(p.history) + (p.done + (p.flight + p.active));
      assert past + ([] + [] + []) == past;
  }

  /** The invariant holds after every interleaving of submissions and completions. */
  lemma {:induction false} RunKeepsInv<T>(p: Pipe<T>, es: seq<Event<T>>)
    requires Inv(p) && EnabledAll(p, es)
    ensures Inv(Run(p, es))
    decreases |es|
  {
    if es != [] {
      StepKeepsInv(p, es[0]);
      RunKeepsInv(Step(p, es[0]), es[1..]);
    }
  }

  function Submissions<T>(es: seq<Event<T>>): (s: seq<T>)
  {
    if es == [] then [] else (if es[0].Submit? then [es[0].d] else []) + Submissions(es[1..])
  }

  lemma {:induction false} RunRecordsSubmissions<T>(p: Pipe<T>, es: seq<Event<T>>)
    ensures Run(p, es).submitted == p.submitted + Submissions(es)
    decreases |es|
  {
    if es != [] {
      RunRecordsSubmissions(Step(p, es[0]), es[1..]);
    }
  }

  lemma {:induction false} NoFailureNoHistory<T>(p: Pipe<T>, es: seq<Event<T>>)
    requires forall e :: e in es ==> !e.WriteFailed?
    ensures Run(p, es).history == p.history
    decreases |es|
  {
    if es != [] {
      assert es[0] in es;
      NoFailureNoHistory(Step(p, es[0]), es[1..]);
    }
  }

  /** Up to the first write error: written, then in flight, then queued, is what was submitted, in order; nothing is
      lost, duplicated or reordered, and an idle connection has written everything. */
  lemma SentInOrder<T>(es: seq<Event<T>>)
    requires EnabledAll(Idle(), es) && forall e :: e in es ==> !e.WriteFailed?
    ensures var p := Run(Idle(), es);
            && p.done + p.flight + p.active == Submissions(es)
            && (!p.sending ==> p.done == Submissions(es))
  {
    IdleInv<T>();
    RunKeepsInv(Idle(), es);
    RunRecordsSubmissions(Idle(), es);
    NoFailureNoHistory(Idle(), es);
    var p := Run(Idle(), es);
    assert Past(p.history) + (p.done + p.flight + p.active) == p.done + p.flight + p.active;
    assert [] + Submissions(es) == Submissions(es);
  }

  // ---------------------------------------------------------------- write errors

  /** Whatever was written, in flight or queued when a write fails is settled there and then. */
  lemma ErrorLeavesNothing<T>(p: Pipe<T>)
    ensures var q := Step(p, WriteFailed);
            && !q.sending && q.flight == [] && q.active == [] && q.done == []
            && q.history == p.history + [Epoch(p.done, p.flight + p.active)] && q.submitted == p.submitted
  {
  }

  lemma {:induction false} RunAppends<T>(p: Pipe<T>, es: seq<Event<T>>, fs: seq<Event<T>>)
    ensures Run(p, es + fs) == Run(Run(p, es), fs)
    ensures EnabledAll(p, es + fs) <==> EnabledAll(p, es) && EnabledAll(Run(p, es), fs)
    decreases |es|
  {
    hide Step, Enabled;
    if es == [] {
      assert es + fs == fs;
    } else {
      assert (es + fs)[0] == es[0] && (es + fs)[1..] == es[1..] + fs;
      RunAppends(Step(p, es[0]), es[1..], fs);
    }
  }

  lemma {:induction false} HistoryGrows<T>(p: Pipe<T>, es: seq<Event<T>>)
    ensures p.history <= Run(p, es).history
    decreases |es|
  {
    if es != [] {
      HistoryGrows(Step(p, es[0]), es[1..]);
    }
  }

  lemma {:induction false} PastConcat<T>(a: seq<Epoch<T>>, b: seq<Epoch<T>>)
    ensures Past(a + b) == Past(a) + Past(b)
    decreases |b|
  {
    if b == [] {
      assert a + b == a && Past(a) + [] == Past(a);
    } else {
      hide Past;
      var init, last := b[..|b| - 1], b[|b| - 1];
      PastConcat(a, init);
      assert a + b == (a + init) + [last] && b == init + [last];
      PastSnoc(a + init, last);
      PastSnoc(init, last);
      Regrouped(Past(a), Past(init), last.done + last.dropped);
    }
  }

  /** A write error is a clean cut: what is written, dropped, in flight or queued after it is what was submitted after
      it, in order and nothing else; all that went before is settled in the epochs up to the error, the last of which
      dropped what was in flight and what was queued. */
  lemma AfterError<T>(es: seq<Event<T>>, fs: seq<Event<T>>)
    requires EnabledAll(Idle(), es + ([WriteFailed] + fs))
    ensures var p, q := Run(Idle(), es), Run(Idle(), es + ([WriteFailed] + fs));
            var n := |p.history| + 1;
            && n <= |q.history| && q.history[..n] == p.history + [Epoch(p.done, p.flight + p.active)]
            && Past(q.history[..n]) == Submissions(es)
            && Past(q.history[n..]) + (q.done + q.flight + q.active) == Submissions(fs)
  {
    hide Past, Run, EnabledAll, Step, Inv, Submissions;
    var p := Run(Idle(), es);
    var cut := Step(p, WriteFailed);
    RunAppends(Idle(), es, [WriteFailed] + fs);
    AfterErrorRun(p, fs);
    var q := Run(cut, fs);
    IdleInv<T>();
    RunKeepsInv(Idle(), es);
    StepKeepsInv(p, WriteFailed);
    ErrorLeavesNothing(p);
    RunRecordsSubmissions(Idle(), es);
    AfterIdle(cut, fs);
    assert Idle<T>().submitted + Submissions(es) == Submissions(es);
  }

  lemma AfterErrorRun<T>(p: Pipe<T>, fs: seq<Event<T>>)
    ensures Run(p, [WriteFailed] + fs) == Run(Step(p, WriteFailed), fs)
    ensures EnabledAll(p, [WriteFailed] + fs) ==> Enabled(p, WriteFailed) && EnabledAll(Step(p, WriteFailed), fs)
  {
    hide Step;
    assert ([WriteFailed] + fs)[0] == WriteFailed && ([WriteFailed] + fs)[1..] == fs;
  }

  lemma AfterIdle<T>(p: Pipe<T>, fs: seq<Event<T>>)
    requires Inv(p) && EnabledAll(p, fs) && p.done == [] && p.flight == [] && p.active == []
    ensures var q := Run(p, fs);
            && p.history <= q.history && Past(p.history) == p.submitted
            && Past(q.history[|p.history|..]) + (q.done + q.flight + q.active) == Submissions(fs)
  {
    hide Past, Run, EnabledAll, Submissions;
    var q := Run(p, fs);
    RunKeepsInv(p, fs);
    RunRecordsSubmissions(p, fs);
    HistoryGrows(p, fs);
    var later := q.history[|p.history|..];
    assert q.history == p.history + later;
    PastConcat(p.history, later);
    assert Past(p.history) + (p.done + p.flight + p.active) == Past(p.history);
    SameTail(Past(p.history), Past(later) + (q.done + q.flight + q.active), Submissions(fs), q.submitted);
  }

  lemma Regrouped<T>(a: seq<T>, b: seq<T>, c: seq<T>)
    ensures (a + b) + c == a + (b + c)
  {
  }

  lemma SameTail<T>(a: seq<T>, b: seq<T>, c: seq<T>, all: seq<T>)
    requires a + b == all == a + c
    ensures b == c
  {
    assert b == (a + b)[|a|..] && c == (a + c)[|a|..];
  }

  // ---------------------------------------------------------------- progress

  function Completions<T>(es: seq<Event<T>>): (n: nat)
  {
    if es == [] then 0 else (if es[0].Written? then 1 else 0) + Completions(es[1..])
  }

  /** One completed write and what was in flight is written; two, and what was queued is written as well. */
  lemma {:induction false} WrittenInTwo<T>(p: Pipe<T>, es: seq<Event<T>>)
    requires Inv(p) && EnabledAll(p, es) && forall e :: e in es ==> !e.WriteFailed?
    ensures p.done <= Run(p, es).done
    ensures Completions(es) >= 1 ==> p.done + p.flight <= Run(p, es).done
    ensures Completions(es) >= 2 ==> p.done + p.flight + p.active <= Run(p, es).done
    decreases |es|
  {
    hide Past;
    if es != [] {
      assert es[0] in es;
      var q := Step(p, es[0]);
      StepKeepsInv(p, es[0]);
      WrittenInTwo(q, es[1..]);
      if es[0].Written? {
        assert q.done == p.done + p.flight && q.done + q.flight == p.done + p.flight + p.active;
      } else if p.sending {
        assert q.done + q.flight + q.active == (p.done + p.flight + p.active) + [es[0].d];
      } else {
        assert p.done + p.flight == p.done && p.done + p.flight + p.active == p.done;
      }
    }
  }

  // ---------------------------------------------------------------- the connection

  /** `send_data`, `init_single_send`, `init_queue_send` and `on_data_sent`. */
  class Sender {
    var sending: bool
    const queue: DBQueue<Data>
    /** What the socket is writing, and the records of `Pipe`. */
    ghost var flight: seq<Data>
    ghost var fromQueue: bool
    ghost var done: seq<Data>
    ghost var history: seq<Epoch<Data>>
    ghost var submitted: seq<Data>

    ghost function Abs(): (p: Pipe<Data>)
      reads this, queue
    {
      Pipe(sending, queue.active, queue.inactive, flight, fromQueue, done, history, submitted)
    }

    ghost predicate Valid()
      reads this, queue
    {
      queue.Valid() && Inv(Abs())
    }

    constructor (capacity: nat)
      ensures Valid() && Abs() == Idle() && fresh(queue)
    {
      sending := false;
      queue := new DBQueue<Data>(capacity);
      flight, fromQueue, done, history, submitted := [], false, [], [], [];
      new;
      IdleInv<Data>();
    }

    method SendData(d: Data)
      requires Valid()
      modifies this, queue
      ensures Valid() && Abs() == Step(old(Abs()), Submit(d))
    {
      StepKeepsInv(Abs(), Submit(d));
      submitted := submitted + [d];
      if sending {
        queue.Push(d);
        return;
      }
      InitSingleSend(d);
    }

    method InitSingleSend(d: Data)
      modifies this`sending, this`flight, this`fromQueue
      ensures sending && flight == [d] && !fromQueue
    {
      sending := true;
      flight, fromQueue := [d], false;
    }

    method InitQueueSend()
      requires queue.Valid()
      modifies this`sending, this`flight, this`fromQueue, queue
      ensures queue.Valid() && sending && fromQueue
      ensures flight == queue.inactive == old(queue.active) && queue.active == []
    {
      sending := true;
      var batch := queue.Swap();
      flight, fromQueue := batch, true;
    }

    method OnDataSent(failed: bool)
      requires Valid() && sending
      modifies this, queue
      ensures Valid() && Abs() == Step(old(Abs()), if failed then WriteFailed else Written)
    {
      hide Inv, Past;
      StepKeepsInv(Abs(), if failed then WriteFailed else Written);
      sending := false;
      if failed {
        history, done := history + [Epoch(done, flight + queue.active)], [];
        queue.Clear();
      } else {
        done := done + flight;
      }
      flight := [];
      if queue.active != [] {
        InitQueueSend();
      }
    }
  }
}
