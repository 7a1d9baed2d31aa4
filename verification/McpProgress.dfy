/** Progress of the concurrent server and its agreement with the sequential one. */
module McpProgress {
  import opened McpServer
  import opened McpSafety

  /** The server has returned and none of its threads is left. */
  ghost predicate AtRest(s: State) {
    && s.dispatcher.Returned? && s.reader.ReaderDone?
    && forall k :: 0 <= k < |s.workers| ==> s.workers[k].Exited?
  }

  // ----- No deadlock -----

  lemma AnswerStep(c: Setup, s: State, a: Actor) returns (step: Step)
    requires Answering(s, a).Some? && s.lock.Unlocked?
    ensures step != Cancel && Enabled(c, s, step)
  {
    step := ByWriter(if c.Emit(Answering(s, a).value) == "" then Silent(a) else Acquire(a));
  }

  lemma LockStep(c: Setup, s: State) returns (step: Step)
    requires s.lock.Locked? && (s.lock.cleared ==> s.lock.rest != "")
    ensures step != Cancel && Enabled(c, s, step)
  {
    step := ByWriter(
      if s.lock.rest == "" then Unlock else if s.lock.cleared then InnerWrite(|s.lock.rest|) else Check);
  }

  /** With the lock free and the pool idle, the dispatcher or the reader can move. */
  lemma DispatcherMoves(c: Setup, s: State) returns (step: Step)
    requires Pipeline(c, s) && Counting(c, s) && Exclusion(s) && Drops(s) && s.lock.Unlocked? && !AtRest(s)
    requires Busy(s.workers) == 0
    requires forall k :: 0 <= k < |s.workers| ==> (s.workers[k].Ready? && s.queue == []) || s.workers[k].Exited?
    ensures step != Cancel && Enabled(c, s, step)
  {
    assert s.queue == [] by { assert (s.workers[0].Ready? && s.queue == []) || s.workers[0].Exited?; }
    match s.dispatcher
    case Polling =>
      step := if s.channel != [] then ByDispatcher(Receive)
              else if s.reader.ReaderDone? then ByDispatcher(Disconnected)
              else if s.reader.Reading? then ByReader(ReadItem) else ByReader(Send);
    case Received(_) => step := ByDispatcher(Dispatch);
    case Offering(_) => step := ByDispatcher(Enqueue);
    case Awaiting(_) => step := ByDispatcher(Released);
    case Replying(_) => step := AnswerStep(c, s, Main);
    case Leaving(_) => step := ByDispatcher(Leave);
    case Emitting(_) => assert false;
    case _ =>
      if k :| 0 <= k < |s.workers| && !s.workers[k].Exited? {
        step := ByPool(Exit(k));
      } else if s.dispatcher.Joining? {
        step := ByDispatcher(Return);
      } else {
        step := if s.reader.Reading? then ByReader(ReadItem) else ByReader(Refused);
      }
  }

  /** In every reachable state that is not at rest, cancelled or not, some
      thread can take a step: there is no deadlock. */
  lemma NoDeadlock(c: Setup, s: State) returns (step: Step)
    requires Inv(c, s) && !AtRest(s)
    ensures step != Cancel && Enabled(c, s, step)
  {
    if s.lock.Locked? {
      step := LockStep(c, s);
    } else if k :| 0 <= k < |s.workers| && s.workers[k].Handling? {
      step := AnswerStep(c, s, Pool(k));
    } else if k :| 0 <= k < |s.workers| && s.workers[k].Finishing? {
      step := ByPool(Complete(k));
    } else if k :| 0 <= k < |s.workers| && s.workers[k].Ready? && s.queue != [] {
      step := ByPool(Take(k));
    } else {
      NoneBusy(s.workers);
      step := DispatcherMoves(c, s);
    }
  }

  /** A cancelled dispatcher waits for nothing: not for a message, not for room among
      the 16 queued calls and not for calls that are not completed. In each of these
      waits it can leave at once, and reports the cancellation. */
  lemma CancellationEndsWaiting(c: Setup, s: State)
    requires s.cancelled
    requires s.dispatcher.Polling? || (s.dispatcher.Offering? && |s.queue| >= 16)
          || (s.dispatcher.Awaiting? && s.pending > 0)
    ensures Enabled(c, s, ByDispatcher(Observe))
    ensures var left := DispatcherApply(c, s, Observe).dispatcher;
            left == (if s.dispatcher.Awaiting? then Returned(Cancelled) else Leaving(Cancelled))
  {
  }

  lemma {:induction false} NoneBusy(workers: seq<Worker>)
    requires forall k :: 0 <= k < |workers| ==> !Occupied(workers[k])
    ensures Busy(workers) == 0
  {
    if workers != [] {
      assert forall k :: 0 <= k < |workers[1..]| ==> workers[1..][k] == workers[k + 1];
      NoneBusy(workers[1..]);
    }
  }

  // ----- Every step brings the run closer to its end -----

  function ReaderWeight(r: Reader): nat {
    match r
    case Reading => 6
    case Holding(_) => 17
    case HoldingError => 5
    case ReaderDone => 0
  }

  function ChannelWeight(channel: seq<Event>): nat {
    if channel == [] then 0 else if channel[0].Deliver? then 10 else 4
  }

  function DispatcherWeight(d: Dispatcher): nat {
    match d
    case Polling => 3
    case Received(_) => 12
    case Offering(_) => 11
    case Awaiting(_) => 10
    case Replying(_) => 9
    case Emitting(_) => 8
    case Leaving(_) => 2
    case Joining(_) => 1
    case Returned(_) => 0
  }

  function WorkerWeight(w: Worker): nat {
    match w
    case Ready => 1
    case Handling(_) => 7
    case Writing(_) => 6
    case Finishing(_) => 5
    case Exited => 0
  }

  function PoolWeight(workers: seq<Worker>): nat {
    if workers == [] then 0 else WorkerWeight(workers[0]) + PoolWeight(workers[1..])
  }

  lemma {:induction false} UpdateWeight(workers: seq<Worker>, k: nat, w: Worker)
    requires k < |workers|
    ensures PoolWeight(workers[k := w]) + WorkerWeight(workers[k]) == PoolWeight(workers) + WorkerWeight(w)
  {
    if k == 0 {
      assert workers[0 := w][1..] == workers[1..];
    } else {
      UpdateWeight(workers[1..], k - 1, w);
      assert workers[k := w][1..] == workers[1..][k - 1 := w];
    }
  }

  /** How many stages the unread and unfinished items still have before them. */
  function Stages(c: Setup, s: State): int {
    12 * (|c.jobs| - s.read) + ReaderWeight(s.reader) + ChannelWeight(s.channel)
    + DispatcherWeight(s.dispatcher) + 7 * |s.queue| + PoolWeight(s.workers)
  }

  function Doubt(s: State): nat {
    if s.lock.Locked? && s.lock.cleared then 0 else 1
  }

  /** The lexicographic descent: fewer stages, else fewer octets, else a check made. */
  predicate Descends(c: Setup, s: State, t: State) {
    || Stages(c, t) < Stages(c, s)
    || (Stages(c, t) == Stages(c, s)
        && (|Rest(t)| < |Rest(s)| || (|Rest(t)| == |Rest(s)| && Doubt(t) < Doubt(s))))
  }

  lemma ReaderDescends(c: Setup, s: State, step: ReaderStep)
    requires Pipeline(c, s) && ReaderEnabled(s, step)
    ensures Descends(c, s, ReaderApply(c, s, step))
  {
    hide PoolWeight;
  }

  lemma DispatcherDescends(c: Setup, s: State, step: DispatcherStep)
    requires Pipeline(c, s) && DispatcherEnabled(s, step)
    ensures Descends(c, s, DispatcherApply(c, s, step))
  {
    hide PoolWeight, Setup.Call, Setup.ParseError, Pipeline, Rest, Doubt;
    OneEvent(c, s);
  }

  lemma OneEvent(c: Setup, s: State)
    requires Pipeline(c, s)
    ensures |s.channel| <= 1
  {
  }

  lemma PoolDescends(c: Setup, s: State, step: PoolStep)
    requires PoolEnabled(s, step)
    ensures Descends(c, s, PoolApply(s, step))
  {
    UpdateWeight(s.workers, step.k, PoolApply(s, step).workers[step.k]);
    hide PoolWeight;
  }

  lemma AdvanceWeight(c: Setup, s: State, a: Actor, writing: bool)
    requires Answering(s, a).Some? || (HoldsLock(s, a) && !writing)
    ensures Stages(c, Advance(s, a, writing)) < Stages(c, s)
  {
    if a.Pool? {
      UpdateWeight(s.workers, a.index, Advance(s, a, writing).workers[a.index]);
    }
    hide PoolWeight;
  }

  lemma WriterDescends(c: Setup, s: State, step: WriterStep)
    requires Exclusion(s) && WriterEnabled(c, s, step)
    ensures Descends(c, s, WriterApply(c, s, step))
  {
    match step
    case Acquire(a) => AdvanceWeight(c, s, a, true); hide PoolWeight;
    case Silent(a) => AdvanceWeight(c, s, a, false); hide PoolWeight;
    case Unlock => AdvanceWeight(c, s, s.lock.holder, false); hide PoolWeight;
    case _ => hide PoolWeight;
  }

  /** Every step but the caller's cancellation lowers the measure. */
  lemma StepDescends(c: Setup, s: State, step: Step)
    requires Inv(c, s) && Enabled(c, s, step) && step != Cancel
    ensures Descends(c, s, Apply(c, s, step)) && 0 <= Stages(c, s)
  {
    match step
    case ByReader(r) => ReaderDescends(c, s, r);
    case ByDispatcher(d) => DispatcherDescends(c, s, d);
    case ByPool(p) => PoolDescends(c, s, p);
    case ByWriter(w) => WriterDescends(c, s, w);
    hide Descends, ReaderApply, DispatcherApply, PoolApply, WriterApply, PoolWeight;
  }

  // ----- The finished run -----

  /** The items in input order. */
  function InOrder(n: nat): seq<nat> {
    if n == 0 then [] else InOrder(n - 1) + [n - 1]
  }

  lemma {:induction false} InOrderCount(n: nat, i: nat)
    ensures Count(InOrder(n), i) == if i < n then 1 else 0
  {
    if n > 0 {
      InOrderCount(n - 1, i);
      CountAppend(InOrder(n - 1), n - 1, i);
    }
  }

  /** The whole frames written for `items`, in that order. */
  function Frames(c: Setup, items: seq<nat>): seq<string> {
    if items == [] then []
    else if c.Emit(items[|items| - 1]) == "" then Frames(c, items[..|items| - 1])
    else Frames(c, items[..|items| - 1]) + [c.Emit(items[|items| - 1])]
  }

  function Concat(frames: seq<string>): string {
    if frames == [] then "" else Concat(frames[..|frames| - 1]) + frames[|frames| - 1]
  }

  lemma {:induction false} BytesAreFrames(c: Setup, items: seq<nat>)
    ensures Concat(Frames(c, items)) == Bytes(c, items)
  {
    if items != [] {
      var front, last := items[..|items| - 1], items[|items| - 1];
      BytesAreFrames(c, front);
      if c.Emit(last) == "" {
        assert Bytes(c, front) + "" == Bytes(c, front);
      } else {
        assert (Frames(c, front) + [c.Emit(last)])[..|Frames(c, front)|] == Frames(c, front);
      }
    }
  }

  lemma {:induction false} FramesAppend(c: Setup, a: seq<nat>, b: seq<nat>)
    ensures Frames(c, a + b) == Frames(c, a) + Frames(c, b)
    decreases |b|
  {
    hide Setup.Emit;
    if b == [] {
      assert a + b == a;
    } else {
      FramesAppend(c, a, b[..|b| - 1]);
      assert (a + b)[..|a + b| - 1] == a + b[..|b| - 1];
    }
  }

  lemma FramesSplit(c: Setup, a: seq<nat>, x: nat, b: seq<nat>)
    ensures multiset(Frames(c, a + [x] + b)) == multiset(Frames(c, a + b)) + multiset(Frames(c, [x]))
  {
    hide Frames;
    FramesAppend(c, a + [x], b);
    FramesAppend(c, a, [x]);
    FramesAppend(c, a, b);
  }

  lemma RemoveFirst(a: seq<nat>, b: seq<nat>) returns (k: nat)
    requires a != [] && multiset(a) == multiset(b)
    ensures k < |b| && b[k] == a[0]
    ensures multiset(a[1..]) == multiset(b[..k] + b[k + 1..])
  {
    assert a == [a[0]] + a[1..];
    assert a[0] in multiset(b);
    k :| 0 <= k < |b| && b[k] == a[0];
    assert b == b[..k] + [a[0]] + b[k + 1..];
    assert multiset(b) == multiset(b[..k]) + multiset{a[0]} + multiset(b[k + 1..]);
    assert multiset(a[1..]) == multiset(a) - multiset{a[0]};
  }

  /** Permuting the items permutes the frames. */
  lemma {:induction false} FramesPermute(c: Setup, a: seq<nat>, b: seq<nat>)
    requires multiset(a) == multiset(b)
    ensures multiset(Frames(c, a)) == multiset(Frames(c, b))
    decreases |a|
  {
    hide Frames;
    if a == [] {
      assert |multiset(b)| == 0;
    } else {
      var k := RemoveFirst(a, b);
      FramesPermute(c, a[1..], b[..k] + b[k + 1..]);
      assert a == [] + [a[0]] + a[1..] && a[1..] == [] + a[1..];
      assert b == b[..k] + [b[k]] + b[k + 1..];
      FramesSplit(c, [], a[0], a[1..]);
      FramesSplit(c, b[..k], b[k], b[k + 1..]);
    }
  }

  /** What the concurrent server has done when it is through: the verdict of the
      input, and the frames of the sequential server in another order. */
  ghost predicate Accomplished(c: Setup, s: State) {
    && s.dispatcher == Returned(FinalVerdict(c))
    && multiset(s.served) == multiset(InOrder(|c.jobs|))
    && multiset(Frames(c, s.served)) == multiset(Frames(c, InOrder(|c.jobs|)))
    && (!s.writeFailed ==> s.written == Concat(Frames(c, s.served)))
  }

  lemma AllServed(c: Setup, s: State)
    requires Pipeline(c, s) && Books(s) && Counting(c, s) && Drops(s) && AtRest(s) && !s.cancelled
    ensures multiset(s.served) == multiset(InOrder(|c.jobs|))
  {
    NoneBusy(s.workers);
    IdlePool(s.workers);
    assert s.queue == [] by { assert s.workers[0].Exited?; }
    forall i: nat ensures multiset(s.served)[i] == multiset(InOrder(|c.jobs|))[i] {
      assert Places(s, i) == if i < |c.jobs| then 1 else 0;
      CountIn(s.served, i);
      InOrderCount(|c.jobs|, i);
      CountIn(InOrder(|c.jobs|), i);
      hide WorkersHave;
    }
  }

  lemma AllWritten(c: Setup, s: State)
    requires Exclusion(s) && Output(c, s) && AtRest(s) && !s.cancelled && !s.writeFailed
    ensures s.written == Bytes(c, s.served)
  {
    assert s.lock.Unlocked? by {
      if s.lock.Locked? { assert false; }
    }
    assert s.written + "" == s.written;
  }

  lemma RestIsComplete(c: Setup, s: State)
    requires Inv(c, s) && AtRest(s) && !s.cancelled
    ensures Accomplished(c, s)
  {
    AllServed(c, s);
    FramesPermute(c, s.served, InOrder(|c.jobs|));
    BytesAreFrames(c, s.served);
    if !s.writeFailed { AllWritten(c, s); }
    hide Books, Kinds, Counting, Exclusion, Output, Drops, Order, Frames, InOrder, Concat, Bytes;
  }

  /** A scheduler's run: one enabled step after the other, no cancellation, for
      as long as any thread is left. */
  ghost predicate Scheduled(c: Setup, run: nat -> State, choice: nat -> Step) {
    && run(0) == Init()
    && forall n: nat {:trigger choice(n)} :: if AtRest(run(n)) then run(n + 1) == run(n)
                   else choice(n) != Cancel && Enabled(c, run(n), choice(n))
                        && run(n + 1) == Apply(c, run(n), choice(n))
  }

  lemma {:induction false} ScheduledInv(c: Setup, run: nat -> State, choice: nat -> Step, n: nat)
    requires Scheduled(c, run, choice)
    ensures Inv(c, run(n)) && !run(n).cancelled
  {
    if n == 0 {
      InitInv(c);
    } else {
      ScheduledInv(c, run, choice, n - 1);
      var step := choice(n - 1);
      if !AtRest(run(n - 1)) {
        StepInv(c, run(n - 1), step);
        Uncancelled(c, run(n - 1), step);
      }
      hide Inv, Enabled, Apply, AtRest;
    }
  }

  lemma Uncancelled(c: Setup, s: State, step: Step)
    requires Enabled(c, s, step) && step != Cancel
    ensures Apply(c, s, step).cancelled == s.cancelled
  {
  }

  lemma ComesToRest(c: Setup, run: nat -> State, choice: nat -> Step, n: nat) returns (m: nat)
    requires Scheduled(c, run, choice)
    ensures AtRest(run(m))
    decreases Stages(c, run(n)), |Rest(run(n))|, Doubt(run(n))
  {
    if AtRest(run(n)) {
      m := n;
    } else {
      ScheduledInv(c, run, choice, n);
      StepDescends(c, run(n), choice(n));
      hide Inv, Enabled, Apply, Stages, Rest, Doubt;
      m := ComesToRest(c, run, choice, n + 1);
    }
  }

  /** Total correctness under every scheduler: an uncancelled server drains its
      input, returns, and has written a permutation of the sequential frames. */
  lemma EveryScheduleCompletes(c: Setup, run: nat -> State, choice: nat -> Step)
    requires Scheduled(c, run, choice)
    ensures exists m :: AtRest(run(m)) && Accomplished(c, run(m))
  {
    var m := ComesToRest(c, run, choice, 0);
    ScheduledInv(c, run, choice, m);
    RestIsComplete(c, run(m));
  }
}
