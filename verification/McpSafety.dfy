/** What every reachable state of the concurrent server satisfies. */
module McpSafety {
  import opened McpServer

  // ----- Bookkeeping over the worker pool and the input -----

  function Count(items: seq<nat>, i: nat): nat {
    if items == [] then 0 else (if items[0] == i then 1 else 0) + Count(items[1..], i)
  }

  lemma {:induction false} CountAppend(items: seq<nat>, x: nat, i: nat)
    ensures Count(items + [x], i) == Count(items, i) + if x == i then 1 else 0
  {
    if items == [] {
      assert items + [x] == [x];
    } else {
      CountAppend(items[1..], x, i);
      assert (items + [x])[1..] == items[1..] + [x];
    }
  }

  lemma {:induction false} CountIn(items: seq<nat>, i: nat)
    ensures Count(items, i) > 0 <==> i in items
    ensures multiset(items)[i] == Count(items, i)
  {
    if items != [] {
      CountIn(items[1..], i);
      assert items == [items[0]] + items[1..];
    }
  }

  function Has(w: Worker, i: nat): nat {
    if w.Handling? && w.item == i then 1 else 0
  }

  /** How many workers have taken item `i` and not yet answered it. */
  function WorkersHave(workers: seq<Worker>, i: nat): nat {
    if workers == [] then 0 else Has(workers[0], i) + WorkersHave(workers[1..], i)
  }

  predicate Occupied(w: Worker) {
    w.Handling? || w.Writing? || w.Finishing?
  }

  function Busy(workers: seq<Worker>): nat {
    if workers == [] then 0 else (if Occupied(workers[0]) then 1 else 0) + Busy(workers[1..])
  }

  lemma {:induction false} UpdateHave(workers: seq<Worker>, k: nat, w: Worker, i: nat)
    requires k < |workers|
    ensures WorkersHave(workers[k := w], i) + Has(workers[k], i) == WorkersHave(workers, i) + Has(w, i)
  {
    if k == 0 {
      assert workers[0 := w][1..] == workers[1..];
    } else {
      UpdateHave(workers[1..], k - 1, w, i);
      assert workers[k := w][1..] == workers[1..][k - 1 := w];
    }
  }

  lemma {:induction false} UpdateBusy(workers: seq<Worker>, k: nat, w: Worker)
    requires k < |workers|
    ensures Busy(workers[k := w]) + (if Occupied(workers[k]) then 1 else 0)
         == Busy(workers) + (if Occupied(w) then 1 else 0)
  {
    if k == 0 {
      assert workers[0 := w][1..] == workers[1..];
    } else {
      UpdateBusy(workers[1..], k - 1, w);
      assert workers[k := w][1..] == workers[1..][k - 1 := w];
    }
  }

  lemma {:induction false} IdlePool(workers: seq<Worker>)
    requires Busy(workers) == 0
    ensures forall i: nat :: WorkersHave(workers, i) == 0
    ensures forall k :: 0 <= k < |workers| ==> !Occupied(workers[k])
  {
    if workers != [] {
      IdlePool(workers[1..]);
      forall k | 0 <= k < |workers| ensures !Occupied(workers[k]) {
        if k > 0 { assert workers[k] == workers[1..][k - 1]; }
      }
    }
  }

  function DispatcherHas(d: Dispatcher, i: nat): nat {
    if (d.Received? || d.Offering? || d.Awaiting? || d.Replying?) && d.item == i then 1 else 0
  }

  /** In how many places item `i` is: answered, dropped, or on its way. */
  function Places(s: State, i: nat): nat {
    Count(s.served, i) + Count(s.skipped, i) + Count(s.abandoned, i)
    + DispatcherHas(s.dispatcher, i) + Count(s.queue, i) + WorkersHave(s.workers, i)
  }

  predicate Engaged(d: Dispatcher) {
    d.Received? || d.Offering? || d.Awaiting? || d.Replying? || d.Emitting?
  }

  predicate Gone(d: Dispatcher) {
    d.Leaving? || d.Joining? || d.Returned?
  }

  function Rest(s: State): string {
    if s.lock.Locked? then s.lock.rest else ""
  }

  /** The frames of `items`, one after the other. */
  function Bytes(c: Setup, items: seq<nat>): string {
    if items == [] then "" else Bytes(c, items[..|items| - 1]) + c.Emit(items[|items| - 1])
  }

  function FinalVerdict(c: Setup): Verdict {
    if c.ending.EndOfInput? then Finished else Failed
  }

  // ----- The invariant -----

  /** Reader, channel and dispatcher pass the input on in order, losing nothing. */
  ghost predicate Pipeline(c: Setup, s: State) {
    && s.read <= |c.jobs|
    && |s.channel| <= 1
    && (s.channel != [] && s.channel[0].Deliver? ==> s.channel[0].item == s.received)
    && (s.reader.Holding? ==> s.reader.item == s.read - 1)
    && (s.received + (if s.channel != [] && s.channel[0].Deliver? then 1 else 0)
        + (if s.reader.Holding? then 1 else 0) <= s.read)
    && (!s.dispatcher.Returned? ==>
          s.received + (if s.channel != [] && s.channel[0].Deliver? then 1 else 0)
          + (if s.reader.Holding? then 1 else 0) == s.read)
    && (s.reader.HoldingError? ==> s.read == |c.jobs| && c.ending.InputError?)
    && (s.channel != [] && s.channel[0].InputFailed? ==>
          s.reader.ReaderDone? && s.read == |c.jobs| && c.ending.InputError?)
    && (s.dispatcher.Leaving? && s.dispatcher.verdict.Cancelled? ==> s.cancelled)
    && (s.dispatcher.Joining? || (s.dispatcher.Leaving? && !s.dispatcher.verdict.Cancelled?) ==> s.reader.ReaderDone?)
    && (!s.cancelled && !Gone(s.dispatcher) && s.reader.ReaderDone? ==>
          s.read == |c.jobs| && (c.ending.InputError? ==> s.channel == [InputFailed]))
    && (!s.cancelled && Gone(s.dispatcher) ==>
          s.dispatcher.verdict == FinalVerdict(c) && s.received == |c.jobs| && s.channel == [] && s.reader.ReaderDone?)
  }

  /** Every received item is in exactly one place. */
  ghost predicate Books(s: State) {
    forall i: nat :: Places(s, i) == if i < s.received then 1 else 0
  }

  /** Items are dropped only after a cancellation. */
  ghost predicate Drops(s: State) {
    && (!s.cancelled ==> s.skipped == [] && s.abandoned == [])
    && (s.abandoned != [] ==> Gone(s.dispatcher))
  }

  /** Calls go through the queue to the workers, all else stays with the dispatcher. */
  ghost predicate Kinds(c: Setup, s: State) {
    && (Engaged(s.dispatcher) ==> s.dispatcher.item + 1 == s.received)
    && (s.dispatcher.Offering? ==> c.Call(s.dispatcher.item))
    && (s.dispatcher.Awaiting? ==> c.ParseError(s.dispatcher.item))
    && (s.dispatcher.Replying? || s.dispatcher.Emitting? ==> !c.Call(s.dispatcher.item))
    && (forall i <- s.queue :: c.Call(i))
    && (forall k :: 0 <= k < |s.workers| && Occupied(s.workers[k]) ==> c.Call(s.workers[k].item))
  }

  /** The pending counter counts the accepted calls that no worker has completed. */
  ghost predicate Counting(c: Setup, s: State) {
    && |s.workers| == MAX_WORKERS
    && |s.queue| <= WORK_QUEUE_CAPACITY
    && s.pending == |s.queue| + Busy(s.workers) + (if s.dispatcher.Offering? then 1 else 0) + |s.abandoned|
    && (s.dispatcher.Replying? || s.dispatcher.Emitting? ==> c.ParseError(s.dispatcher.item) ==> s.pending == 0)
    && (forall k :: 0 <= k < |s.workers| && s.workers[k].Exited? ==> SenderDropped(s) && s.queue == [])
  }

  predicate HoldsLock(s: State, a: Actor) {
    match a
    case Main => s.dispatcher.Emitting?
    case Pool(k) => k < |s.workers| && s.workers[k].Writing?
  }

  /** Exactly the holder of the lock is in the middle of a frame. */
  ghost predicate Exclusion(s: State) {
    && (s.lock.Locked? ==> HoldsLock(s, s.lock.holder))
    && (s.dispatcher.Emitting? ==> s.lock.Locked? && s.lock.holder == Main)
    && (forall k :: 0 <= k < |s.workers| && s.workers[k].Writing? ==> s.lock.Locked? && s.lock.holder == Pool(k))
    && (s.lock.Locked? && s.lock.cleared ==> s.lock.rest != "")
  }

  /** The output is whole frames, the last one possibly unfinished; after a
      cancellation cut it off, nothing more can be written. */
  ghost predicate Output(c: Setup, s: State) {
    || s.writeFailed
    || s.written + Rest(s) == Bytes(c, s.served)
    || (s.cancelled && !(s.lock.Locked? && s.lock.cleared) && s.written <= Bytes(c, s.served))
  }

  /** Only calls are overtaken, and a parse error overtakes nothing. */
  ghost predicate Order(c: Setup, served: seq<nat>, skipped: seq<nat>) {
    && (forall p, q :: 0 <= p < q < |served| && served[q] < served[p] ==> c.Call(served[q]))
    && (forall q, i: nat :: 0 <= q < |served| && c.ParseError(served[q]) && i < served[q]
          ==> i in served[..q] || i in skipped)
  }

  /** An uncancelled server returns only when its threads have ended. */
  ghost predicate Shutdown(s: State) {
    !s.cancelled && s.dispatcher.Returned? ==> forall k :: 0 <= k < |s.workers| ==> s.workers[k].Exited?
  }

  ghost predicate Inv(c: Setup, s: State) {
    && Pipeline(c, s) && Books(s) && Drops(s) && Kinds(c, s) && Counting(c, s) && Exclusion(s) && Output(c, s)
    && Shutdown(s) && Order(c, s.served, s.skipped)
  }

  lemma InitInv(c: Setup)
    ensures Inv(c, Init())
  {
    var idle := Init().workers;
    assert idle == [Ready, Ready, Ready, Ready];
    assert Busy(idle) == 0 by {
      assert idle[1..] == [Ready, Ready, Ready];
      assert idle[1..][1..] == [Ready, Ready];
      assert idle[1..][1..][1..] == [Ready];
    }
    IdlePool(idle);
  }

  // ----- Every step keeps the invariant, thread by thread -----

  lemma ReaderPipeline(c: Setup, s: State, step: ReaderStep)
    requires Pipeline(c, s) && ReaderEnabled(s, step)
    ensures Pipeline(c, ReaderApply(c, s, step))
  {
  }

  lemma DispatcherPipeline(c: Setup, s: State, step: DispatcherStep)
    requires Pipeline(c, s) && DispatcherEnabled(s, step)
    ensures Pipeline(c, DispatcherApply(c, s, step))
  {
  }

  lemma AdvancePipeline(c: Setup, s: State, a: Actor, writing: bool)
    requires Pipeline(c, s) && (Answering(s, a).Some? || HoldsLock(s, a))
    ensures Pipeline(c, Advance(s, a, writing))
  {
  }

  /** The pipeline does not look at what the writer changes. */
  lemma PipelineFrame(c: Setup, s: State, lock: Lock, written: string, writeFailed: bool, served: seq<nat>)
    requires Pipeline(c, s)
    ensures Pipeline(c, s.(lock := lock, written := written, writeFailed := writeFailed, served := served))
  {
  }

  lemma WriterPipeline(c: Setup, s: State, step: WriterStep)
    requires Pipeline(c, s) && Exclusion(s) && WriterEnabled(c, s, step)
    ensures Pipeline(c, WriterApply(c, s, step))
  {
    hide Pipeline, Advance, Setup.Emit;
    var t := WriterApply(c, s, step);
    match step
    case Acquire(a) =>
      AdvancePipeline(c, s, a, true);
      var u := Advance(s, a, true);
      PipelineFrame(c, u, t.lock, u.written, u.writeFailed, t.served);
    case Silent(a) =>
      AdvancePipeline(c, s, a, false);
      var u := Advance(s, a, false);
      PipelineFrame(c, u, u.lock, u.written, u.writeFailed, t.served);
    case Unlock =>
      AdvancePipeline(c, s, s.lock.holder, false);
      var u := Advance(s, s.lock.holder, false);
      PipelineFrame(c, u, t.lock, u.written, u.writeFailed, u.served);
    case _ => PipelineFrame(c, s, t.lock, t.written, t.writeFailed, t.served);
  }

  lemma DispatchPlaces(c: Setup, s: State, i: nat)
    requires s.dispatcher.Received?
    ensures Places(DispatcherApply(c, s, Dispatch), i) == Places(s, i)
    ensures DispatcherApply(c, s, Dispatch).received == s.received
  {
    hide Count, WorkersHave;
  }

  lemma DispatcherPlaces(c: Setup, s: State, step: DispatcherStep, i: nat)
    requires DispatcherEnabled(s, step) && !step.Dispatch?
    requires s.channel != [] && s.channel[0].Deliver? ==> s.channel[0].item == s.received
    ensures var t := DispatcherApply(c, s, step);
            && s.received <= t.received <= s.received + 1
            && Places(t, i) == Places(s, i) + if i == s.received < t.received then 1 else 0
  {
    hide Count, WorkersHave;
    match step
    case Enqueue => CountAppend(s.queue, s.dispatcher.item, i);
    case Observe =>
      if s.dispatcher.Offering? {
        CountAppend(s.abandoned, s.dispatcher.item, i);
      } else if s.dispatcher.Awaiting? {
        CountAppend(s.skipped, s.dispatcher.item, i);
      }
    case _ =>
  }

  lemma DispatcherBooks(c: Setup, s: State, step: DispatcherStep)
    requires Books(s) && Pipeline(c, s) && DispatcherEnabled(s, step)
    ensures Books(DispatcherApply(c, s, step))
  {
    hide Places, DispatcherApply;
    var t := DispatcherApply(c, s, step);
    forall i: nat ensures Places(t, i) == if i < t.received then 1 else 0 {
      if step.Dispatch? { DispatchPlaces(c, s, i); } else { DispatcherPlaces(c, s, step, i); }
      assert Places(s, i) == if i < s.received then 1 else 0;
    }
  }

  lemma DispatcherKinds(c: Setup, s: State, step: DispatcherStep)
    requires Pipeline(c, s) && Kinds(c, s) && DispatcherEnabled(s, step)
    ensures Kinds(c, DispatcherApply(c, s, step))
  {
  }

  lemma DispatcherCounting(c: Setup, s: State, step: DispatcherStep)
    requires Drops(s) && Counting(c, s) && DispatcherEnabled(s, step)
    ensures Counting(c, DispatcherApply(c, s, step))
  {
    hide Busy, Setup.Call;
  }

  lemma DispatcherExclusion(c: Setup, s: State, step: DispatcherStep)
    requires Exclusion(s) && DispatcherEnabled(s, step)
    ensures Exclusion(DispatcherApply(c, s, step))
  {
  }

  lemma DispatcherDrops(c: Setup, s: State, step: DispatcherStep)
    requires Drops(s) && DispatcherEnabled(s, step)
    ensures Drops(DispatcherApply(c, s, step))
  {
  }

  lemma DispatcherShutdown(c: Setup, s: State, step: DispatcherStep)
    requires Shutdown(s) && Pipeline(c, s) && DispatcherEnabled(s, step)
    ensures Shutdown(DispatcherApply(c, s, step))
  {
  }

  lemma DispatcherOutput(c: Setup, s: State, step: DispatcherStep)
    requires Output(c, s) && Order(c, s.served, s.skipped) && DispatcherEnabled(s, step)
    ensures var t := DispatcherApply(c, s, step);
            Output(c, t) && Order(c, t.served, t.skipped)
  {
    hide Bytes, Setup.Call, Setup.ParseError, Order;
    var t := DispatcherApply(c, s, step);
    assert t.served == s.served && s.skipped <= t.skipped;
    MoreSkipped(c, s.served, s.skipped, t.skipped);
  }

  lemma MoreSkipped(c: Setup, served: seq<nat>, skipped: seq<nat>, more: seq<nat>)
    requires Order(c, served, skipped) && skipped <= more
    ensures Order(c, served, more)
  {
    assert forall i :: i in skipped ==> i in more;
  }

  lemma DispatcherInv(c: Setup, s: State, step: DispatcherStep)
    requires Inv(c, s) && DispatcherEnabled(s, step)
    ensures Inv(c, DispatcherApply(c, s, step))
  {
    hide Pipeline, Books, Drops, Kinds, Counting, Exclusion, Output, Shutdown, Order, DispatcherApply;
    DispatcherPipeline(c, s, step);
    DispatcherBooks(c, s, step);
    DispatcherKinds(c, s, step);
    DispatcherCounting(c, s, step);
    DispatcherExclusion(c, s, step);
    DispatcherDrops(c, s, step);
    DispatcherShutdown(c, s, step);
    DispatcherOutput(c, s, step);
  }

  lemma PoolBooks(s: State, step: PoolStep)
    requires Books(s) && PoolEnabled(s, step)
    ensures Books(PoolApply(s, step))
  {
    var t := PoolApply(s, step);
    forall i: nat ensures Places(t, i) == if i < t.received then 1 else 0 {
      assert Places(s, i) == if i < s.received then 1 else 0;
      UpdateHave(s.workers, step.k, t.workers[step.k], i);
      if step.Take? { CountAppend(s.skipped, s.queue[0], i); }
    }
  }

  lemma PoolKinds(c: Setup, s: State, step: PoolStep)
    requires Kinds(c, s) && PoolEnabled(s, step)
    ensures Kinds(c, PoolApply(s, step))
  {
  }

  lemma PoolCounting(c: Setup, s: State, step: PoolStep)
    requires Counting(c, s) && PoolEnabled(s, step)
    ensures Counting(c, PoolApply(s, step))
  {
    UpdateBusy(s.workers, step.k, PoolApply(s, step).workers[step.k]);
  }

  lemma PoolRest(c: Setup, s: State, step: PoolStep)
    requires Pipeline(c, s) && Drops(s) && Output(c, s) && Order(c, s.served, s.skipped) && PoolEnabled(s, step)
    ensures var t := PoolApply(s, step);
            Pipeline(c, t) && Drops(t) && Output(c, t) && Order(c, t.served, t.skipped)
  {
    hide Bytes;
  }

  lemma PoolExclusion(s: State, step: PoolStep)
    requires Exclusion(s) && Shutdown(s) && PoolEnabled(s, step)
    ensures Exclusion(PoolApply(s, step)) && Shutdown(PoolApply(s, step))
  {
  }

  lemma PoolInv(c: Setup, s: State, step: PoolStep)
    requires Inv(c, s) && PoolEnabled(s, step)
    ensures Inv(c, PoolApply(s, step))
  {
    hide Pipeline, Books, Drops, Kinds, Counting, Exclusion, Output, Shutdown, Order, PoolApply;
    PoolBooks(s, step);
    PoolKinds(c, s, step);
    PoolCounting(c, s, step);
    PoolRest(c, s, step);
    PoolExclusion(s, step);
  }

  lemma BytesAppend(c: Setup, items: seq<nat>, i: nat)
    ensures Bytes(c, items + [i]) == Bytes(c, items) + c.Emit(i)
  {
    assert (items + [i])[..|items|] == items;
  }

  lemma AdvancePlaces(s: State, a: Actor, writing: bool, i: nat)
    requires Answering(s, a).Some?
    ensures Places(Advance(s, a, writing), i) + (if Answering(s, a).value == i then 1 else 0) == Places(s, i)
  {
    if a.Pool? {
      UpdateHave(s.workers, a.index, Advance(s, a, writing).workers[a.index], i);
    }
    hide Count, WorkersHave;
  }

  lemma UnlockPlaces(s: State, i: nat)
    requires s.lock.Locked? && HoldsLock(s, s.lock.holder)
    ensures Places(Advance(s, s.lock.holder, false), i) == Places(s, i)
  {
    var a := s.lock.holder;
    if a.Pool? {
      UpdateHave(s.workers, a.index, Advance(s, a, false).workers[a.index], i);
    }
    hide Count, WorkersHave;
  }

  lemma WriterPlaces(c: Setup, s: State, step: WriterStep, i: nat)
    requires Exclusion(s) && WriterEnabled(c, s, step)
    ensures Places(WriterApply(c, s, step), i) == Places(s, i) && WriterApply(c, s, step).received == s.received
  {
    hide Count, WorkersHave, Setup.Emit;
    match step
    case Acquire(a) =>
      AdvancePlaces(s, a, true, i);
      CountAppend(s.served, Answering(s, a).value, i);
    case Silent(a) =>
      AdvancePlaces(s, a, false, i);
      CountAppend(s.served, Answering(s, a).value, i);
    case Unlock => UnlockPlaces(s, i);
    case _ =>
  }

  lemma WriterBooks(c: Setup, s: State, step: WriterStep)
    requires Books(s) && Exclusion(s) && WriterEnabled(c, s, step)
    ensures Books(WriterApply(c, s, step))
  {
    hide Places, Exclusion, WriterApply;
    var t := WriterApply(c, s, step);
    forall i: nat ensures Places(t, i) == if i < t.received then 1 else 0 {
      assert Places(s, i) == if i < s.received then 1 else 0;
      WriterPlaces(c, s, step, i);
    }
  }

  lemma WriterDrops(c: Setup, s: State, step: WriterStep)
    requires Drops(s) && Exclusion(s) && WriterEnabled(c, s, step)
    ensures Drops(WriterApply(c, s, step))
  {
  }

  lemma AdvanceKinds(c: Setup, s: State, a: Actor, writing: bool)
    requires Kinds(c, s) && (Answering(s, a).Some? || HoldsLock(s, a))
    ensures Kinds(c, Advance(s, a, writing))
  {
    hide Setup.Call, Setup.ParseError;
  }

  lemma KindsFrame(c: Setup, s: State, lock: Lock, written: string, writeFailed: bool, served: seq<nat>)
    requires Kinds(c, s)
    ensures Kinds(c, s.(lock := lock, written := written, writeFailed := writeFailed, served := served))
  {
  }

  lemma WriterKinds(c: Setup, s: State, step: WriterStep)
    requires Kinds(c, s) && Exclusion(s) && WriterEnabled(c, s, step)
    ensures Kinds(c, WriterApply(c, s, step))
  {
    hide Kinds, Advance, Setup.Emit;
    var t := WriterApply(c, s, step);
    match step
    case Acquire(a) =>
      AdvanceKinds(c, s, a, true);
      var u := Advance(s, a, true);
      KindsFrame(c, u, t.lock, u.written, u.writeFailed, t.served);
    case Silent(a) =>
      AdvanceKinds(c, s, a, false);
      var u := Advance(s, a, false);
      KindsFrame(c, u, u.lock, u.written, u.writeFailed, t.served);
    case Unlock =>
      AdvanceKinds(c, s, s.lock.holder, false);
      var u := Advance(s, s.lock.holder, false);
      KindsFrame(c, u, t.lock, u.written, u.writeFailed, u.served);
    case _ => KindsFrame(c, s, t.lock, t.written, t.writeFailed, t.served);
  }

  lemma AdvanceBusy(s: State, a: Actor, writing: bool)
    requires Answering(s, a).Some? || HoldsLock(s, a)
    ensures Busy(Advance(s, a, writing).workers) == Busy(s.workers)
  {
    if a.Pool? {
      UpdateBusy(s.workers, a.index, Advance(s, a, writing).workers[a.index]);
    }
  }

  lemma AdvanceCounting(c: Setup, s: State, a: Actor, writing: bool)
    requires Counting(c, s) && (Answering(s, a).Some? || HoldsLock(s, a))
    ensures Counting(c, Advance(s, a, writing))
  {
    hide Busy, Setup.ParseError;
    AdvanceBusy(s, a, writing);
  }

  /** The count does not look at the writer's fields. */
  lemma CountingFrame(c: Setup, s: State, lock: Lock, written: string, writeFailed: bool, served: seq<nat>)
    requires Counting(c, s)
    ensures Counting(c, s.(lock := lock, written := written, writeFailed := writeFailed, served := served))
  {
    hide Busy;
  }

  lemma WriterCounting(c: Setup, s: State, step: WriterStep)
    requires Counting(c, s) && Exclusion(s) && WriterEnabled(c, s, step)
    ensures Counting(c, WriterApply(c, s, step))
  {
    hide Counting, Advance, Setup.Emit;
    var t := WriterApply(c, s, step);
    match step
    case Acquire(a) =>
      AdvanceCounting(c, s, a, true);
      var u := Advance(s, a, true);
      CountingFrame(c, u, t.lock, u.written, u.writeFailed, t.served);
    case Silent(a) =>
      AdvanceCounting(c, s, a, false);
      var u := Advance(s, a, false);
      CountingFrame(c, u, u.lock, u.written, u.writeFailed, t.served);
    case Unlock =>
      AdvanceCounting(c, s, s.lock.holder, false);
      var u := Advance(s, s.lock.holder, false);
      CountingFrame(c, u, t.lock, u.written, u.writeFailed, u.served);
    case _ => CountingFrame(c, s, t.lock, t.written, t.writeFailed, t.served);
  }

  lemma WriterExclusion(c: Setup, s: State, step: WriterStep)
    requires Exclusion(s) && WriterEnabled(c, s, step)
    ensures Exclusion(WriterApply(c, s, step))
  {
    hide Setup.Emit;
  }

  lemma WriterOutput(c: Setup, s: State, step: WriterStep)
    requires Output(c, s) && Exclusion(s) && WriterEnabled(c, s, step)
    ensures Output(c, WriterApply(c, s, step))
  {
    hide Bytes;
    match step
    case Acquire(a) =>
      BytesAppend(c, s.served, Answering(s, a).value);
      assert s.written + "" == s.written;
    case Silent(a) =>
      BytesAppend(c, s.served, Answering(s, a).value);
      assert Bytes(c, s.served) + "" == Bytes(c, s.served);
    case InnerWrite(n) =>
      assert (s.written + s.lock.rest[..n]) + s.lock.rest[n..] == s.written + s.lock.rest;
    case _ =>
  }

  /** Everything received before the item the dispatcher holds has left its hands. */
  lemma Settled(c: Setup, s: State, i: nat)
    requires Books(s) && Kinds(c, s) && Counting(c, s) && Drops(s)
    requires s.dispatcher.Replying? && s.pending == 0 && i < s.dispatcher.item
    ensures i in s.served || i in s.skipped
  {
    IdlePool(s.workers);
    assert Places(s, i) == 1;
    CountIn(s.served, i);
    CountIn(s.skipped, i);
  }

  lemma ServedOnce(s: State, i: nat)
    requires Books(s)
    ensures i in s.served ==> i < s.received && Count(s.served, i) == 1
  {
    CountIn(s.served, i);
    assert Places(s, i) == if i < s.received then 1 else 0;
  }

  lemma AnswerOrder(c: Setup, s: State, a: Actor)
    requires Inv(c, s) && Answering(s, a).Some?
    ensures Order(c, s.served + [Answering(s, a).value], s.skipped)
  {
    var x := Answering(s, a).value;
    var served := s.served + [x];
    forall p, q | 0 <= p < q < |served| && served[q] < served[p] ensures c.Call(served[q]) {
      if q == |s.served| && a.Main? {
        ServedOnce(s, served[p]);
      }
    }
    forall q, i: nat | 0 <= q < |served| && c.ParseError(served[q]) && i < served[q]
      ensures i in served[..q] || i in s.skipped
    {
      if q == |s.served| {
        assert a.Main?;
        Settled(c, s, i);
        assert served[..q] == s.served;
      } else {
        assert served[..q] == s.served[..q];
      }
    }
  }

  lemma WriterShutdown(c: Setup, s: State, step: WriterStep)
    requires Shutdown(s) && Exclusion(s) && WriterEnabled(c, s, step)
    ensures Shutdown(WriterApply(c, s, step))
  {
  }

  lemma WriterOrder(c: Setup, s: State, step: WriterStep)
    requires Inv(c, s) && WriterEnabled(c, s, step)
    ensures Order(c, WriterApply(c, s, step).served, WriterApply(c, s, step).skipped)
  {
    match step
    case Acquire(a) => AnswerOrder(c, s, a);
    case Silent(a) => AnswerOrder(c, s, a);
    case _ =>
  }

  lemma WriterInv(c: Setup, s: State, step: WriterStep)
    requires Inv(c, s) && WriterEnabled(c, s, step)
    ensures Inv(c, WriterApply(c, s, step))
  {
    hide Pipeline, Books, Drops, Kinds, Counting, Exclusion, Output, Shutdown, Order, WriterApply;
    WriterPipeline(c, s, step);
    WriterBooks(c, s, step);
    WriterDrops(c, s, step);
    WriterKinds(c, s, step);
    WriterCounting(c, s, step);
    WriterExclusion(c, s, step);
    WriterOutput(c, s, step);
    WriterShutdown(c, s, step);
    WriterOrder(c, s, step);
  }

  lemma ReaderBooks(c: Setup, s: State, step: ReaderStep)
    requires Books(s) && ReaderEnabled(s, step)
    ensures Books(ReaderApply(c, s, step))
  {
    hide Count, WorkersHave;
    var t := ReaderApply(c, s, step);
    forall i: nat ensures Places(t, i) == if i < t.received then 1 else 0 {
      assert Places(s, i) == if i < s.received then 1 else 0;
    }
  }

  /** The rest of the invariant does not look at the reader's fields. */
  lemma ReaderFrame(c: Setup, s: State, read: nat, reader: Reader, channel: seq<Event>)
    requires Drops(s) && Kinds(c, s) && Counting(c, s) && Exclusion(s) && Output(c, s) && Shutdown(s)
    ensures var t := s.(read := read, reader := reader, channel := channel);
            Drops(t) && Kinds(c, t) && Counting(c, t) && Exclusion(t) && Output(c, t) && Shutdown(t)
  {
    hide Busy, Bytes;
  }

  lemma ReaderInv(c: Setup, s: State, step: ReaderStep)
    requires Inv(c, s) && ReaderEnabled(s, step)
    ensures Inv(c, ReaderApply(c, s, step))
  {
    hide Order, Pipeline, Books, Drops, Kinds, Counting, Exclusion, Output, Shutdown;
    ReaderPipeline(c, s, step);
    ReaderBooks(c, s, step);
    var t := ReaderApply(c, s, step);
    assert t == s.(read := t.read, reader := t.reader, channel := t.channel);
    ReaderFrame(c, s, t.read, t.reader, t.channel);
  }

  lemma CancelBooks(s: State)
    requires Books(s)
    ensures Books(s.(cancelled := true))
  {
    hide Count, WorkersHave;
    forall i: nat ensures Places(s.(cancelled := true), i) == if i < s.received then 1 else 0 {
      assert Places(s, i) == if i < s.received then 1 else 0;
    }
  }

  lemma CancelInv(c: Setup, s: State)
    requires Inv(c, s)
    ensures Inv(c, s.(cancelled := true))
  {
    CancelBooks(s);
    hide Order, Books, Busy, Bytes;
  }

  /** The invariant holds initially and every step keeps it. */
  lemma StepInv(c: Setup, s: State, step: Step)
    requires Inv(c, s) && Enabled(c, s, step)
    ensures Inv(c, Apply(c, s, step))
  {
    match step
    case ByReader(r) => ReaderInv(c, s, r);
    case ByDispatcher(d) => DispatcherInv(c, s, d);
    case ByPool(p) => PoolInv(c, s, p);
    case ByWriter(w) => WriterInv(c, s, w);
    case Cancel => CancelInv(c, s);
    hide Inv, ReaderApply, DispatcherApply, PoolApply, WriterApply;
  }
}
