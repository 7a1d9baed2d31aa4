/** The concurrent stdio server as a state machine.

    One reader thread, a channel of capacity one, a dispatcher, a bounded work
    queue, a fixed pool of workers, the pending counter, the writer behind its
    lock and the cancellation flag. Every step is one atomic action of one
    thread; any order of enabled steps is a possible run. Polling without effect
    (a timed-out receive, a full queue) is not a step. */
module McpServer {
  import opened Common
  import opened McpProtocol

  const MAX_WORKERS: nat := 4
  const WORK_QUEUE_CAPACITY: nat := 16

  /** How the dispatcher treats an item: tool calls go to the pool, parse errors
      wait until the pool is idle, all other requests are answered at once. */
  datatype Kind = ToolCall | Inline | ParseFailure

  /** An input item as the threads see it: its kind and the octets of its answer. */
  datatype Job = Job(kind: Kind, emission: string)

  function JobOf(services: Services, item: Item): Job {
    Job(if IsCall(item) then ToolCall else if item.Malformed? then ParseFailure else Inline,
        Emission(services, item))
  }

  /** What one run is about: the items the reader decodes and how the input ends. */
  datatype Setup = Setup(jobs: seq<Job>, ending: Ending) {

    function Emit(i: nat): string {
      if i < |jobs| then jobs[i].emission else ""
    }

    predicate Call(i: nat) {
      i < |jobs| && jobs[i].kind.ToolCall?
    }

    predicate ParseError(i: nat) {
      i < |jobs| && jobs[i].kind.ParseFailure?
    }
  }

  datatype Reader = Reading | Holding(item: nat) | HoldingError | ReaderDone

  datatype Event = Deliver(item: nat) | InputFailed

  datatype Verdict = Finished | Failed | Cancelled

  datatype Dispatcher =
    | Polling
    | Received(item: nat)
    | Offering(item: nat)
    | Awaiting(item: nat)
    | Replying(item: nat)
    | Emitting(item: nat)
    | Leaving(verdict: Verdict)
    | Joining(verdict: Verdict)
    | Returned(verdict: Verdict)

  datatype Worker =
    | Ready
    | Handling(item: nat)
    | Writing(item: nat)
    | Finishing(item: nat)
    | Exited

  datatype Actor = Main | Pool(index: nat)

  /** The writer's lock. `rest` is what the holder has yet to write, `cleared`
      says that its last look at the cancellation flag allowed one inner write. */
  datatype Lock = Unlocked | Locked(holder: Actor, rest: string, cleared: bool)

  /** `served` lists the items answered so far, in the order in which their
      writers got the lock; `skipped` and `abandoned` the items dropped because
      of cancellation by a worker and by the dispatcher. They are history. */
  datatype State = State(
    read: nat,
    reader: Reader,
    channel: seq<Event>,
    received: nat,
    dispatcher: Dispatcher,
    queue: seq<nat>,
    workers: seq<Worker>,
    pending: nat,
    lock: Lock,
    written: string,
    cancelled: bool,
    writeFailed: bool,
    served: seq<nat>,
    skipped: seq<nat>,
    abandoned: seq<nat>)

  function Init(): State {
    State(0, Reading, [], 0, Polling, [], seq(MAX_WORKERS, _ => Ready), 0,
          Unlocked, "", false, false, [], [], [])
  }

  datatype ReaderStep = ReadItem | Quit | Send | Refused

  datatype DispatcherStep =
    | Receive | Disconnected | Observe | Dispatch | Enqueue | Released | Leave | Return

  datatype PoolStep = Take(k: nat) | Complete(k: nat) | Exit(k: nat)

  datatype WriterStep =
    | Acquire(a: Actor) | Silent(a: Actor) | Check | InnerWrite(count: nat) | InnerFails | Unlock

  /** One atomic action; `Cancel` is the caller's. */
  datatype Step =
    | ByReader(r: ReaderStep)
    | ByDispatcher(d: DispatcherStep)
    | ByPool(p: PoolStep)
    | ByWriter(w: WriterStep)
    | Cancel

  /** The item that actor `a` is about to answer, if it is about to answer one. */
  function Answering(s: State, a: Actor): Option<nat> {
    match a
    case Main => if s.dispatcher.Replying? then Some(s.dispatcher.item) else None
    case Pool(k) =>
      if k < |s.workers| && s.workers[k].Handling? then Some(s.workers[k].item) else None
  }

  /** `work_tx` has been dropped. */
  predicate SenderDropped(s: State) {
    s.dispatcher.Joining? || s.dispatcher.Returned?
  }

  // ----- Reader thread -----

  predicate ReaderEnabled(s: State, step: ReaderStep) {
    match step
    case ReadItem => s.reader.Reading?
    case Quit => s.reader.Reading? && s.cancelled
    case Send => (s.reader.Holding? || s.reader.HoldingError?) && s.channel == [] && !s.dispatcher.Returned?
    case Refused => (s.reader.Holding? || s.reader.HoldingError?) && s.dispatcher.Returned?
  }

  function ReaderApply(c: Setup, s: State, step: ReaderStep): State
    requires ReaderEnabled(s, step)
  {
    match step
    case ReadItem =>
      if s.read < |c.jobs| then s.(read := s.read + 1, reader := Holding(s.read))
      else if c.ending.EndOfInput? then s.(reader := ReaderDone)
      else s.(reader := HoldingError)
    case Quit => s.(reader := ReaderDone)
    case Send =>
      if s.reader.Holding? then s.(channel := [Deliver(s.reader.item)], reader := Reading)
      else s.(channel := [InputFailed], reader := ReaderDone)
    case Refused => s.(reader := ReaderDone)
  }

  // ----- Dispatcher -----

  predicate DispatcherEnabled(s: State, step: DispatcherStep) {
    match step
    case Receive => s.dispatcher.Polling? && s.channel != []
    case Disconnected => s.dispatcher.Polling? && s.channel == [] && s.reader.ReaderDone?
    case Observe => s.cancelled && (
        || s.dispatcher.Polling?
        || (s.dispatcher.Offering? && |s.queue| >= WORK_QUEUE_CAPACITY)
        || (s.dispatcher.Awaiting? && s.pending != 0))
    case Dispatch => s.dispatcher.Received?
    case Enqueue => s.dispatcher.Offering? && |s.queue| < WORK_QUEUE_CAPACITY
    case Released => s.dispatcher.Awaiting? && s.pending == 0
    case Leave => s.dispatcher.Leaving?
    case Return =>
      && s.dispatcher.Joining? && s.reader.ReaderDone?
      && forall k :: 0 <= k < |s.workers| ==> s.workers[k].Exited?
  }

  function DispatcherApply(c: Setup, s: State, step: DispatcherStep): State
    requires DispatcherEnabled(s, step)
  {
    match step
    case Receive =>
      if s.channel[0].Deliver? then
        s.(channel := s.channel[1..], received := s.received + 1, dispatcher := Received(s.channel[0].item))
      else
        s.(channel := s.channel[1..], dispatcher := Leaving(Failed))
    case Disconnected => s.(dispatcher := Leaving(if s.cancelled then Cancelled else Finished))
    case Observe =>
      if s.dispatcher.Polling? then s.(dispatcher := Leaving(Cancelled))
      else if s.dispatcher.Offering? then
        s.(dispatcher := Leaving(Cancelled), abandoned := s.abandoned + [s.dispatcher.item])
      else s.(dispatcher := Returned(Cancelled), skipped := s.skipped + [s.dispatcher.item])
    case Dispatch =>
      if c.Call(s.dispatcher.item) then s.(pending := s.pending + 1, dispatcher := Offering(s.dispatcher.item))
      else if c.ParseError(s.dispatcher.item) then s.(dispatcher := Awaiting(s.dispatcher.item))
      else s.(dispatcher := Replying(s.dispatcher.item))
    case Enqueue => s.(queue := s.queue + [s.dispatcher.item], dispatcher := Polling)
    case Released => s.(dispatcher := Replying(s.dispatcher.item))
    case Leave =>
      if !s.dispatcher.verdict.Finished? && s.cancelled then s.(dispatcher := Returned(s.dispatcher.verdict))
      else s.(dispatcher := Joining(s.dispatcher.verdict))
    case Return => s.(dispatcher := Returned(s.dispatcher.verdict))
  }

  // ----- Worker pool -----

  predicate PoolEnabled(s: State, step: PoolStep) {
    step.k < |s.workers| &&
    match step
    case Take(k) => s.workers[k].Ready? && s.queue != []
    case Complete(k) => s.workers[k].Finishing?
    case Exit(k) => s.workers[k].Ready? && s.queue == [] && SenderDropped(s)
  }

  function PoolApply(s: State, step: PoolStep): State
    requires PoolEnabled(s, step)
  {
    match step
    case Take(k) =>
      if s.cancelled then
        s.(queue := s.queue[1..], workers := s.workers[k := Finishing(s.queue[0])], skipped := s.skipped + [s.queue[0]])
      else
        s.(queue := s.queue[1..], workers := s.workers[k := Handling(s.queue[0])])
    case Complete(k) =>
      s.(workers := s.workers[k := Ready], pending := if s.pending == 0 then 0 else s.pending - 1)
    case Exit(k) => s.(workers := s.workers[k := Exited])
  }

  // ----- The locked, cancellation-aware writer -----

  predicate WriterEnabled(c: Setup, s: State, step: WriterStep) {
    match step
    case Acquire(a) => s.lock.Unlocked? && Answering(s, a).Some? && c.Emit(Answering(s, a).value) != ""
    case Silent(a) => Answering(s, a).Some? && c.Emit(Answering(s, a).value) == ""
    case Check => s.lock.Locked? && s.lock.rest != "" && !s.lock.cleared
    case InnerWrite(n) => s.lock.Locked? && s.lock.cleared && 1 <= n <= |s.lock.rest|
    case InnerFails => s.lock.Locked? && s.lock.cleared
    case Unlock => s.lock.Locked? && s.lock.rest == ""
  }

  /** Actor `a` goes on to write its frame, or is through with its item. */
  function Advance(s: State, a: Actor, writing: bool): State {
    match a
    case Main =>
      s.(dispatcher := if writing && s.dispatcher.Replying? then Emitting(s.dispatcher.item) else Polling)
    case Pool(k) =>
      if k < |s.workers| && (s.workers[k].Handling? || s.workers[k].Writing?) then
        s.(workers := s.workers[k := if writing then Writing(s.workers[k].item) else Finishing(s.workers[k].item)])
      else s
  }

  function WriterApply(c: Setup, s: State, step: WriterStep): State
    requires WriterEnabled(c, s, step)
  {
    match step
    case Acquire(a) =>
      var i := Answering(s, a).value;
      Advance(s, a, true).(lock := Locked(a, c.Emit(i), false), served := s.served + [i])
    case Silent(a) =>
      var i := Answering(s, a).value;
      Advance(s, a, false).(served := s.served + [i])
    case Check =>
      if s.cancelled then s.(lock := s.lock.(rest := "")) else s.(lock := s.lock.(cleared := true))
    case InnerWrite(n) =>
      s.(written := s.written + s.lock.rest[..n], lock := s.lock.(rest := s.lock.rest[n..], cleared := false))
    case InnerFails => s.(lock := s.lock.(rest := "", cleared := false), writeFailed := true)
    case Unlock => Advance(s, s.lock.holder, false).(lock := Unlocked)
  }

  predicate Enabled(c: Setup, s: State, step: Step) {
    match step
    case ByReader(r) => ReaderEnabled(s, r)
    case ByDispatcher(d) => DispatcherEnabled(s, d)
    case ByPool(p) => PoolEnabled(s, p)
    case ByWriter(w) => WriterEnabled(c, s, w)
    case Cancel => true
  }

  function Apply(c: Setup, s: State, step: Step): State
    requires Enabled(c, s, step)
  {
    match step
    case ByReader(r) => ReaderApply(c, s, r)
    case ByDispatcher(d) => DispatcherApply(c, s, d)
    case ByPool(p) => PoolApply(s, p)
    case ByWriter(w) => WriterApply(c, s, w)
    case Cancel => s.(cancelled := true)
  }
}
