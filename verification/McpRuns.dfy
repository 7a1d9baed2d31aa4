/** Theorems about whole runs of the concurrent server. */
module McpRuns {
  import opened McpServer
  import opened McpSafety

  /** `steps` is a possible run from `s` to `t`. */
  ghost predicate Runs(c: Setup, s: State, steps: seq<Step>, t: State)
    decreases |steps|
  {
    if steps == [] then t == s
    else Enabled(c, s, steps[0]) && Runs(c, Apply(c, s, steps[0]), steps[1..], t)
  }

  ghost predicate Reachable(c: Setup, s: State) {
    exists steps :: Runs(c, Init(), steps, s)
  }

  lemma {:induction false} RunInv(c: Setup, s: State, steps: seq<Step>, t: State)
    requires Inv(c, s) && Runs(c, s, steps, t)
    ensures Inv(c, t)
    decreases |steps|
  {
    if steps != [] {
      StepInv(c, s, steps[0]);
      RunInv(c, Apply(c, s, steps[0]), steps[1..], t);
    }
  }

  lemma ReachableInv(c: Setup, s: State)
    requires Reachable(c, s)
    ensures Inv(c, s)
  {
    var steps :| Runs(c, Init(), steps, s);
    InitInv(c);
    RunInv(c, Init(), steps, s);
  }

  /** At most sixteen calls wait for four workers, and no more are made to wait only
      when sixteen do. */
  lemma PoolBounded(c: Setup, s: State)
    requires Reachable(c, s)
    ensures |s.queue| <= 16 && |s.workers| <= 4
    ensures s.dispatcher.Offering? ==> (Enabled(c, s, ByDispatcher(Enqueue)) <==> |s.queue| != 16)
  {
    hide Inv;
    ReachableInv(c, s);
    assert |s.queue| <= WORK_QUEUE_CAPACITY && |s.workers| <= MAX_WORKERS by { QueueBounded(c, s); }
  }

  lemma QueueBounded(c: Setup, s: State)
    requires Inv(c, s)
    ensures |s.queue| <= WORK_QUEUE_CAPACITY && |s.workers| <= MAX_WORKERS
  {
  }

  // ----- The pending counter -----

  /** The calls accepted and not completed, as a set: queued, with a worker, or
      in the dispatcher's hands (offered, or dropped there by a cancellation). */
  function Outstanding(s: State): nat {
    |s.queue| + Busy(s.workers) + (if s.dispatcher.Offering? then 1 else 0) + |s.abandoned|
  }

  /** The counter is exact in every reachable state, so its saturating decrement never saturates. */
  lemma PendingExact(c: Setup, s: State)
    requires Reachable(c, s)
    ensures s.pending == Outstanding(s)
    ensures forall k :: PoolEnabled(s, Complete(k)) ==> PoolApply(s, Complete(k)).pending == s.pending - 1
  {
    ReachableInv(c, s);
    forall k | PoolEnabled(s, Complete(k)) ensures s.pending > 0 {
      UpdateBusy(s.workers, k, Ready);
    }
  }

  // ----- Order of the answers -----

  /** A parse error is a barrier: the answers to earlier items precede its
      answer and those to later items follow it; before a cancellation every
      earlier item has been answered by then. */
  lemma ParseErrorIsBarrier(c: Setup, s: State, q: nat)
    requires Reachable(c, s) && q < |s.served| && c.ParseError(s.served[q])
    ensures forall p :: 0 <= p < q ==> s.served[p] < s.served[q]
    ensures forall p :: q < p < |s.served| ==> s.served[p] > s.served[q]
    ensures !s.cancelled ==> forall i: nat :: i < s.served[q] ==> i in s.served[..q]
  {
    ReachableInv(c, s);
    forall p | q < p < |s.served| ensures s.served[p] > s.served[q] {
      ServedOnce(s, s.served[p]);
      ServedDistinct(s, q, p);
      if s.served[p] < s.served[q] {
        var i := s.served[p];
        assert Places(s, i) == 1;
        CountIn(s.skipped, i);
        CountIn(s.served, i);
        assert i in s.served[..q];
        var r :| 0 <= r < q && s.served[r] == i;
        ServedDistinct(s, r, p);
      }
    }
    forall p | 0 <= p < q ensures s.served[p] < s.served[q] {
      ServedDistinct(s, p, q);
    }
    forall i: nat | !s.cancelled && i < s.served[q] ensures i in s.served[..q] {
      assert i in s.served[..q] || i in s.skipped;
    }
  }

  lemma {:induction false} CountTwice(items: seq<nat>, p: nat, q: nat)
    requires p < q < |items| && items[p] == items[q]
    ensures Count(items, items[p]) >= 2
  {
    if p == 0 {
      assert items[1..][q - 1] == items[q];
      CountIn(items[1..], items[q]);
    } else {
      CountTwice(items[1..], p - 1, q - 1);
    }
  }

  lemma ServedDistinct(s: State, p: nat, q: nat)
    requires Books(s) && p < q < |s.served|
    ensures s.served[p] != s.served[q]
  {
    if s.served[p] == s.served[q] {
      CountTwice(s.served, p, q);
      ServedOnce(s, s.served[p]);
    }
  }

  /** An answer overtakes another only if the overtaken one belongs to a tool
      call and no parse error lies between the two in the input. */
  lemma OvertakingOnlyCalls(c: Setup, s: State, p: nat, q: nat, j: nat)
    requires Reachable(c, s) && p < q < |s.served| && s.served[q] < s.served[p]
    requires !s.cancelled
    ensures c.Call(s.served[q])
    ensures s.served[q] <= j <= s.served[p] ==> !c.ParseError(j)
  {
    ReachableInv(c, s);
    if s.served[q] <= j <= s.served[p] && c.ParseError(j) {
      var r := Witness(c, s, p, j);
      ParseErrorIsBarrier(c, s, r);
    }
  }

  /** A parse error below an answered item has been answered itself. */
  lemma Witness(c: Setup, s: State, p: nat, j: nat) returns (r: nat)
    requires Inv(c, s) && !s.cancelled
    requires p < |s.served| && j <= s.served[p] && c.ParseError(j)
    ensures r < |s.served| && s.served[r] == j
  {
    ServedOnce(s, s.served[p]);
    assert Places(s, j) == 1;
    if j in s.served {
      r :| r < |s.served| && s.served[r] == j;
    } else {
      CountIn(s.served, j);
      CountIn(s.queue, j);
      CallsOnly(c, s.workers, j);
      assert false;
    }
  }

  lemma {:induction false} CallsOnly(c: Setup, workers: seq<Worker>, j: nat)
    requires forall k :: 0 <= k < |workers| && Occupied(workers[k]) ==> c.Call(workers[k].item)
    requires !c.Call(j)
    ensures WorkersHave(workers, j) == 0
  {
    if workers != [] {
      assert forall k :: 0 <= k < |workers[1..]| ==> workers[1..][k] == workers[k + 1];
      CallsOnly(c, workers[1..], j);
    }
  }

  // ----- Cancellation -----

  /** Whatever the interleaving and whenever the cancellation, the output is a
      prefix of whole frames, one for each item answered, in answering order. */
  lemma OutputIsFramePrefix(c: Setup, s: State)
    requires Reachable(c, s) && !s.writeFailed
    ensures s.written <= Bytes(c, s.served)
    ensures !s.cancelled && s.lock.Unlocked? ==> s.written == Bytes(c, s.served)
  {
    ReachableInv(c, s);
    assert s.written <= s.written + Rest(s);
    assert s.written + "" == s.written;
  }

  /** What a cleared writer may still write. */
  function InFlight(s: State): string {
    if s.lock.Locked? && s.lock.cleared then s.lock.rest else ""
  }

  lemma OnlyTheWriterWrites(c: Setup, s: State, step: Step)
    requires s.cancelled && Enabled(c, s, step) && !step.ByWriter?
    ensures var t := Apply(c, s, step); t.cancelled && t.lock == s.lock && t.written == s.written
  {
  }

  lemma CancelledWriterStep(c: Setup, s: State, step: WriterStep)
    requires s.cancelled && WriterEnabled(c, s, step)
    ensures var t := WriterApply(c, s, step);
            && t.cancelled
            && (t.written == s.written ==> InFlight(t) == InFlight(s) || InFlight(t) == "")
            && (InFlight(s) == "" ==> InFlight(t) == "")
            && (t.written != s.written ==> InFlight(t) == "")
            && s.written <= t.written <= s.written + InFlight(s)
  {
    hide Answering, Setup.Emit;
  }

  lemma CancelledStep(c: Setup, s: State, step: Step)
    requires s.cancelled && Enabled(c, s, step)
    ensures var t := Apply(c, s, step);
            && t.cancelled
            && (t.written == s.written ==> InFlight(t) == InFlight(s) || InFlight(t) == "")
            && (InFlight(s) == "" ==> InFlight(t) == "")
            && (t.written != s.written ==> InFlight(t) == "")
            && s.written <= t.written <= s.written + InFlight(s)
  {
    hide ReaderApply, DispatcherApply, PoolApply, WriterApply;
    if step.ByWriter? {
      CancelledWriterStep(c, s, step.w);
    } else {
      OnlyTheWriterWrites(c, s, step);
    }
  }

  /** After a cancellation at most one inner write happens, the one whose check
      of the flag came before it, and nothing else is ever written. */
  lemma {:induction false} SilenceAfterCancel(c: Setup, s: State, steps: seq<Step>, t: State)
    requires s.cancelled && Runs(c, s, steps, t)
    ensures t.cancelled && s.written <= t.written <= s.written + InFlight(s)
    ensures InFlight(s) == "" ==> t.written == s.written && InFlight(t) == ""
    ensures t.written != s.written ==> InFlight(t) == ""
    decreases |steps|
  {
    if steps != [] {
      var m := Apply(c, s, steps[0]);
      CancelledStep(c, s, steps[0]);
      SilenceAfterCancel(c, m, steps[1..], t);
      hide Enabled, Apply;
    }
  }
}
