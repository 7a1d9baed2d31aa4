/** The online firmware workflow: a check and an install that are polled,
    cancellable and bounded in time, over a scripted router and clock. */
module Firmware {
  import opened Common
  import opened Strings
  import opened FirmwareVersion
  import opened FirmwareReport
  import opened FirmwareFacts

  // ----- The client -----

  datatype Reply = Reply(duration: nat, result: Result<Fields, CallError>)

  /** The workflow's client with its environment: a clock that only sleeps and
      exchanges advance, a cancellation probe, and the router. An exchange takes
      at most two dispatches (a Digest challenge repeats it), each of at most
      `slowest`. */
  class Client {
    var now: nat
    var probes: nat
    var log: seq<Exchange>
    const cancelled: nat -> bool
    const script: nat -> Reply
    const slowest: nat
    /** What the two description documents contain. */
    const description: Result<(), WorkflowError>
    const advertised: Result<set<string>, WorkflowError>

    constructor (cancelled: nat -> bool, script: nat -> Reply, slowest: nat,
                 description: Result<(), WorkflowError>, advertised: Result<set<string>, WorkflowError>)
      ensures now == 0 && probes == 0 && log == []
    {
      this.cancelled, this.script, this.slowest := cancelled, script, slowest;
      this.description, this.advertised := description, advertised;
      now, probes, log := 0, 0, [];
    }

    /** Since the log had `from` entries, every exchange began before the deadline
        and right after a probe that found no cancellation, and none overlap. */
    ghost predicate Orderly(from: nat, b: Budget)
      reads this
    {
      && from <= |log|
      && (forall k :: from <= k < |log| ==>
            && log[k].at < b.Deadline() && log[k].until <= log[k].at + 2 * slowest && log[k].until <= now
            && 0 < log[k].probes <= probes && !cancelled(log[k].probes - 1))
      && (forall j, k :: from <= j < k < |log| ==> log[j].until <= log[k].at)
    }

    /** The probe was asked last without finding a cancellation, in time. */
    ghost predicate Cleared(b: Budget)
      reads this
    {
      probes > 0 && !cancelled(probes - 1) && now < b.Deadline()
    }

    /** What ended the work: the last probe, the clock, or the last reply. */
    ghost predicate Halted(b: Budget, e: WorkflowError)
      reads this
    {
      match e
      case Cancelled => probes > 0 && cancelled(probes - 1)
      case TimedOut => now >= b.start + b.limit
      case CallFailed(cause) => log != [] && log[|log| - 1].reply == Err(cause)
      case _ => false
    }

    method Cancel(ghost from: nat, ghost b: Budget) returns (c: bool)
      modifies this`probes
      ensures old(Orderly(from, b)) ==> Orderly(from, b)
      ensures probes == old(probes) + 1 && c == cancelled(old(probes))
    {
      c := cancelled(probes);
      probes := probes + 1;
    }

    method Send(action: Action, ghost from: nat, ghost b: Budget)
      returns (reply: Result<Fields, CallError>, ghost x: Exchange)
      requires Cleared(b) && Orderly(from, b)
      modifies this`now, this`log
      ensures Orderly(from, b)
      ensures old(now) <= now <= old(now) + 2 * slowest && now <= b.Deadline() + 2 * slowest
      ensures log == old(log) + [x] && x == Exchange(action, old(now), now, probes, reply)
      ensures reply.Err? ==> Halted(b, CallFailed(reply.error))
    {
      var answer := script(|log|);
      var began := now;
      now := now + Least(answer.duration, 2 * slowest);
      reply := answer.result;
      x := Exchange(action, began, now, probes, reply);
      log := log + [Exchange(action, began, now, probes, reply)];
    }

    method Boundary(ghost from: nat, b: Budget) returns (r: Result<(), WorkflowError>)
      modifies this`probes
      ensures old(Orderly(from, b)) ==> Orderly(from, b)
      ensures probes == old(probes) + 1
      ensures r.Ok? <==> Cleared(b)
      ensures r.Err? ==> r.error == (if cancelled(old(probes)) then Cancelled else TimedOut)
      ensures r.Err? ==> Halted(b, r.error)
    {
      var c := Cancel(from, b);
      if c { return Err(Cancelled); }
      if now >= b.Deadline() { return Err(TimedOut); }
      return Ok(());
    }

    /** Sleeps exactly one interval, asking for a cancellation every 25 milliseconds
        and at the end, or stops at the deadline without passing it. */
    method Pause(ghost from: nat, b: Budget) returns (r: Result<(), WorkflowError>)
      requires b.start <= now
      modifies this`now, this`probes
      ensures old(Orderly(from, b)) ==> Orderly(from, b)
      ensures old(now) <= now
      ensures r.Ok? ==> now == old(now) + b.interval && Cleared(b)
      ensures r.Ok? ==> 25_000_000 * (probes - old(probes) - 1) >= b.interval > 25_000_000 * (probes - old(probes) - 2)
      ensures r.Err? ==> r.error in {Cancelled, TimedOut} && Halted(b, r.error) && now <= old(now) + b.interval
      ensures now == old(now) || now <= b.Deadline()
    {
      var began := now;
      ghost var slices := 0;
      while now - began < b.interval
        invariant began <= now <= began + b.interval
        invariant old(Orderly(from, b)) ==> Orderly(from, b)
        invariant now == began || now <= b.Deadline()
        invariant probes == old(probes) + slices && (slices > 0 ==> 25_000_000 * (slices - 1) < b.interval)
        invariant now < b.Deadline() ==> now - began == Least(25_000_000 * slices, b.interval)
        decreases began + b.interval - now
      {
        var boundary := Boundary(from, b);
        if boundary.Err? { return boundary; }
        now := now + Least(Least(25 * MILLISECOND, b.interval - (now - began)), b.limit - (now - b.start));
        slices := slices + 1;
      }
      r := Boundary(from, b);
    }

    /** What a part of the workflow keeps: the clock and the log only grow, the
        exchanges stay orderly, and nothing runs on beyond the deadline by more
        than one exchange. */
    twostate predicate Proceeds(from: nat, b: Budget)
      reads this
    {
      && Orderly(from, b) && old(log) <= log && old(now) <= now
      && (now <= old(now) || now <= b.Deadline() + 2 * slowest)
    }

    /** What ended the work, or why the description of the router did. */
    ghost predicate Ended(b: Budget, e: WorkflowError, needed: string)
      reads this
    {
      || Halted(b, e) || description == Err(e) || advertised == Err(e)
      || (e == NotSupported && advertised.Ok? && needed !in advertised.value)
    }

    method Discover(ghost from: nat, b: Budget) returns (r: Result<set<string>, WorkflowError>)
      requires Orderly(from, b)
      modifies this`now, this`log, this`probes
      ensures Proceeds(from, b)
      ensures forall k :: |old(log)| <= k < |log| ==> log[k].action in {Describe, DescribeActions}
      ensures r.Ok? ==> advertised == r && description.Ok? && Described(old(log), log) && |log| == |old(log)| + 2
      ensures r.Err? ==> description == Err(r.error) || advertised == r || Halted(b, r.error)
    {
      hide Client.Orderly, Client.Cleared, Client.Halted;
      var boundary := Boundary(from, b);
      if boundary.Err? { return Err(boundary.error); }
      var reply, _ := Send(Describe, from, b);
      if reply.Err? { return Err(CallFailed(reply.error)); }
      if description.Err? { return Err(description.error); }
      boundary := Boundary(from, b);
      if boundary.Err? { return Err(boundary.error); }
      var actions, _ := Send(DescribeActions, from, b);
      if actions.Err? { return Err(CallFailed(actions.error)); }
      return advertised;
    }

    method Read(ghost from: nat, b: Budget, actions: set<string>) returns (r: Result<Status, WorkflowError>)
      requires Orderly(from, b)
      modifies this`now, this`log, this`probes
      ensures Proceeds(from, b)
      ensures RoundBegun(old(log), log)
      ensures r.Ok? ==> |log| > |old(log)| && Reads(actions, log[|old(log)|..], r.value)
      ensures r.Err? ==> Halted(b, r.error)
      ensures r.Err? && r.error.CallFailed? ==> |log| > |old(log)|
      ensures r.Err? && r.error.CallFailed? && |log| > |old(log)| + 1 ==> !NotOffered(r.error.cause)
    {
      hide Least, Trim, Value, Root, Client.Orderly, Client.Cleared, Client.Halted, BaseStatus, WithInfo,
        WithExtended, Unsupported, StatusOf, RoundBegun, NotOffered, Reads, Refused, Disconnected, Lost, FaultReported;
      ghost var before := log;
      NoReads(before);
      var boundary := Boundary(from, b);
      if boundary.Err? { return Err(boundary.error); }
      var device, first := Send(DeviceInfo, from, b);
      OneRead(before, first);
      if device.Err? { return Err(CallFailed(device.error)); }
      var status := BaseStatus(device.value);
      if "GetInfo" !in actions {
        DeviceRound(actions, first);
        StatusReads(actions, [first]);
        return Ok(status);
      }
      boundary := Boundary(from, b);
      if boundary.Err? { return Err(boundary.error); }
      var info, second := Send(UpdateInfo, from, b);
      TwoReads(before, first, second);
      if info.Err? {
        ErrorsMean(info.error);
        if Unsupported(info.error) {
          UpdateRound(actions, first, second);
          StatusReads(actions, [first, second]);
          return Ok(status);
        }
        return Err(CallFailed(info.error));
      }
      status := WithInfo(status, info.value);
      if "X_AVM-DE_GetInfo" !in actions {
        UpdateRound(actions, first, second);
        StatusReads(actions, [first, second]);
        return Ok(status);
      }
      boundary := Boundary(from, b);
      if boundary.Err? { return Err(boundary.error); }
      var extended, third := Send(ExtendedInfo, from, b);
      ThreeReads(before, first, second, third);
      if extended.Ok? {
        status := WithExtended(status, extended.value);
      } else {
        ErrorsMean(extended.error);
        if !Unsupported(extended.error) { return Err(CallFailed(extended.error)); }
      }
      ExtendedRound(actions, first, second, third);
      StatusReads(actions, [first, second, third]);
      return Ok(status);
    }

    /** The description and the first round of reads, which change nothing. */
    method Prepare(ghost from: nat, b: Budget, needed: string)
      returns (r: Result<(set<string>, Status), WorkflowError>, ghost k: nat)
      requires Orderly(from, b)
      modifies this`now, this`log, this`probes
      ensures Proceeds(from, b) && |old(log)| <= k <= |log|
      ensures Sent(log, CheckUpdate) == Sent(old(log), CheckUpdate) && Sent(log, DoUpdate) == Sent(old(log), DoUpdate)
      ensures Sent(log, DeviceInfo) <= Sent(old(log), DeviceInfo) + 1
      ensures r.Ok? ==>
                && advertised == Ok(r.value.0) && needed in r.value.0 && Described(old(log), log) && k == |old(log)| + 2
                && k < |log| && Reads(r.value.0, log[k..], r.value.1)
                && Sent(log, DeviceInfo) == Sent(old(log), DeviceInfo) + 1
      ensures r.Err? ==> Ended(b, r.error, needed)
      ensures |log| > |old(log)| ==> log[|log| - 1].action != CheckUpdate
    {
      hide Client.Orderly, Client.Cleared, Client.Halted, Reads, Sent;
      k := |log|;
      var discovered := Discover(from, b);
      SentUnlike(old(log), log, {Describe, DescribeActions});
      if discovered.Err? { return Err(discovered.error), k; }
      if needed !in discovered.value { return Err(NotSupported), k; }
      ghost var before := log;
      k := |log|;
      var read := Read(from, b, discovered.value);
      SentRound(before, log);
      if read.Err? { return Err(read.error), k; }
      return Ok((discovered.value, read.value)), k;
    }

    /** A completed check rests on a round of reads begun after the one check call
        had returned, with the availability settled. */
    ghost predicate FreshlyRead(from: nat, actions: set<string>, status: Status)
      reads this
    {
      exists c, k :: from <= c < k <= |log| && log[c].action == CheckUpdate && log[c].reply.Ok?
                && Reads(actions, log[k..], status)
    }

    lemma ReadFreshly(from: nat, c: nat, k: nat, actions: set<string>, status: Status)
      requires from <= c < k <= |log| && log[c].action == CheckUpdate && log[c].reply.Ok?
      requires Reads(actions, log[k..], status)
      ensures FreshlyRead(from, actions, status)
    {
      hide Reads;
    }

    /** The last exchange since `from` was a check that the router does not offer. */
    ghost predicate CheckUnknown(from: nat)
      reads this
    {
      && |log| > from && log[|log| - 1].action == CheckUpdate
      && log[|log| - 1].reply.Err? && NotOffered(log[|log| - 1].reply.error)
    }

    /** Reads until the availability is settled, after the check call at `checked`. */
    method ReadUntilSettled(ghost from: nat, b: Budget, actions: set<string>, before: Status, ghost checked: nat)
      returns (r: Result<CheckResult, WorkflowError>)
      requires Orderly(from, b) && b.start <= now && OnceRead(log, from, actions, before)
      requires from <= checked < |log| && log[checked].action == CheckUpdate && log[checked].reply.Ok?
      modifies this`now, this`log, this`probes
      ensures Proceeds(from, b)
      ensures Sent(log, CheckUpdate) == Sent(old(log), CheckUpdate) && Sent(log, DoUpdate) == Sent(old(log), DoUpdate)
      ensures Sent(log, DeviceInfo) <= Sent(old(log), DeviceInfo) + b.polls
      ensures |log| > |old(log)| ==> log[|log| - 1].action != CheckUpdate
      ensures r.Err? ==> Halted(b, r.error) && (r.error.CallFailed? ==> |log| > |old(log)|)
      ensures r.Ok? ==> OnceRead(log, from, actions, r.value.status)
      ensures r.Ok? && r.value.complete ==>
                FreshlyRead(from, actions, r.value.status) && r.value.status.availability !in {Checking, Unknown}
      ensures r.Ok? && !r.value.complete ==>
                && (now >= b.start + b.limit || Sent(log, DeviceInfo) == Sent(old(log), DeviceInfo) + b.polls)
                && (r.value.status.availability in {Checking, Unknown}
                    || Sent(log, DeviceInfo) <= Sent(old(log), DeviceInfo) + 1)
    {
      hide Client.Orderly, Client.Cleared, Client.FreshlyRead, OnceRead, Reads, Sent, RoundBegun, NotOffered;
      var status := before;
      for poll := 0 to b.polls
        invariant b.start <= now
        invariant Proceeds(from, b)
        invariant |log| > |old(log)| ==> log[|log| - 1].action != CheckUpdate
        invariant Sent(log, CheckUpdate) == Sent(old(log), CheckUpdate)
        invariant Sent(log, DeviceInfo) == Sent(old(log), DeviceInfo) + poll
        invariant Sent(log, DoUpdate) == Sent(old(log), DoUpdate)
        invariant OnceRead(log, from, actions, status)
        invariant poll > 0 ==> status.availability in {Checking, Unknown}
      {
        if poll > 0 {
          var pause := Pause(from, b);
          if pause == Err(TimedOut) { break; }
          if pause.Err? { return Err(pause.error); }
        }
        ghost var sofar := log;
        var next := Read(from, b, actions);
        SentRound(sofar, log);
        OnceReadStays(sofar, log, from, actions, status);
        if next == Err(TimedOut) { break; }
        if next.Err? { return Err(next.error); }
        status := next.value;
        ReadOnce(log, from, |sofar|, actions, status);
        if status.availability != Checking && status.availability != Unknown {
          ReadFreshly(from, checked, |sofar|, actions, status);
          return Ok(CheckResult(true, status));
        }
      }
      return Ok(CheckResult(false, status));
    }

    method Check(options: Polling) returns (r: Result<CheckResult, WorkflowError>)
      modifies this`now, this`log, this`probes
      ensures Proceeds(|old(log)|, NewBudget(options, old(now)))
      ensures now <= old(now) + Least(options.maxElapsed, 600_000_000_000) + 2 * slowest
      ensures Sent(log, CheckUpdate) <= Sent(old(log), CheckUpdate) + 1
      ensures Sent(log, DeviceInfo) <= Sent(old(log), DeviceInfo) + 1 + NewBudget(options, old(now)).polls
      ensures Sent(log, DoUpdate) == Sent(old(log), DoUpdate)
      ensures r.Ok? ==>
                && advertised.Ok? && "X_AVM-DE_CheckUpdate" in advertised.value
                && Sent(log, CheckUpdate) == Sent(old(log), CheckUpdate) + 1
                && OnceRead(log, |old(log)|, advertised.value, r.value.status)
      ensures r.Ok? && !r.value.complete ==>
                || now >= old(now) + Least(options.maxElapsed, 600_000_000_000)
                || Sent(log, DeviceInfo) == Sent(old(log), DeviceInfo) + 1 + NewBudget(options, old(now)).polls
      ensures r.Ok? && !r.value.complete ==>
                || r.value.status.availability in {Checking, Unknown}
                || Sent(log, DeviceInfo) <= Sent(old(log), DeviceInfo) + 2
      ensures r.Ok? && r.value.complete ==>
                && FreshlyRead(|old(log)|, advertised.value, r.value.status)
                && r.value.status.availability !in {Checking, Unknown}
      ensures r.Err? ==>
                || Ended(NewBudget(options, old(now)), r.error, "X_AVM-DE_CheckUpdate")
                || (r.error == NotSupported && CheckUnknown(|old(log)|))
      ensures r.Err? && r.error.CallFailed? ==> !CheckUnknown(|old(log)|)
    {
      hide Trim, Value, Root, Client.Orderly, Client.Cleared, Client.Halted, Client.FreshlyRead, OnceRead, Reads, Sent,
        NewBudget, Least, Unsupported, Described, NotOffered;
      var b := NewBudget(options, now);
      ghost var from := |log|;
      StartOrderly(from, b);
      var prepared, k := Prepare(from, b, "X_AVM-DE_CheckUpdate");
      if prepared.Err? { return Err(prepared.error); }
      var (actions, status) := prepared.value;
      ReadOnce(log, from, k, actions, status);
      var boundary := Boundary(from, b);
      if boundary.Err? { return Err(boundary.error); }
      ghost var before := log;
      var reply, _ := Send(CheckUpdate, from, b);
      SentLast(before, log);
      OnceReadStays(before, log, from, actions, status);
      if reply.Err? {
        ErrorsMean(reply.error);
        return Err(if Unsupported(reply.error) then NotSupported else CallFailed(reply.error));
      }
      r := ReadUntilSettled(from, b, actions, status, |before|);
    }

    lemma StartOrderly(from: nat, b: Budget)
      requires from == |log|
      ensures Orderly(from, b)
    {
    }

    /** One poll of the router; `done` if it settles the outcome. */
    method Poll(ghost from: nat, b: Budget, report: Report, ghost polls: seq<Exchange>)
      returns (next: Report, done: bool, ghost last: Exchange)
      requires Cleared(b) && Orderly(from, b) && Waiting(report, report.original)
      requires AllPass(report.original, polls, cancelled) && Answered(polls, report.readback)
      requires forall k :: 0 <= k < |polls| ==> polls[k].action == DeviceInfo
      requires report.outcome == Rebooting <==> SomeLost(polls)
      modifies this`now, this`log, this`probes
      ensures Proceeds(from, b) && log == old(log) + [last] && last.action == DeviceInfo
      ensures next.original == report.original
      ensures done ==>
                && next.history != [] && Sound(next, true) && next.outcome !in {Timeout, Rejected}
                && Polled(polls + [last], cancelled, next) && Settles(polls + [last], cancelled, next)
                && (next.outcome == VerifiedInstalled ==> last.probes < probes && !cancelled(probes - 1))
      ensures !done ==>
                && Waiting(next, report.original) && (next.outcome == Rebooting <==> SomeLost(polls + [last]))
                && AllPass(report.original, polls + [last], cancelled) && Answered(polls + [last], next.readback)
    {
      hide Least, Trim, Value, Root, Comparable, Client.Orderly, SafeOffer, Installed, VerifiedFacts,
        IdentityOf, SameBox, Disconnected, Sound, Waiting, Confirms, SameBoxShown, Answered, SomeLost, AllPass,
        IdentityShown, Lost, NotOffered, FaultReported, Unsupported, Refused, Polled, Settles, Passes, IsLost;
      var original := report.original;
      next, done := report, true;
      Waits(report, original);
      var reply, x := Send(DeviceInfo, from, b);
      last := x;
      OnePollMore(original, polls, last, cancelled);
      PollMeans(original, last, cancelled);
      if reply.Ok? {
        ReadbackMeans(original, reply.value);
        var readback := IdentityOf(reply.value);
        next := next.(readback := Some(readback));
        Waits(next, original);
        if !SameBox(original, readback) {
          next := next.(outcome := Uncertain);
          PollSettles(polls, last, cancelled, next);
          return;
        }
        if Installed(original, readback) {
          var late := Cancel(from, b);
          if !late {
            WaitedSafely(report);
            InstalledMeansVerified(original, readback);
            Verifies(next, original, readback);
            next := next.(outcome := VerifiedInstalled, history := next.history + [VerifiedInstalled]);
            PollSettles(polls, last, cancelled, next);
            return;
          }
        }
      } else {
        ErrorsMean(reply.error);
        if !Disconnected(reply.error) {
          next := next.(outcome := Uncertain);
          PollSettles(polls, last, cancelled, next);
          return;
        }
        if next.outcome != Rebooting {
          next := next.(outcome := Rebooting, history := next.history + [Rebooting]);
        }
      }
      done := false;
    }

    /** Waits for the router to come back with the offered version. */
    method Verify(ghost from: nat, b: Budget, original: Status) returns (report: Report)
      requires Orderly(from, b) && SafeOffer(original) && b.start <= now
      modifies this`now, this`log, this`probes
      ensures Proceeds(from, b)
      ensures Polled(log[|old(log)|..], cancelled, report) && |log| <= |old(log)| + b.polls
      ensures forall k :: |old(log)| <= k < |log| ==> log[k].action == DeviceInfo
      ensures report.outcome == Timeout ==> now >= b.start + b.limit || |log| == |old(log)| + b.polls
      ensures report.outcome == Uncertain ==>
                Settles(log[|old(log)|..], cancelled, report) || (probes > 0 && cancelled(probes - 1))
      ensures report.original == original && report.history != [] && Sound(report, true) && report.outcome != Rejected
      ensures report.outcome == VerifiedInstalled ==> log[|log| - 1].probes < probes && !cancelled(probes - 1)
    {
      hide Client.Orderly, SafeOffer, Sound, Waiting, Answered, SomeLost, AllPass, Polled, Settles;
      report := Report(Accepted, [Accepted], original, None);
      WaitsFirst(original);
      NoPolls(original, cancelled);
      Waits(report, original);
      ghost var polls := [];
      for poll := 0 to b.polls
        invariant Proceeds(from, b)
        invariant log == old(log) + polls && |polls| == poll
        invariant forall k :: 0 <= k < |polls| ==> polls[k].action == DeviceInfo
        invariant report.original == original
        invariant Waiting(report, original) && (report.outcome == Rebooting <==> SomeLost(polls))
        invariant Answered(polls, report.readback) && AllPass(original, polls, cancelled)
      {
        var pause := Pause(from, b);
        Waits(report, original);
        assert log[|old(log)|..] == polls;
        if pause == Err(Cancelled) {
          PollsPass(polls, cancelled, report.(outcome := Uncertain));
          return report.(outcome := Uncertain);
        }
        if pause.Err? { break; }
        var next, done, last := Poll(from, b, report, polls);
        report, polls := next, polls + [last];
        assert log[|old(log)|..] == polls;
        if done { return report; }
      }
      Waits(report, original);
      assert log[|old(log)|..] == polls;
      report := report.(outcome := Timeout);
      PollsPass(polls, cancelled, report);
    }

    /** Some complete round of reads since `from` does not permit an update. */
    ghost predicate Forbidden(from: nat)
      reads this
    {
      && advertised.Ok?
      && exists k, s ::
           from <= k < |log| && Reads(advertised.value, log[k..], s) && !Permits(advertised.value, log[k..])
    }

    /** Sends the one install request and concludes from its reply. */
    method Submit(ghost from: nat, b: Budget, options: Options, original: Status, ghost k: nat)
      returns (r: Result<Report, WorkflowError>)
      requires Cleared(b) && Orderly(from, b) && b.start <= now && from <= k < |log| && SafeOffer(original)
      requires advertised.Ok? && "X_AVM-DE_DoUpdate" in advertised.value
      requires Reads(advertised.value, log[k..], original) && Permits(advertised.value, log[k..])
      modifies this`now, this`log, this`probes
      ensures Proceeds(from, b)
      ensures |log| > |old(log)| && log[|old(log)|].action == DoUpdate
      ensures forall j :: |old(log)| < j < |log| ==> log[j].action == DeviceInfo
      ensures |log| <= |old(log)| + 1 + b.polls
      ensures Accounted(advertised, log, from, options.verify, cancelled, r)
      ensures r.Ok? ==> Sound(r.value, options.verify)
      ensures r.Ok? && r.value.outcome == VerifiedInstalled ==>
                log[|log| - 1].probes < probes && !cancelled(probes - 1)
      ensures r.Ok? && r.value.outcome == Timeout ==> now >= b.start + b.limit || |log| == |old(log)| + 1 + b.polls
    {
      hide Trim, Value, Root, Client.Orderly, Client.Cleared, Client.Halted, Reads, SafeOffer, Accounted, Permits,
        Shows, ShowsOne, SaysAccepted, SaysRejected, Refused, Sound, SafelySent, Polled, Settles, FaultReported,
        Accepts, Declines;
      ghost var before, i := log, |log|;
      var result, _ := Send(DoUpdate, from, b);
      SentSafely(advertised, before, log, k);
      SoundReports(original, options.verify);
      if result.Err? {
        ErrorsMean(result.error);
        NothingAccepted(result.error);
        r := if Refused(result.error) then Err(CallFailed(result.error)) else Ok(Report(Uncertain, [], original, None));
        Accounts(advertised, log, from, k, i, options.verify, cancelled, r);
        return r;
      }
      RepliesMean(result.value);
      NotBoth(result.value);
      if !SaysAccepted(result.value) {
        r := Ok(Report(if SaysRejected(result.value) then Rejected else Uncertain, [], original, None));
        Accounts(advertised, log, from, k, i, options.verify, cancelled, r);
        return r;
      }
      var report := Report(Accepted, [Accepted], original, None);
      if options.verify {
        ghost var sent := log;
        report := Verify(from, b, original);
        SentStays(advertised, sent, log, k, i);
      }
      r := Ok(report);
      Accounts(advertised, log, from, k, i, options.verify, cancelled, r);
    }

    method Install(options: Options) returns (r: Result<Report, WorkflowError>)
      modifies this`now, this`log, this`probes
      ensures Proceeds(|old(log)|, NewBudget(options.polling, old(now)))
      ensures now <= old(now) + Least(options.polling.maxElapsed, 600_000_000_000) + 2 * slowest
      ensures Sent(log, DoUpdate) <= Sent(old(log), DoUpdate) + 1
      ensures Sent(log, CheckUpdate) == Sent(old(log), CheckUpdate)
      ensures Sent(log, DeviceInfo) <= Sent(old(log), DeviceInfo) + 1 + NewBudget(options.polling, old(now)).polls
      ensures Sent(log, DoUpdate) > Sent(old(log), DoUpdate) ==>
                options.confirmed && Accounted(advertised, log, |old(log)|, options.verify, cancelled, r)
      ensures Sent(log, DoUpdate) == Sent(old(log), DoUpdate) ==>
                && r.Err?
                && (|| Ended(NewBudget(options.polling, old(now)), r.error, "X_AVM-DE_DoUpdate")
                    || (r.error == Unsafe && (!options.confirmed || Forbidden(|old(log)|))))
      ensures r.Ok? ==> Sound(r.value, options.verify)
      ensures r.Ok? && r.value.outcome == VerifiedInstalled ==>
                log[|log| - 1].probes < probes && !cancelled(probes - 1)
      ensures r.Ok? && r.value.outcome == Timeout ==>
                || now >= old(now) + Least(options.polling.maxElapsed, 600_000_000_000)
                || Sent(log, DeviceInfo) == Sent(old(log), DeviceInfo) + 1 + NewBudget(options.polling, old(now)).polls
    {
      hide Client.Orderly, Client.Cleared, Client.Halted, Reads, Sent, SafeOffer, Accounted, Described, Permits,
        Sound, NewBudget, Least;
      var b := NewBudget(options.polling, now);
      ghost var from := |log|;
      StartOrderly(from, b);
      if !options.confirmed { return Err(Unsafe); }
      var prepared, k := Prepare(from, b, "X_AVM-DE_DoUpdate");
      if prepared.Err? { return Err(prepared.error); }
      var original := prepared.value.1;
      SafeMeansPermitted(advertised.value, log[k..], original);
      if !SafeOffer(original) { return Err(Unsafe); }
      var boundary := Boundary(from, b);
      if boundary.Err? { return Err(boundary.error); }
      ghost var before := log;
      r := Submit(from, b, options, original, k);
      ghost var sent := log[..|before| + 1];
      SentLast(before, sent);
      SentUnlike(sent, log, {DeviceInfo});
      SentAll(sent, log, DeviceInfo);
    }
  }
}
