/** What firmware exchanges say about each other, in terms of the fields of the
    replies and the texts in them. */
module FirmwareFacts {
  import opened Common
  import opened Strings
  import opened FirmwareVersion
  import opened FirmwareReport

  // ----- Fields and errors -----

  /** The field is there and reads `text` without its outer white space. */
  ghost predicate Shows(fields: Fields, key: string, text: string) {
    key in fields && text != "" && TrimmedTo(fields[key], text)
  }

  ghost predicate ShowsOne(fields: Fields, key: string, texts: seq<string>) {
    exists text <- texts :: Shows(fields, key, text)
  }

  /** The option is what the field shows. */
  ghost predicate Holds(o: Option<string>, fields: Fields, key: string) {
    forall text :: o == Some(text) <==> Shows(fields, key, text)
  }

  ghost predicate CausedBy(e: CallError, cause: CallError) {
    e == cause || (e.Wrapped? && CausedBy(e.source, cause))
  }

  /** The action is not supported: UPnP fault 401 in an HTTP 500 reply. */
  ghost predicate NotOffered(e: CallError) {
    CausedBy(e, SoapFault(401, 500))
  }

  /** The router answered with a fault of its own. */
  ghost predicate FaultReported(e: CallError) {
    exists code: nat, status: nat :: code != 0 && CausedBy(e, SoapFault(code, status))
  }

  /** No reply came back, for another reason than the workflow's own checks. */
  ghost predicate Lost(e: CallError) {
    exists message ::
      && CausedBy(e, TransportFailed(message))
      && !("invalid firmware SOAP" <= message) && !("firmware cancelled" <= message)
  }

  lemma ValueHolds(fields: Fields, key: string)
    ensures Holds(Value(fields, key), fields, key)
  {
    hide Trim, TrimmedTo;
    if key in fields {
      forall text ensures Trim(fields[key]) == text <==> TrimmedTo(fields[key], text) {
        TrimExactly(fields[key], text);
      }
    }
  }

  lemma {:induction false} RootCauses(e: CallError, cause: CallError)
    requires !cause.Wrapped?
    ensures CausedBy(e, cause) <==> Root(e) == cause
  {
    if e.Wrapped? { RootCauses(e.source, cause); }
  }

  lemma ErrorsMean(e: CallError)
    ensures Unsupported(e) <==> NotOffered(e)
    ensures Refused(e) <==> FaultReported(e)
    ensures Disconnected(e) <==> Lost(e)
  {
    hide CausedBy, Root;
    forall code: nat, status: nat ensures CausedBy(e, SoapFault(code, status)) <==> Root(e) == SoapFault(code, status) {
      RootCauses(e, SoapFault(code, status));
    }
    forall message ensures CausedBy(e, TransportFailed(message)) <==> Root(e) == TransportFailed(message) {
      RootCauses(e, TransportFailed(message));
    }
  }

  // ----- A round of reads -----

  ghost predicate IdentityShown(i: Identity, device: Fields) {
    && Holds(i.model, device, "NewModelName") && Holds(i.serial, device, "NewSerialNumber")
    && Holds(i.version, device, "NewSoftwareVersion")
  }

  ghost predicate AvailabilityShown(a: Availability, update: Fields) {
    && (a == Checking <==> Shows(update, "NewX_AVM-DE_UpdateState", "Started"))
    && (a == Failed <==> Shows(update, "NewX_AVM-DE_UpdateState", "Error"))
    && (a == Unavailable <==>
          && Shows(update, "NewX_AVM-DE_UpdateState", "NoUpdate")
          && ShowsOne(update, "NewUpgradeAvailable", ["0", "false"]))
    && (a == Available <==>
          && Shows(update, "NewX_AVM-DE_UpdateState", "UpdateAvailable")
          && ShowsOne(update, "NewUpgradeAvailable", ["1", "true"]))
    && a != NoSupport
  }

  /** What the reads on offers add; a router without them supports no update. */
  ghost predicate UpdateShown(s: Status, update: Option<Fields>) {
    match update
    case None => s.availability == NoSupport && s.offered == s.state == s.build == None
    case Some(u) =>
      && AvailabilityShown(s.availability, u) && Holds(s.offered, u, "NewX_AVM-DE_Version")
      && Holds(s.state, u, "NewX_AVM-DE_UpdateState") && Holds(s.build, u, "NewX_AVM-DE_BuildType")
  }

  ghost predicate ExtendedShown(s: Status, extended: Option<Fields>) {
    match extended
    case None => s.reported == None
    case Some(x) => Holds(s.reported, x, "NewX_AVM-DE_CurrentFwVersion")
  }

  /** The exchange asked for `action`, which the router answered or does not offer. */
  ghost predicate Asked(x: Exchange, action: Action, fields: Option<Fields>) {
    && x.action == action
    && match x.reply
       case Ok(reply) => fields == Some(reply)
       case Err(e) => fields == None && NotOffered(e)
  }

  /** A complete round of reads: of the device, then, if the router describes it, of
      the offer, then, again if described, of the further facts about it. */
  ghost predicate RoundOf(actions: set<string>, round: seq<Exchange>, device: Fields, update: Option<Fields>,
                          extended: Option<Fields>) {
    && round != [] && round[0].action == DeviceInfo && round[0].reply == Ok(device)
    && (if "GetInfo" !in actions then |round| == 1 && update == None
        else |round| >= 2 && Asked(round[1], UpdateInfo, update))
    && (if "X_AVM-DE_GetInfo" !in actions || update == None then |round| <= 2 && extended == None
        else |round| == 3 && Asked(round[2], ExtendedInfo, extended))
  }

  /** The status is what the replies of a complete round show. */
  ghost predicate Reads(actions: set<string>, round: seq<Exchange>, s: Status) {
    exists device, update, extended ::
      && RoundOf(actions, round, device, update, extended)
      && IdentityShown(s.identity, device) && UpdateShown(s, update) && ExtendedShown(s, extended)
  }

  lemma AvailabilityMeans(update: Fields)
    ensures AvailabilityShown(AvailabilityOf(Value(update, "NewX_AVM-DE_UpdateState"),
                                             Value(update, "NewUpgradeAvailable")), update)
  {
    hide Value, Shows;
    ValueHolds(update, "NewX_AVM-DE_UpdateState");
    ValueHolds(update, "NewUpgradeAvailable");
    assert ShowsOne(update, "NewUpgradeAvailable", ["0", "false"])
      <==> Value(update, "NewUpgradeAvailable") in {Some("0"), Some("false")};
    assert ShowsOne(update, "NewUpgradeAvailable", ["1", "true"])
      <==> Value(update, "NewUpgradeAvailable") in {Some("1"), Some("true")};
  }

  lemma IdentityMeans(device: Fields)
    ensures IdentityShown(IdentityOf(device), device)
  {
    hide Value, Holds;
    ValueHolds(device, "NewModelName");
    ValueHolds(device, "NewSerialNumber");
    ValueHolds(device, "NewSoftwareVersion");
  }

  lemma InfoMeans(s: Status, update: Fields)
    ensures UpdateShown(WithInfo(s, update), Some(update))
  {
    hide Value, Holds, AvailabilityShown, AvailabilityOf;
    AvailabilityMeans(update);
    ValueHolds(update, "NewX_AVM-DE_Version");
    ValueHolds(update, "NewX_AVM-DE_UpdateState");
    ValueHolds(update, "NewX_AVM-DE_BuildType");
  }

  /** The status of a round is what its replies show. */
  lemma StatusReads(actions: set<string>, round: seq<Exchange>)
    ensures StatusOf(actions, round).Some? ==> Reads(actions, round, StatusOf(actions, round).value)
  {
    hide Value, Holds, NotOffered, Unsupported, AvailabilityShown, AvailabilityOf, IdentityShown, IdentityOf;
    if StatusOf(actions, round).Some? {
      var device := round[0].reply.value;
      IdentityMeans(device);
      if |round| > 1 && round[1].reply.Err? { ErrorsMean(round[1].reply.error); }
      var update := if |round| > 1 && round[1].reply.Ok? then Some(round[1].reply.value) else None;
      if |round| > 1 && round[1].reply.Ok? { InfoMeans(BaseStatus(device), round[1].reply.value); }
      var extended := None;
      if |round| > 2 {
        if round[2].reply.Err? {
          ErrorsMean(round[2].reply.error);
        } else {
          extended := Some(round[2].reply.value);
          ValueHolds(round[2].reply.value, "NewX_AVM-DE_CurrentFwVersion");
        }
      }
      assert RoundOf(actions, round, device, update, extended);
    }
  }

  /** The status is what some complete round of reads since `from` showed. */
  ghost predicate OnceRead(log: seq<Exchange>, from: nat, actions: set<string>, status: Status) {
    exists k, j :: from <= k < j <= |log| && Reads(actions, log[k..j], status)
  }

  lemma ReadOnce(log: seq<Exchange>, from: nat, k: nat, actions: set<string>, status: Status)
    requires from <= k < |log| && Reads(actions, log[k..], status)
    ensures OnceRead(log, from, actions, status)
  {
    hide Reads;
    assert log[k..|log|] == log[k..];
  }

  lemma OnceReadStays(before: seq<Exchange>, log: seq<Exchange>, from: nat, actions: set<string>, status: Status)
    requires before <= log && OnceRead(before, from, actions, status)
    ensures OnceRead(log, from, actions, status)
  {
    hide Reads;
    var k, j :| from <= k < j <= |before| && Reads(actions, before[k..j], status);
    assert log[k..j] == before[k..j];
  }

  // ----- When an update may be installed -----

  /** The router offers a Release of a higher version than the one installed, is
      known by model and serial number, and does not contradict itself. */
  ghost predicate Installable(device: Fields, update: Fields, extended: Option<Fields>) {
    && Shows(update, "NewX_AVM-DE_UpdateState", "UpdateAvailable")
    && ShowsOne(update, "NewUpgradeAvailable", ["1", "true"])
    && Shows(update, "NewX_AVM-DE_BuildType", "Release")
    && (exists model :: Shows(device, "NewModelName", model))
    && (exists serial :: Shows(device, "NewSerialNumber", serial))
    && exists current, offered ::
         && Shows(device, "NewSoftwareVersion", current) && Shows(update, "NewX_AVM-DE_Version", offered)
         && Raises(current, offered)
         && (extended.Some? ==>
               forall reported :: Shows(extended.value, "NewX_AVM-DE_CurrentFwVersion", reported) ==>
                 Equals(current, reported) && Related(reported, offered))
  }

  /** The replies of this round permit the update. */
  ghost predicate Permits(actions: set<string>, round: seq<Exchange>) {
    exists device, update, extended ::
      RoundOf(actions, round, device, Some(update), extended) && Installable(device, update, extended)
  }

  lemma SafeMeansInstallable(s: Status, device: Fields, update: Fields, extended: Option<Fields>)
    requires IdentityShown(s.identity, device) && UpdateShown(s, Some(update)) && ExtendedShown(s, extended)
    ensures SafeOffer(s) <==> Installable(device, update, extended)
  {
    hide Shows, ShowsOne, Newer, Comparable, SameVersion, Raises, Related, Equals;
    if s.identity.version.Some? && s.offered.Some? {
      ComparesExactly(s.identity.version.value, s.offered.value);
      if s.reported.Some? {
        ComparesExactly(s.identity.version.value, s.reported.value);
        ComparesExactly(s.reported.value, s.offered.value);
      }
    }
  }

  lemma RoundUnique(actions: set<string>, round: seq<Exchange>, device: Fields, update: Option<Fields>,
                    extended: Option<Fields>, d: Fields, u: Option<Fields>, x: Option<Fields>)
    requires RoundOf(actions, round, device, update, extended) && RoundOf(actions, round, d, u, x)
    ensures device == d && update == u && extended == x
  {
    hide NotOffered;
  }

  /** What the code takes for a safe offer is what the replies permit. */
  lemma SafeMeansPermitted(actions: set<string>, round: seq<Exchange>, s: Status)
    requires Reads(actions, round, s)
    ensures SafeOffer(s) <==> Permits(actions, round)
  {
    hide RoundOf, SafeOffer, Installable, IdentityShown, ExtendedShown;
    var device, update, extended :|
      && RoundOf(actions, round, device, update, extended)
      && IdentityShown(s.identity, device) && UpdateShown(s, update) && ExtendedShown(s, extended);
    if update.Some? {
      SafeMeansInstallable(s, device, update.value, extended);
    } else {
      NotOfferedIsUnsafe(s);
    }
    if d, u, x :| RoundOf(actions, round, d, Some(u), x) && Installable(d, u, x) {
      RoundUnique(actions, round, device, update, extended, d, Some(u), x);
    }
  }

  lemma NotOfferedIsUnsafe(s: Status)
    requires s.availability == NoSupport
    ensures !SafeOffer(s)
  {
  }

  // ----- What the reply to an install says -----

  ghost predicate Accepts(reply: Result<Fields, CallError>) {
    && reply.Ok? && Shows(reply.value, "NewX_AVM-DE_UpdateState", "Started")
    && ShowsOne(reply.value, "NewUpgradeAvailable", ["0", "1", "false", "true"])
  }

  ghost predicate Declines(reply: Result<Fields, CallError>) {
    reply.Ok? && ShowsOne(reply.value, "NewX_AVM-DE_UpdateState", ["Error", "NoUpdate", "Stopped"])
  }

  ghost predicate Faults(reply: Result<Fields, CallError>) {
    reply.Err? && FaultReported(reply.error)
  }

  lemma RepliesMean(fields: Fields)
    ensures SaysAccepted(fields) <==> Accepts(Ok(fields))
    ensures SaysRejected(fields) <==> Declines(Ok(fields))
  {
    hide Value, Shows;
    ValueHolds(fields, "NewX_AVM-DE_UpdateState");
    ValueHolds(fields, "NewUpgradeAvailable");
    OneOf(fields, "NewUpgradeAvailable", ["0", "1", "false", "true"]);
    OneOf(fields, "NewX_AVM-DE_UpdateState", ["Error", "NoUpdate", "Stopped"]);
  }

  lemma OneOf(fields: Fields, key: string, texts: seq<string>)
    ensures ShowsOne(fields, key, texts) <==> Value(fields, key).Some? && Value(fields, key).value in texts
  {
    hide Value, Shows;
    ValueHolds(fields, key);
  }

  // ----- What the polls after an install say -----

  /** The reply comes from the same box, by model and serial number. */
  ghost predicate SameBoxShown(original: Status, after: Fields) {
    Holds(original.identity.model, after, "NewModelName") && Holds(original.identity.serial, after, "NewSerialNumber")
  }

  /** The reply shows the offered version on the same box, in terms that contradict
      no version seen before. */
  ghost predicate Confirms(original: Status, after: Fields) {
    && SameBoxShown(original, after) && original.identity.version.Some? && original.offered.Some?
    && exists back ::
         && Shows(after, "NewSoftwareVersion", back)
         && Related(back, original.identity.version.value)
         && (original.reported.Some? ==> Related(back, original.reported.value))
         && Equals(back, original.offered.value)
  }

  ghost predicate IsLost(poll: Exchange) {
    poll.reply.Err? && Lost(poll.reply.error)
  }

  /** The polling goes on after this poll: the router is away, or is the same box and
      has not confirmed the update, or a cancellation came with the confirmation. */
  ghost predicate Passes(original: Status, poll: Exchange, cancelled: nat -> bool) {
    match poll.reply
    case Err(e) => Lost(e)
    case Ok(after) => SameBoxShown(original, after) && (Confirms(original, after) ==> cancelled(poll.probes))
  }

  ghost predicate AllPass(original: Status, polls: seq<Exchange>, cancelled: nat -> bool) {
    forall k :: 0 <= k < |polls| ==> Passes(original, polls[k], cancelled)
  }

  ghost predicate SomeLost(polls: seq<Exchange>) {
    exists poll <- polls :: IsLost(poll)
  }

  /** The readback is what the last answered poll shows. */
  ghost predicate Answered(polls: seq<Exchange>, readback: Option<Identity>) {
    if polls == [] then readback == None
    else
      match polls[|polls| - 1].reply
      case Ok(after) => readback.Some? && IdentityShown(readback.value, after)
      case Err(_) => Answered(polls[..|polls| - 1], readback)
  }

  /** The last poll settled the outcome. */
  ghost predicate Settles(polls: seq<Exchange>, cancelled: nat -> bool, report: Report) {
    && polls != [] && AllPass(report.original, polls[..|polls| - 1], cancelled)
    && var last := polls[|polls| - 1];
       if report.outcome == VerifiedInstalled
       then last.reply.Ok? && Confirms(report.original, last.reply.value) && !cancelled(last.probes)
       else if last.reply.Ok? then !SameBoxShown(report.original, last.reply.value)
       else !Lost(last.reply.error)
  }

  /** The report follows from the polls: `VerifiedInstalled` only by a confirmation,
      `Rebooting` exactly if a poll was lost, `Timeout` only if every poll passed. */
  ghost predicate Polled(polls: seq<Exchange>, cancelled: nat -> bool, report: Report) {
    && (forall k :: 0 <= k < |polls| ==> polls[k].action == DeviceInfo)
    && (Rebooting in report.history <==> SomeLost(polls))
    && Answered(polls, report.readback)
    && (report.outcome == VerifiedInstalled ==> Settles(polls, cancelled, report))
    && (report.outcome == Timeout ==> AllPass(report.original, polls, cancelled))
    && (AllPass(report.original, polls, cancelled) || Settles(polls, cancelled, report))
  }

  lemma ReadbackMeans(original: Status, after: Fields)
    ensures SameBox(original, IdentityOf(after)) <==> SameBoxShown(original, after)
    ensures Installed(original, IdentityOf(after)) <==> Confirms(original, after)
    ensures IdentityShown(IdentityOf(after), after)
  {
    hide Value, Shows, Comparable, SameVersion, Related, Equals;
    IdentityMeans(after);
    ValueHolds(after, "NewModelName");
    ValueHolds(after, "NewSerialNumber");
    ValueHolds(after, "NewSoftwareVersion");
    var back := IdentityOf(after).version;
    if back.Some? && original.identity.version.Some? && original.offered.Some? {
      ComparesExactly(back.value, original.identity.version.value);
      ComparesExactly(back.value, original.offered.value);
      if original.reported.Some? { ComparesExactly(back.value, original.reported.value); }
    }
  }

  lemma NoPolls(original: Status, cancelled: nat -> bool)
    ensures AllPass(original, [], cancelled) && !SomeLost([]) && Answered([], None)
  {
  }

  lemma {:induction false} OnePollMore(original: Status, polls: seq<Exchange>, poll: Exchange, cancelled: nat -> bool)
    requires AllPass(original, polls, cancelled)
    ensures Passes(original, poll, cancelled) ==> AllPass(original, polls + [poll], cancelled)
    ensures SomeLost(polls + [poll]) <==> SomeLost(polls) || IsLost(poll)
    ensures forall readback :: poll.reply.Err? ==> (Answered(polls + [poll], readback) <==> Answered(polls, readback))
    ensures forall readback :: poll.reply.Ok? && IdentityShown(readback, poll.reply.value) ==>
              Answered(polls + [poll], Some(readback))
    ensures (polls + [poll])[..|polls|] == polls
  {
    hide Passes, IdentityShown, IsLost;
    var more := polls + [poll];
    assert more[..|more| - 1] == polls && more[|more| - 1] == poll;
    if SomeLost(polls) {
      var lost :| lost in polls && IsLost(lost);
      assert lost in more;
    }
  }

  lemma PollMeans(original: Status, poll: Exchange, cancelled: nat -> bool)
    ensures poll.reply.Err? ==>
              (Passes(original, poll, cancelled) <==> IsLost(poll)) && (IsLost(poll) <==> Lost(poll.reply.error))
    ensures poll.reply.Ok? ==>
              && !IsLost(poll)
              && (Passes(original, poll, cancelled) <==>
                    && SameBoxShown(original, poll.reply.value)
                    && (Confirms(original, poll.reply.value) ==> cancelled(poll.probes)))
  {
    hide Lost, SameBoxShown, Confirms;
  }

  lemma PollsPass(polls: seq<Exchange>, cancelled: nat -> bool, report: Report)
    requires AllPass(report.original, polls, cancelled) && Answered(polls, report.readback)
    requires forall k :: 0 <= k < |polls| ==> polls[k].action == DeviceInfo
    requires report.outcome != VerifiedInstalled && (Rebooting in report.history <==> SomeLost(polls))
    ensures Polled(polls, cancelled, report)
  {
    hide AllPass, Answered, SomeLost;
  }

  lemma PollSettles(front: seq<Exchange>, last: Exchange, cancelled: nat -> bool, report: Report)
    requires AllPass(report.original, front, cancelled) && Answered(front + [last], report.readback)
    requires forall k :: 0 <= k < |front| ==> front[k].action == DeviceInfo
    requires last.action == DeviceInfo && (Rebooting in report.history <==> SomeLost(front + [last]))
    requires report.outcome != Timeout
    requires if report.outcome == VerifiedInstalled
             then last.reply.Ok? && Confirms(report.original, last.reply.value) && !cancelled(last.probes)
             else if last.reply.Ok? then !SameBoxShown(report.original, last.reply.value)
             else !Lost(last.reply.error)
    ensures Polled(front + [last], cancelled, report) && Settles(front + [last], cancelled, report)
  {
    hide AllPass, Answered, SomeLost, Confirms, SameBoxShown, Lost;
    assert (front + [last])[..|front + [last]| - 1] == front;
  }

  // ----- The account of an install -----

  /** The install exchange at `i` directly follows a complete round of reads from
      `k`, whose replies permit the update. */
  ghost predicate SafelySent(advertised: Result<set<string>, WorkflowError>, log: seq<Exchange>, k: nat, i: nat) {
    && k < i < |log| && log[i].action == DoUpdate
    && advertised.Ok? && "X_AVM-DE_DoUpdate" in advertised.value && Permits(advertised.value, log[k..i])
  }

  /** What is returned follows from the reads, the reply to the install exchange,
      and the polls after it. */
  ghost predicate Concluded(actions: set<string>, log: seq<Exchange>, k: nat, i: nat, verify: bool,
                            cancelled: nat -> bool, r: Result<Report, WorkflowError>)
    requires k < i < |log|
  {
    match r
    case Err(e) => |log| == i + 1 && e.CallFailed? && log[i].reply == Err(e.cause) && Faults(log[i].reply)
    case Ok(report) =>
      && !Faults(log[i].reply) && Reads(actions, log[k..i], report.original)
      && (report.history != [] <==> Accepts(log[i].reply))
      && (report.outcome == Rejected <==> Declines(log[i].reply))
      && (if verify && Accepts(log[i].reply) then Polled(log[i + 1..], cancelled, report)
          else |log| == i + 1 && report.readback == None)
  }

  ghost predicate Accounted(advertised: Result<set<string>, WorkflowError>, log: seq<Exchange>, from: nat,
                            verify: bool, cancelled: nat -> bool, r: Result<Report, WorkflowError>) {
    exists k: nat, i: nat ::
      && from <= k && SafelySent(advertised, log, k, i)
      && Concluded(advertised.value, log, k, i, verify, cancelled, r)
  }

  lemma SentSafely(advertised: Result<set<string>, WorkflowError>, before: seq<Exchange>, log: seq<Exchange>, k: nat)
    requires k < |before| < |log| && before <= log && log[|before|].action == DoUpdate
    requires advertised.Ok? && "X_AVM-DE_DoUpdate" in advertised.value && Permits(advertised.value, before[k..])
    ensures SafelySent(advertised, log, k, |before|) && log[k..|before|] == before[k..]
  {
    hide Permits;
    assert log[k..|before|] == before[k..];
  }

  lemma SentStays(advertised: Result<set<string>, WorkflowError>, before: seq<Exchange>, log: seq<Exchange>, k: nat,
                  i: nat)
    requires before <= log && SafelySent(advertised, before, k, i)
    ensures SafelySent(advertised, log, k, i) && log[k..i] == before[k..i] && log[i] == before[i]
  {
    hide Permits;
    assert log[k..i] == before[k..i];
  }

  /** A lost reply neither accepts nor declines, and an answer is no fault. */
  lemma NothingAccepted(e: CallError)
    ensures !Accepts(Err(e)) && !Declines(Err(e)) && (Faults(Err(e)) <==> FaultReported(e))
  {
  }

  lemma NotBoth(fields: Fields)
    ensures !(Accepts(Ok(fields)) && Declines(Ok(fields))) && !Faults(Ok(fields))
  {
    hide Value, Shows;
    ValueHolds(fields, "NewX_AVM-DE_UpdateState");
  }

  lemma Accounts(advertised: Result<set<string>, WorkflowError>, log: seq<Exchange>, from: nat, k: nat, i: nat,
                 verify: bool, cancelled: nat -> bool, r: Result<Report, WorkflowError>)
    requires from <= k && SafelySent(advertised, log, k, i)
    requires Concluded(advertised.value, log, k, i, verify, cancelled, r)
    ensures Accounted(advertised, log, from, verify, cancelled, r)
  {
    hide SafelySent, Concluded;
  }
}
