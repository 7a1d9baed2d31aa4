/** What the router reports about its firmware, which offers may be installed, and
    what the workflows report. */
module FirmwareReport {
  import opened Common
  import opened Strings
  import opened FirmwareVersion

  type Fields = map<string, string>

  // Times are in nanoseconds.
  const MILLISECOND: nat := 1_000_000
  const SECOND: nat := 1_000_000_000

  datatype CallError =
    | Wrapped(source: CallError)
    | SoapFault(code: nat, status: nat)
    | TransportFailed(message: string)
    | OtherFailure

  function Root(e: CallError): CallError {
    if e.Wrapped? then Root(e.source) else e
  }

  predicate Unsupported(e: CallError) {
    Root(e) == SoapFault(401, 500)
  }

  predicate Disconnected(e: CallError) {
    && Root(e).TransportFailed?
    && !("invalid firmware SOAP" <= Root(e).message) && !("firmware cancelled" <= Root(e).message)
  }

  datatype WorkflowError = CallFailed(cause: CallError) | NotSupported | Unsafe | Cancelled | TimedOut

  // ----- What the router reports -----

  datatype Availability = Available | Unavailable | Unknown | Checking | Failed | NoSupport

  datatype Identity = Identity(model: Option<string>, serial: Option<string>, version: Option<string>)

  datatype Status = Status(identity: Identity, availability: Availability, offered: Option<string>,
                           state: Option<string>, build: Option<string>, reported: Option<string>)

  function Value(fields: Fields, key: string): Option<string> {
    if key in fields && Trim(fields[key]) != "" then Some(Trim(fields[key])) else None
  }

  function IdentityOf(fields: Fields): Identity {
    Identity(Value(fields, "NewModelName"), Value(fields, "NewSerialNumber"), Value(fields, "NewSoftwareVersion"))
  }

  function AvailabilityOf(state: Option<string>, upgrade: Option<string>): Availability {
    if state == Some("Started") then Checking
    else if state == Some("Error") then Failed
    else if state == Some("NoUpdate") && upgrade in {Some("0"), Some("false")} then Unavailable
    else if state == Some("UpdateAvailable") && upgrade in {Some("1"), Some("true")} then Available
    else Unknown
  }

  function BaseStatus(device: Fields): Status {
    Status(IdentityOf(device), NoSupport, None, None, None, None)
  }

  function WithInfo(status: Status, info: Fields): Status {
    var state := Value(info, "NewX_AVM-DE_UpdateState");
    status.(offered := Value(info, "NewX_AVM-DE_Version"), state := state,
            build := Value(info, "NewX_AVM-DE_BuildType"),
            availability := AvailabilityOf(state, Value(info, "NewUpgradeAvailable")))
  }

  function WithExtended(status: Status, extended: Fields): Status {
    status.(reported := Value(extended, "NewX_AVM-DE_CurrentFwVersion"))
  }

  /** The installed version is known, older than a Release offer of the same model
      family, and consistent with what the router reports about itself. */
  predicate SafeOffer(s: Status) {
    && s.availability == Available && s.build == Some("Release")
    && s.identity.model.Some? && s.identity.serial.Some?
    && s.identity.version.Some? && s.offered.Some? && Newer(s.offered.value, s.identity.version.value)
    && (s.reported.Some? ==>
          && SameVersion(s.identity.version.value, s.reported.value)
          && Comparable(s.reported.value, s.offered.value))
  }

  // ----- The log of exchanges -----

  datatype Action = Describe | DescribeActions | DeviceInfo | UpdateInfo | ExtendedInfo | CheckUpdate | DoUpdate

  /** One exchange: what was called, when it began and ended, how many times the
      cancellation had been asked for by then, and the reply. */
  datatype Exchange = Exchange(action: Action, at: nat, until: nat, probes: nat, reply: Result<Fields, CallError>)

  function Sent(log: seq<Exchange>, action: Action): nat {
    if log == [] then 0
    else Sent(log[..|log| - 1], action) + (if log[|log| - 1].action == action then 1 else 0)
  }

  lemma {:induction false} SentAppends(a: seq<Exchange>, b: seq<Exchange>, action: Action)
    ensures Sent(a + b, action) == Sent(a, action) + Sent(b, action)
  {
    if b == [] {
      assert a + b == a;
    } else {
      assert (a + b)[..|a + b| - 1] == a + b[..|b| - 1];
      SentAppends(a, b[..|b| - 1], action);
    }
  }

  lemma {:induction false} SentNone(log: seq<Exchange>, action: Action)
    requires forall k :: 0 <= k < |log| ==> log[k].action != action
    ensures Sent(log, action) == 0
  {
    if log != [] { SentNone(log[..|log| - 1], action); }
  }

  /** The status that a complete round of reads yields. */
  function StatusOf(actions: set<string>, round: seq<Exchange>): Option<Status> {
    if |round| == 0 || round[0].action != DeviceInfo || round[0].reply.Err? then None
    else
      var base := BaseStatus(round[0].reply.value);
      if "GetInfo" !in actions then if |round| == 1 then Some(base) else None
      else if |round| == 1 || round[1].action != UpdateInfo then None
      else if round[1].reply.Err? then
        if |round| == 2 && Unsupported(round[1].reply.error) then Some(base) else None
      else
        var status := WithInfo(base, round[1].reply.value);
        if "X_AVM-DE_GetInfo" !in actions then if |round| == 2 then Some(status) else None
        else if |round| != 3 || round[2].action != ExtendedInfo then None
        else
          match round[2].reply
          case Ok(extended) => Some(WithExtended(status, extended))
          case Err(e) => if Unsupported(e) then Some(status) else None
  }

  lemma DeviceRound(actions: set<string>, device: Exchange)
    requires device.action == DeviceInfo && device.reply.Ok? && "GetInfo" !in actions
    ensures StatusOf(actions, [device]) == Some(BaseStatus(device.reply.value))
  {
  }

  lemma UpdateRound(actions: set<string>, device: Exchange, update: Exchange)
    requires device.action == DeviceInfo && device.reply.Ok? && "GetInfo" in actions && update.action == UpdateInfo
    requires update.reply.Ok? ==> "X_AVM-DE_GetInfo" !in actions
    requires update.reply.Err? ==> Unsupported(update.reply.error)
    ensures var base := BaseStatus(device.reply.value);
            StatusOf(actions, [device, update])
            == Some(if update.reply.Ok? then WithInfo(base, update.reply.value) else base)
  {
  }

  lemma ExtendedRound(actions: set<string>, device: Exchange, update: Exchange, extended: Exchange)
    requires device.action == DeviceInfo && device.reply.Ok? && "GetInfo" in actions
    requires update.action == UpdateInfo && update.reply.Ok? && "X_AVM-DE_GetInfo" in actions
    requires extended.action == ExtendedInfo && (extended.reply.Err? ==> Unsupported(extended.reply.error))
    ensures var status := WithInfo(BaseStatus(device.reply.value), update.reply.value);
            StatusOf(actions, [device, update, extended])
            == Some(if extended.reply.Ok? then WithExtended(status, extended.reply.value) else status)
  {
  }

  lemma {:induction false} SentUnlike(before: seq<Exchange>, log: seq<Exchange>, kinds: set<Action>)
    requires before <= log
    requires forall k :: |before| <= k < |log| ==> log[k].action in kinds
    ensures forall action :: action !in kinds ==> Sent(log, action) == Sent(before, action)
  {
    hide Sent;
    forall action | action !in kinds ensures Sent(log, action) == Sent(before, action) {
      SentAppends(before, log[|before|..], action);
      assert before + log[|before|..] == log;
      SentNone(log[|before|..], action);
    }
  }

  lemma {:induction false} SentLast(before: seq<Exchange>, log: seq<Exchange>)
    requires before < log && |log| == |before| + 1
    ensures forall action :: Sent(log, action) == Sent(before, action) + if log[|before|].action == action then 1 else 0
  {
    assert log[..|log| - 1] == before;
  }

  lemma {:induction false} SentAll(before: seq<Exchange>, log: seq<Exchange>, action: Action)
    requires before <= log
    requires forall k :: |before| <= k < |log| ==> log[k].action == action
    ensures Sent(log, action) == Sent(before, action) + |log| - |before|
  {
    if |log| > |before| {
      SentAll(before, log[..|log| - 1], action);
    } else {
      assert log == before;
    }
  }

  /** Both description documents were asked for and answered. */
  predicate Described(before: seq<Exchange>, log: seq<Exchange>) {
    && |log| >= |before| + 2
    && log[|before|].action == Describe && log[|before|].reply.Ok?
    && log[|before| + 1].action == DescribeActions && log[|before| + 1].reply.Ok?
  }

  /** Some or all of a round of reads, in their order. */
  predicate RoundBegun(before: seq<Exchange>, log: seq<Exchange>) {
    && before <= log && |log| <= |before| + 3
    && (|log| > |before| ==> log[|before|].action == DeviceInfo)
    && (|log| > |before| + 1 ==> log[|before| + 1].action == UpdateInfo)
    && (|log| > |before| + 2 ==> log[|before| + 2].action == ExtendedInfo)
  }

  lemma NoReads(before: seq<Exchange>)
    ensures RoundBegun(before, before)
  {
  }

  lemma OneRead(before: seq<Exchange>, device: Exchange)
    requires device.action == DeviceInfo
    ensures var log := before + [device];
            before <= log && RoundBegun(before, log) && log[|before|..] == [device]
  {
  }

  lemma TwoReads(before: seq<Exchange>, device: Exchange, update: Exchange)
    requires device.action == DeviceInfo && update.action == UpdateInfo
    ensures var log := before + [device] + [update];
            before <= log && RoundBegun(before, log) && log[|before|..] == [device, update]
  {
  }

  lemma ThreeReads(before: seq<Exchange>, device: Exchange, update: Exchange, extended: Exchange)
    requires device.action == DeviceInfo && update.action == UpdateInfo && extended.action == ExtendedInfo
    ensures var log := before + [device] + [update] + [extended];
            before <= log && RoundBegun(before, log) && log[|before|..] == [device, update, extended]
  {
  }

  /** A round of reads asks for the device once and changes nothing. */
  lemma {:induction false} SentRound(before: seq<Exchange>, log: seq<Exchange>)
    requires RoundBegun(before, log)
    ensures Sent(log, CheckUpdate) == Sent(before, CheckUpdate) && Sent(log, DoUpdate) == Sent(before, DoUpdate)
    ensures Sent(log, DeviceInfo) == Sent(before, DeviceInfo) + if |log| > |before| then 1 else 0
    ensures |log| > |before| ==> log[|log| - 1].action != CheckUpdate
  {
    hide Sent;
    SentUnlike(before, log, {DeviceInfo, UpdateInfo, ExtendedInfo});
    if |log| == |before| {
      assert log == before;
    } else {
      var first := log[..|before| + 1];
      SentLast(before, first);
      SentUnlike(first, log, {UpdateInfo, ExtendedInfo});
    }
  }

  // ----- The time budget -----

  datatype Polling = Polling(maxPolls: nat, interval: nat, maxElapsed: nat)

  datatype Budget = Budget(start: nat, limit: nat, polls: nat, interval: nat) {
    function Deadline(): nat {
      start + limit
    }
  }

  function NewBudget(o: Polling, now: nat): (b: Budget)
    ensures b.start == now && b.limit == Least(o.maxElapsed, 600_000_000_000)
    ensures 1 <= b.polls <= 60
    ensures b.polls == o.maxPolls || (o.maxPolls == 0 && b.polls == 1) || b.polls == 60 < o.maxPolls
    ensures b.interval == Least(o.interval, 10_000_000_000)
  {
    Budget(now, Least(o.maxElapsed, 600 * SECOND),
           if o.maxPolls < 1 then 1 else Least(o.maxPolls, 60),
           Least(o.interval, 10 * SECOND))
  }

  // ----- What the workflows report -----

  datatype CheckResult = CheckResult(complete: bool, status: Status)

  datatype Outcome = Accepted | Rebooting | VerifiedInstalled | Timeout | Uncertain | Rejected

  datatype Report = Report(outcome: Outcome, history: seq<Outcome>, original: Status, readback: Option<Identity>)

  datatype Options = Options(confirmed: bool, verify: bool, polling: Polling)

  predicate SaysAccepted(fields: Fields) {
    && Value(fields, "NewX_AVM-DE_UpdateState") == Some("Started")
    && Value(fields, "NewUpgradeAvailable") in {Some("0"), Some("1"), Some("false"), Some("true")}
  }

  predicate SaysRejected(fields: Fields) {
    Value(fields, "NewX_AVM-DE_UpdateState") in {Some("Error"), Some("NoUpdate"), Some("Stopped")}
  }

  /** A fault that means that the router refused the action. */
  predicate Refused(e: CallError) {
    Root(e).SoapFault? && Root(e).code != 0
  }

  predicate SameBox(original: Status, readback: Identity) {
    readback.model == original.identity.model && readback.serial == original.identity.serial
  }

  predicate SameFamily(original: Status, readback: Identity) {
    && readback.version.Some? && original.identity.version.Some?
    && Comparable(readback.version.value, original.identity.version.value)
    && (original.reported.Some? ==> Comparable(readback.version.value, original.reported.value))
  }

  predicate Installed(original: Status, readback: Identity) {
    && SameBox(original, readback) && SameFamily(original, readback)
    && original.offered.Some? && SameVersion(readback.version.value, original.offered.value)
  }

  /** All versions that the decision to install and the verification rest on. */
  function VersionsSeen(original: Status, readback: Identity): seq<string>
    requires original.identity.version.Some? && original.offered.Some? && readback.version.Some?
  {
    [original.identity.version.value, original.offered.value, readback.version.value]
    + if original.reported.Some? then [original.reported.value] else []
  }

  /** The installed version is verified: the same box, a known serial, the offered
      version, newer than before, and no two of the versions seen name different
      models. */
  predicate VerifiedFacts(original: Status, readback: Identity) {
    && readback.model == original.identity.model && readback.model.Some?
    && readback.serial == original.identity.serial && readback.serial.Some?
    && original.identity.version.Some? && original.offered.Some? && readback.version.Some?
    && SameVersion(readback.version.value, original.offered.value)
    && Newer(readback.version.value, original.identity.version.value)
    && var seen := VersionsSeen(original, readback);
       forall i, j :: 0 <= i < |seen| && 0 <= j < |seen| ==> Comparable(seen[i], seen[j])
  }

  /** The guards of the code amount to the verified facts: comparability is not
      transitive, but every pair has been compared. */
  lemma InstalledMeansVerified(original: Status, readback: Identity)
    requires SafeOffer(original) && Installed(original, readback)
    ensures VerifiedFacts(original, readback)
  {
    hide Parse;
  }

  /** The guards can be met: an update from 7.5 to 7.6 that comes back prefixed. */
  lemma AnUpdateCanBeVerified()
    ensures var original := Status(Identity(Some("box"), Some("1"), Some("7.5")), Available, Some("7.6"), None,
                                   Some("Release"), None);
            SafeOffer(original) && Installed(original, Identity(Some("box"), Some("1"), Some("2.7.6")))
  {
    hide Parse, Print;
    PrintedVersionReads(Version(None, 7, 5));
    PrintedVersionReads(Version(None, 7, 6));
    PrintedVersionReads(Version(Some(2), 7, 6));
    PrintedDigits(7, 5, 0);
    PrintedDigits(7, 6, 0);
    PrintedDigits(2, 7, 6);
  }

  predicate HistoryOf(history: seq<Outcome>) {
    || history == [] || history == [Accepted] || history == [Accepted, Rebooting]
    || history == [Accepted, VerifiedInstalled] || history == [Accepted, Rebooting, VerifiedInstalled]
  }

  /** What every report says about itself. */
  predicate Sound(report: Report, verify: bool) {
    && SafeOffer(report.original)
    && HistoryOf(report.history)
    && (report.outcome == Rejected ==> report.history == [])
    && (report.history == [] ==> report.outcome in {Rejected, Uncertain})
    && (report.outcome == VerifiedInstalled <==>
          report.history != [] && report.history[|report.history| - 1] == VerifiedInstalled)
    && (report.outcome == VerifiedInstalled ==>
          report.readback.Some? && VerifiedFacts(report.original, report.readback.value))
    && (if verify then report.outcome !in {Accepted, Rebooting}
        else
          && report.outcome in {Accepted, Rejected, Uncertain}
          && Rebooting !in report.history && report.readback == None)
  }

  /** The report while the router is polled after it has accepted the update. */
  predicate Waiting(report: Report, original: Status) {
    && report.original == original && SafeOffer(original)
    && report.history == (if report.outcome == Rebooting then [Accepted, Rebooting] else [Accepted])
    && report.outcome in {Accepted, Rebooting}
  }

  lemma WaitsFirst(original: Status)
    requires SafeOffer(original)
    ensures Waiting(Report(Accepted, [Accepted], original, None), original)
  {
  }

  lemma Waits(report: Report, original: Status)
    requires Waiting(report, original)
    ensures Sound(report.(outcome := Uncertain), true) && Sound(report.(outcome := Timeout), true)
    ensures report.original == original && report.history != []
    ensures Rebooting in report.history <==> report.outcome == Rebooting
    ensures forall readback :: Waiting(report.(readback := readback), original)
    ensures report.outcome != Rebooting ==>
              Waiting(report.(outcome := Rebooting, history := report.history + [Rebooting]), original)
  {
    hide SafeOffer, VerifiedFacts;
    assert [Accepted] + [Rebooting] == [Accepted, Rebooting];
  }

  lemma WaitedSafely(report: Report)
    requires Waiting(report, report.original)
    ensures SafeOffer(report.original)
  {
    hide SafeOffer;
  }

  lemma Verifies(report: Report, original: Status, readback: Identity)
    requires Waiting(report, original) && report.readback == Some(readback) && VerifiedFacts(original, readback)
    ensures Sound(report.(outcome := VerifiedInstalled, history := report.history + [VerifiedInstalled]), true)
    ensures Rebooting in report.history + [VerifiedInstalled] <==> Rebooting in report.history
  {
    hide SafeOffer, VerifiedFacts;
    assert [Accepted] + [VerifiedInstalled] == [Accepted, VerifiedInstalled];
    assert [Accepted, Rebooting] + [VerifiedInstalled] == [Accepted, Rebooting, VerifiedInstalled];
  }

  /** The reports that need no poll. */
  lemma SoundReports(original: Status, verify: bool)
    requires SafeOffer(original)
    ensures Sound(Report(Uncertain, [], original, None), verify) && Sound(Report(Rejected, [], original, None), verify)
    ensures !verify ==> Sound(Report(Accepted, [Accepted], original, None), verify)
  {
    hide SafeOffer;
  }
}
