/** The web session client: the cached session identifier with its lifetime, the
    challenge login, and commands repeated once after a 403. */
module Session {
  import opened Common
  import opened Strings

  const INVALID_SID: string := "0000000000000000"

  datatype ClientError =
    | NoCredential | TransportFailed | LoginStatus(status: nat) | MalformedLogin | BadChallenge
    | InvalidCredentials | RateLimited(seconds: int)
    | ForbiddenAfterLogin | CommandStatus(status: nat) | BadBody

  datatype SessionInfo = SessionInfo(sid: string, challenge: string, blockTime: int)

  /** A reply; `session` is what its body means as a login answer and `text` what
      it means as text, if it is text. */
  datatype Reply = Reply(status: nat, session: Option<SessionInfo>, text: Option<string>)

  /** The environment: the reply to the n-th request and the n-th clock reading. */
  datatype World = World(replies: nat -> Result<Reply, ()>, readings: nat -> nat)

  /** What the client does, in order: requests and clock readings, each with its
      number, and sessions seeded by the caller. */
  datatype Event =
    | Login(response: Option<string>, number: nat)
    | Command(name: string, sid: string, number: nat)
    | Reading(number: nat)
    | Seeded(sid: string)

  predicate ValidSid(sid: string) {
    sid != "" && sid != INVALID_SID
  }

  /** What the box hands out only to those who are logged in. */
  predicate Genuine(sid: string) {
    sid !in {"", "0000000000000000"}
  }

  predicate IsRequest(e: Event) {
    e.Login? || e.Command?
  }

  // ----- Counting -----

  function Requests(log: seq<Event>): nat {
    if log == [] then 0 else Requests(log[..|log| - 1]) + if IsRequest(log[|log| - 1]) then 1 else 0
  }

  function Readings(log: seq<Event>): nat {
    if log == [] then 0 else Readings(log[..|log| - 1]) + if log[|log| - 1].Reading? then 1 else 0
  }

  function Commands(log: seq<Event>): nat {
    if log == [] then 0 else Commands(log[..|log| - 1]) + if log[|log| - 1].Command? then 1 else 0
  }

  /** Requests and clock readings bear their numbers: the log leaves none out and
      invents none. */
  predicate Numbered(log: seq<Event>) {
    log == [] ||
    var front, last := log[..|log| - 1], log[|log| - 1];
    && Numbered(front)
    && (IsRequest(last) ==> last.number == Requests(front))
    && (last.Reading? ==> last.number == Readings(front))
  }

  lemma Append(log: seq<Event>, e: Event)
    ensures Requests(log + [e]) == Requests(log) + if IsRequest(e) then 1 else 0
    ensures Readings(log + [e]) == Readings(log) + if e.Reading? then 1 else 0
    ensures Commands(log + [e]) == Commands(log) + if e.Command? then 1 else 0
    ensures Numbered(log + [e]) <==>
              && Numbered(log)
              && (IsRequest(e) ==> e.number == Requests(log)) && (e.Reading? ==> e.number == Readings(log))
  {
    assert (log + [e])[..|log|] == log;
  }

  lemma {:induction false} NoCommands(before: seq<Event>, log: seq<Event>)
    requires before <= log
    requires forall k :: |before| <= k < |log| ==> !log[k].Command?
    ensures Commands(log) == Commands(before)
    decreases |log|
  {
    if |log| == |before| {
      assert log == before;
    } else {
      NoCommands(before, log[..|log| - 1]);
    }
  }

  // ----- Where a session comes from, and how old it is -----

  /** The box granted the session in its reply to the login at `k`. */
  predicate Grants(w: World, log: seq<Event>, k: int, sid: string) {
    && 0 <= k < |log| && log[k].Login? && w.replies(log[k].number).Ok?
    && var reply := w.replies(log[k].number).value;
       reply.status == 200 && reply.session.Some? && reply.session.value.sid == sid
  }

  /** The box answered the login at `k`: with this session, challenge and block time. */
  predicate Told(w: World, log: seq<Event>, k: int, info: SessionInfo) {
    && 0 <= k < |log| && log[k].Login? && w.replies(log[k].number).Ok?
    && w.replies(log[k].number).value.status == 200 && w.replies(log[k].number).value.session == Some(info)
  }

  /** The logins since `from`: a first one without a response, and after it at most
      one that answers the challenge of its reply, if that held no session. */
  ghost predicate ChallengeAnswered(w: World, answer: string -> Result<string, ()>, log: seq<Event>, from: nat) {
    && (forall k :: from <= k < |log| && log[k].Login? && log[k].response.None? ==>
          forall j :: from <= j < k ==> !log[j].Login?)
    && (forall k :: from <= k < |log| && log[k].Login? && log[k].response.Some? ==>
          && k > from && (exists info :: Told(w, log, k - 1, info) && !Genuine(info.sid)
                                         && answer(info.challenge) == Ok(log[k].response.value))
          && log[k - 1].response.None?)
  }

  /** Why a login request brought no answer. */
  predicate Unanswered(reply: Result<Reply, ()>, e: ClientError) {
    match e
    case TransportFailed => reply.Err?
    case LoginStatus(status) => reply.Ok? && reply.value.status == status != 200
    case MalformedLogin => reply.Ok? && reply.value.status == 200 && reply.value.session.None?
    case _ => false
  }

  /** At `k` the clock was read for a session that had just been granted or seeded. */
  predicate Acquired(w: World, log: seq<Event>, k: int, sid: string) {
    0 < k < |log| && log[k].Reading? && (Grants(w, log, k - 1, sid) || log[k - 1] == Seeded(sid))
  }

  /** The clock reading at `k` lies less than the lifetime after the one at `a`. */
  predicate Younger(w: World, log: seq<Event>, a: int, k: int, ttl: nat) {
    && 0 <= a < k < |log| && log[a].Reading? && log[k].Reading?
    && w.readings(log[a].number) <= w.readings(log[k].number) < w.readings(log[a].number) + ttl
  }

  /** Just before `k`, in the call that began at `from`, the session was granted,
      or found younger than its lifetime by the clock. */
  ghost predicate Ready(w: World, log: seq<Event>, ttl: nat, from: nat, k: nat, sid: string) {
    && Genuine(sid) && from < k <= |log| && log[k - 1].Reading?
    && ((from <= k - 2 && Grants(w, log, k - 2, sid))
        || exists a :: Acquired(w, log, a, sid) && Younger(w, log, a, k - 1, ttl))
  }

  /** Every command of the call that began at `from` carries a ready session. */
  ghost predicate AllReady(w: World, log: seq<Event>, ttl: nat, from: nat) {
    && from <= |log|
    && forall k :: from <= k < |log| && log[k].Command? ==> Ready(w, log, ttl, from, k, log[k].sid)
  }

  lemma GrantsStays(w: World, before: seq<Event>, log: seq<Event>, k: int, sid: string)
    requires before <= log && k < |before|
    ensures Grants(w, log, k, sid) <==> Grants(w, before, k, sid)
    ensures Acquired(w, log, k, sid) <==> Acquired(w, before, k, sid)
  {
  }

  lemma ToldStays(w: World, before: seq<Event>, log: seq<Event>, k: int, info: SessionInfo)
    requires before <= log && Told(w, before, k, info)
    ensures Told(w, log, k, info)
  {
  }

  lemma OneLogin(w: World, answer: string -> Result<string, ()>, log: seq<Event>, from: nat)
    requires from < |log| && log[from].Login? && log[from].response.None?
    requires forall k :: from < k < |log| ==> !log[k].Login?
    ensures ChallengeAnswered(w, answer, log, from)
  {
    hide Told;
  }

  lemma TwoLogins(w: World, answer: string -> Result<string, ()>, log: seq<Event>, from: nat, info: SessionInfo)
    requires from < |log| - 1 && log[from].Login? && log[from].response.None?
    requires Told(w, log, from, info) && !Genuine(info.sid)
    requires log[from + 1].Login? && log[from + 1].response.Some?
    requires answer(info.challenge) == Ok(log[from + 1].response.value)
    requires forall k :: from + 1 < k < |log| ==> !log[k].Login?
    ensures ChallengeAnswered(w, answer, log, from)
  {
    hide Told, Genuine;
  }

  lemma ReadyStays(w: World, before: seq<Event>, log: seq<Event>, ttl: nat, from: nat, k: nat, sid: string)
    requires before <= log && Ready(w, before, ttl, from, k, sid)
    ensures Ready(w, log, ttl, from, k, sid)
  {
    hide Grants, Acquired, Genuine;
    GrantsStays(w, before, log, k - 2, sid);
    if a :| Acquired(w, before, a, sid) && Younger(w, before, a, k - 1, ttl) {
      GrantsStays(w, before, log, a, sid);
      assert Younger(w, log, a, k - 1, ttl);
    }
  }

  lemma ReadyEarlier(w: World, log: seq<Event>, ttl: nat, from: nat, later: nat, k: nat, sid: string)
    requires from <= later && Ready(w, log, ttl, later, k, sid)
    ensures Ready(w, log, ttl, from, k, sid)
  {
    hide Grants, Acquired, Genuine, Younger;
  }

  lemma AllReadyExtends(w: World, before: seq<Event>, log: seq<Event>, ttl: nat, from: nat)
    requires before <= log && AllReady(w, before, ttl, from) && AllReady(w, log, ttl, |before|)
    ensures AllReady(w, log, ttl, from)
  {
    hide Ready;
    forall k | from <= k < |log| && log[k].Command? ensures Ready(w, log, ttl, from, k, log[k].sid) {
      if k < |before| {
        assert before[k] == log[k];
        ReadyStays(w, before, log, ttl, from, k, log[k].sid);
      } else {
        ReadyEarlier(w, log, ttl, from, |before|, k, log[k].sid);
      }
    }
  }

  lemma CommandReady(w: World, before: seq<Event>, ttl: nat, from: nat, e: Event)
    requires from <= |before| && forall k :: from <= k < |before| ==> !before[k].Command?
    requires e.Command? ==> Ready(w, before, ttl, from, |before|, e.sid)
    ensures AllReady(w, before + [e], ttl, from)
  {
    hide Ready;
    if e.Command? { ReadyStays(w, before, before + [e], ttl, from, |before|, e.sid); }
  }

  // ----- The repetition -----

  /** At most two commands; the second only after a 403 for the first, with a
      session granted by a login after it. */
  predicate RepeatedOnce(w: World, log: seq<Event>, from: nat, name: string) {
    && (forall k :: from <= k < |log| && log[k].Command? ==> log[k].name == name)
    && (forall i, j :: from <= i < j < |log| && log[i].Command? && log[j].Command? ==>
          && w.replies(log[i].number).Ok? && w.replies(log[i].number).value.status == 403
          && i < j - 2 && Grants(w, log, j - 2, log[j].sid))
  }

  /** Only the last event since `from` may be a command. */
  predicate OnlyLast(log: seq<Event>, from: nat, name: string) {
    && from <= |log|
    && (forall k :: from <= k < |log| - 1 ==> !log[k].Command?)
    && (|log| > from && log[|log| - 1].Command? ==> log[|log| - 1].name == name)
  }

  lemma OneCommand(w: World, log: seq<Event>, from: nat, name: string)
    requires OnlyLast(log, from, name)
    ensures RepeatedOnce(w, log, from, name)
  {
    hide Grants;
  }

  lemma TwoCommands(w: World, before: seq<Event>, log: seq<Event>, from: nat, name: string)
    requires before <= log && OnlyLast(before, from, name) && OnlyLast(log, |before|, name)
    requires before != [] && IsRequest(before[|before| - 1])
    requires var reply := w.replies(before[|before| - 1].number); reply.Ok? && reply.value.status == 403
    requires |log| > |before| && log[|log| - 1].Command? ==>
               |before| <= |log| - 3 && Grants(w, log, |log| - 3, log[|log| - 1].sid)
    ensures RepeatedOnce(w, log, from, name)
  {
    hide Grants;
    assert forall k :: 0 <= k < |before| ==> log[k] == before[k];
  }

  class Client {
    const password: string
    const answer: string -> Result<string, ()>
    const world: World
    var sid: Option<string>
    var acquiredAt: Option<nat>
    var ttl: nat
    var sent: nat
    var read: nat
    ghost var log: seq<Event>
    /** Where the log shows the acquisition of the cached session. */
    ghost var origin: int

    constructor (password: string, answer: string -> Result<string, ()>, ttl: nat, world: World)
      ensures Valid() && sid == None && log == [] && this.world == world
    {
      this.password, this.answer, this.ttl, this.world := password, answer, ttl, world;
      sid, acquiredAt, sent, read, log, origin := None, None, 0, 0, [], 0;
    }

    /** The log is true, and a cached session was granted by a logged login or
        seeded, with the clock read right after it. */
    ghost predicate Valid()
      reads this
    {
      && Numbered(log) && sent == Requests(log) && read == Readings(log)
      && (sid.Some? <==> acquiredAt.Some?)
      && (sid.Some? ==>
            Acquired(world, log, origin, sid.value) && acquiredAt.value == world.readings(log[origin].number))
    }

    method ReadClock() returns (now: nat)
      requires Valid()
      modifies this`read, this`log
      ensures Valid() && log == old(log) + [Reading(old(read))] && now == world.readings(old(read))
    {
      hide Grants;
      now := world.readings(read);
      Append(log, Reading(read));
      if sid.Some? { GrantsStays(world, log, log + [Reading(read)], origin, sid.value); }
      log := log + [Reading(read)];
      read := read + 1;
    }

    /** What the last reply since `from` says about a failed login. */
    ghost predicate LoginRefused(from: nat, e: ClientError)
      reads this
    {
      && |log| > from && log[|log| - 1].Login?
      && match e
         case RateLimited(seconds) =>
           && log[|log| - 1].response.Some? && seconds > 0
           && exists info :: Told(world, log, |log| - 1, info) && !Genuine(info.sid) && info.blockTime == seconds
         case InvalidCredentials =>
           && log[|log| - 1].response.Some?
           && exists info :: Told(world, log, |log| - 1, info) && !Genuine(info.sid) && info.blockTime <= 0
         case BadChallenge =>
           && log[|log| - 1].response.None?
           && exists info :: Told(world, log, |log| - 1, info) && !Genuine(info.sid) && answer(info.challenge).Err?
         case _ => Unanswered(world.replies(log[|log| - 1].number), e)
    }

    method Cache(value: string)
      requires Valid() && log != []
      requires Grants(world, log, |log| - 1, value) || log[|log| - 1] == Seeded(value)
      modifies this`sid, this`acquiredAt, this`read, this`log, this`origin
      ensures Valid() && sid == Some(value) && log == old(log) + [Reading(old(read))]
    {
      hide Grants;
      GrantsStays(world, log, log + [Reading(read)], |log| - 1, value);
      var now := ReadClock();
      sid, acquiredAt := Some(value), Some(now);
      origin := |log| - 1;
    }

    /** The caller's own session. */
    method SetCachedSid(value: string)
      requires Valid()
      modifies this`sid, this`acquiredAt, this`read, this`log, this`origin
      ensures Valid() && sid == Some(value) && log == old(log) + [Seeded(value), Reading(old(read))]
    {
      ClearSid();
      Append(log, Seeded(value));
      log := log + [Seeded(value)];
      Cache(value);
    }

    method ClearSid()
      requires Valid()
      modifies this`sid, this`acquiredAt
      ensures Valid() && sid == None
    {
      sid, acquiredAt := None, None;
    }

    /** Whether the cached session is valid and younger than its lifetime. A clock
        that went backwards makes it unusable. */
    method CachedIsFresh() returns (current: bool)
      requires Valid()
      modifies this`read, this`log
      ensures Valid()
      ensures log == if sid.Some? && Genuine(sid.value) && ttl > 0 then old(log) + [Reading(old(read))] else old(log)
      ensures current <==>
                && sid.Some? && Genuine(sid.value) && ttl > 0
                && acquiredAt.value <= world.readings(old(read)) < acquiredAt.value + ttl
      ensures current ==>
                log == old(log) + [Reading(old(read))] && Younger(world, log, origin, |log| - 1, ttl)
    {
      hide Grants, Numbered;
      if sid.None? || !ValidSid(sid.value) || ttl == 0 { return false; }
      var now := ReadClock();
      current := acquiredAt.value <= now && now - acquiredAt.value < ttl;
    }

    method Send(ghost e: Event) returns (r: Result<Reply, ()>)
      requires Valid() && IsRequest(e) && e.number == sent
      modifies this`sent, this`log
      ensures Valid() && log == old(log) + [e] && sent == old(sent) + 1 && r == world.replies(old(sent))
    {
      hide Grants;
      Append(log, e);
      if sid.Some? { GrantsStays(world, log, log + [e], origin, sid.value); }
      r := world.replies(sent);
      sent := sent + 1;
      log := log + [e];
    }

    method FetchSession(response: Option<string>) returns (r: Result<SessionInfo, ClientError>)
      requires Valid()
      modifies this`sent, this`log
      ensures Valid() && log == old(log) + [Login(response, old(sent))] && sent == old(sent) + 1
      ensures r.Ok? ==> Told(world, log, |log| - 1, r.value) && Grants(world, log, |log| - 1, r.value.sid)
      ensures r.Err? ==> Unanswered(world.replies(old(sent)), r.error)
      ensures r.Err? ==> r.error in {TransportFailed, MalformedLogin} || r.error.LoginStatus?
    {
      hide Numbered;
      var reply := Send(Login(response, sent));
      if reply.Err? { return Err(TransportFailed); }
      if reply.value.status != 200 { return Err(LoginStatus(reply.value.status)); }
      if reply.value.session.None? { return Err(MalformedLogin); }
      return Ok(reply.value.session.value);
    }

    /** The challenge login: at most two requests, the last of which granted the
        session. Without one the last reply says why, or there was none. */
    method LogIn() returns (r: Result<string, ClientError>)
      requires Valid() && sid == None
      modifies this`sid, this`acquiredAt, this`read, this`sent, this`log, this`origin
      ensures Valid() && old(log) <= log && old(sent) <= sent <= old(sent) + 2
      ensures forall k :: |old(log)| <= k < |log| ==> !log[k].Command?
      ensures ChallengeAnswered(world, answer, log, |old(log)|)
      ensures r.Ok? ==>
                && sid == Some(r.value) && Genuine(r.value) && sent > old(sent)
                && |old(log)| <= |log| - 2 && Grants(world, log, |log| - 2, r.value) && log[|log| - 1].Reading?
      ensures r.Err? ==> sid == None && !r.error.CommandStatus?
      ensures r.Err? ==> r.error !in {ForbiddenAfterLogin, BadBody, NoCredential}
      ensures r.Err? ==> LoginRefused(|old(log)|, r.error)
    {
      hide Grants, Numbered, Told, ChallengeAnswered, Unanswered, Client.Valid;
      ghost var from := |log|;
      var first := FetchSession(None);
      OneLogin(world, answer, log, from);
      if first.Err? { return Err(first.error); }
      if ValidSid(first.value.sid) {
        GrantsStays(world, log, log + [Reading(read)], |log| - 1, first.value.sid);
        Cache(first.value.sid);
        OneLogin(world, answer, log, from);
        return Ok(first.value.sid);
      }
      var response := answer(first.value.challenge);
      if response.Err? { return Err(BadChallenge); }
      ghost var before := log;
      var second := FetchSession(Some(response.value));
      ToldStays(world, before, log, from, first.value);
      TwoLogins(world, answer, log, from, first.value);
      if second.Err? { return Err(second.error); }
      if !ValidSid(second.value.sid) {
        if second.value.blockTime > 0 { return Err(RateLimited(second.value.blockTime)); }
        return Err(InvalidCredentials);
      }
      ghost var last := log;
      GrantsStays(world, log, log + [Reading(read)], |log| - 1, second.value.sid);
      Cache(second.value.sid);
      ToldStays(world, last, log, from, first.value);
      TwoLogins(world, answer, log, from, first.value);
      return Ok(second.value.sid);
    }

    /** A usable session: the cached one after a look at the clock, or one that
        the last of at most two login requests granted. */
    method Sid() returns (r: Result<string, ClientError>)
      requires Valid()
      modifies this`sid, this`acquiredAt, this`read, this`sent, this`log, this`origin
      ensures Valid() && old(log) <= log && old(sent) <= sent <= old(sent) + 2
      ensures forall k :: |old(log)| <= k < |log| ==> !log[k].Command?
      ensures r.Ok? ==> sid == Some(r.value) && Ready(world, log, ttl, |old(log)|, |log|, r.value)
      ensures r.Ok? && (old(sid).None? || sent > old(sent)) ==>
                |old(log)| <= |log| - 2 && Grants(world, log, |log| - 2, r.value)
      ensures r.Ok? && sent == old(sent) ==> old(sid) == Some(r.value)
      ensures r.Err? ==> sid == None && !r.error.CommandStatus? && r.error !in {ForbiddenAfterLogin, BadBody}
      ensures r.Err? ==> (r.error == NoCredential <==> AllSpace(password)) && (AllSpace(password) ==> sent == old(sent))
      ensures r.Err? && r.error != NoCredential ==> LoginRefused(|old(log)|, r.error)
    {
      hide Grants, Numbered, Younger, Trim, AllSpace, ChallengeAnswered, Told;
      BlankExactly(password);
      var current := CachedIsFresh();
      if current { return Ok(sid.value); }
      ClearSid();
      if Trim(password) == "" { return Err(NoCredential); }
      r := LogIn();
    }

    /** One command; the other parts of the request are not modelled. */
    method Once(name: string) returns (r: Result<Reply, ClientError>)
      requires Valid()
      modifies this`sid, this`acquiredAt, this`read, this`sent, this`log, this`origin
      ensures Valid() && old(log) <= log && AllReady(world, log, ttl, |old(log)|)
      ensures old(sent) <= sent <= old(sent) + 3
      ensures OnlyLast(log, |old(log)|, name)
      ensures Commands(log) <= Commands(old(log)) + 1
      ensures r.Ok? ==>
                && |log| > |old(log)| && Commands(log) == Commands(old(log)) + 1 && LastReply(Ok(r.value))
      ensures |log| > |old(log)| && log[|log| - 1].Command? && old(sid).None? ==>
                |old(log)| <= |log| - 3 && Grants(world, log, |log| - 3, log[|log| - 1].sid)
      ensures r.Err? ==> !r.error.CommandStatus? && r.error !in {ForbiddenAfterLogin, BadBody}
    {
      hide Grants, Numbered, Ready, AllReady, Commands;
      var session := Sid();
      NoCommands(old(log), log);
      if session.Err? {
        NothingSent(world, old(log), log, ttl);
        return Err(session.error);
      }
      ghost var e := Command(name, session.value, sent);
      Append(log, e);
      CommandReady(world, log, ttl, |old(log)|, e);
      GrantsStays(world, log, log + [e], |log| - 2, session.value);
      var reply := Send(e);
      if reply.Err? { return Err(TransportFailed); }
      return Ok(reply.value);
    }

    /** What one call may do: at most two commands and six requests. */
    twostate predicate OneRepeat(name: string)
      reads this
    {
      && old(log) <= log && sent <= old(sent) + 6 && AllReady(world, log, ttl, |old(log)|)
      && Commands(log) <= Commands(old(log)) + 2
      && RepeatedOnce(world, log, |old(log)|, name)
    }

    /** The reply to the last request decides. */
    ghost predicate LastReply(reply: Result<Reply, ()>)
      reads this
    {
      log != [] && log[|log| - 1].Command? && world.replies(log[|log| - 1].number) == reply
    }

    ghost predicate LastStatus(status: nat)
      reads this
    {
      exists reply: Reply :: LastReply(Ok(reply)) && reply.status == status
    }

    method TwiceAtMost(name: string) returns (r: Result<Reply, ClientError>, ghost repeated: bool)
      requires Valid()
      modifies this`sid, this`acquiredAt, this`read, this`sent, this`log, this`origin
      ensures Valid() && OneRepeat(name)
      ensures r.Ok? ==> LastReply(Ok(r.value)) && (r.value.status == 403 ==> repeated)
      ensures r.Ok? ==> Commands(log) == Commands(old(log)) + if repeated then 2 else 1
      ensures r.Err? ==> !r.error.CommandStatus? && r.error !in {ForbiddenAfterLogin, BadBody}
    {
      hide Commands, AllReady, RepeatedOnce, Grants, Numbered;
      repeated := false;
      ghost var from := |log|;
      r := Once(name);
      OneCommand(world, log, from, name);
      if r.Ok? && r.value.status == 403 {
        ghost var first := log;
        ClearSid();
        repeated := true;
        r := Once(name);
        AllReadyExtends(world, first, log, ttl, from);
        TwoCommands(world, first, log, from, name);
      }
    }

    method Home(name: string) returns (r: Result<string, ClientError>)
      requires Valid()
      modifies this`sid, this`acquiredAt, this`read, this`sent, this`log, this`origin
      ensures Valid() && OneRepeat(name)
      ensures r.Ok? ==> exists reply: Reply ::
                          && LastReply(Ok(reply)) && reply.status == 200
                          && reply.text.Some? && TrimmedTo(reply.text.value, r.value) && r.value != "inval"
      ensures r == Err(ForbiddenAfterLogin) ==> Commands(log) == Commands(old(log)) + 2 && LastStatus(403)
      ensures r.Err? && r.error.CommandStatus? ==> LastStatus(r.error.status) && r.error.status !in {200, 403}
      ensures r == Err(BadBody) ==>
                exists reply: Reply :: LastReply(Ok(reply)) && reply.status == 200
                                  && (reply.text.None? || TrimmedTo(reply.text.value, "inval"))
    {
      hide Commands, Trim, TrimmedTo, Client.Valid;
      var reply, repeated := TwiceAtMost(name);
      if reply.Err? { return Err(reply.error); }
      if reply.value.status == 403 { return Err(ForbiddenAfterLogin); }
      if reply.value.status != 200 { return Err(CommandStatus(reply.value.status)); }
      if reply.value.text.None? { return Err(BadBody); }
      var text := Trim(reply.value.text.value);
      TrimMeans(reply.value.text.value);
      if text == "inval" { return Err(BadBody); }
      return Ok(text);
    }

    method CpuTemperatures() returns (r: Result<Reply, ClientError>)
      requires Valid()
      modifies this`sid, this`acquiredAt, this`read, this`sent, this`log, this`origin
      ensures Valid() && OneRepeat("query.lua")
      ensures r.Ok? ==> LastReply(Ok(r.value)) && r.value.status == 200
      ensures r == Err(CommandStatus(403)) ==> Commands(log) == Commands(old(log)) + 2
      ensures r.Err? && r.error.CommandStatus? ==> LastStatus(r.error.status) && r.error.status != 200
    {
      hide Commands, Client.Valid;
      var reply, repeated := TwiceAtMost("query.lua");
      if reply.Err? { return reply; }
      if reply.value.status != 200 { return Err(CommandStatus(reply.value.status)); }
      return reply;
    }
  }

  lemma NothingSent(w: World, before: seq<Event>, log: seq<Event>, ttl: nat)
    requires before <= log && forall k :: |before| <= k < |log| ==> !log[k].Command?
    ensures AllReady(w, log, ttl, |before|)
  {
    hide Ready;
  }
}
