/** The client's Digest state: the cached challenge, its nonce count, and the one
    retry after a challenge (RFC 7616 section 3.4). */
module DigestClient {
  import opened Common
  import opened Strings
  import opened DigestHeader
  import opened DigestFields

  datatype Cached = Cached(challenge: Challenge, count: nat)

  /** What a request proves: with which challenge (and the how-manieth), and count. */
  datatype Credential = Credential(epoch: nat, challenge: Challenge, count: nat, cnonce: string)

  datatype Dispatch = Dispatch(verb: string, uri: string, credential: Option<Credential>, header: Option<string>)

  datatype Response = Response(status: nat, headers: seq<(string, string)>, body: string)

  datatype ClientError = TransportFailed | CnonceFailed | UnauthorizedChallenge | Status(status: nat)

  /** The value of the first header with that name, in any letter case. */
  function HeaderValue(headers: seq<(string, string)>, name: string): Option<string> {
    if headers == [] then None
    else if Lower(headers[0].0) == Lower(name) then Some(headers[0].1)
    else HeaderValue(headers[1..], name)
  }

  /** The challenge of a 401 response, if it can be answered. */
  function Challenged(response: Response): Option<Challenge> {
    match HeaderValue(response.headers, "WWW-Authenticate")
    case None => None
    case Some(text) => if ParseChallenge(text).1 then Some(ParseChallenge(text).0) else None
  }

  /** The first header with that name, in any letter case. */
  predicate FirstNamed(headers: seq<(string, string)>, k: nat, name: string) {
    && k < |headers| && SameLetters(headers[k].0, name)
    && forall j :: 0 <= j < k ==> !SameLetters(headers[j].0, name)
  }

  lemma {:induction false} ValueOfFirst(headers: seq<(string, string)>, k: nat, name: string)
    requires FirstNamed(headers, k, name)
    ensures HeaderValue(headers, name) == Some(headers[k].1)
    decreases k
  {
    hide Lower, SameLetters;
    LowerExactly(headers[0].0, name);
    if k > 0 { ValueOfFirst(headers[1..], k - 1, name); }
  }

  lemma {:induction false} ValueOfNone(headers: seq<(string, string)>, name: string)
    requires forall h <- headers :: !SameLetters(h.0, name)
    ensures HeaderValue(headers, name) == None
  {
    hide Lower, SameLetters;
    if headers != [] {
      LowerExactly(headers[0].0, name);
      ValueOfNone(headers[1..], name);
    }
  }

  /** The first `WWW-Authenticate` field of a reply gives the challenge: what it says
      field by field, if it gives a nonce. */
  lemma ChallengeOfReply(response: Response, k: nat, before: string, fields: seq<Field>)
    requires FirstNamed(response.headers, k, "www-authenticate")
    requires response.headers[k].1 == before + "Digest " + ListText(fields)
    requires 'D' !in before && fields != [] && AllRegular(fields)
    ensures Challenged(response) ==
            if Last(fields, "nonce") == "" then None
            else Some(Challenge(Last(fields, "realm"), Last(fields, "nonce"), Last(fields, "qop"),
                                Last(fields, "algorithm"), Last(fields, "opaque")))
  {
    hide ParseChallenge, ListText, AllRegular, Last, HeaderValue, SameLetters;
    NameInAnyCase(response.headers, k);
    ValueOfFirst(response.headers, k, "WWW-Authenticate");
    ChallengeReads(before, fields);
  }

  /** A reply without that field gives none. */
  lemma NoChallengeInReply(response: Response)
    requires forall h <- response.headers :: !SameLetters(h.0, "www-authenticate")
    ensures Challenged(response) == None
  {
    hide SameLetters, HeaderValue;
    forall h <- response.headers ensures !SameLetters(h.0, "WWW-Authenticate") { SameName(h.0); }
    ValueOfNone(response.headers, "WWW-Authenticate");
  }

  lemma SameName(name: string)
    ensures SameLetters(name, "www-authenticate") <==> SameLetters(name, "WWW-Authenticate")
  {
    hide SameLetters;
    LowerExactly(name, "www-authenticate");
    LowerExactly(name, "WWW-Authenticate");
    LowerExactly("www-authenticate", "WWW-Authenticate");
    assert SameLetters("www-authenticate", "WWW-Authenticate") by { EitherCase(); }
  }

  lemma EitherCase()
    ensures SameLetters("www-authenticate", "WWW-Authenticate")
  {
  }

  lemma NameInAnyCase(headers: seq<(string, string)>, k: nat)
    requires FirstNamed(headers, k, "www-authenticate")
    ensures FirstNamed(headers, k, "WWW-Authenticate")
  {
    hide SameLetters;
    forall j | 0 <= j < |headers|
      ensures SameLetters(headers[j].0, "www-authenticate") <==> SameLetters(headers[j].0, "WWW-Authenticate")
    {
      SameName(headers[j].0);
    }
  }

  function Next(count: nat): nat {
    if count < COUNT_MAX then count + 1 else COUNT_MAX
  }

  /** Requests that rest on the same challenge: the count grows, until it saturates. */
  predicate Later(a: Credential, b: Credential) {
    && a.epoch <= b.epoch
    && (a.epoch == b.epoch ==> a.challenge == b.challenge && (a.count < b.count || b.count == COUNT_MAX))
  }

  ghost predicate Counted(log: seq<Dispatch>) {
    forall i, j :: 0 <= i < j < |log| && log[i].credential.Some? && log[j].credential.Some? ==>
      Later(log[i].credential.value, log[j].credential.value)
  }

  /** No credential of the log is ahead of what is cached. */
  ghost predicate Behind(log: seq<Dispatch>, epoch: nat, digest: Option<Cached>) {
    forall i :: 0 <= i < |log| && log[i].credential.Some? ==>
      var c := log[i].credential.value;
      && digest.Some? && c.epoch <= epoch
      && (c.epoch == epoch ==> c.challenge == digest.value.challenge && c.count <= digest.value.count)
  }

  class Client {
    const user: string
    const password: string
    const md5: string -> string
    var digest: Option<Cached>
    // The environment: the responses and the client nonces to come.
    const replies: nat -> Result<Response, ()>
    const cnonces: nat -> Result<string, ()>
    var sent: nat
    var drawn: nat
    ghost var epoch: nat
    /** How many authorizations have been computed from the cached challenge. */
    ghost var issued: nat
    ghost var log: seq<Dispatch>

    constructor (user: string, password: string, md5: string -> string,
                 replies: nat -> Result<Response, ()>, cnonces: nat -> Result<string, ()>)
      ensures Valid() && digest == None && log == []
    {
      this.user, this.password, this.md5, this.replies, this.cnonces := user, password, md5, replies, cnonces;
      digest, sent, drawn := None, 0, 0;
      epoch, issued, log := 0, 0, [];
    }

    /** The count is the number of authorizations computed, up to saturation, and
        no pair of challenge and count is used twice below saturation. */
    ghost predicate Valid()
      reads this
    {
      && (digest.Some? ==> digest.value.count == if issued < COUNT_MAX then issued else COUNT_MAX)
      && Counted(log) && Behind(log, epoch, digest)
    }

    ghost predicate Proves(d: Dispatch) {
      match d.credential
      case None => d.header == None
      case Some(c) =>
        d.header.Some? && c.count <= COUNT_MAX
        && Authorizes(d.header.value, c.challenge, Answer(user, password, d.verb, d.uri, c.count, c.cnonce), md5)
    }

    /** A fresh authorization from the cached challenge: the k-th has count k. */
    method CachedAuthorization(verb: string, uri: string)
      returns (r: Result<Option<string>, ClientError>, ghost credential: Option<Credential>)
      requires Valid()
      modifies this`digest, this`drawn, this`issued
      ensures old(digest).None? ==>
                digest == None && r == Ok(None) && credential == None && issued == old(issued) && Valid()
      ensures old(digest).Some? ==>
                && digest == Some(old(digest).value.(count := Next(old(digest).value.count)))
                && issued == old(issued) + 1 && drawn == old(drawn) + 1
                && Valid()
                && digest.value.count == (if issued < COUNT_MAX then issued else COUNT_MAX)
                && match cnonces(old(drawn))
                   case Err(_) => r == Err(CnonceFailed)
                   case Ok(cnonce) =>
                     && credential == Some(Credential(epoch, digest.value.challenge, digest.value.count, cnonce))
                     && r.Ok? && Proves(Dispatch(verb, uri, credential, r.value))
                     && (forall i :: 0 <= i < |log| && log[i].credential.Some? ==>
                           Later(log[i].credential.value, credential.value))
    {
      credential := None;
      if digest.None? { return Ok(None), None; }
      var cached := digest.value.(count := Next(digest.value.count));
      digest := Some(cached);
      issued := issued + 1;
      var cnonce := cnonces(drawn);
      drawn := drawn + 1;
      if cnonce.Err? { return Err(CnonceFailed), None; }
      credential := Some(Credential(epoch, cached.challenge, cached.count, cnonce.value));
      var answer := Answer(user, password, verb, uri, cached.count, cnonce.value);
      HeaderAuthorizes(cached.challenge, answer, md5);
      r := Ok(Some(Header(cached.challenge, answer, md5)));
    }

    method Send(verb: string, uri: string, authorization: Option<string>, ghost credential: Option<Credential>)
      returns (r: Result<Response, ()>)
      requires Valid() && Proves(Dispatch(verb, uri, credential, authorization))
      requires credential.Some? ==>
                 && digest.Some? && credential.value.epoch == epoch
                 && credential.value.challenge == digest.value.challenge && credential.value.count == digest.value.count
                 && (forall i :: 0 <= i < |log| && log[i].credential.Some? ==>
                       Later(log[i].credential.value, credential.value))
      modifies this`sent, this`log
      ensures Valid() && log == old(log) + [Dispatch(verb, uri, credential, authorization)]
      ensures sent == old(sent) + 1 && r == replies(old(sent))
    {
      r := replies(sent);
      sent := sent + 1;
      log := log + [Dispatch(verb, uri, credential, authorization)];
    }

    /** A new challenge replaces the cached one and starts its own count. */
    method CacheChallenge(challenge: Challenge)
      requires Valid()
      modifies this`digest, this`epoch, this`issued
      ensures Valid() && digest == Some(Cached(challenge, 0)) && epoch == old(epoch) + 1 && issued == 0
    {
      digest := Some(Cached(challenge, 0));
      epoch := epoch + 1;
      issued := 0;
    }

    /** Either one request, or a second one after a 401 whose challenge could be
        parsed; the second proves that challenge with count 1. */
    twostate predicate OneRetry(verb: string, uri: string)
      reads this
    {
      && old(log) <= log && |log| <= |old(log)| + 2
      && (forall k :: |old(log)| <= k < |log| ==> log[k].verb == verb && log[k].uri == uri && Proves(log[k]))
      && (|log| > |old(log)| && old(digest).None? ==> log[|old(log)|].credential == None)
      && (|log| > |old(log)| && old(digest).Some? ==>
            && log[|old(log)|].credential.Some?
            && log[|old(log)|].credential.value.challenge == old(digest).value.challenge
            && log[|old(log)|].credential.value.count == Next(old(digest).value.count))
      && (|log| == |old(log)| + 2 ==>
            && replies(old(sent)).Ok? && replies(old(sent)).value.status == 401
            && var second := log[|old(log)| + 1].credential;
               second.Some? && second.value.count == 1 && second.value.epoch == old(epoch) + 1
               && Challenged(replies(old(sent)).value) == Some(second.value.challenge))
    }

    /** What the caller gets is decided by the last reply. */
    twostate predicate Decided(new r: Result<Response, ClientError>)
      reads this
    {
      && sent == old(sent) + |log| - |old(log)|
      && (r.Ok? ==> sent > old(sent) && replies(sent - 1) == Ok(r.value) && r.value.status == 200)
      && (r.Err? && r.error.Status? ==>
            sent > old(sent) && replies(sent - 1).Ok? && replies(sent - 1).value.status == r.error.status != 200)
      && (r == Err(UnauthorizedChallenge) <==>
            && sent == old(sent) + 1 && replies(old(sent)).Ok? && replies(old(sent)).value.status == 401
            && Challenged(replies(old(sent)).value) == None)
    }

    method Attempt(verb: string, uri: string) returns (r: Result<Response, ClientError>)
      requires Valid()
      modifies this`digest, this`drawn, this`issued, this`sent, this`log
      ensures Valid()
      ensures r == Err(CnonceFailed) ==> log == old(log) && sent == old(sent)
      ensures r != Err(CnonceFailed) ==>
                && sent == old(sent) + 1 && |log| == |old(log)| + 1 && old(log) <= log
                && r == (match replies(old(sent)) case Ok(response) => Ok(response) case Err(_) => Err(TransportFailed))
                && var d := log[|old(log)|];
                   && d.verb == verb && d.uri == uri && Proves(d)
                   && (old(digest).None? ==> d.credential == None)
                   && (old(digest).Some? ==>
                         && d.credential.Some? && d.credential.value.epoch == epoch
                         && d.credential.value.challenge == old(digest).value.challenge
                         && d.credential.value.count == Next(old(digest).value.count))
    {
      hide Counted, Behind, Authorizes, Later, Next;
      var authorization, credential := CachedAuthorization(verb, uri);
      if authorization.Err? { return Err(authorization.error); }
      var reply := Send(verb, uri, authorization.value, credential);
      r := match reply case Ok(response) => Ok(response) case Err(_) => Err(TransportFailed);
    }

    /** A SOAP action (`POST`) or an authenticated `GET`: the steps are the same,
        and the parts of the request that both attempts share are not modelled. */
    method Exchange(verb: string, uri: string) returns (r: Result<Response, ClientError>)
      requires Valid()
      modifies this`digest, this`drawn, this`issued, this`epoch, this`sent, this`log
      ensures Valid() && OneRetry(verb, uri) && Decided(r)
    {
      hide Counted, Behind, HeaderValue, ParseChallenge, Later, Client.Valid, Client.Proves;
      r := Attempt(verb, uri);
      if r.Err? { return; }
      if r.value.status == 401 {
        var challenge := Challenged(r.value);
        if challenge.None? { return Err(UnauthorizedChallenge); }
        CacheChallenge(challenge.value);
        r := Attempt(verb, uri);
        if r.Err? { return; }
      }
      if r.value.status != 200 { return Err(Status(r.value.status)); }
    }
  }
}
