/** The transport that sends a request over TLS and may fall back to plain HTTP:
    which connections the bytes of a request can reach. */
module HttpFallback {
  import opened Common
  import opened Strings

  /** A parsed URL; `port` is the explicit or the well-known one. */
  datatype Url = Url(scheme: string, userinfo: bool, host: string, port: nat, target: string)

  datatype Response = Response(status: nat, body: string)

  datatype TransportError =
    | Unreachable | RequestFailed | UnsafeUrl | NoFallbackPort | FallbackRefused | RequestCancelled

  // ----- Which URLs may be requested -----

  predicate SameOrigin(origin: Url, url: Url) {
    && !origin.userinfo && !url.userinfo && url.scheme in {"http", "https"}
    && Lower(origin.host) == Lower(url.host) && origin.scheme == url.scheme && origin.port == url.port
  }

  /** Neither address holds credentials, and scheme, host and port agree. */
  predicate Agrees(origin: Url, url: Url) {
    && origin.userinfo == url.userinfo == false && origin.port == url.port
    && ((origin.scheme == "http" && url.scheme == "http") || (origin.scheme == "https" && url.scheme == "https"))
    && SameLetters(origin.host, url.host)
  }

  lemma OriginAgrees(origin: Url, url: Url)
    ensures SameOrigin(origin, url) <==> Agrees(origin, url)
  {
    hide Lower, SameLetters;
    LowerExactly(origin.host, url.host);
  }

  /** The plain-text address of a TLS one: same host and target, port 49000 for
      49443 and port 80 for 443. */
  predicate PlainCounterpart(url: Url, plain: Url) {
    && plain.scheme == "http" && plain.host == url.host && plain.target == url.target && plain.userinfo == url.userinfo
    && ((url.port == 49443 && plain.port == 49000) || (url.port == 443 && plain.port == 80))
  }

  function FallbackUrl(url: Url): (r: Result<Url, TransportError>)
    ensures r.Ok? ==> PlainCounterpart(url, r.value)
    ensures r.Ok? <==> url.port == 49443 || url.port == 443
    ensures r.Err? ==> r.error == NoFallbackPort
  {
    if url.port == 49443 then Ok(url.(scheme := "http", port := 49000))
    else if url.port == 443 then Ok(url.(scheme := "http", port := 80))
    else Err(NoFallbackPort)
  }

  // ----- Which failures mean that nobody answered -----

  predicate Contains(s: string, word: string) {
    exists k :: 0 <= k <= |s| && word <= s[k..]
  }

  predicate UnreachableMessage(message: string) {
    var lower := Lower(message);
    if Contains(lower, "certificate") || Contains(lower, "tls") || Contains(lower, "handshake")
       || Contains(lower, "invalid peer") || Contains(lower, "unknown issuer") then false
    else
      Contains(lower, "timed out") || Contains(lower, "timeout") || Contains(lower, "connection refused")
      || Contains(lower, "host is unreachable") || Contains(lower, "network is unreachable")
      || Contains(lower, "no route to host")
  }

  /** Only the connect phase can find the endpoint unreachable. */
  predicate ClassifiedUnreachable(phase: string, message: string) {
    phase == "connecting" && UnreachableMessage(phase + ": " + message)
  }

  function Classify(phase: string, message: string): TransportError {
    if ClassifiedUnreachable(phase, message) then Unreachable else RequestFailed
  }

  /** The text has the word in it, in any letter case. */
  ghost predicate Mentions(text: string, word: string) {
    exists a, found, b :: text == a + found + b && SameLetters(found, word)
  }

  ghost predicate MentionsOne(text: string, words: seq<string>) {
    exists word <- words :: Mentions(text, word)
  }

  /** The error says that nothing answered, and not that TLS failed. */
  ghost predicate NobodyAnswered(error: string) {
    var text := "connecting: " + error;
    && MentionsOne(text, ["timed out", "timeout", "connection refused", "host is unreachable",
                          "network is unreachable", "no route to host"])
    && !MentionsOne(text, ["certificate", "tls", "handshake", "invalid peer", "unknown issuer"])
  }

  lemma LowerSlice(s: string, a: nat, b: nat)
    requires a <= b <= |s|
    ensures Lower(s)[a..b] == Lower(s[a..b])
  {
  }

  lemma LowerLength(s: string)
    ensures |Lower(s)| == |s|
  {
  }

  lemma ContainsMentions(text: string, word: string)
    requires NoCapitals(word)
    ensures Contains(Lower(text), word) <==> Mentions(text, word)
  {
    hide Lower, SameLetters, NoCapitals;
    LowerStays(word);
    LowerLength(text);
    if k :| 0 <= k <= |Lower(text)| && word <= Lower(text)[k..] {
      var found := text[k..k + |word|];
      assert Lower(text)[k..k + |word|] == Lower(text)[k..][..|word|] == word;
      LowerSlice(text, k, k + |word|);
      LowerExactly(found, word);
      assert text == text[..k] + found + text[k + |word|..];
    }
    if a, found, b :| text == a + found + b && SameLetters(found, word) {
      LowerExactly(found, word);
      LowerLength(found);
      LowerSlice(text, |a|, |a| + |found|);
      assert text[|a|..|a| + |found|] == found;
      assert Lower(text)[|a|..][..|word|] == word;
    }
  }

  lemma TlsMentioned(text: string)
    ensures MentionsOne(text, ["certificate", "tls", "handshake", "invalid peer", "unknown issuer"]) <==>
            || Contains(Lower(text), "certificate") || Contains(Lower(text), "tls")
            || Contains(Lower(text), "handshake") || Contains(Lower(text), "invalid peer")
            || Contains(Lower(text), "unknown issuer")
  {
    hide Lower, Contains, Mentions;
    ContainsMentions(text, "certificate");
    ContainsMentions(text, "tls");
    ContainsMentions(text, "handshake");
    ContainsMentions(text, "invalid peer");
    ContainsMentions(text, "unknown issuer");
    FiveWords(text, "certificate", "tls", "handshake", "invalid peer", "unknown issuer");
  }

  lemma FiveWords(text: string, a: string, b: string, c: string, d: string, e: string)
    ensures MentionsOne(text, [a, b, c, d, e]) <==>
            Mentions(text, a) || Mentions(text, b) || Mentions(text, c) || Mentions(text, d) || Mentions(text, e)
  {
    hide Mentions;
  }

  lemma TimeoutMentioned(text: string)
    ensures Contains(Lower(text), "timed out") <==> Mentions(text, "timed out")
    ensures Contains(Lower(text), "timeout") <==> Mentions(text, "timeout")
    ensures Contains(Lower(text), "connection refused") <==> Mentions(text, "connection refused")
  {
    hide Lower, Contains, Mentions;
    ContainsMentions(text, "timed out");
    ContainsMentions(text, "timeout");
    ContainsMentions(text, "connection refused");
  }

  lemma UnreachableMentioned(text: string)
    ensures Contains(Lower(text), "host is unreachable") <==> Mentions(text, "host is unreachable")
    ensures Contains(Lower(text), "network is unreachable") <==> Mentions(text, "network is unreachable")
  {
    hide Lower, Contains, Mentions;
    ContainsMentions(text, "host is unreachable");
    ContainsMentions(text, "network is unreachable");
  }

  lemma NoRouteMentioned(text: string)
    ensures Contains(Lower(text), "no route to host") <==> Mentions(text, "no route to host")
  {
    hide Lower, Contains, Mentions;
    ContainsMentions(text, "no route to host");
  }

  lemma SilenceMentioned(text: string)
    ensures MentionsOne(text, ["timed out", "timeout", "connection refused", "host is unreachable",
                               "network is unreachable", "no route to host"]) <==>
            || Contains(Lower(text), "timed out") || Contains(Lower(text), "timeout")
            || Contains(Lower(text), "connection refused") || Contains(Lower(text), "host is unreachable")
            || Contains(Lower(text), "network is unreachable") || Contains(Lower(text), "no route to host")
  {
    hide Lower, Contains, Mentions;
    TimeoutMentioned(text);
    UnreachableMentioned(text);
    NoRouteMentioned(text);
    SixWords(text, "timed out", "timeout", "connection refused", "host is unreachable", "network is unreachable",
             "no route to host");
  }

  lemma SixWords(text: string, a: string, b: string, c: string, d: string, e: string, f: string)
    ensures MentionsOne(text, [a, b, c, d, e, f]) <==>
            || Mentions(text, a) || Mentions(text, b) || Mentions(text, c) || Mentions(text, d) || Mentions(text, e)
            || Mentions(text, f)
  {
    hide Mentions;
  }

  lemma UnreachableMeans(error: string)
    ensures Classify("connecting", error) == (if NobodyAnswered(error) then Unreachable else RequestFailed)
  {
    hide Lower, Contains, MentionsOne;
    var text := "connecting" + ": " + error;
    assert text == "connecting: " + error;
    TlsMentioned(text);
    SilenceMentioned(text);
  }

  lemma LaterPhases(message: string)
    ensures Classify("setting read timeout", message) == RequestFailed
    ensures Classify("completing TLS handshake", message) == RequestFailed
    ensures Classify("writing request", message) == RequestFailed
    ensures Classify("reading response body", message) == RequestFailed
  {
    hide UnreachableMessage;
    assert "connecting"[0] == 'c' && "connecting"[2] == 'n' && "completing TLS handshake"[2] == 'm';
  }

  // ----- What happens on the wire -----

  /** How an established connection goes on. */
  datatype Course =
    | SetupFails(message: string)
    | HandshakeFails(message: string)
    | PinFails
    | WriteFails(message: string)
    | ReadFails(message: string)
    | Answers(response: Response)

  /** What can be observed: nobody answered at a URL, a connection carried bytes
      of a request and then went on in its course, the user was warned. */
  datatype Event = NoAnswer(url: Url) | Carried(url: Url, course: Course) | Warned

  /** A connection is ready for the request: over TLS, after the handshake and,
      unless the certificate is not checked, after the pin check. */
  predicate Admits(insecure: bool, url: Url, course: Course) {
    && !course.SetupFails?
    && (url.scheme == "https" ==> !course.HandshakeFails? && (insecure || !course.PinFails?))
  }

  predicate AllAdmitted(insecure: bool, log: seq<Event>) {
    forall k :: 0 <= k < |log| && log[k].Carried? ==> Admits(insecure, log[k].url, log[k].course)
  }

  /** The event is at the requested address, or, for a TLS origin, at its plain-text
      counterpart. */
  predicate GoesTo(origin: Url, requested: Url, event: Event) {
    event.Warned? || event.url == requested || (origin.scheme == "https" && PlainCounterpart(requested, event.url))
  }

  function Logged(log: seq<Event>, event: Option<Event>): seq<Event> {
    if event.Some? then log + [event.value] else log
  }

  function Carriers(log: seq<Event>): nat {
    if log == [] then 0 else Carriers(log[..|log| - 1]) + if log[|log| - 1].Carried? then 1 else 0
  }

  function Warnings(log: seq<Event>): nat {
    if log == [] then 0 else Warnings(log[..|log| - 1]) + if log[|log| - 1].Warned? then 1 else 0
  }

  lemma Append(log: seq<Event>, event: Event)
    ensures Carriers(log + [event]) == Carriers(log) + if event.Carried? then 1 else 0
    ensures Warnings(log + [event]) == Warnings(log) + if event.Warned? then 1 else 0
  {
    assert (log + [event])[..|log|] == log;
  }

  lemma AdmittedExtends(insecure: bool, log: seq<Event>, event: Event)
    requires AllAdmitted(insecure, log) && (event.Carried? ==> Admits(insecure, event.url, event.course))
    ensures AllAdmitted(insecure, log + [event])
  {
  }

  /** Someone tried the TLS endpoint before position `k`, and nobody answered. */
  ghost predicate TriedTls(log: seq<Event>, k: nat) {
    exists j :: 0 <= j < k && j < |log| && log[j].NoAnswer? && log[j].url.scheme == "https"
  }

  /** For a TLS origin, plain text on the wire implies the opt-in and an earlier
      attempt to reach the TLS endpoint that nobody answered. */
  ghost predicate NoSilentDowngrade(origin: Url, allowed: bool, log: seq<Event>) {
    forall k :: 0 <= k < |log| && log[k].Carried? && origin.scheme == "https" && log[k].url.scheme != "https" ==>
      allowed && TriedTls(log, k)
  }

  lemma DowngradeExtends(origin: Url, allowed: bool, log: seq<Event>, event: Event)
    requires NoSilentDowngrade(origin, allowed, log)
    requires event.Carried? && origin.scheme == "https" && event.url.scheme != "https" ==>
               allowed && TriedTls(log, |log|)
    ensures NoSilentDowngrade(origin, allowed, log + [event])
    ensures TriedTls(log, |log|) ==> TriedTls(log + [event], |log| + 1)
    ensures event.NoAnswer? && event.url.scheme == "https" ==> TriedTls(log + [event], |log| + 1)
  {
    var longer := log + [event];
    forall k | 0 <= k <= |log| && TriedTls(log, k) ensures TriedTls(longer, k) && TriedTls(longer, |log| + 1) {
      var j :| 0 <= j < k && j < |log| && log[j].NoAnswer? && log[j].url.scheme == "https";
      assert longer[j] == log[j];
    }
    assert longer[|log|] == event;
    forall k | 0 <= k < |longer| && longer[k].Carried? && origin.scheme == "https" && longer[k].url.scheme != "https"
      ensures allowed && TriedTls(longer, k)
    {
      if k < |log| { assert longer[k] == log[k]; }
    }
  }

  class Transport {
    const origin: Url
    const addresses: seq<string>
    const insecure: bool
    const allowFallback: bool
    var tlsEnabled: bool
    var warned: bool
    // The environment: the results of successive connection attempts, the course
    // of successive connections, and the answers of the cancellation probe.
    const attempts: nat -> Result<(), string>
    const courses: nat -> Course
    const cancelled: nat -> bool
    var attempted: nat
    var connected: nat
    var probes: nat
    ghost var log: seq<Event>

    constructor (origin: Url, addresses: seq<string>, insecure: bool, allowFallback: bool,
                 attempts: nat -> Result<(), string>, courses: nat -> Course, cancelled: nat -> bool)
      ensures Valid() && tlsEnabled == (origin.scheme == "https") && log == []
      ensures this.origin == origin && this.allowFallback == allowFallback
    {
      this.origin, this.addresses, this.insecure, this.allowFallback := origin, addresses, insecure, allowFallback;
      this.attempts, this.courses, this.cancelled := attempts, courses, cancelled;
      tlsEnabled, warned := origin.scheme == "https", false;
      attempted, connected, probes := 0, 0, 0;
      log := [];
    }

    /** Only ready connections carried requests, and TLS is switched off only with
        the opt-in, after an unanswered attempt, and with the one warning. */
    ghost predicate Valid()
      reads this
    {
      && AllAdmitted(insecure, log) && NoSilentDowngrade(origin, allowFallback, log)
      && (tlsEnabled ==> origin.scheme == "https")
      && (warned <==> origin.scheme == "https" && !tlsEnabled)
      && (warned ==> allowFallback && TriedTls(log, |log|))
      && Warnings(log) == (if warned then 1 else 0)
    }

    /** The response came over the last connection. */
    ghost predicate Answered(response: Response)
      reads this
    {
      connected > 0 && courses(connected - 1) == Answers(response)
    }

    method Cancelled() returns (c: bool)
      modifies this`probes
      ensures c == cancelled(old(probes)) && probes == old(probes) + 1
    {
      c := cancelled(probes);
      probes := probes + 1;
    }

    /** No address can be connected to with the attempts from `from` on. */
    ghost predicate AllRefuse(from: nat) {
      forall k :: from <= k < from + |addresses| ==> attempts(k).Err?
    }

    /** No address can be connected to, and the last error says that nobody answers. */
    ghost predicate Silent(from: nat) {
      && AllRefuse(from)
      && NobodyAnswered(if |addresses| == 0 then "no resolved addresses" else attempts(from + |addresses| - 1).error)
    }

    /** Tries the addresses in turn, up to the first that can be connected to; without
        a connection the last error decides whether somebody is there. */
    method Connect(url: Url) returns (r: Result<(), TransportError>)
      modifies this`attempted
      ensures r.Ok? <==> !AllRefuse(old(attempted))
      ensures r.Ok? ==> old(attempted) < attempted <= old(attempted) + |addresses| && attempts(attempted - 1).Ok?
      ensures r.Ok? ==> forall k :: old(attempted) <= k < attempted - 1 ==> attempts(k).Err?
      ensures r.Err? ==> attempted == old(attempted) + |addresses|
      ensures r.Err? ==> r.error == (if Silent(old(attempted)) then Unreachable else RequestFailed)
    {
      hide Classify, NobodyAnswered;
      var last := "no resolved addresses";
      for k := 0 to |addresses|
        invariant attempted == old(attempted) + k
        invariant forall j :: old(attempted) <= j < attempted ==> attempts(j).Err?
        invariant last == if k == 0 then "no resolved addresses" else attempts(attempted - 1).error
      {
        var attempt := attempts(attempted);
        attempted := attempted + 1;
        if attempt.Ok? { return Ok(()); }
        last := attempt.error;
      }
      UnreachableMeans(last);
      return Err(Classify("connecting", last));
    }

    /** One exchange on at most one connection: it carries bytes exactly if the
        connection becomes ready. */
    method Execute(url: Url) returns (r: Result<Response, TransportError>, ghost event: Option<Event>)
      requires Valid()
      requires origin.scheme == "https" && url.scheme != "https" ==> allowFallback && TriedTls(log, |log|)
      modifies this`attempted, this`connected, this`log
      ensures Valid() && log == Logged(old(log), event)
      ensures connected in {old(connected), old(connected) + 1}
      ensures event == if r == Err(Unreachable) then Some(NoAnswer(url))
                       else if connected > old(connected) && Admits(insecure, url, courses(old(connected)))
                       then Some(Carried(url, courses(old(connected)))) else None
      ensures r == Err(Unreachable) <==> Silent(old(attempted))
      ensures connected == old(connected) <==> AllRefuse(old(attempted))
      ensures r.Ok? <==> event.Some? && event.value.Carried? && event.value.course.Answers?
      ensures r.Ok? ==> event.value.course == Answers(r.value)
      ensures r.Ok? ==> Answered(r.value)
      ensures r.Err? ==> r.error in {Unreachable, RequestFailed}
    {
      hide AllAdmitted, NoSilentDowngrade, TriedTls, Warnings, Carriers, Classify, NobodyAnswered;
      event := None;
      var connection := Connect(url);
      if connection.Err? {
        if connection.error == Unreachable {
          event := Some(NoAnswer(url));
          LogExtends(log, event.value);
          log := log + [event.value];
        }
        return Err(connection.error), event;
      }
      var course := courses(connected);
      connected := connected + 1;
      if course.SetupFails? {
        LaterPhases(course.message);
        return Err(Classify("setting read timeout", course.message)), event;
      }
      if url.scheme == "https" {
        if course.HandshakeFails? {
          LaterPhases(course.message);
          return Err(Classify("completing TLS handshake", course.message)), event;
        }
        if !insecure && course.PinFails? { return Err(RequestFailed), event; }
      }
      event := Some(Carried(url, course));
      LogExtends(log, event.value);
      log := log + [event.value];
      match course {
        case WriteFails(message) =>
          LaterPhases(message);
          return Err(Classify("writing request", message)), event;
        case Answers(response) => return Ok(response), event;
        case ReadFails(message) =>
          LaterPhases(message);
          return Err(Classify("reading response body", message)), event;
        case _ => return Err(RequestFailed), event;
      }
    }

    lemma LogExtends(log: seq<Event>, event: Event)
      requires AllAdmitted(insecure, log) && (event.Carried? ==> Admits(insecure, event.url, event.course))
      requires NoSilentDowngrade(origin, allowFallback, log)
      requires event.Carried? && origin.scheme == "https" && event.url.scheme != "https" ==>
                 allowFallback && TriedTls(log, |log|)
      ensures AllAdmitted(insecure, log + [event]) && NoSilentDowngrade(origin, allowFallback, log + [event])
      ensures TriedTls(log, |log|) ==> TriedTls(log + [event], |log| + 1)
      ensures event.NoAnswer? && event.url.scheme == "https" ==> TriedTls(log + [event], |log| + 1)
      ensures Warnings(log + [event]) == Warnings(log) + if event.Warned? then 1 else 0
    {
      hide AllAdmitted, NoSilentDowngrade, TriedTls, Warnings, Carriers;
      Append(log, event);
      DowngradeExtends(origin, allowFallback, log, event);
      AdmittedExtends(insecure, log, event);
    }

    method WarnOnce()
      modifies this`warned, this`log
      ensures warned
      ensures log == if old(warned) then old(log) else old(log) + [Warned]
    {
      if !warned {
        warned := true;
        log := log + [Warned];
      }
    }

    /** After an unanswered TLS attempt: the one fallback attempt, with the opt-in. */
    method FallBack(url: Url) returns (r: Result<Response, TransportError>)
      requires Valid() && tlsEnabled && allowFallback
      requires log != [] && log[|log| - 1].NoAnswer? && log[|log| - 1].url == url && url.scheme == "https"
      modifies this`tlsEnabled, this`warned, this`attempted, this`connected, this`probes, this`log
      ensures Valid() && old(log) <= log
      ensures probes == old(probes) + 1 && (cancelled(old(probes)) ==> log == old(log) && r == Err(RequestCancelled))
      ensures tlsEnabled <==> log == old(log)
      ensures log == old(log) ==> r.Err?
      ensures r !in {Err(FallbackRefused), Err(UnsafeUrl)}
      ensures Carriers(log) <= Carriers(old(log)) + 1
      ensures r.Ok? ==> Carriers(log) == Carriers(old(log)) + 1 && Answered(r.value)
      ensures log != old(log) ==> !cancelled(old(probes)) && url.port in {443, 49443}
      ensures log == old(log) ==> cancelled(old(probes)) || (r == Err(NoFallbackPort) && url.port !in {443, 49443})
      ensures log != old(log) ==>
                && |old(log)| < |log| <= |old(log)| + 2 && log[|old(log)|] == Warned
                && (|log| == |old(log)| + 2 ==>
                      var last := log[|log| - 1];
                      && !last.Warned? && PlainCounterpart(url, last.url)
                      && (last.Carried? ==> last.course == courses(old(connected)))
                      && (last.Carried? && last.course.Answers? ==> r == Ok(last.course.response)))
                && (r.Ok? ==> log[|log| - 1].Carried?) && r != Err(NoFallbackPort)
    {
      hide AllAdmitted, NoSilentDowngrade, TriedTls, Warnings, Carriers, NobodyAnswered;
      var stopped := Cancelled();
      if stopped { return Err(RequestCancelled); }
      var plain := FallbackUrl(url);
      if plain.Err? { return Err(plain.error); }
      Append(log, Warned);
      LogExtends(log, Warned);
      Unanswered(log);
      WarnOnce();
      tlsEnabled := false;
      Append(log, NoAnswer(plain.value));
      Append(log, Carried(plain.value, courses(connected)));
      ghost var event;
      r, event := Execute(plain.value);
      if event.Some? { assert old(log) + [Warned] + [event.value] == old(log) + [Warned, event.value]; }
    }

    /** The exchanges of one request that has passed the origin check. */
    method Try(url: Url) returns (r: Result<Response, TransportError>)
      requires Valid() && SameOrigin(origin, url)
      modifies this`tlsEnabled, this`warned, this`attempted, this`connected, this`probes, this`log
      ensures Valid() && old(log) <= log && probes >= old(probes)
      ensures tlsEnabled ==> old(tlsEnabled)
      ensures Carriers(log) <= Carriers(old(log)) + 1
      ensures r.Ok? ==> Carriers(log) == Carriers(old(log)) + 1 && log[|log| - 1].Carried? && Answered(r.value)
      ensures tlsEnabled ==>
                log in {old(log), old(log) + [NoAnswer(url)], old(log) + [Carried(url, courses(old(connected)))]}
      ensures r == Err(FallbackRefused) ==> !allowFallback && log == old(log) + [NoAnswer(url)]
      ensures forall k :: |old(log)| <= k < |log| ==> GoesTo(origin, url, log[k])
      ensures tlsEnabled != old(tlsEnabled) <==>
                && old(tlsEnabled) && Silent(old(attempted)) && allowFallback && !cancelled(old(probes))
                && url.port in {443, 49443}
      ensures tlsEnabled != old(tlsEnabled) ==>
                |log| >= |old(log)| + 2 && log[|old(log)|] == NoAnswer(url) && log[|old(log)| + 1] == Warned
      ensures |log| > |old(log)| && log[|log| - 1].Carried? && log[|log| - 1].course.Answers? ==>
                r == Ok(log[|log| - 1].course.response)
      ensures r != Err(UnsafeUrl)
      ensures old(tlsEnabled) && Silent(old(attempted)) && !allowFallback ==> r == Err(FallbackRefused)
      ensures r == Err(NoFallbackPort) ==> origin.scheme == "https" && allowFallback && url.port !in {443, 49443}
    {
      hide AllAdmitted, NoSilentDowngrade, TriedTls, Warnings, Carriers, SameOrigin, NobodyAnswered, SameLetters;
      OriginAgrees(origin, url);
      var tlsAttempt := tlsEnabled && url.scheme == "https";
      var chosen := if !tlsAttempt && allowFallback && url.scheme == "https" then FallbackUrl(url) else Ok(url);
      if chosen.Err? { return Err(chosen.error); }
      var target := chosen.value;
      ghost var event;
      r, event := Execute(target);
      Append(old(log), NoAnswer(target));
      Append(old(log), Carried(target, courses(old(connected))));
      if r == Err(Unreachable) && tlsAttempt {
        if allowFallback {
          r := FallBack(url);
        } else {
          r := Err(FallbackRefused);
        }
      }
    }

    /** `requested` is the parsed URL of the request, if it could be parsed. */
    method Send(requested: Result<Url, ()>) returns (r: Result<Response, TransportError>)
      requires Valid()
      modifies this`tlsEnabled, this`warned, this`attempted, this`connected, this`probes, this`log
      ensures Valid() && old(log) <= log
      ensures tlsEnabled ==> old(tlsEnabled)
      ensures Carriers(log) <= Carriers(old(log)) + 1
      ensures r.Ok? ==> Carriers(log) == Carriers(old(log)) + 1 && log[|log| - 1].Carried? && Answered(r.value)
      ensures tlsEnabled && log != old(log) ==>
                && requested.Ok?
                && log in {old(log) + [NoAnswer(requested.value)],
                           old(log) + [Carried(requested.value, courses(old(connected)))]}
      ensures r == Err(FallbackRefused) ==>
                !allowFallback && requested.Ok? && log == old(log) + [NoAnswer(requested.value)]
      ensures log != old(log) ==>
                && requested.Ok? && Agrees(origin, requested.value)
                && forall k :: |old(log)| <= k < |log| ==> GoesTo(origin, requested.value, log[k])
      ensures r == Err(UnsafeUrl) ==> requested.Ok? && !Agrees(origin, requested.value)
      ensures r == Err(NoFallbackPort) ==>
                origin.scheme == "https" && requested.Ok? && requested.value.port !in {443, 49443}
      ensures |log| > |old(log)| && log[|log| - 1].Carried? && log[|log| - 1].course.Answers? ==>
                r == Ok(log[|log| - 1].course.response) || (probes > 0 && cancelled(probes - 1))
      ensures cancelled(old(probes)) ==> r == Err(RequestCancelled) && log == old(log)
      ensures probes > old(probes) && (r.Ok? ==> !cancelled(probes - 1))
      ensures tlsEnabled != old(tlsEnabled) <==>
                && requested.Ok? && Agrees(origin, requested.value) && old(tlsEnabled) && allowFallback
                && Silent(old(attempted)) && requested.value.port in {443, 49443}
                && !cancelled(old(probes)) && !cancelled(old(probes) + 1)
      ensures tlsEnabled != old(tlsEnabled) ==>
                && |log| >= |old(log)| + 2
                && log[|old(log)|] == NoAnswer(requested.value) && log[|old(log)| + 1] == Warned
      ensures requested.Ok? && Agrees(origin, requested.value) && old(tlsEnabled) && Silent(old(attempted))
              && !allowFallback ==>
                r == Err(FallbackRefused) || cancelled(old(probes)) || (probes > 0 && cancelled(probes - 1))
    {
      hide AllAdmitted, NoSilentDowngrade, TriedTls, Warnings, Carriers, SameOrigin, GoesTo, NobodyAnswered,
        SameLetters;
      var stopped := Cancelled();
      if stopped { return Err(RequestCancelled); }
      if requested.Err? { return Err(RequestFailed); }
      OriginAgrees(origin, requested.value);
      if !SameOrigin(origin, requested.value) { return Err(UnsafeUrl); }
      r := Try(requested.value);
      stopped := Cancelled();
      if stopped { return Err(RequestCancelled); }
    }
  }

  lemma Unanswered(log: seq<Event>)
    requires log != [] && log[|log| - 1].NoAnswer? && log[|log| - 1].url.scheme == "https"
    ensures TriedTls(log + [Warned], |log| + 1)
  {
    assert (log + [Warned])[|log| - 1] == log[|log| - 1];
  }
}
