/** HTTP Digest headers (RFC 7616 section 3): splitting, parsing and printing. */
module DigestHeader {
  import opened Common
  import opened Strings

  const COUNT_MAX: nat := 0xFFFF_FFFF

  datatype Challenge = Challenge(realm: string, nonce: string, qop: string, algorithm: string, token: string)

  const EMPTY: Challenge := Challenge("", "", "", "", "")

  // ----- Parsing -----

  /** The parts between the commas that are outside quotes. */
  function Parts(s: string, quoted: bool): (parts: seq<string>)
    ensures |parts| > 0
  {
    if s == "" then [""]
    else if s[0] == ',' && !quoted then [""] + Parts(s[1..], false)
    else
      var rest := Parts(s[1..], quoted != (s[0] == '"'));
      [[s[0]] + rest[0]] + rest[1..]
  }

  /** `split_digest_fields`: an empty last part is dropped. */
  function SplitFields(s: string): seq<string> {
    var parts := Parts(s, false);
    if parts[|parts| - 1] == "" then parts[..|parts| - 1] else parts
  }

  /** `parts` are complete and `current` is begun: what the rest makes of them. */
  function Continued(parts: seq<string>, current: string, rest: seq<string>): seq<string>
    requires |rest| > 0
  {
    parts + [current + rest[0]] + rest[1..]
  }

  lemma ContinuedStep(parts: seq<string>, current: string, s: string, quoted: bool)
    requires s != ""
    ensures Continued(parts, current, Parts(s, quoted)) ==
            if s[0] == ',' && !quoted then Continued(parts + [current], "", Parts(s[1..], false))
            else Continued(parts, current + [s[0]], Parts(s[1..], quoted != (s[0] == '"')))
  {
    if s[0] == ',' && !quoted {
      var rest := Parts(s[1..], false);
      assert current + "" == current && "" + rest[0] == rest[0] && [rest[0]] + rest[1..] == rest;
      assert ([""] + rest)[1..] == rest;
    } else {
      var rest := Parts(s[1..], quoted != (s[0] == '"'));
      assert current + ([s[0]] + rest[0]) == (current + [s[0]]) + rest[0];
    }
  }

  lemma ContinuedEnds(parts: seq<string>, current: string)
    ensures Continued(parts, current, [""]) == parts + [current]
    ensures forall rest: seq<string> :: |rest| > 0 ==> Continued([], "", rest) == rest
  {
    assert current + "" == current;
    forall rest: seq<string> | |rest| > 0 ensures Continued([], "", rest) == rest {
      assert "" + rest[0] == rest[0];
    }
  }

  method SplitDigestFields(value: string) returns (fields: seq<string>)
    ensures fields == SplitFields(value)
  {
    hide Continued;
    var current, quoted := "", false;
    fields := [];
    ContinuedEnds([], "");
    assert value[0..] == value;
    for k := 0 to |value|
      invariant Continued(fields, current, Parts(value[k..], quoted)) == Parts(value, false)
    {
      hide Parts;
      var c := value[k];
      ContinuedStep(fields, current, value[k..], quoted);
      assert value[k..][1..] == value[k + 1..];
      if c == ',' && !quoted {
        fields := fields + [current];
        current := "";
      } else {
        quoted := quoted != (c == '"');
        current := current + [c];
      }
    }
    ContinuedEnds(fields, current);
    if current != "" { fields := fields + [current]; }
  }

  function TrimQuotes(s: string): string {
    if s != "" && s[0] == '"' then TrimQuotes(s[1..])
    else if s != "" && s[|s| - 1] == '"' then TrimQuotes(s[..|s| - 1])
    else s
  }

  function SetField(c: Challenge, key: string, value: string): Challenge {
    if key == "realm" then c.(realm := value)
    else if key == "nonce" then c.(nonce := value)
    else if key == "qop" then c.(qop := value)
    else if key == "algorithm" then c.(algorithm := value)
    else if key == "opaque" then c.(token := value)
    else c
  }

  function ApplyPart(c: Challenge, part: string): Challenge {
    match Find(part, "=")
    case None => c
    case Some(k) => SetField(c, Trim(part[..k]), TrimQuotes(Trim(part[k + 1..])))
  }

  function ApplyParts(c: Challenge, parts: seq<string>): Challenge
    decreases |parts|
  {
    if parts == [] then c else ApplyParts(ApplyPart(c, parts[0]), parts[1..])
  }

  const PREFIX: string := "Digest "

  /** The challenge and whether it can be answered. */
  function ParseChallenge(header: string): (Challenge, bool) {
    match Find(header, PREFIX)
    case None => (EMPTY, false)
    case Some(k) =>
      var c := ApplyParts(EMPTY, SplitFields(header[k + |PREFIX|..]));
      (c, c.nonce != "")
  }

  method ParseDigestChallenge(header: string) returns (challenge: Challenge, valid: bool)
    ensures (challenge, valid) == ParseChallenge(header)
  {
    challenge := EMPTY;
    var found := Find(header, PREFIX);
    if found.None? { return EMPTY, false; }
    var parts := SplitDigestFields(header[found.value + |PREFIX|..]);
    for k := 0 to |parts|
      invariant ApplyParts(challenge, parts[k..]) == ApplyParts(EMPTY, parts)
    {
      assert parts[k..][0] == parts[k] && parts[k..][1..] == parts[k + 1..];
      challenge := ApplyPart(challenge, parts[k]);
    }
    valid := challenge.nonce != "";
  }

  // ----- Printing -----

  predicate OffersAuth(qop: string) {
    var options := Split(qop, ',');
    exists k :: 0 <= k < |options| && Trim(options[k]) == "auth"
  }

  function Zeros(count: nat): string {
    seq(count, _ => '0')
  }

  /** The count in eight hexadecimal digits. */
  function CountText(count: nat): string {
    var digits := Numeral(count, 16);
    Zeros(if |digits| < 8 then 8 - |digits| else 0) + digits
  }

  datatype Part = Part(key: string, value: string, quoted: bool) {
    function Text(): string {
      key + "=" + if quoted then "\"" + value + "\"" else value
    }
  }

  /** What is answered: the digest function stays a parameter. */
  datatype Answer = Answer(user: string, password: string, verb: string, uri: string, count: nat, cnonce: string)

  function ResponseText(c: Challenge, a: Answer, md5: string -> string): string {
    var ha1 := md5(a.user + ":" + c.realm + ":" + a.password);
    var ha2 := md5(a.verb + ":" + a.uri);
    if OffersAuth(c.qop)
    then md5(ha1 + ":" + c.nonce + ":" + CountText(a.count) + ":" + a.cnonce + ":auth:" + ha2)
    else md5(ha1 + ":" + c.nonce + ":" + ha2)
  }

  function HeaderParts(c: Challenge, a: Answer, md5: string -> string): seq<Part> {
    [Part("username", a.user, true), Part("realm", c.realm, true), Part("nonce", c.nonce, true),
     Part("uri", a.uri, true), Part("response", ResponseText(c, a, md5), true)]
    + (if OffersAuth(c.qop)
       then [Part("qop", "auth", false), Part("nc", CountText(a.count), false), Part("cnonce", a.cnonce, true)]
       else [])
    + (if c.token != "" then [Part("opaque", c.token, true)] else [])
  }

  function Joined(parts: seq<Part>): string
    requires parts != []
  {
    if |parts| == 1 then parts[0].Text() else parts[0].Text() + ", " + Joined(parts[1..])
  }

  function Header(c: Challenge, a: Answer, md5: string -> string): string {
    PREFIX + Joined(HeaderParts(c, a, md5))
  }
}
