/** The SOAP writer and the response reader, over a tokenizer of the XML they use
    (XML 1.0 sections 2.4, 3.1 and 4.6). */
module Soap {
  import opened Common
  import opened Strings

  // ----- Writing -----

  function EscapeChar(c: char): string {
    if c == '&' then "&amp;"
    else if c == '\'' then "&#39;"
    else if c == '<' then "&lt;"
    else if c == '>' then "&gt;"
    else if c == '"' then "&#34;"
    else [c]
  }

  function Escape(value: string): string {
    if value == "" then "" else EscapeChar(value[0]) + Escape(value[1..])
  }

  method EscapeText(value: string) returns (escaped: string)
    ensures escaped == Escape(value)
  {
    escaped := "";
    assert value[0..] == value;
    for k := 0 to |value|
      invariant escaped + Escape(value[k..]) == Escape(value)
    {
      assert value[k..][1..] == value[k + 1..];
      escaped := escaped + EscapeChar(value[k]);
    }
    assert value[|value|..] == "" && escaped + "" == escaped;
  }

  type Attribute = (string, string)

  function AttributesText(attributes: seq<Attribute>): string {
    if attributes == [] then ""
    else " " + attributes[0].0 + "=\"" + attributes[0].1 + "\"" + AttributesText(attributes[1..])
  }

  function StartTag(name: string, attributes: seq<Attribute>): string {
    "<" + (name + AttributesText(attributes)) + ">"
  }

  function EndTag(name: string): string {
    "</" + name + ">"
  }

  const DECLARATION: string := "xml" + AttributesText([("version", "1.0"), ("encoding", "utf-8")])
  const ENVELOPE: seq<Attribute> :=
    [("xmlns:s", "http://schemas.xmlsoap.org/soap/envelope/"),
     ("s:encodingStyle", "http://schemas.xmlsoap.org/soap/encoding/")]

  /** Arguments in the order of their keys. */
  type Arguments = seq<(string, string)>

  function ArgumentText(argument: (string, string)): string {
    StartTag(argument.0, []) + Escape(argument.1) + EndTag(argument.0)
  }

  function ArgumentsText(arguments: Arguments): string {
    if arguments == [] then "" else ArgumentText(arguments[0]) + ArgumentsText(arguments[1..])
  }

  function Request(service: string, action: string, arguments: Arguments): string {
    "<?" + DECLARATION + "?>" + StartTag("s:Envelope", ENVELOPE) + StartTag("s:Body", [])
    + StartTag("u:" + action, [("xmlns:u", service)])
    + ArgumentsText(arguments)
    + EndTag("u:" + action) + EndTag("s:Body") + EndTag("s:Envelope")
  }

  method BuildRequest(service: string, action: string, arguments: Arguments) returns (body: string)
    ensures body == Request(service, action, arguments)
  {
    body := "<?" + DECLARATION + "?>" + StartTag("s:Envelope", ENVELOPE) + StartTag("s:Body", [])
            + StartTag("u:" + action, [("xmlns:u", service)]);
    ghost var head := body;
    var listed := "";
    assert arguments[0..] == arguments;
    for k := 0 to |arguments|
      invariant listed + ArgumentsText(arguments[k..]) == ArgumentsText(arguments)
    {
      hide ArgumentText;
      assert arguments[k..][1..] == arguments[k + 1..];
      listed := listed + ArgumentText(arguments[k]);
    }
    assert arguments[|arguments|..] == [] && listed + "" == listed;
    body := body + listed + EndTag("u:" + action) + EndTag("s:Body") + EndTag("s:Envelope");
  }

  // ----- Tokens -----

  datatype Token = Start(name: string) | Empty | End(name: string) | Text(text: string) | CData(text: string)
                 | Reference(name: string) | Other

  datatype SoapError = UnexpectedEof | Syntax | UnknownReference

  /** Where the tag ends: the first `>` outside quotes. */
  function TagEnd(s: string, quote: Option<char>): (r: Option<nat>)
    ensures r.Some? ==> r.value < |s|
  {
    if s == "" then None
    else if quote.None? && s[0] == '>' then Some(0)
    else
      var next := if quote.None? then (if s[0] == '"' || s[0] == '\'' then Some(s[0]) else None)
                  else if quote.value == s[0] then None else quote;
      match TagEnd(s[1..], next)
      case None => None
      case Some(k) => Some(k + 1)
  }

  predicate IsXmlSpace(c: char) {
    c in {' ', '\t', '\r', '\n'}
  }

  function NameEnd(s: string): (k: nat)
    ensures k <= |s|
  {
    if s == "" || IsXmlSpace(s[0]) then 0 else 1 + NameEnd(s[1..])
  }

  function TrimXmlEnd(s: string): string {
    if s != "" && IsXmlSpace(s[|s| - 1]) then TrimXmlEnd(s[..|s| - 1]) else s
  }

  function TextEnd(s: string): (k: nat)
    ensures k <= |s|
    ensures s != "" && s[0] != '<' && s[0] != '&' ==> k > 0
  {
    if s == "" || s[0] == '<' || s[0] == '&' then 0 else 1 + TextEnd(s[1..])
  }

  /** `s` up to `word`, and what follows it. */
  function Before(s: string, word: string): (r: Option<(string, string)>)
    ensures r.Some? ==> |r.value.1| <= |s| - |word|
  {
    match Find(s, word)
    case None => None
    case Some(k) => Some((s[..k], s[k + |word|..]))
  }

  /** The first token and what follows it; none if the input is malformed. */
  function NextToken(s: string): (r: Option<(Token, string)>)
    requires s != ""
    ensures r.Some? ==> |r.value.1| < |s|
  {
    if s[0] == '<' then
      if "<!--" <= s then
        match Before(s[4..], "-->") case None => None case Some((_, rest)) => Some((Other, rest))
      else if "<![CDATA[" <= s then
        match Before(s[9..], "]]>") case None => None case Some((text, rest)) => Some((CData(text), rest))
      else if "<?" <= s then
        match Before(s[2..], "?>") case None => None case Some((_, rest)) => Some((Other, rest))
      else if "</" <= s then
        match Before(s[2..], ">") case None => None case Some((name, rest)) => Some((End(TrimXmlEnd(name)), rest))
      else
        match TagEnd(s[1..], None)
        case None => None
        case Some(k) =>
          var content, rest := s[1..k + 1], s[k + 2..];
          if "!" <= content then Some((Other, rest))
          else if content != "" && content[|content| - 1] == '/' then Some((Empty, rest))
          else Some((Start(content[..NameEnd(content)]), rest))
    else if s[0] == '&' then
      match Before(s[1..], ";")
      case None => None
      case Some((name, rest)) => if '<' in name || '&' in name then None else Some((Reference(name), rest))
    else Some((Text(s[..TextEnd(s)]), s[TextEnd(s)..]))
  }

  function CodePoint(n: nat): Option<char> {
    if 0 < n < 0xD800 || 0xE000 <= n < 0x11_0000 then Some(n as char) else None
  }

  /** A number of 32 bits without a sign. */
  function ParseDigits(s: string, radix: nat): Option<nat> {
    if "+" <= s then None else ParseNumber(s, radix, 0x1_0000_0000)
  }

  /** A numeric or a predefined reference. */
  function Resolve(name: string): Option<char> {
    if "#" <= name then
      var n := if "#x" <= name then ParseDigits(name[2..], 16) else ParseDigits(name[1..], 10);
      if n.Some? then CodePoint(n.value) else None
    else if name == "amp" then Some('&')
    else if name == "lt" then Some('<')
    else if name == "gt" then Some('>')
    else if name == "apos" then Some('\'')
    else if name == "quot" then Some('"')
    else None
  }

  // ----- Reading -----

  function LocalName(name: string): string {
    if name == "" then ""
    else if ':' in name then LocalName(name[1..])
    else name
  }

  datatype State = State(inResponse: bool, key: string, output: map<string, string>) {
    predicate Recording() {
      inResponse && key != ""
    }

    function Append(text: string): State {
      if !Recording() then this
      else this.(output := output[key := (if key in output then output[key] else "") + text])
    }

    function Opened(name: string, response: string): State {
      if LocalName(name) == response then this.(inResponse := true)
      else if inResponse then this.(key := LocalName(name))
      else this
    }

    function Closed(name: string, response: string): State {
      if LocalName(name) == response then this.(inResponse := false)
      else if inResponse then this.(key := "")
      else this
    }
  }

  /** What the rest of a document adds to a state, below the open elements. */
  function Read(s: string, open: seq<string>, state: State, response: string): Result<map<string, string>, SoapError>
    decreases |s|
  {
    if s == "" then if open == [] then Ok(state.output) else Err(UnexpectedEof)
    else
      match NextToken(s)
      case None => Err(Syntax)
      case Some((token, rest)) =>
        match token
        case Start(name) => Read(rest, open + [name], state.Opened(name, response), response)
        case End(name) =>
          if open == [] || open[|open| - 1] != name then Err(Syntax)
          else Read(rest, open[..|open| - 1], state.Closed(name, response), response)
        case Text(text) => Read(rest, open, state.Append(text), response)
        case CData(text) => Read(rest, open, state.Append(text), response)
        case Reference(name) =>
          if !state.Recording() then Read(rest, open, state, response)
          else if Resolve(name).None? then Err(UnknownReference)
          else Read(rest, open, state.Append([Resolve(name).value]), response)
        case Empty => Read(rest, open, state, response)
        case Other => Read(rest, open, state, response)
  }

  const BEGIN: State := State(false, "", map[])

  /** The arguments of a response. */
  function Response(xml: string, action: string): Result<map<string, string>, SoapError> {
    Read(xml, [], BEGIN, action + "Response")
  }

  method ParseResponse(xml: string, action: string) returns (r: Result<map<string, string>, SoapError>)
    ensures r == Response(xml, action)
  {
    hide NextToken, Resolve, LocalName;
    var response := action + "Response";
    var rest := xml;
    var open: seq<string> := [];
    var inResponse, key := false, "";
    var output: map<string, string> := map[];
    var depth: nat := 0;
    while rest != ""
      invariant depth == |open|
      invariant Read(rest, open, State(inResponse, key, output), response) == Response(xml, action)
      decreases |rest|
    {
      var next := NextToken(rest);
      if next.None? { return Err(Syntax); }
      rest := next.value.1;
      match next.value.0 {
        case Start(name) =>
          open := open + [name];
          depth := depth + 1;
          if LocalName(name) == response {
            inResponse := true;
          } else if inResponse {
            key := LocalName(name);
          }
        case End(name) =>
          if open == [] || open[|open| - 1] != name { return Err(Syntax); }
          open := open[..|open| - 1];
          depth := depth - 1;
          if LocalName(name) == response {
            inResponse := false;
          } else if inResponse {
            key := "";
          }
        case Text(text) =>
          if inResponse && key != "" {
            output := output[key := (if key in output then output[key] else "") + text];
          }
        case CData(text) =>
          if inResponse && key != "" {
            output := output[key := (if key in output then output[key] else "") + text];
          }
        case Reference(name) =>
          if inResponse && key != "" {
            var resolved := Resolve(name);
            if resolved.None? { return Err(UnknownReference); }
            output := output[key := (if key in output then output[key] else "") + [resolved.value]];
          }
        case _ =>
      }
    }
    if depth != 0 { return Err(UnexpectedEof); }
    return Ok(output);
  }
}
