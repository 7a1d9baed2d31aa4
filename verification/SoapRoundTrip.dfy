/** What the response reader makes of what the request writer writes. */
module SoapRoundTrip {
  import opened Common
  import opened Strings
  import opened Soap

  /** Lexically an XML name, prefix included. */
  predicate NameLike(name: string) {
    name != "" && forall k :: 0 <= k < |name| ==> NameChar(name[k])
  }

  predicate NameChar(c: char) {
    !IsXmlSpace(c) && c !in {'<', '>', '&', '"', '\'', '/', '=', '!', '?'}
  }

  // ----- Tags -----

  function Shift(r: Option<nat>, width: nat): Option<nat> {
    if r.None? then None else Some(r.value + width)
  }

  lemma {:induction false} TagRun(run: string, rest: string, quote: Option<char>)
    requires quote.None? ==> '>' !in run && '"' !in run && '\'' !in run
    requires quote.Some? ==> quote.value !in run
    ensures TagEnd(run + rest, quote) == Shift(TagEnd(rest, quote), |run|)
  {
    if run == "" {
      assert run + rest == rest;
    } else {
      assert (run + rest)[1..] == run[1..] + rest;
      TagRun(run[1..], rest, quote);
    }
  }

  lemma QuotedRun(value: string, rest: string)
    requires '"' !in value
    ensures TagEnd("\"" + value + "\"" + rest, None) == Shift(TagEnd(rest, None), |value| + 2)
  {
    var s := "\"" + value + "\"" + rest;
    assert s[1..] == value + ("\"" + rest);
    TagRun(value, "\"" + rest, Some('"'));
    assert ("\"" + rest)[1..] == rest;
  }

  predicate GoodAttributes(attributes: seq<Attribute>) {
    forall k :: 0 <= k < |attributes| ==> NameLike(attributes[k].0) && '"' !in attributes[k].1
  }

  lemma AttributeName(name: string)
    requires NameLike(name)
    ensures var start := " " + name + "="; '>' !in start && '"' !in start && '\'' !in start
  {
    var start := " " + name + "=";
    forall k | 0 <= k < |start| ensures start[k] !in {'>', '"', '\''} {
      if 0 < k <= |name| { assert start[k] == name[k - 1] && NameChar(name[k - 1]); }
    }
  }

  lemma AttributeRun(name: string, value: string, rest: string)
    requires NameLike(name) && '"' !in value
    ensures var text := " " + name + "=\"" + value + "\"";
            TagEnd(text + rest, None) == Shift(TagEnd(rest, None), |text|)
  {
    hide TagEnd, NameLike;
    var start := " " + name + "=";
    var quoted := "\"" + value + "\"" + rest;
    AttributeName(name);
    QuotedRun(value, rest);
    TagRun(start, quoted, None);
    assert " " + name + "=\"" + value + "\"" + rest == start + quoted;
  }

  lemma {:induction false} AttributesRun(attributes: seq<Attribute>, rest: string)
    requires GoodAttributes(attributes)
    ensures TagEnd(AttributesText(attributes) + rest, None) == Shift(TagEnd(rest, None), |AttributesText(attributes)|)
    decreases |attributes|
  {
    hide TagEnd, NameLike;
    if attributes == [] {
      assert "" + rest == rest;
    } else {
      var first := " " + attributes[0].0 + "=\"" + attributes[0].1 + "\"";
      var more := AttributesText(attributes[1..]);
      AttributesRun(attributes[1..], rest);
      AttributeRun(attributes[0].0, attributes[0].1, more + rest);
      assert AttributesText(attributes) == first + more;
      assert (first + more) + rest == first + (more + rest);
    }
  }

  lemma {:induction false} NameStops(name: string, rest: string)
    requires forall k :: 0 <= k < |name| ==> !IsXmlSpace(name[k])
    requires rest == "" || IsXmlSpace(rest[0])
    ensures NameEnd(name + rest) == |name|
  {
    if name == "" {
      assert name + rest == rest;
    } else {
      assert (name + rest)[1..] == name[1..] + rest;
      NameStops(name[1..], rest);
    }
  }

  lemma TagText(name: string, attributes: seq<Attribute>)
    requires NameLike(name) && GoodAttributes(attributes)
    ensures var content := name + AttributesText(attributes);
            && content[0] == name[0] && content[|content| - 1] != '/'
            && NameEnd(content) == |name| && content[..|name|] == name
  {
    hide NameEnd;
    var text := AttributesText(attributes);
    if attributes != [] { LastQuote(attributes); }
    NameStops(name, text);
  }

  lemma {:induction false} LastQuote(attributes: seq<Attribute>)
    requires attributes != []
    ensures var text := AttributesText(attributes); text != "" && text[0] == ' ' && text[|text| - 1] == '"'
    decreases |attributes|
  {
    if |attributes| > 1 { LastQuote(attributes[1..]); }
  }

  lemma StartTagReads(name: string, attributes: seq<Attribute>, rest: string)
    requires NameLike(name) && GoodAttributes(attributes)
    ensures NextToken(StartTag(name, attributes) + rest) == Some((Start(name), rest))
  {
    hide TagEnd, NameEnd, AttributesText, NextToken;
    var text := AttributesText(attributes);
    var content := name + text;
    var inner := ">" + rest;
    TagText(name, attributes);
    TagCloses(rest);
    AttributesRun(attributes, inner);
    TagRun(name, text + inner, None);
    assert name + (text + inner) == content + inner;
    TagToken(name, content, rest);
    assert StartTag(name, attributes) + rest == "<" + content + ">" + rest;
  }

  /** A tag with any content that begins with the name. */
  lemma TagToken(name: string, content: string, rest: string)
    requires NameLike(name) && name <= content && NameEnd(content) == |name| && content[|content| - 1] != '/'
    requires TagEnd(content + (">" + rest), None) == Some(|content|)
    ensures NextToken("<" + content + ">" + rest) == Some((Start(name), rest))
  {
    hide TagEnd, NameEnd, Before;
    var s := "<" + content + ">" + rest;
    assert s[1..] == content + (">" + rest);
    assert s[1..|content| + 1] == content && s[|content| + 2..] == rest;
    assert NameChar(name[0]) && s[1] == content[0] == name[0];
    assert content[..|name|] == name;
    assert s[0] == '<' && s[1] !in {'!', '?', '/'} && content[0] != '!';
  }

  lemma TagCloses(rest: string)
    ensures TagEnd(">" + rest, None) == Some(0)
  {
  }

  lemma EndTagReads(name: string, rest: string)
    requires NameLike(name)
    ensures NextToken(EndTag(name) + rest) == Some((End(name), rest))
  {
    hide Find, TrimXmlEnd, TagEnd;
    var s := EndTag(name) + rest;
    assert s[2..] == name + ">" + rest;
    FindFirst(name, ">", rest);
    assert s[2..][..|name|] == name && s[2..][|name| + 1..] == rest;
    NameTrims(name);
    assert s[1] == '/';
  }

  lemma NameTrims(name: string)
    requires NameLike(name)
    ensures TrimXmlEnd(name) == name
  {
    assert NameChar(name[|name| - 1]);
  }

  lemma DeclarationReads(rest: string)
    ensures NextToken("<?" + DECLARATION + "?>" + rest) == Some((Other, rest))
  {
    hide NextToken;
    NoQuestion();
    InstructionReads(DECLARATION, rest);
  }

  lemma InstructionReads(text: string, rest: string)
    requires '?' !in text
    ensures NextToken("<?" + text + "?>" + rest) == Some((Other, rest))
  {
    hide Find, TagEnd, TextEnd;
    var s := "<?" + text + "?>" + rest;
    assert s[2..] == text + "?>" + rest;
    FindFirst(text, "?>", rest);
    assert s[2..][|text| + 2..] == rest;
    assert s[0] == '<' && s[1] == '?';
  }

  lemma NoQuestion()
    ensures '?' !in DECLARATION
  {
    assert DECLARATION == "xml" + (" " + "version" + "=\"" + "1.0" + "\""
                                  + (" " + "encoding" + "=\"" + "utf-8" + "\"" + "")) by {
      var attributes := [("version", "1.0"), ("encoding", "utf-8")];
      assert attributes[1..] == [("encoding", "utf-8")] && attributes[1..][1..] == [];
    }
  }

  // ----- Escaped text -----

  /** Every ampersand begins one of the five references. */
  predicate StartsReference(s: string) {
    "&amp;" <= s || "&#39;" <= s || "&lt;" <= s || "&gt;" <= s || "&#34;" <= s
  }

  lemma EscapeCharMarkup(c: char)
    ensures var head := EscapeChar(c);
            && head != ""
            && (head[0] == '&' ==> StartsReference(head))
            && (forall k :: 0 <= k < |head| ==> head[k] !in {'<', '>', '"', '\''})
            && (forall k :: 0 < k < |head| ==> head[k] != '&')
  {
  }

  lemma ReferenceLonger(head: string, tail: string)
    requires StartsReference(head)
    ensures StartsReference(head + tail)
  {
  }

  /** No markup character, and no ampersand but that of a reference. */
  predicate NoBareMarkup(text: string) {
    forall k :: 0 <= k < |text| ==>
      text[k] !in {'<', '>', '"', '\''} && (text[k] == '&' ==> StartsReference(text[k..]))
  }

  lemma {:induction false} EscapeLeavesNoMarkup(value: string)
    ensures NoBareMarkup(Escape(value))
  {
    hide StartsReference, EscapeChar;
    if value != "" {
      var text, head, tail := Escape(value), EscapeChar(value[0]), Escape(value[1..]);
      EscapeLeavesNoMarkup(value[1..]);
      EscapeCharMarkup(value[0]);
      forall k | 0 <= k < |text|
        ensures text[k] !in {'<', '>', '"', '\''} && (text[k] == '&' ==> StartsReference(text[k..]))
      {
        if k == 0 {
          assert text[0..] == head + tail && text[0] == head[0];
          if head[0] == '&' { ReferenceLonger(head, tail); }
        } else if k < |head| {
          assert text[k] == head[k];
          assert head[k] !in {'<', '>', '"', '\''} && head[k] != '&';
        } else {
          var i := k - |head|;
          assert text[k] == tail[i] && text[k..] == tail[i..];
          assert tail[i] !in {'<', '>', '"', '\''} && (tail[i] == '&' ==> StartsReference(tail[i..]));
        }
      }
    }
  }

  lemma NumberResolves(digit: char, c: char)
    requires '0' <= digit <= '9' && c as int == 30 + (digit as int - 48)
    ensures Resolve("#3" + [digit]) == Some(c)
  {
    var number := "3" + [digit];
    assert ("#3" + [digit])[1..] == number;
    assert number[..1] == "3" && "3"[..0] == "" && number[0] == '3';
    assert DigitsValue(number, 10) == 10 * DigitsValue("3", 10) + (digit as int - 48);
  }

  /** The references that the writer uses, and their characters. */
  predicate Used(name: string, c: char) {
    || (name == "amp" && c == '&') || (name == "lt" && c == '<') || (name == "gt" && c == '>')
    || (name == "#39" && c == '\'') || (name == "#34" && c == '"')
  }

  lemma UsedResolves(name: string, c: char)
    requires Used(name, c)
    ensures Resolve(name) == Some(c)
  {
    hide ParseNumber;
    NumberResolves('9', '\'');
    NumberResolves('4', '"');
    assert "#3" + ['9'] == "#39" && "#3" + ['4'] == "#34";
    if name == "amp" || name == "lt" || name == "gt" {
      assert name[0] != '#';
    }
  }

  lemma ReferenceToken(name: string, rest: string)
    requires '&' !in name && '<' !in name && ';' !in name
    ensures NextToken("&" + name + ";" + rest) == Some((Reference(name), rest))
  {
    hide Find, TagEnd;
    var s := "&" + name + ";" + rest;
    assert s[1..] == name + ";" + rest;
    FindFirst(name, ";", rest);
    assert s[1..][..|name|] == name && s[1..][|name| + 1..] == rest;
  }

  lemma ReferenceReads(name: string, c: char, rest: string, open: seq<string>, state: State, response: string)
    requires Used(name, c)
    ensures Read("&" + name + ";" + rest, open, state, response) == Read(rest, open, state.Append([c]), response)
  {
    hide NextToken, Resolve;
    UsedResolves(name, c);
    ReferenceToken(name, rest);
  }

  lemma AppendTwice(state: State, a: string, b: string)
    ensures state.Append(a).Append(b) == state.Append(a + b)
  {
    if state.Recording() {
      var before := if state.key in state.output then state.output[state.key] else "";
      assert before + (a + b) == (before + a) + b;
    }
  }

  lemma EscapeForms(c: char, name: string)
    requires Used(name, c)
    ensures EscapeChar(c) == "&" + name + ";"
  {
  }

  lemma CharReads(c: char, rest: string, open: seq<string>, state: State, response: string)
    ensures Read(EscapeChar(c) + rest, open, state, response) == Read(rest, open, state.Append([c]), response)
  {
    hide Read, State.Append;
    if c in {'&', '\'', '<', '>', '"'} {
      var name := if c == '&' then "amp" else if c == '\'' then "#39" else if c == '<' then "lt"
                  else if c == '>' then "gt" else "#34";
      EscapeForms(c, name);
      ReferenceReads(name, c, rest, open, state, response);
    } else {
      PlainReads(c, rest, open, state, response);
    }
  }

  lemma PlainReads(c: char, rest: string, open: seq<string>, state: State, response: string)
    requires c != '<' && c != '&'
    ensures Read([c] + rest, open, state, response) == Read(rest, open, state.Append([c]), response)
  {
    var s := [c] + rest;
    var k := TextEnd(rest);
    assert s[1..] == rest;
    assert TextEnd(s) == 1 + k;
    assert s[..1 + k] == [c] + rest[..k] && s[1 + k..] == rest[k..];
    AppendTwice(state, [c], rest[..k]);
    assert NextToken(s) == Some((Text([c] + rest[..k]), rest[k..]));
    if k == 0 {
      assert [c] + rest[..0] == [c] && rest[0..] == rest;
    } else {
      assert NextToken(rest) == Some((Text(rest[..k]), rest[k..]));
    }
  }

  function Added(state: State, value: string): State {
    if value == "" then state else state.Append(value)
  }

  lemma {:induction false} ValueReads(value: string, rest: string, open: seq<string>, state: State, response: string)
    ensures Read(Escape(value) + rest, open, state, response) == Read(rest, open, Added(state, value), response)
    decreases |value|
  {
    hide Read, EscapeChar;
    if value == "" {
      assert Escape(value) + rest == rest;
    } else {
      var c, more := value[0], Escape(value[1..]) + rest;
      assert Escape(value) + rest == EscapeChar(c) + more;
      CharReads(c, more, open, state, response);
      ValueReads(value[1..], rest, open, state.Append([c]), response);
      AppendTwice(state, [c], value[1..]);
      assert [c] + value[1..] == value && [c] + "" == [c];
    }
  }

  // ----- Arguments -----

  /** What one argument does to the reader's state between two arguments. */
  function Gathered(state: State, argument: (string, string), response: string): State {
    var local := LocalName(argument.0);
    if local == response then state.(inResponse := false)
    else if !state.inResponse || local == "" || argument.1 == "" then state
    else
      var before := if local in state.output then state.output[local] else "";
      state.(output := state.output[local := before + argument.1])
  }

  function GatheredAll(state: State, arguments: Arguments, response: string): State
    decreases |arguments|
  {
    if arguments == [] then state else GatheredAll(Gathered(state, arguments[0], response), arguments[1..], response)
  }

  lemma StartReads(name: string, attributes: seq<Attribute>, rest: string, open: seq<string>, state: State,
                   response: string)
    requires NameLike(name) && GoodAttributes(attributes)
    ensures Read(StartTag(name, attributes) + rest, open, state, response)
            == Read(rest, open + [name], state.Opened(name, response), response)
  {
    hide NextToken, LocalName;
    StartTagReads(name, attributes, rest);
  }

  lemma EndReads(name: string, rest: string, open: seq<string>, state: State, response: string)
    requires NameLike(name)
    ensures Read(EndTag(name) + rest, open + [name], state, response)
            == Read(rest, open, state.Closed(name, response), response)
  {
    hide NextToken, LocalName;
    EndTagReads(name, rest);
    assert (open + [name])[..|open|] == open;
  }

  lemma ArgumentReads(argument: (string, string), rest: string, open: seq<string>, state: State, response: string)
    requires NameLike(argument.0) && state.key == ""
    ensures Read(ArgumentText(argument) + rest, open, state, response)
            == Read(rest, open, Gathered(state, argument, response), response)
    ensures Gathered(state, argument, response).key == ""
  {
    hide Read, LocalName, NameLike, StartTag, EndTag, Escape;
    var (key, value) := argument;
    var closing := EndTag(key) + rest;
    assert ArgumentText(argument) + rest == StartTag(key, []) + (Escape(value) + closing);
    StartReads(key, [], Escape(value) + closing, open, state, response);
    var inside := state.Opened(key, response);
    ValueReads(value, closing, open + [key], inside, response);
    EndReads(key, rest, open, Added(inside, value), response);
    assert Added(inside, value).Closed(key, response) == Gathered(state, argument, response);
  }

  lemma {:induction false} ArgumentsRead(arguments: Arguments, rest: string, open: seq<string>, state: State,
                                         response: string)
    requires forall k :: 0 <= k < |arguments| ==> NameLike(arguments[k].0)
    requires state.key == ""
    ensures Read(ArgumentsText(arguments) + rest, open, state, response)
            == Read(rest, open, GatheredAll(state, arguments, response), response)
    ensures GatheredAll(state, arguments, response).key == ""
    decreases |arguments|
  {
    hide Read, NameLike, ArgumentText, Gathered;
    if arguments == [] {
      assert "" + rest == rest;
    } else {
      var more := ArgumentsText(arguments[1..]) + rest;
      assert ArgumentsText(arguments) + rest == ArgumentText(arguments[0]) + more;
      ArgumentReads(arguments[0], more, open, state, response);
      ArgumentsRead(arguments[1..], rest, open, Gathered(state, arguments[0], response), response);
    }
  }

  // ----- The whole document -----

  predicate ColonFree(name: string) {
    ':' !in name
  }

  lemma {:induction false} LocalOf(prefix: string, name: string)
    requires ColonFree(name)
    ensures LocalName(name) == name && LocalName(prefix + ":" + name) == name
    decreases |prefix|
  {
    var s := prefix + ":" + name;
    assert s[|prefix|] == ':';
    if prefix == "" {
      assert s[1..] == name;
    } else {
      LocalOf(prefix[1..], name);
      assert s[1..] == prefix[1..] + ":" + name;
    }
  }

  lemma FixedNames(action: string)
    ensures NameLike("s:Envelope") && NameLike("s:Body") && GoodAttributes(ENVELOPE)
    ensures LocalName("s:Envelope") != action + "Response" && LocalName("s:Body") != action + "Response"
  {
    hide NameLike, LocalName, GoodAttributes;
    LocalOf("s", "Envelope");
    LocalOf("s", "Body");
    assert "s" + ":" + "Envelope" == "s:Envelope" && "s" + ":" + "Body" == "s:Body";
    var response := action + "Response";
    assert response[|response| - 8] == 'R';
    EnvelopeNames();
    EnvelopeAttributes();
  }

  lemma EnvelopeNames()
    ensures NameLike("s:Envelope") && NameLike("s:Body")
  {
  }

  lemma EnvelopeAttributes()
    ensures GoodAttributes(ENVELOPE)
  {
    hide NameLike;
    EnvelopeKeys();
    assert '"' !in ENVELOPE[0].1 && '"' !in ENVELOPE[1].1;
  }

  lemma EnvelopeKeys()
    ensures NameLike("xmlns:s") && NameLike("s:encodingStyle")
  {
  }

  lemma ActionName(action: string)
    requires action != "" ==> NameLike(action)
    requires ColonFree(action)
    ensures NameLike("u:" + (action + "Response")) && LocalName("u:" + (action + "Response")) == action + "Response"
  {
    LocalOf("u", action + "Response");
    assert "u" + ":" + (action + "Response") == "u:" + (action + "Response");
    assert NameLike("u:") && NameLike("Response");
  }

  /** A document of the writer's form with any content in its inmost element. */
  function Enveloped(service: string, name: string, content: string): string {
    var declared := [("version", "1.0"), ("encoding", "utf-8")];
    var envelope := [("xmlns:s", "http://schemas.xmlsoap.org/soap/envelope/"),
                     ("s:encodingStyle", "http://schemas.xmlsoap.org/soap/encoding/")];
    "<?" + ("xml" + AttributesText(declared)) + "?>" + (StartTag("s:Envelope", envelope) + (StartTag("s:Body", [])
    + (StartTag("u:" + name, [("xmlns:u", service)]) + (content + Foot(name)))))
  }

  function Foot(name: string): string {
    EndTag("u:" + name) + (EndTag("s:Body") + (EndTag("s:Envelope") + ""))
  }

  lemma StartTagText(name: string, attributes: seq<Attribute>)
    ensures attributes == [] ==> StartTag(name, attributes) == "<" + name + ">"
    ensures |attributes| == 1 ==>
              StartTag(name, attributes) == "<" + name + " " + attributes[0].0 + "=\"" + attributes[0].1 + "\">"
    ensures |attributes| == 2 ==>
              StartTag(name, attributes)
              == "<" + name + " " + attributes[0].0 + "=\"" + attributes[0].1 + "\" "
                 + attributes[1].0 + "=\"" + attributes[1].1 + "\">"
  {
    if attributes == [] {
      assert name + "" == name;
    } else {
      var first := " " + attributes[0].0 + "=\"" + attributes[0].1 + "\"";
      if |attributes| == 1 {
        assert attributes[1..] == [] && AttributesText(attributes) == first + "";
      } else if |attributes| == 2 {
        var second := " " + attributes[1].0 + "=\"" + attributes[1].1 + "\"";
        assert attributes[1..] == [attributes[1]] && attributes[1..][1..] == [];
        assert AttributesText(attributes[1..]) == second + "";
        assert AttributesText(attributes) == first + second;
        assert StartTag(name, attributes) == "<" + (name + (first + second)) + ">";
      }
    }
  }

  /** The octets of one argument. */
  lemma ArgumentWire(key: string, value: string)
    ensures ArgumentText((key, value)) == "<" + key + ">" + Escape(value) + "</" + key + ">"
  {
    hide Escape;
    StartTagText(key, []);
  }

  lemma RequestLayout(service: string, name: string, arguments: Arguments)
    ensures Request(service, name, arguments) == Enveloped(service, name, ArgumentsText(arguments))
  {
    hide StartTag, EndTag, ArgumentsText;
  }

  lemma EnvelopeReads(service: string, action: string, content: string, inside: State)
    requires '"' !in service && ColonFree(action) && (action != "" ==> NameLike(action))
    requires var response := action + "Response";
             var open := ["s:Envelope", "s:Body", "u:" + response];
             Read(content + Foot(response), open, State(true, "", map[]), response)
             == Read(Foot(response), open, inside, response)
    ensures Response(Enveloped(service, action + "Response", content), action) == Ok(inside.output)
  {
    hide NameLike, LocalName, StartTag, EndTag, NextToken, Read, ColonFree, GoodAttributes;
    var response := action + "Response";
    var name := "u:" + response;
    var attributes := [("xmlns:u", service)];
    var foot := EndTag("s:Body") + (EndTag("s:Envelope") + "");
    var begun := State(true, "", map[]);
    var open := ["s:Envelope", "s:Body"];
    assert open + [name] == ["s:Envelope", "s:Body", name];
    FixedNames(action);
    ActionName(action);
    ServiceAttribute(service);
    HeadReads(StartTag(name, attributes) + (content + Foot(response)), action);
    StartReads(name, attributes, content + Foot(response), open, BEGIN, response);
    EndReads(name, foot, open, inside, response);
    FootReads(inside.Closed(name, response), action);
  }

  /** The exact result for any arguments: values gathered under their local names,
      up to the first argument that bears the name of the response. */
  lemma ResponseOfRequest(service: string, action: string, arguments: Arguments)
    requires '"' !in service && ColonFree(action) && (action != "" ==> NameLike(action))
    requires forall k :: 0 <= k < |arguments| ==> NameLike(arguments[k].0)
    ensures var response := action + "Response";
            Response(Request(service, response, arguments), action)
            == Ok(GatheredAll(State(true, "", map[]), arguments, response).output)
  {
    hide NameLike, ArgumentsText, GatheredAll, Read, Request, Enveloped, Foot, ColonFree, Response;
    var response := action + "Response";
    var begun := State(true, "", map[]);
    ArgumentsRead(arguments, Foot(response), ["s:Envelope", "s:Body", "u:" + response], begun, response);
    EnvelopeReads(service, action, ArgumentsText(arguments), GatheredAll(begun, arguments, response));
    RequestLayout(service, response, arguments);
  }

  lemma HeadReads(rest: string, action: string)
    ensures Read("<?" + DECLARATION + "?>" + (StartTag("s:Envelope", ENVELOPE) + (StartTag("s:Body", []) + rest)), [],
                 BEGIN, action + "Response")
            == Read(rest, ["s:Envelope", "s:Body"], BEGIN, action + "Response")
  {
    hide NameLike, LocalName, StartTag, Read, GoodAttributes;
    var response := action + "Response";
    FixedNames(action);
    NoAttributes();
    DeclarationSkipped(StartTag("s:Envelope", ENVELOPE) + (StartTag("s:Body", []) + rest), response);
    StartReads("s:Envelope", ENVELOPE, StartTag("s:Body", []) + rest, [], BEGIN, response);
    StartReads("s:Body", [], rest, [] + ["s:Envelope"], BEGIN, response);
    assert [] + ["s:Envelope"] + ["s:Body"] == ["s:Envelope", "s:Body"];
  }

  lemma NoAttributes()
    ensures GoodAttributes([])
  {
  }

  lemma FootReads(state: State, action: string)
    requires !state.inResponse
    ensures Read(EndTag("s:Body") + (EndTag("s:Envelope") + ""), ["s:Envelope", "s:Body"], state, action + "Response")
            == Ok(state.output)
  {
    hide NameLike, LocalName, EndTag, Read;
    var response := action + "Response";
    FixedNames(action);
    EndReads("s:Body", EndTag("s:Envelope") + "", ["s:Envelope"], state, response);
    assert ["s:Envelope"] + ["s:Body"] == ["s:Envelope", "s:Body"];
    EndReads("s:Envelope", "", [], state, response);
    assert [] + ["s:Envelope"] == ["s:Envelope"];
    EndOfInput(state, response);
  }

  lemma ServiceAttribute(service: string)
    requires '"' !in service
    ensures GoodAttributes([("xmlns:u", service)])
  {
    assert NameLike("xmlns:u");
  }

  lemma EndOfInput(state: State, response: string)
    ensures Read("", [], state, response) == Ok(state.output)
  {
  }

  lemma DeclarationSkipped(rest: string, response: string)
    ensures Read("<?" + DECLARATION + "?>" + rest, [], BEGIN, response) == Read(rest, [], BEGIN, response)
  {
    hide NextToken, LocalName;
    DeclarationReads(rest);
  }

  // ----- The law and where it ends -----

  predicate DistinctKeys(arguments: Arguments) {
    forall i, j :: 0 <= i < j < |arguments| ==> arguments[i].0 != arguments[j].0
  }

  /** `output` maps exactly the keys with a non-empty value to that value. */
  predicate MapsNonEmpty(output: map<string, string>, arguments: Arguments) {
    && (forall i :: 0 <= i < |arguments| ==>
          if arguments[i].1 == "" then arguments[i].0 !in output
          else arguments[i].0 in output && output[arguments[i].0] == arguments[i].1)
    && (forall key :: key in output ==> exists i :: 0 <= i < |arguments| && arguments[i].0 == key)
  }

  lemma {:induction false} GatheredLast(state: State, arguments: Arguments, response: string)
    requires arguments != []
    ensures GatheredAll(state, arguments, response)
            == Gathered(GatheredAll(state, arguments[..|arguments| - 1], response), arguments[|arguments| - 1],
                        response)
    decreases |arguments|
  {
    hide Gathered;
    if |arguments| > 1 {
      GatheredLast(Gathered(state, arguments[0], response), arguments[1..], response);
      assert arguments[1..][..|arguments| - 2] == arguments[..|arguments| - 1][1..];
    }
  }

  lemma {:induction false} GatheredDistinct(arguments: Arguments, response: string)
    requires DistinctKeys(arguments)
    requires forall k :: 0 <= k < |arguments| ==>
               ColonFree(arguments[k].0) && arguments[k].0 != "" && arguments[k].0 != response
    ensures var state := GatheredAll(State(true, "", map[]), arguments, response);
            state.inResponse && MapsNonEmpty(state.output, arguments)
    decreases |arguments|
  {
    hide LocalName, MapsNonEmpty;
    if arguments == [] {
      NoArguments();
    } else {
      var before, last := arguments[..|arguments| - 1], arguments[|arguments| - 1];
      GatheredDistinct(before, response);
      GatheredLast(State(true, "", map[]), arguments, response);
      LocalOf("", last.0);
      MapsOneMore(GatheredAll(State(true, "", map[]), before, response).output, arguments);
    }
  }

  lemma NoArguments()
    ensures MapsNonEmpty(map[], [])
  {
  }

  lemma MapsOneMore(output: map<string, string>, arguments: Arguments)
    requires arguments != [] && DistinctKeys(arguments) && MapsNonEmpty(output, arguments[..|arguments| - 1])
    ensures var (key, value) := arguments[|arguments| - 1];
            && key !in output && "" + value == value
            && MapsNonEmpty(if value == "" then output else output[key := value], arguments)
  {
    var (key, value) := arguments[|arguments| - 1];
    var before := arguments[..|arguments| - 1];
    assert key !in output;
    var longer := if value == "" then output else output[key := value];
    forall k | k in longer ensures exists i :: 0 <= i < |arguments| && arguments[i].0 == k {
      if k in output {
        var i :| 0 <= i < |before| && before[i].0 == k;
        assert arguments[i].0 == k;
      } else {
        assert arguments[|arguments| - 1].0 == k;
      }
    }
  }

  /** The arguments come back, minus the empty ones. */
  lemma ArgumentsComeBack(service: string, action: string, arguments: Arguments)
    requires '"' !in service && ColonFree(action) && (action != "" ==> NameLike(action))
    requires DistinctKeys(arguments)
    requires forall k :: 0 <= k < |arguments| ==>
               NameLike(arguments[k].0) && ColonFree(arguments[k].0) && arguments[k].0 != action + "Response"
    ensures var r := Response(Request(service, action + "Response", arguments), action);
            r.Ok? && MapsNonEmpty(r.value, arguments)
  {
    hide Response, Request, GatheredAll, DistinctKeys, MapsNonEmpty;
    ResponseOfRequest(service, action, arguments);
    forall k | 0 <= k < |arguments| ensures arguments[k].0 != "" {
      assert NameLike(arguments[k].0);
    }
    GatheredDistinct(arguments, action + "Response");
  }

  lemma {:induction false} NothingAfter(state: State, arguments: Arguments, response: string)
    requires !state.inResponse
    ensures GatheredAll(state, arguments, response) == state
    decreases |arguments|
  {
    hide LocalName;
    if arguments != [] { NothingAfter(state, arguments[1..], response); }
  }

  /** An argument named like the response ends the reading: it and all arguments
      after it are lost, whatever their values. */
  lemma {:induction false} ResponseNameEndsReading(arguments: Arguments, k: nat, state: State, response: string)
    requires k < |arguments| && LocalName(arguments[k].0) == response
    ensures GatheredAll(state, arguments, response).output == GatheredAll(state, arguments[..k], response).output
    decreases |arguments|
  {
    hide LocalName;
    if k == 0 {
      NothingAfter(Gathered(state, arguments[0], response), arguments[1..], response);
    } else {
      ResponseNameEndsReading(arguments[1..], k - 1, Gathered(state, arguments[0], response), response);
      assert arguments[..k][1..] == arguments[1..][..k - 1];
    }
  }
}
