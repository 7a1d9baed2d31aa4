/** Which octets answer which message: the method table of the server and the
    wire forms of a payload, and that `Emission` produces them. */
module McpReplies {
  import opened Common
  import opened Strings
  import opened McpProtocol
  import opened McpFraming

  /** The octets of one payload: a line, or the base protocol's header with the
      decimal number of octets that follow it. */
  ghost predicate OnWire(mode: Mode, payload: string, bytes: string) {
    match mode
    case Line => bytes == payload + "\n"
    case Framed =>
      exists digits ::
        && digits != "" && AreDigits(digits, 10) && DigitsValue(digits, 10) == |payload|
        && (|digits| > 1 ==> digits[0] != '0')
        && bytes == "Content-Length: " + digits + "\r\n\r\n" + payload
  }

  /** The octets carry one JSON-RPC reply with this id and outcome. */
  ghost predicate Carries(services: Services, mode: Mode, id: string, outcome: Outcome, bytes: string) {
    OnWire(mode, services.encode(Reply(id, outcome)), bytes)
  }

  /** What a request is answered with, method by method; a notification is not. */
  ghost predicate RequestAnswered(services: Services, mode: Mode, request: Request, bytes: string) {
    match request.id
    case None => bytes == ""
    case Some(id) =>
      var name := request.action;
      && (name == "initialize" ==> Carries(services, mode, id, Outcome.Result(services.initialize), bytes))
      && (name == "ping" ==> Carries(services, mode, id, Outcome.Result("{}"), bytes))
      && (name == "tools/list" ==> Carries(services, mode, id, Outcome.Result(services.tools), bytes))
      && (name == "tools/call" ==> Carries(services, mode, id, services.call(request.params), bytes))
      && (name !in {"initialize", "ping", "tools/list", "tools/call"} ==>
            Carries(services, mode, id, Error(-32601, "Method not found: " + name), bytes))
  }

  /** What text that does not decode is answered with. */
  ghost predicate ErrorAnswered(services: Services, mode: Mode, message: string, bytes: string) {
    Carries(services, mode, "null", Error(-32700, "Parse error: " + message), bytes)
  }

  ghost predicate ItemAnswered(services: Services, item: Item, bytes: string) {
    match item
    case Message(request, mode) => RequestAnswered(services, mode, request, bytes)
    case Malformed(message, mode) => ErrorAnswered(services, mode, message, bytes)
  }

  /** What a payload is answered with, by what its text decodes to. */
  ghost predicate PayloadAnswered(services: Services, p: Payload, bytes: string) {
    match services.decode(p.text)
    case Ok(request) => RequestAnswered(services, p.mode, request, bytes)
    case Err(message) => ErrorAnswered(services, p.mode, message, bytes)
  }

  lemma FrameIsWire(mode: Mode, payload: string)
    ensures OnWire(mode, payload, Frame(mode, payload))
  {
    if mode.Framed? {
      NumeralValue(|payload|, 10);
      NumeralLeads(|payload|, 10);
      assert Frame(mode, payload) == "Content-Length: " + Digits(|payload|) + "\r\n\r\n" + payload;
    }
  }

  lemma EmissionAnswers(services: Services, item: Item)
    ensures ItemAnswered(services, item, Emission(services, item))
  {
    hide OnWire, Frame;
    if Answer(services, item).Some? {
      FrameIsWire(item.mode, services.encode(Answer(services, item).value));
    }
  }

  /** Only one digit string has a value and no leading zero, so the answer is unique. */
  lemma WireUnique(mode: Mode, payload: string, a: string, b: string)
    requires OnWire(mode, payload, a) && OnWire(mode, payload, b)
    ensures a == b
  {
    if mode.Framed? {
      var x :| x != "" && AreDigits(x, 10) && DigitsValue(x, 10) == |payload| && (|x| > 1 ==> x[0] != '0')
        && a == "Content-Length: " + x + "\r\n\r\n" + payload;
      var y :| y != "" && AreDigits(y, 10) && DigitsValue(y, 10) == |payload| && (|y| > 1 ==> y[0] != '0')
        && b == "Content-Length: " + y + "\r\n\r\n" + payload;
      NumeralUnique(x, 10);
      NumeralUnique(y, 10);
    }
  }

  lemma AnswerUnique(services: Services, p: Payload, a: string, b: string)
    requires PayloadAnswered(services, p, a) && PayloadAnswered(services, p, b)
    ensures a == b
  {
    hide OnWire;
    match services.decode(p.text)
    case Err(message) =>
      WireUnique(p.mode, services.encode(Reply("null", Error(-32700, "Parse error: " + message))), a, b);
    case Ok(request) =>
      if request.id.Some? {
        var id, name := request.id.value, request.action;
        if name == "initialize" {
          WireUnique(p.mode, services.encode(Reply(id, Outcome.Result(services.initialize))), a, b);
        } else if name == "ping" {
          WireUnique(p.mode, services.encode(Reply(id, Outcome.Result("{}"))), a, b);
        } else if name == "tools/list" {
          WireUnique(p.mode, services.encode(Reply(id, Outcome.Result(services.tools))), a, b);
        } else if name == "tools/call" {
          WireUnique(p.mode, services.encode(Reply(id, services.call(request.params))), a, b);
        } else {
          WireUnique(p.mode, services.encode(Reply(id, Error(-32601, "Method not found: " + name))), a, b);
        }
      }
  }
}
