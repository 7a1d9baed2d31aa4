/** JSON-RPC requests, replies and frames of the MCP stdio server.

    An octet stream is a `string` whose characters are octets. JSON values are
    kept as their serialized text; the JSON library itself is a parameter
    (`Services.encode`, `Services.decode`). */
module McpProtocol {
  import opened Common
  import opened Strings

  datatype Mode = Framed | Line

  const CODE_PARSE_ERROR := -32700
  const CODE_METHOD_NOT_FOUND := -32601

  datatype Params = Missing | Present(json: string)

  /** A decoded request; `id` is `None` exactly when the member is absent. */
  datatype Request = Request(id: Option<string>, action: string, params: Params)

  /** One message read from the input: a request, or text that does not decode. */
  datatype Item =
    | Message(request: Request, mode: Mode)
    | Malformed(message: string, mode: Mode)

  /** How the input stops: end of file, or an error of the stream or the framing. */
  datatype Ending = EndOfInput | InputError

  datatype Outcome = Result(json: string) | Error(code: int, message: string)

  datatype Reply = Reply(id: string, outcome: Outcome)

  /** What the protocol layer does not compute itself. `call` is the result of a
      tool call as a function of its parameters; `encode` and `decode` are the
      JSON library. */
  datatype Services = Services(
    initialize: string,
    tools: string,
    call: Params -> Outcome,
    encode: Reply -> string,
    decode: string -> Result<Request, string>)

  predicate IsCall(item: Item) {
    item.Message? && item.request.action == "tools/call"
  }

  /** The reply to one input item; notifications have none. */
  function Answer(services: Services, item: Item): Option<Reply> {
    match item
    case Malformed(message, _) =>
      Some(Reply("null", Error(CODE_PARSE_ERROR, "Parse error: " + message)))
    case Message(Request(None, _, _), _) => None
    case Message(Request(Some(id), action, params), _) =>
      Some(Reply(id,
                 if action == "initialize" then Outcome.Result(services.initialize)
                 else if action == "ping" then Outcome.Result("{}")
                 else if action == "tools/list" then Outcome.Result(services.tools)
                 else if action == "tools/call" then services.call(params)
                 else Error(CODE_METHOD_NOT_FOUND, "Method not found: " + action)))
  }

  /** The octets `send_json` writes for one payload. */
  function Frame(mode: Mode, payload: string): string {
    match mode
    case Line => payload + "\n"
    case Framed => "Content-Length: " + Digits(|payload|) + "\r\n\r\n" + payload
  }

  /** Everything written for one input item: a whole frame, or nothing. */
  function Emission(services: Services, item: Item): string {
    match Answer(services, item)
    case None => ""
    case Some(reply) => Frame(item.mode, services.encode(reply))
  }
}
