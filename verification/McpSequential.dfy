/** The sequential stdio server, and the concurrent server measured against it. */
module McpSequential {
  import opened McpProtocol
  import opened McpFraming
  import opened McpServer
  import opened McpProgress
  import opened McpReplies
  import opened McpRuns

  /** Where the replies go. */
  class Sink {
    var written: string

    constructor ()
      ensures written == ""
    {
      written := "";
    }

    method WriteAll(bytes: string)
      modifies this
      ensures written == old(written) + bytes
    {
      written := written + bytes;
    }
  }

  /** A payload as an input item: a request, or a parse error. */
  function Parse(services: Services, p: Payload): Item {
    match services.decode(p.text)
    case Ok(request) => Message(request, p.mode)
    case Err(message) => Malformed(message, p.mode)
  }

  /** Everything the sequential server writes for the rest of its input. */
  function Replies(services: Services, payloads: seq<Payload>): string {
    if payloads == [] then ""
    else Emission(services, Parse(services, payloads[0])) + Replies(services, payloads[1..])
  }

  method HandleItem(services: Services, writer: Sink, item: Item)
    modifies writer
    ensures writer.written == old(writer.written) + Emission(services, item)
    ensures ItemAnswered(services, item, writer.written[|old(writer.written)|..])
  {
    EmissionAnswers(services, item);
    assert (writer.written + Emission(services, item))[|writer.written|..] == Emission(services, item);
    hide ItemAnswered;
    match Answer(services, item) {
      case None =>
      case Some(reply) => writer.WriteAll(Frame(item.mode, services.encode(reply)));
    }
  }

  /** The octets fall into one part for each payload, which answers it. */
  ghost predicate AllAnswered(services: Services, payloads: seq<Payload>, parts: seq<string>) {
    |parts| == |payloads| && forall k :: 0 <= k < |payloads| ==> PayloadAnswered(services, payloads[k], parts[k])
  }

  function Joined(parts: seq<string>): string {
    if parts == [] then "" else parts[0] + Joined(parts[1..])
  }

  lemma ItemIsPayload(services: Services, p: Payload, bytes: string)
    ensures ItemAnswered(services, Parse(services, p), bytes) <==> PayloadAnswered(services, p, bytes)
  {
    hide RequestAnswered, ErrorAnswered;
  }

  lemma {:induction false} RepliesAnswer(services: Services, payloads: seq<Payload>) returns (parts: seq<string>)
    ensures AllAnswered(services, payloads, parts) && Joined(parts) == Replies(services, payloads)
    decreases |payloads|
  {
    hide Emission, PayloadAnswered, ItemAnswered;
    if payloads == [] {
      parts := [];
    } else {
      var first := Emission(services, Parse(services, payloads[0]));
      var rest := RepliesAnswer(services, payloads[1..]);
      EmissionAnswers(services, Parse(services, payloads[0]));
      ItemIsPayload(services, payloads[0], first);
      parts := [first] + rest;
      assert parts[1..] == rest;
    }
  }

  /** Runs the server over a buffered stream until it ends. What it writes falls
      into `parts`, the answers to the payloads of the stream in their order. */
  method ServeIo(services: Services, reader: BufReader, writer: Sink) returns (end: Ending, ghost parts: seq<string>)
    requires reader.Valid()
    modifies reader, writer
    ensures var (payloads, ending) := Payloads(old(reader.Remaining()), reader.ending);
            && end == ending && writer.written == old(writer.written) + Joined(parts)
            && AllAnswered(services, payloads, parts)
            && Joined(parts) == Replies(services, payloads)
  {
    hide Emission, Replies, NextPayload, AllAnswered, Joined;
    parts := RepliesAnswer(services, Payloads(reader.Remaining(), reader.ending).0);
    ghost var (payloads, ending) := Payloads(reader.Remaining(), reader.ending);
    ghost var target := writer.written + Replies(services, payloads);
    while true
      invariant reader.Valid()
      invariant ending == Payloads(reader.Remaining(), reader.ending).1
      invariant writer.written + Replies(services, Payloads(reader.Remaining(), reader.ending).0) == target
      decreases |reader.Remaining()|
    {
      ghost var written, now := writer.written, Payloads(reader.Remaining(), reader.ending).0;
      var r := ReadRequest(reader);
      if r.Err? {
        RepliesNone(services);
        assert written + "" == written;
        return if r.error.Eof? then EndOfInput else InputError, parts;
      }
      var item := Parse(services, r.value);
      HandleItem(services, writer, item);
      ghost var later := Payloads(reader.Remaining(), reader.ending).0;
      RepliesHead(services, r.value, later);
      assert (written + Emission(services, item)) + Replies(services, later)
          == written + (Emission(services, item) + Replies(services, later));
    }
  }

  lemma RepliesNone(services: Services)
    ensures Replies(services, []) == ""
  {
  }

  lemma RepliesHead(services: Services, p: Payload, later: seq<Payload>)
    ensures Replies(services, [p] + later) == Emission(services, Parse(services, p)) + Replies(services, later)
  {
    assert ([p] + later)[1..] == later;
  }

  // ----- The concurrent server over the same input -----

  /** The concurrent server's view of an input stream. */
  function SetupOf(services: Services, payloads: seq<Payload>, ending: Ending): Setup {
    Setup(seq(|payloads|, k requires 0 <= k < |payloads| => JobOf(services, Parse(services, payloads[k]))), ending)
  }

  /** The frames of the sequential server, one for each request with an id and
      one for each parse error. */
  function SequentialFrames(services: Services, payloads: seq<Payload>): seq<string> {
    if payloads == [] then []
    else
      var item := Parse(services, payloads[|payloads| - 1]);
      SequentialFrames(services, payloads[..|payloads| - 1])
      + if item.Message? && item.request.id.None? then [] else [Emission(services, item)]
  }

  lemma {:induction false} FramesInOrder(services: Services, payloads: seq<Payload>, ending: Ending, n: nat)
    requires n <= |payloads|
    ensures Frames(SetupOf(services, payloads, ending), InOrder(n)) == SequentialFrames(services, payloads[..n])
  {
    hide Emission, Parse, Frames, SequentialFrames, InOrder, SetupOf;
    if n == 0 {
      NoFrames(services, SetupOf(services, payloads, ending));
      assert payloads[..n] == [];
    } else {
      FramesInOrder(services, payloads, ending, n - 1);
      FramesLast(services, payloads, ending, n - 1);
      SequentialLast(services, payloads, n - 1);
    }
  }

  lemma NoFrames(services: Services, c: Setup)
    ensures Frames(c, InOrder(0)) == [] == SequentialFrames(services, [])
  {
  }

  /** What the item at `k` adds to a list of frames. */
  function Added(services: Services, p: Payload): seq<string> {
    if Emission(services, Parse(services, p)) == "" then [] else [Emission(services, Parse(services, p))]
  }

  lemma FramesLast(services: Services, payloads: seq<Payload>, ending: Ending, k: nat)
    requires k < |payloads|
    ensures var c := SetupOf(services, payloads, ending);
            Frames(c, InOrder(k + 1)) == Frames(c, InOrder(k)) + Added(services, payloads[k])
  {
    hide Emission, Parse;
    var c := SetupOf(services, payloads, ending);
    assert InOrder(k + 1)[..|InOrder(k + 1)| - 1] == InOrder(k);
    assert c.Emit(k) == Emission(services, Parse(services, payloads[k]));
    assert Frames(c, InOrder(k)) + [] == Frames(c, InOrder(k));
  }

  lemma SequentialLast(services: Services, payloads: seq<Payload>, k: nat)
    requires k < |payloads|
    ensures SequentialFrames(services, payloads[..k + 1])
            == SequentialFrames(services, payloads[..k]) + Added(services, payloads[k])
  {
    hide Emission, Parse;
    var first := payloads[..k + 1];
    assert first[..|first| - 1] == payloads[..k] && first[|first| - 1] == payloads[k];
    EmissionEmpty(services, Parse(services, payloads[k]));
  }

  /** Only a notification is not answered. */
  lemma EmissionEmpty(services: Services, item: Item)
    ensures Emission(services, item) == "" <==> item.Message? && item.request.id.None?
  {
  }

  lemma {:induction false} RepliesLast(services: Services, payloads: seq<Payload>, p: Payload)
    ensures Replies(services, payloads + [p]) == Replies(services, payloads) + Emission(services, Parse(services, p))
    decreases |payloads|
  {
    hide Emission, Parse;
    if payloads == [] {
      RepliesHead(services, p, []);
      assert [] + [p] == [p] + [];
    } else {
      RepliesLast(services, payloads[1..], p);
      assert (payloads + [p])[1..] == payloads[1..] + [p];
    }
  }

  /** What the sequential server writes is exactly its frames. */
  lemma {:induction false} RepliesAreFrames(services: Services, payloads: seq<Payload>)
    ensures Concat(SequentialFrames(services, payloads)) == Replies(services, payloads)
    decreases |payloads|
  {
    if payloads != [] {
      var front, last := payloads[..|payloads| - 1], payloads[|payloads| - 1];
      RepliesAreFrames(services, front);
      RepliesLast(services, front, last);
      assert payloads == front + [last];
      var frames, item := SequentialFrames(services, front), Parse(services, last);
      assert (frames + [Emission(services, item)])[..|frames|] == frames;
      assert frames + [] == frames;
      assert Replies(services, front) + "" == Replies(services, front);
    }
  }

  /** The parts that are not empty: notifications have no answer. */
  function Written(parts: seq<string>): seq<string> {
    if parts == [] then []
    else Written(parts[..|parts| - 1]) + if parts[|parts| - 1] == "" then [] else [parts[|parts| - 1]]
  }

  /** The frames of the sequential server are the answers to the payloads. */
  lemma {:induction false} FramesAnswer(services: Services, payloads: seq<Payload>, parts: seq<string>)
    requires AllAnswered(services, payloads, parts)
    ensures SequentialFrames(services, payloads) == Written(parts)
    decreases |payloads|
  {
    hide Emission, PayloadAnswered, Parse;
    if payloads != [] {
      var n: nat := |payloads| - 1;
      FramesAnswer(services, payloads[..n], parts[..n]);
      LastAnswer(services, payloads[n], parts[n]);
    }
  }

  lemma LastAnswer(services: Services, p: Payload, part: string)
    requires PayloadAnswered(services, p, part)
    ensures part == Emission(services, Parse(services, p))
    ensures part == "" <==> Parse(services, p).Message? && Parse(services, p).request.id.None?
  {
    hide Emission, PayloadAnswered, ItemAnswered;
    var item := Parse(services, p);
    EmissionAnswers(services, item);
    ItemIsPayload(services, p, Emission(services, item));
    AnswerUnique(services, p, part, Emission(services, item));
    EmissionEmpty(services, item);
  }

  /** The pool gets exactly the requests for tools/call, and exactly undecodable
      text is treated as a parse error. */
  lemma KindsOfPayloads(services: Services, payloads: seq<Payload>, ending: Ending, i: nat)
    requires i < |payloads|
    ensures var c, decoded := SetupOf(services, payloads, ending), services.decode(payloads[i].text);
            && (c.Call(i) <==> decoded.Ok? && decoded.value.action == "tools/call")
            && (c.ParseError(i) <==> decoded.Err?)
  {
    hide Emission;
  }

  /** An answer is overtaken only if its payload asks for tools/call, and never
      across text that does not decode. */
  lemma OvertakenAreToolCalls(
      services: Services, payloads: seq<Payload>, ending: Ending, s: State, p: nat, q: nat, j: nat)
    requires Reachable(SetupOf(services, payloads, ending), s) && !s.cancelled
    requires p < q < |s.served| && s.served[q] < s.served[p] < |payloads|
    ensures var overtaken := services.decode(payloads[s.served[q]].text);
            overtaken.Ok? && overtaken.value.action == "tools/call"
    ensures s.served[q] <= j <= s.served[p] ==> services.decode(payloads[j].text).Ok?
  {
    hide Reachable, SetupOf;
    OvertakingOnlyCalls(SetupOf(services, payloads, ending), s, p, q, j);
    KindsOfPayloads(services, payloads, ending, s.served[q]);
    if s.served[q] <= j <= s.served[p] { KindsOfPayloads(services, payloads, ending, j); }
  }

  /** `output` is those frames, whole, in some order. */
  ghost predicate Permuted(output: string, frames: seq<string>) {
    exists order: seq<string> :: multiset(order) == multiset(frames) && output == Concat(order)
  }

  /** For every input stream and every interleaving without cancellation, the
      concurrent server ends with the sequential server's verdict and has written
      a permutation of the answers to the payloads of the stream. */
  lemma ConcurrentMatchesSequential(
      services: Services, input: string, ending: Ending, run: nat -> State, choice: nat -> Step)
    returns (parts: seq<string>)
    requires var (payloads, end) := Payloads(input, ending);
             Scheduled(SetupOf(services, payloads, end), run, choice)
    ensures var (payloads, end) := Payloads(input, ending);
            && AllAnswered(services, payloads, parts) && Joined(parts) == Replies(services, payloads)
            && exists m ::
                 && AtRest(run(m))
                 && run(m).dispatcher == Returned(if end.EndOfInput? then Finished else Failed)
                 && (!run(m).writeFailed ==> Permuted(run(m).written, Written(parts)))
  {
    hide AllAnswered, Joined, Written;
    var (payloads, end) := Payloads(input, ending);
    var c := SetupOf(services, payloads, end);
    EveryScheduleCompletes(c, run, choice);
    var m :| AtRest(run(m)) && Accomplished(c, run(m));
    FramesInOrder(services, payloads, end, |payloads|);
    assert payloads[..|payloads|] == payloads;
    parts := RepliesAnswer(services, payloads);
    FramesAnswer(services, payloads, parts);
    if !run(m).writeFailed {
      assert Permuted(run(m).written, Written(parts)) by {
        var order := Frames(c, run(m).served);
        assert multiset(order) == multiset(SequentialFrames(services, payloads));
      }
    }
  }
}
