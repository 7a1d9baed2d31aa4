/** What the pieces of a response that have been read mean, whatever follows them. */
module HttpPieces {
  import opened Common
  import opened HttpHead
  import opened HttpResponse

  // ----- Lines -----

  /** `LineExtends` for octets read to the end of a line, of the input, or of the limit. */
  lemma Extended(got: string, rest: string)
    ensures match NextLine(got)
            case Ok((line, more)) => more == "" ==> NextLine(got + rest) == Ok((line, rest))
            case Err(e) => e != BodyEof || rest == "" ==> NextLine(got + rest) == Err(e)
  {
    hide NextLine;
    LineExtends(got, rest);
    assert got + "" == got && "" + rest == rest;
  }

  // ----- Trailers -----

  /** Trailer lines that are not empty. */
  ghost predicate Skips(lines: string) {
    forall later {:trigger lines + later} :: Trailers(lines + later) == Trailers(later)
  }

  lemma SkipsNothing()
    ensures Skips("")
  {
    hide Trailers;
    forall later {:trigger "" + later} ensures Trailers("" + later) == Trailers(later) { assert "" + later == later; }
  }

  lemma SkipsLine(lines: string, piece: string)
    requires Skips(lines)
    ensures match NextLine(piece)
            case Err(e) => Trailers(lines + piece) == Err(e)
            case Ok((line, rest)) =>
              rest == "" ==> if line == "" then Trailers(lines + piece) == Ok(()) else Skips(lines + piece)
  {
    hide NextLine;
    assert Trailers(lines + piece) == Trailers(piece);
    if NextLine(piece).Ok? && NextLine(piece).value.0 != "" && NextLine(piece).value.1 == "" {
      forall later ensures Trailers((lines + piece) + later) == Trailers(later) {
        Regroup(lines, piece, later);
        Extended(piece, later);
        assert Trailers(lines + (piece + later)) == Trailers(piece + later);
      }
    }
  }

  // ----- Chunks -----

  /** A body continues with what is still to come. */
  function Prepend(body: string, more: Result<string, HttpError>): Result<string, HttpError> {
    match more
    case Ok(text) => Ok(body + text)
    case Err(e) => Err(e)
  }

  /** These octets are whole chunks of the data `body`. */
  ghost predicate Chunks(octets: string, body: string, limit: nat) {
    && |body| <= limit
    && forall later {:trigger octets + later} ::
         ChunkedBody(octets + later, limit) == Prepend(body, ChunkedBody(later, limit - |body|))
  }

  lemma NoChunks(limit: nat)
    ensures Chunks("", "", limit)
  {
    hide ChunkedBody;
    forall later {:trigger "" + later}
      ensures ChunkedBody("" + later, limit) == Prepend("", ChunkedBody(later, limit))
    {
      PrependNothing(later, ChunkedBody(later, limit));
    }
  }

  lemma PrependNothing(later: string, more: Result<string, HttpError>)
    ensures "" + later == later && Prepend("", more) == more
  {
    if more.Ok? { assert "" + more.value == more.value; }
  }

  lemma MoreChunks(octets: string, body: string, piece: string, data: string, limit: nat)
    requires Chunks(octets, body, limit) && Chunks(piece, data, limit - |body|)
    ensures Chunks(octets + piece, body + data, limit)
  {
    hide ChunkedBody;
    forall later ensures ChunkedBody((octets + piece) + later, limit)
                         == Prepend(body + data, ChunkedBody(later, limit - |body + data|)) {
      Regroup(octets, piece, later);
      var more := ChunkedBody(later, limit - |body| - |data|);
      assert ChunkedBody(octets + (piece + later), limit) == Prepend(body, ChunkedBody(piece + later, limit - |body|));
      if more.Ok? { Regroup(body, data, more.value); }
    }
  }

  /** One whole chunk: its size line, its data, and the end of its line. */
  lemma WholeChunk(line: string, data: string, end: string, room: nat)
    requires NextLine(line).Ok? && NextLine(line).value.1 == "" && NextLine(end) == Ok(("", ""))
    requires ChunkSize(NextLine(line).value.0) == Some(|data|) && 0 < |data| < room
    ensures Chunks(line + data + end, data, room)
  {
    hide NextLine, ChunkSize;
    forall later
      ensures ChunkedBody((line + data + end) + later, room) == Prepend(data, ChunkedBody(later, room - |data|))
    {
      var rest := data + (end + later);
      assert (line + data + end) + later == line + rest;
      Extended(line, rest);
      Extended(end, later);
      assert rest[..|data|] == data && rest[|data|..] == end + later;
    }
  }

  /** After whole chunks, what follows decides. */
  lemma AfterChunks(octets: string, body: string, tail: string, limit: nat)
    requires Chunks(octets, body, limit)
    ensures ChunkedBody(octets + tail, limit) == Prepend(body, ChunkedBody(tail, limit - |body|))
  {
    hide ChunkedBody;
  }

  lemma BadSize(line: string, room: nat)
    ensures match NextLine(line)
            case Err(e) => ChunkedBody(line, room) == Err(e)
            case Ok((text, _)) => ChunkSize(text).None? ==> ChunkedBody(line, room) == Err(ChunkSizeMalformed)
  {
    hide NextLine, ChunkSize, Trailers;
  }

  lemma LastChunk(line: string, trailers: string, room: nat)
    requires NextLine(line).Ok? && NextLine(line).value.1 == "" && ChunkSize(NextLine(line).value.0) == Some(0)
    ensures ChunkedBody(line + trailers, room) == (match Trailers(trailers) case Err(e) => Err(e) case Ok(_) => Ok(""))
  {
    hide NextLine, ChunkSize, Trailers;
    Extended(line, trailers);
  }

  /** The data end early, or fill the room. */
  lemma LastData(line: string, data: string, room: nat)
    requires NextLine(line).Ok? && NextLine(line).value.1 == "" && ChunkSize(NextLine(line).value.0).Some?
    ensures var size := ChunkSize(NextLine(line).value.0).value;
            size > 0 ==>
              && (|data| < Least(size, room) ==> ChunkedBody(line + data, room) == Err(BodyEof))
              && (|data| == room <= size ==> ChunkedBody(line + data, room) == Ok(data))
  {
    hide NextLine, ChunkSize, Trailers;
    Extended(line, data);
    assert data[..|data|] == data;
  }

  lemma BadEnd(line: string, data: string, end: string, room: nat)
    requires NextLine(line).Ok? && NextLine(line).value.1 == ""
    requires ChunkSize(NextLine(line).value.0) == Some(|data|) && 0 < |data| < room
    ensures match NextLine(end)
            case Err(e) => ChunkedBody(line + data + end, room) == Err(e)
            case Ok((text, _)) => text != "" ==> ChunkedBody(line + data + end, room) == Err(ChunkEndMalformed)
  {
    hide NextLine, ChunkSize, Trailers;
    var rest := data + end;
    assert line + data + end == line + rest;
    Extended(line, rest);
    assert rest[..|data|] == data && rest[|data|..] == end;
  }

  // ----- Heads and responses -----

  /** Some prefix of `s` ends with an empty line. */
  predicate HasBlank(s: string) {
    exists k :: 0 <= k <= |s| && EndsBlank(s[..k])
  }

  lemma NotBlank(s: string)
    requires !EndsBlank(s) && forall k :: 0 <= k < |s| ==> !EndsBlank(s[..k])
    ensures !HasBlank(s)
  {
    hide EndsBlank;
    assert s[..|s|] == s;
  }

  lemma OneMore(s: string, c: char)
    requires !HasBlank(s)
    ensures forall k :: 0 <= k < |s + [c]| ==> !EndsBlank((s + [c])[..k])
  {
    hide EndsBlank;
    forall k | 0 <= k <= |s| ensures !EndsBlank((s + [c])[..k]) { assert (s + [c])[..k] == s[..k]; }
  }

  /** What the octets of a connection mean as a response: the first `n` are its head. */
  predicate IsResponse(input: string, n: nat, status: nat, headers: Headers, body: string, limit: nat) {
    && 4 <= n <= |input| && n <= HEAD_LIMIT && IsHead(input[..n])
    && ParseHead(input[..n - 4]) == Ok((status, headers))
    && Body(status, headers, input[n..], limit) == Ok(body)
  }

  /** The result is the response of the input, or an error and the input has none. */
  ghost predicate Answers(r: Result<(nat, Headers, string), HttpError>, input: string, limit: nat) {
    && (r.Ok? ==> exists n: nat :: IsResponse(input, n, r.value.0, r.value.1, r.value.2, limit))
    && (r.Err? ==>
          !exists n: nat, status: nat, headers, body :: IsResponse(input, n, status, headers, body, limit))
  }

  function Joined(head: string, rest: string, limit: nat): Result<(nat, Headers, string), HttpError>
    requires |head| >= 4
  {
    match ParseHead(head[..|head| - 4])
    case Err(e) => Err(e)
    case Ok((status, headers)) =>
      match Body(status, headers, rest, limit)
      case Err(e) => Err(e)
      case Ok(body) => Ok((status, headers, body))
  }

  lemma HeadDecides(head: string, rest: string, limit: nat)
    requires IsHead(head) && 4 <= |head| <= HEAD_LIMIT
    ensures Answers(Joined(head, rest, limit), head + rest, limit)
  {
    hide IsHead, ParseHead, Body;
    var input := head + rest;
    assert input[..|head|] == head && input[|head|..] == rest && input[..|head| - 4] == head[..|head| - 4];
    var r := Joined(head, rest, limit);
    if r.Ok? {
      assert IsResponse(input, |head|, r.value.0, r.value.1, r.value.2, limit);
    } else {
      forall n: nat, status: nat, headers, body | IsResponse(input, n, status, headers, body, limit) ensures false {
        OneEnd(input, n, |head|);
      }
    }
  }

  /** Only one prefix is the head. */
  lemma OneEnd(input: string, n: nat, m: nat)
    requires n <= |input| && m <= |input| && IsHead(input[..n]) && IsHead(input[..m])
    ensures n == m
  {
    hide EndsBlank;
    if n <= m { Prefixes(input, n, m); } else { Prefixes(input, m, n); }
  }

  lemma Prefixes(input: string, n: nat, m: nat)
    requires n <= m <= |input|
    ensures input[..m][..n] == input[..n]
  {
  }

  lemma Headless(got: string, more: string, e: HttpError, limit: nat)
    requires !HasBlank(got) && (|got| == HEAD_LIMIT || more == "")
    ensures Answers(Err(e), got + more, limit)
  {
    hide EndsBlank, ParseHead, Body;
    var input := got + more;
    forall n: nat, status: nat, headers, body ensures !IsResponse(input, n, status, headers, body, limit) {
      if n <= |got| { assert input[..n] == got[..n]; }
    }
  }

  lemma HeadLong(head: string)
    requires IsHead(head)
    ensures |head| >= 4
  {
  }
}
