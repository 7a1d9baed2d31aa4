/** The reading loops over the buffered reader. Whatever the connection does,
    the result is what `HttpResponse` says about the octets handed out during
    the call, unless the clock or a failure of the connection cut it short. On a
    steady connection these octets are the next ones of the stream. */
module HttpLoops {
  import opened Common
  import opened Octets
  import opened Strings
  import opened HttpHead
  import opened HttpMessage
  import opened HttpPieces
  import opened HttpReader
  import opened HttpResponse

  // ----- What a call hands out, and why it fails -----

  /** All octets handed out so far, those still to come, and whether the connection is steady. */
  datatype Moment = Moment(handed: string, rest: string, steady: bool)

  ghost function Now(reader: BufferedReader): Moment
    requires reader.Valid()
    reads reader, reader.inner, reader.buffer
  {
    Moment(reader.handed, reader.Rest(), reader.Steady())
  }

  /** Between two moments `got` was handed out: the next octets, if the connection is steady. */
  predicate Advanced(a: Moment, b: Moment, got: string) {
    b.handed == a.handed + got && (a.steady ==> b.steady && got + b.rest == a.rest)
  }

  lemma Stays(a: Moment)
    ensures Advanced(a, a, "")
  {
    assert a.handed + "" == a.handed && "" + a.rest == a.rest;
  }

  lemma Advances(a: Moment, b: Moment, c: Moment, got: string, piece: string)
    requires Advanced(a, b, got) && Advanced(b, c, piece)
    ensures Advanced(a, c, got + piece)
  {
    Regroup(a.handed, got, piece);
    Regroup(got, piece, c.rest);
  }

  /** The clock or a failure of the connection ended the reading. */
  predicate CutShort<T>(r: Result<T, HttpError>) {
    r.Err? && (r.error == Timeout || r.error == Io)
  }

  /** What an error says about the clock, the connection and the input. */
  ghost predicate Explained(e: HttpError, reader: BufferedReader, deadline: Deadline, steady: bool)
    requires reader.Valid()
    reads reader, reader.inner, reader.buffer, deadline
  {
    match e
    case Timeout => deadline.left == 0
    case Io =>
      || (reader.FailedWith(Interrupted) && deadline.left == 0)
      || (!steady && (reader.FailedWith(Failed) || reader.FailedWith(UnexpectedEof)))
    case BodyEof => reader.Rest() == "" || (!steady && reader.FailedWith(UnexpectedEof))
    case HeadEof => reader.Rest() == ""
    case _ => true
  }

  lemma Explains(reader: BufferedReader, deadline: Deadline, steady: bool)
    requires reader.Valid()
    ensures deadline.left == 0 ==> Explained(Timeout, reader, deadline, steady)
    ensures reader.Rest() == "" ==>
              Explained(BodyEof, reader, deadline, steady) && Explained(HeadEof, reader, deadline, steady)
    ensures steady && Explained(BodyEof, reader, deadline, steady) ==> reader.Rest() == ""
    ensures forall e :: e !in {Timeout, Io, BodyEof, HeadEof} ==> Explained(e, reader, deadline, steady)
  {
  }

  lemma FailureExplained(error: IoError, reader: BufferedReader, deadline: Deadline, steady: bool)
    requires reader.Valid() && reader.FailedWith(error)
    requires if error == Interrupted then deadline.left == 0 else !steady
    ensures Explained(Io, reader, deadline, steady)
    ensures error == UnexpectedEof ==> Explained(BodyEof, reader, deadline, steady)
  {
  }

  lemma StillExplained(e: HttpError, reader: BufferedReader, deadline: Deadline, earlier: bool, steady: bool)
    requires reader.Valid() && Explained(e, reader, deadline, steady) && (earlier ==> steady)
    ensures Explained(e, reader, deadline, earlier)
  {
  }

  // ----- Single reads -----

  /** Repeats an interrupted read until the deadline. Exactly a refill that
      `Replays` makes old octets come back before the rest. */
  method ReadRetryInterrupted(reader: BufferedReader, output: array<char>, from: nat, to: nat, deadline: Deadline)
    returns (r: Result<nat, IoError>, ghost got: string)
    requires reader.Valid() && from <= to <= output.Length && output != reader.buffer
    modifies reader, reader.inner, reader.buffer, output, deadline
    ensures reader.Valid() && deadline.left <= old(deadline.left)
    ensures Advanced(old(Now(reader)), Now(reader), got)
    ensures |got| <= to - from && (r.Ok? ==> r.value == |got|) && (r.Err? ==> got == "" && reader.FailedWith(r.error))
    ensures r.Ok? ==> output[from..from + |got|] == got && output[..from + |got|] == old(output[..from]) + got
    ensures output[..from] == old(output[..from]) && output[to..] == old(output[to..])
    ensures r.Ok? && from < to ==>
              got + reader.Rest() == old(reader.Coming()) && (got == "" <==> old(reader.Coming()) == "")
    ensures from == to ==> r == Ok(0) && reader.Rest() == old(reader.Rest())
    ensures r == Err(Interrupted) ==> deadline.left == 0
    ensures old(reader.Replays()) && old(deadline.left) > 0 ==> r.Ok?
    ensures old(reader.Steady()) && r.Err? ==> r.error == Interrupted
  {
    hide SteadyFrom, BufferedReader.Valid, BufferedReader.Rest, BufferedReader.Coming, BufferedReader.Steady,
      BufferedReader.FailedWith;
    ghost var steady := reader.Steady();
    if steady { reader.SteadyComing(); }
    while true
      invariant reader.Valid() && deadline.left <= old(deadline.left)
      invariant output[..from] == old(output[..from]) && output[to..] == old(output[to..])
      invariant steady ==> reader.Steady() && reader.Rest() == old(reader.Rest())
      invariant from == to ==> reader.Rest() == old(reader.Rest())
      invariant reader.Coming() == old(reader.Coming()) && reader.handed == old(reader.handed)
      invariant old(reader.Replays()) ==>
                  reader.start < reader.end || (reader.Replays() && deadline.left == old(deadline.left))
      decreases deadline.left
    {
      r := reader.Read(output, from, to);
      got := if r.Ok? then output[from..from + r.value] else "";
      Stays(Now(reader));
      if r != Err(Interrupted) {
        SlicesJoin(output, from, from + |got|);
        return;
      }
      var passed := deadline.Passed();
      if passed { return; }
    }
  }

  lemma SlicesJoin(a: array<char>, i: nat, j: nat)
    requires i <= j <= a.Length
    ensures a[..i] + a[i..j] == a[..j]
  {
  }

  // ----- Exact reads, lines and heads -----

  method ReadExactDeadline(reader: BufferedReader, output: array<char>, deadline: Deadline)
    returns (r: Result<(), HttpError>, ghost got: string)
    requires reader.Valid() && output != reader.buffer
    modifies reader, reader.inner, reader.buffer, output, deadline
    ensures reader.Valid() && deadline.left <= old(deadline.left)
    ensures r.Ok? && output.Length > 0 ==> deadline.left < old(deadline.left)
    ensures Advanced(old(Now(reader)), Now(reader), got)
    ensures r.Ok? ==> got == output[..]
    ensures r.Err? ==> (CutShort(r) || r.error == BodyEof) && |got| <= output.Length
    ensures r == Err(BodyEof) ==> |got| < output.Length
    ensures r.Err? ==> Explained(r.error, reader, deadline, old(reader.Steady()))
    ensures old(reader.Steady()) && !CutShort(r) ==> (r.Ok? <==> output.Length <= |old(reader.Rest())|)
  {
    hide SteadyFrom, BufferedReader.Valid, BufferedReader.Rest, BufferedReader.Coming, BufferedReader.Steady,
      BufferedReader.FailedWith, BufferedReader.Replays, Explained, Advanced;
    ghost var start := Now(reader);
    got := "";
    Stays(start);
    var offset := 0;
    while offset < output.Length
      invariant offset == |got| <= output.Length && reader.Valid() && deadline.left <= old(deadline.left)
      invariant offset > 0 ==> deadline.left < old(deadline.left)
      invariant got == output[..offset] && Advanced(start, Now(reader), got)
    {
      ghost var before := Now(reader);
      var count, piece := ReadRetryInterrupted(reader, output, offset, output.Length, deadline);
      Advances(start, before, Now(reader), got, piece);
      SteadyLengths(start, before, got);
      SteadyLengths(start, Now(reader), got + piece);
      got := got + piece;
      Explains(reader, deadline, start.steady);
      if count.Err? { FailureExplained(count.error, reader, deadline, start.steady); }
      match count {
        case Err(UnexpectedEof) => return Err(BodyEof), got;
        case Err(_) => return Err(Io), got;
        case Ok(n) =>
          if n == 0 { return Err(BodyEof), got; }
          offset := offset + n;
      }
      var passed := deadline.Passed();
      if passed {
        Explains(reader, deadline, start.steady);
        return Err(Timeout), got;
      }
    }
    SteadyLengths(start, Now(reader), got);
    assert output[..offset] == output[..];
    return Ok(()), got;
  }

  lemma SteadyLengths(a: Moment, b: Moment, got: string)
    requires Advanced(a, b, got)
    ensures a.steady ==> b.steady && |a.rest| == |got| + |b.rest|
  {
  }

  /** Reads one octet at a time and stops exactly after the first empty line. */
  method ReadHead(reader: BufferedReader, deadline: Deadline) returns (r: Result<string, HttpError>, ghost got: string)
    requires reader.Valid()
    modifies reader, reader.inner, reader.buffer, deadline
    ensures reader.Valid() && Advanced(old(Now(reader)), Now(reader), got)
    ensures |got| <= 0x1_0000
    ensures match r
            case Ok(head) => got == head && IsHead(head)
            case Err(e) => CutShort(r) || (e == (if |got| < 0x1_0000 then HeadEof else HeadTooLong) && !HasBlank(got))
    ensures r.Err? ==> Explained(r.error, reader, deadline, old(reader.Steady()))
  {
    hide SteadyFrom, BufferedReader.Valid, BufferedReader.Rest, BufferedReader.Coming, BufferedReader.Steady,
      BufferedReader.FailedWith, BufferedReader.Replays, Explained, Advanced, EndsBlank, HasBlank;
    ghost var start := Now(reader);
    got := "";
    Stays(start);
    var bytes := "";
    var one := new char[1];
    while !EndsBlank(bytes)
      invariant reader.Valid() && bytes == got && |got| <= HEAD_LIMIT && Advanced(start, Now(reader), got)
      invariant forall k :: 0 <= k < |got| ==> !EndsBlank(got[..k])
      decreases deadline.left
    {
      NotBlank(got);
      Explains(reader, deadline, start.steady);
      if |bytes| >= HEAD_LIMIT { return Err(HeadTooLong), got; }
      ghost var before := Now(reader);
      var count, piece := ReadRetryInterrupted(reader, one, 0, 1, deadline);
      Advances(start, before, Now(reader), got, piece);
      SteadyLengths(start, before, got);
      if count.Err? {
        FailureExplained(count.error, reader, deadline, start.steady);
        assert got + piece == got;
        return Err(Io), got;
      }
      if count.value == 0 {
        assert got + piece == got;
        Explains(reader, deadline, start.steady);
        return Err(HeadEof), got;
      }
      assert piece == [one[0]];
      OneMore(got, one[0]);
      got := got + piece;
      bytes := bytes + [one[0]];
      var passed := deadline.Passed();
      Explains(reader, deadline, start.steady);
      if passed { return Err(Timeout), got; }
    }
    return Ok(bytes), got;
  }

  method ReadLine(reader: BufferedReader, deadline: Deadline) returns (r: Result<string, HttpError>, ghost got: string)
    requires reader.Valid()
    modifies reader, reader.inner, reader.buffer, deadline
    ensures reader.Valid() && Advanced(old(Now(reader)), Now(reader), got) && deadline.left <= old(deadline.left)
    ensures r.Ok? ==> deadline.left < old(deadline.left)
    ensures match r
            case Ok(line) => NextLine(got) == Ok((line, ""))
            case Err(e) => CutShort(r) || NextLine(got) == Err(e)
    ensures r.Err? ==> Explained(r.error, reader, deadline, old(reader.Steady()))
    ensures old(reader.Steady()) && !CutShort(r) ==>
              match NextLine(old(reader.Rest()))
              case Ok((line, rest)) => r == Ok(line) && reader.Rest() == rest
              case Err(e) => r == Err(e)
  {
    hide SteadyFrom, BufferedReader.Valid, BufferedReader.Rest, BufferedReader.Coming, BufferedReader.Steady,
      BufferedReader.FailedWith, BufferedReader.Replays, Explained, NextLine, Utf8, DropReturn, Advanced;
    ghost var start := Now(reader);
    got := "";
    Stays(start);
    var bytes := "";
    var one := new char[1];
    while true
      invariant reader.Valid() && deadline.left <= old(deadline.left)
      invariant bytes == got && Advanced(start, Now(reader), got)
      invariant '\n' !in got && |got| <= LINE_LIMIT
      decreases deadline.left
    {
      ghost var before := Now(reader);
      SteadyLengths(start, before, got);
      var read, piece := ReadExactDeadline(reader, one, deadline);
      Advances(start, before, Now(reader), got, piece);
      Explains(reader, deadline, start.steady);
      if read.Err? { StillExplained(read.error, reader, deadline, start.steady, before.steady); }
      got := got + piece;
      LineSeen(start, Now(reader), got);
      if read.Err? {
        LineUnfinished(bytes);
        assert read.error == BodyEof ==> got == bytes;
        return Err(read.error), got;
      }
      assert piece == [one[0]];
      if one[0] == '\n' {
        LineFound(bytes, "");
        assert got == bytes + "\n" + "";
        if !Utf8(DropReturn(bytes)) { return Err(NotUtf8), got; }
        return Ok(DropReturn(bytes)), got;
      }
      bytes := bytes + [one[0]];
      if |bytes| > LINE_LIMIT {
        LineOverlong(got, "");
        assert got + "" == got;
        return Err(LineTooLong), got;
      }
    }
  }

  lemma LineSeen(a: Moment, b: Moment, got: string)
    requires Advanced(a, b, got)
    ensures a.steady ==>
              match NextLine(got)
              case Ok((line, more)) => more == "" ==> NextLine(a.rest) == Ok((line, b.rest))
              case Err(e) => e != BodyEof || b.rest == "" ==> NextLine(a.rest) == Err(e)
  {
    hide NextLine;
    Extended(got, b.rest);
  }

  // ----- Chunked bodies -----

  method ReadTrailers(reader: BufferedReader, deadline: Deadline) returns (r: Result<(), HttpError>, ghost got: string)
    requires reader.Valid()
    modifies reader, reader.inner, reader.buffer, deadline
    ensures reader.Valid() && Advanced(old(Now(reader)), Now(reader), got) && deadline.left <= old(deadline.left)
    ensures r.Ok? ==> deadline.left < old(deadline.left)
    ensures CutShort(r) || r == Trailers(got)
    ensures r.Err? ==> Explained(r.error, reader, deadline, old(reader.Steady()))
    ensures old(reader.Steady()) && !CutShort(r) ==> r == Trailers(old(reader.Rest()))
  {
    hide SteadyFrom, BufferedReader.Valid, BufferedReader.Rest, BufferedReader.Coming, BufferedReader.Steady,
      BufferedReader.FailedWith, BufferedReader.Replays, Explained, NextLine, Trailers, Skips, Advanced;
    ghost var start := Now(reader);
    got := "";
    Stays(start);
    SkipsNothing();
    while true
      invariant reader.Valid() && Skips(got) && Advanced(start, Now(reader), got) && deadline.left <= old(deadline.left)
      decreases deadline.left
    {
      ghost var before := Now(reader);
      SteadyLengths(start, before, got);
      var line, piece := ReadLine(reader, deadline);
      Advances(start, before, Now(reader), got, piece);
      SkipsLine(got, piece);
      got := got + piece;
      TrailersSeen(start, Now(reader), got);
      Explains(reader, deadline, start.steady);
      if line.Err? {
        StillExplained(line.error, reader, deadline, start.steady, before.steady);
        return Err(line.error), got;
      }
      if line.value == "" { return Ok(()), got; }
    }
  }

  lemma TrailersSeen(a: Moment, b: Moment, got: string)
    requires Advanced(a, b, got)
    ensures a.steady && (Trailers(got) != Err(BodyEof) || b.rest == "") ==> Trailers(a.rest) == Trailers(got)
  {
    hide Trailers;
    TrailersExtend(got, b.rest);
    assert got + "" == got;
  }

  lemma ChunkedSeen(a: Moment, b: Moment, got: string, limit: nat)
    requires Advanced(a, b, got)
    ensures a.steady && (ChunkedBody(got, limit) != Err(BodyEof) || b.rest == "") ==>
              ChunkedBody(a.rest, limit) == ChunkedBody(got, limit)
  {
    hide ChunkedBody;
    ChunkedExtends(got, b.rest, limit);
    assert got + "" == got;
  }

  /** What one pass of the chunk loop reads: a whole chunk, or the end of the body. */
  datatype Part = Whole(data: string) | Last(data: string)

  /** One pass of the chunk loop, with room for so many more octets. */
  method ReadChunk(reader: BufferedReader, room: nat, deadline: Deadline)
    returns (r: Result<Part, HttpError>, ghost got: string)
    requires reader.Valid()
    modifies reader, reader.inner, reader.buffer, deadline
    ensures reader.Valid() && Advanced(old(Now(reader)), Now(reader), got) && deadline.left <= old(deadline.left)
    ensures r.Ok? ==> deadline.left < old(deadline.left)
    ensures match r
            case Ok(Whole(data)) => |data| < room && Chunks(got, data, room)
            case Ok(Last(data)) => ChunkedBody(got, room) == Ok(data)
            case Err(e) => CutShort(r) || ChunkedBody(got, room) == Err(e)
    ensures r.Err? ==> Explained(r.error, reader, deadline, old(reader.Steady()))
  {
    hide SteadyFrom, BufferedReader.Valid, BufferedReader.Rest, BufferedReader.Coming, BufferedReader.Steady,
      BufferedReader.FailedWith, BufferedReader.Replays, Explained, NextLine, Trailers, ChunkSize, Chunks,
      ChunkedBody, Advanced;
    ghost var start := Now(reader);
    var line, l := ReadLine(reader, deadline);
    got := l;
    BadSize(l, room);
    if line.Err? { return Err(line.error), got; }
    Explains(reader, deadline, start.steady);
    var size := ChunkSize(line.value);
    if size.None? { return Err(ChunkSizeMalformed), got; }
    ghost var before := Now(reader);
    SteadyLengths(start, before, l);
    if size.value == 0 {
      var trailers, t := ReadTrailers(reader, deadline);
      Advances(start, before, Now(reader), l, t);
      LastChunk(l, t, room);
      got := l + t;
      if trailers.Err? {
        StillExplained(trailers.error, reader, deadline, start.steady, before.steady);
        return Err(trailers.error), got;
      }
      return Ok(Last("")), got;
    }
    var keep := Least(size.value, room);
    var chunk := new char[keep];
    var read, c := ReadExactDeadline(reader, chunk, deadline);
    Advances(start, before, Now(reader), l, c);
    LastData(l, c, room);
    got := l + c;
    if read.Err? {
      StillExplained(read.error, reader, deadline, start.steady, before.steady);
      return Err(read.error), got;
    }
    if keep < size.value || keep == room { return Ok(Last(chunk[..])), got; }
    before := Now(reader);
    SteadyLengths(start, before, got);
    var terminator, e := ReadLine(reader, deadline);
    Advances(start, before, Now(reader), got, e);
    BadEnd(l, c, e, room);
    got := got + e;
    if terminator.Err? {
      StillExplained(terminator.error, reader, deadline, start.steady, before.steady);
      return Err(terminator.error), got;
    }
    Explains(reader, deadline, start.steady);
    if terminator.value != "" { return Err(ChunkEndMalformed), got; }
    WholeChunk(l, c, e, room);
    return Ok(Whole(chunk[..])), got;
  }

  method ReadChunkedBody(reader: BufferedReader, limit: nat, deadline: Deadline)
    returns (r: Result<string, HttpError>, ghost got: string)
    requires reader.Valid()
    modifies reader, reader.inner, reader.buffer, deadline
    ensures reader.Valid() && Advanced(old(Now(reader)), Now(reader), got)
    ensures CutShort(r) || r == ChunkedBody(got, limit)
    ensures r.Err? ==> Explained(r.error, reader, deadline, old(reader.Steady()))
    ensures old(reader.Steady()) && !CutShort(r) ==> r == ChunkedBody(old(reader.Rest()), limit)
  {
    hide SteadyFrom, BufferedReader.Valid, BufferedReader.Rest, BufferedReader.Coming, BufferedReader.Steady,
      BufferedReader.FailedWith, BufferedReader.Replays, Explained, Chunks, ChunkedBody, Advanced;
    ghost var start := Now(reader);
    got := "";
    Stays(start);
    NoChunks(limit);
    var body := "";
    while true
      invariant reader.Valid() && |body| <= limit && Chunks(got, body, limit) && Advanced(start, Now(reader), got)
      decreases deadline.left
    {
      ghost var before, earlier := Now(reader), got;
      SteadyLengths(start, before, got);
      var part, piece := ReadChunk(reader, limit - |body|, deadline);
      Advances(start, before, Now(reader), got, piece);
      AfterChunks(got, body, piece, limit);
      got := got + piece;
      ChunkedSeen(start, Now(reader), got, limit);
      Explains(reader, deadline, start.steady);
      if part.Err? {
        StillExplained(part.error, reader, deadline, start.steady, before.steady);
        return Err(part.error), got;
      }
      if part.value.Whole? { MoreChunks(earlier, body, piece, part.value.data, limit); }
      body := body + part.value.data;
      if part.value.Last? { return Ok(body), got; }
    }
  }

  // ----- Bodies and responses -----

  /** Everything up to the close, or the first octets up to the limit. */
  method ReadToClose(reader: BufferedReader, limit: nat, deadline: Deadline)
    returns (r: Result<string, HttpError>, ghost got: string)
    requires reader.Valid()
    modifies reader, reader.inner, reader.buffer, deadline
    ensures reader.Valid() && Advanced(old(Now(reader)), Now(reader), got)
    ensures |got| <= limit && (r == Ok(got) || CutShort(r))
    ensures r.Err? ==> Explained(r.error, reader, deadline, old(reader.Steady()))
    ensures r.Ok? && |got| < limit ==> Explained(BodyEof, reader, deadline, old(reader.Steady()))
    ensures old(reader.Steady()) && !CutShort(r) ==> r == Ok(Cut(old(reader.Rest()), limit))
  {
    hide SteadyFrom, BufferedReader.Valid, BufferedReader.Rest, BufferedReader.Coming, BufferedReader.Steady,
      BufferedReader.FailedWith, BufferedReader.Replays, Explained, Advanced, Cut;
    ghost var start := Now(reader);
    got := "";
    Stays(start);
    var body := "";
    var buffer := new char[8192];
    while |body| < limit
      invariant reader.Valid() && body == got && |got| <= limit && Advanced(start, Now(reader), got)
      decreases deadline.left
    {
      var wanted := Least(limit - |body|, buffer.Length);
      ghost var before := Now(reader);
      SteadyLengths(start, before, got);
      var count, piece := ReadRetryInterrupted(reader, buffer, 0, wanted, deadline);
      Advances(start, before, Now(reader), got, piece);
      assert piece == "" ==> got + piece == got;
      assert count.Ok? ==> buffer[0..0 + |piece|] == buffer[..|piece|];
      got := got + piece;
      CutSeen(start, Now(reader), got, limit);
      Explains(reader, deadline, start.steady);
      if count.Err? { FailureExplained(count.error, reader, deadline, start.steady); }
      match count {
        case Err(UnexpectedEof) => return Ok(body), got;
        case Err(_) => return Err(Io), got;
        case Ok(n) =>
          if n == 0 { return Ok(body), got; }
          body := body + buffer[..n];
      }
      var passed := deadline.Passed();
      if passed {
        Explains(reader, deadline, start.steady);
        return Err(Timeout), got;
      }
    }
    CutSeen(start, Now(reader), got, limit);
    return Ok(body), got;
  }

  lemma CutSeen(a: Moment, b: Moment, got: string, limit: nat)
    requires Advanced(a, b, got) && |got| <= limit
    ensures a.steady && (|got| == limit || b.rest == "") ==> Cut(a.rest, limit) == got
  {
    assert b.rest == "" ==> got + b.rest == got;
  }

  method AnyClose(items: seq<string>) returns (found: bool)
    ensures found == HasClose(items)
  {
    for k := 0 to |items|
      invariant !HasClose(items[..k])
    {
      if Lower(TrimOctets(items[k])) == "close" { return true; }
    }
    assert items[..|items|] == items;
    return false;
  }

  /** Whatever the reads deliver, the body is the one its framing says. */
  method ReadResponseBody(reader: BufferedReader, status: nat, headers: Headers, limit: nat, deadline: Deadline)
    returns (r: Result<string, HttpError>, ghost got: string)
    requires reader.Valid()
    modifies reader, reader.inner, reader.buffer, deadline
    ensures reader.Valid() && Advanced(old(Now(reader)), Now(reader), got)
    ensures CutShort(r) || r == Body(status, headers, got, limit)
    ensures r.Err? ==> Explained(r.error, reader, deadline, old(reader.Steady()))
    ensures old(reader.Steady()) && !CutShort(r) ==> r == Body(status, headers, old(reader.Rest()), limit)
  {
    hide SteadyFrom, BufferedReader.Valid, BufferedReader.Rest, BufferedReader.Coming, BufferedReader.Steady,
      BufferedReader.FailedWith, BufferedReader.Replays, Explained, Advanced, ChunkedBody, HasClose, Split, Lower,
      ParseUsize;
    ghost var start := Now(reader);
    got := "";
    Stays(start);
    Explains(reader, deadline, start.steady);
    if status == 204 || status == 304 { return Ok(""), got; }
    var length := if "content-length" in headers then Some(headers["content-length"]) else None;
    var encoding := if "transfer-encoding" in headers then Some(headers["transfer-encoding"]) else None;
    if length.Some? && encoding.Some? { return Err(BothFramings), got; }
    if encoding.Some? && Lower(encoding.value) != "chunked" { return Err(EncodingUnsupported), got; }
    if length.Some? {
      var size := ParseUsize(length.value);
      if size.None? { return Err(LengthMalformed), got; }
      var body := new char[Least(size.value, limit)];
      var read, octets := ReadExactDeadline(reader, body, deadline);
      got := octets;
      TakenOff(start, Now(reader), got);
      assert got[..|got|] == got;
      if read.Err? { return Err(read.error), got; }
      return Ok(body[..]), got;
    }
    if encoding.Some? {
      r, got := ReadChunkedBody(reader, limit, deadline);
      return;
    }
    var close := false;
    if "connection" in headers { close := AnyClose(Split(headers["connection"], ',')); }
    if !close { return Err(NoFraming), got; }
    r, got := ReadToClose(reader, limit, deadline);
  }

  lemma TakenOff(a: Moment, b: Moment, got: string)
    requires Advanced(a, b, got)
    ensures a.steady ==> b.steady && a.rest == got + b.rest && a.rest[..|got|] == got && a.rest[|got|..] == b.rest
  {
  }

  /** The head and then the body of one response. A message that a server wrote
      is understood as it was meant. */
  method ReadResponse(reader: BufferedReader, limit: nat, deadline: Deadline)
    returns (r: Result<(nat, Headers, string), HttpError>, ghost got: string)
    requires reader.Valid()
    modifies reader, reader.inner, reader.buffer, deadline
    ensures reader.Valid() && Advanced(old(Now(reader)), Now(reader), got)
    ensures CutShort(r) || (Answers(r, got, limit) && Understood(r, got, limit))
    ensures r.Err? ==> Explained(r.error, reader, deadline, old(reader.Steady()))
    ensures old(reader.Steady()) && !CutShort(r) ==>
              Answers(r, old(reader.Rest()), limit) && Understood(r, old(reader.Rest()), limit)
  {
    hide SteadyFrom, BufferedReader.Valid, BufferedReader.Rest, BufferedReader.Coming, BufferedReader.Steady,
      BufferedReader.FailedWith, BufferedReader.Replays, Advanced, Explained, Answers, Understood;
    r, got := ReadHeadAndBody(reader, limit, deadline);
    if !CutShort(r) {
      AnswersUnderstand(r, got, limit);
      if old(reader.Steady()) { AnswersUnderstand(r, old(reader.Rest()), limit); }
    }
  }

  method ReadHeadAndBody(reader: BufferedReader, limit: nat, deadline: Deadline)
    returns (r: Result<(nat, Headers, string), HttpError>, ghost got: string)
    requires reader.Valid()
    modifies reader, reader.inner, reader.buffer, deadline
    ensures reader.Valid() && Advanced(old(Now(reader)), Now(reader), got)
    ensures CutShort(r) || Answers(r, got, limit)
    ensures r.Err? ==> Explained(r.error, reader, deadline, old(reader.Steady()))
    ensures old(reader.Steady()) && !CutShort(r) ==> Answers(r, old(reader.Rest()), limit)
  {
    hide SteadyFrom, BufferedReader.Valid, BufferedReader.Rest, BufferedReader.Coming, BufferedReader.Steady,
      BufferedReader.FailedWith, BufferedReader.Replays, Advanced, IsHead, HasBlank, ParseHead, Body, Answers;
    ghost var start := Now(reader);
    var head, h := ReadHead(reader, deadline);
    got := h;
    ghost var before := Now(reader);
    TakenOff(start, before, h);
    assert h + "" == h;
    if head.Err? {
      if !CutShort(head) {
        Headless(h, "", head.error, limit);
        Headless(h, if |h| == HEAD_LIMIT then before.rest else "", head.error, limit);
      }
      return Err(head.error), got;
    }
    HeadLong(h);
    HeadDecides(h, "", limit);
    HeadDecides(h, before.rest, limit);
    var parsed := ParseHead(head.value[..|head.value| - 4]);
    HeadErrors(head.value[..|head.value| - 4]);
    if parsed.Err? { return Err(parsed.error), got; }
    var (status, headers) := parsed.value;
    var body, b := ReadResponseBody(reader, status, headers, limit, deadline);
    Advances(start, before, Now(reader), h, b);
    HeadDecides(h, b, limit);
    got := h + b;
    if body.Err? { return Err(body.error), got; }
    return Ok((status, headers, body.value)), got;
  }

  /** The replay happens: of two octets delivered one at a time, with an
      interruption between them, the first is handed out twice. */
  method ReplayExample() returns (first: char, second: char)
    ensures first == 'a' == second
  {
    hide SteadyFrom, Fed, BufferedReader.Steady, BufferedReader.Valid, BufferedReader.Rest, BufferedReader.Coming;
    var stream := new Stream("ab", k => if k == 1 then Fail(Interrupted) else Deliver(1));
    var reader := new BufferedReader(stream);
    var deadline := new Deadline(1);
    var one := new char[1];
    first := FirstOctet(reader, one);
    var again, got := ReadRetryInterrupted(reader, one, 0, 1, deadline);
    assert again.Ok? && got[0] == 'a';
    second := one[0..1][0];
  }

  /** One octet is delivered and handed out. */
  method FirstOctet(reader: BufferedReader, one: array<char>) returns (first: char)
    requires reader.Valid() && reader.start == reader.end && one.Length == 1 && one != reader.buffer
    requires reader.inner.Next() == Deliver(1) && reader.Rest() != "" && reader.inner.data != ""
    modifies reader, reader.inner, reader.buffer, one
    ensures reader.Valid() && reader.start == reader.end == 1 && reader.inner.turn == old(reader.inner.turn) + 1
    ensures first == old(reader.Rest())[0]
    ensures reader.Replays() ==> reader.Coming() != "" && reader.Coming()[0] == first
  {
    hide SteadyFrom, Fed, BufferedReader.Steady, BufferedReader.Valid, BufferedReader.Rest, BufferedReader.Coming;
    var filled := reader.Refill();
    FirstBuffered(reader);
    var count := reader.Serve(one, 0, 1);
    first := one[0..1][0];
    if reader.Replays() { FirstComing(reader); }
  }

  lemma FirstBuffered(reader: BufferedReader)
    requires reader.Valid() && reader.start < reader.end
    ensures reader.Rest() != "" && reader.start < reader.buffer.Length
    ensures reader.Rest()[0] == reader.buffer[reader.start]
  {
    hide Fed;
  }

  lemma FirstComing(reader: BufferedReader)
    requires reader.Valid() && reader.Replays()
    ensures reader.Coming() != "" && 0 < reader.buffer.Length && reader.Coming()[0] == reader.buffer[0]
  {
    hide Fed;
    assert reader.buffer[..reader.end][0] == reader.buffer[0];
  }
}
