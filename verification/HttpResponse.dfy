/** What an HTTP/1.1 response means to the client (RFC 9112): where its head
    ends, and which body each of the three framings carries (sections 6 and 7.1).
    Octets are characters below 256. */
module HttpResponse {
  import opened Common
  import opened Octets
  import opened Strings

  const HEAD_LIMIT: nat := 0x1_0000
  const LINE_LIMIT: nat := 0x1_0000

  datatype HttpError =
    | HeadTooLong | HeadEof | HeadMalformed | VersionUnsupported | DuplicateFraming
    | BothFramings | EncodingUnsupported | LengthMalformed | NoFraming
    | BodyEof | LineTooLong | NotUtf8 | ChunkSizeMalformed | ChunkEndMalformed
    | Timeout | Io

  const BLANK: string := "\r\n\r\n"

  predicate EndsBlank(s: string) {
    |s| >= 4 && s[|s| - 4..] == BLANK
  }

  /** The head ends exactly after the first empty line. */
  predicate IsHead(head: string) {
    EndsBlank(head) && forall k :: 0 <= k < |head| ==> !EndsBlank(head[..k])
  }

  /** The characters CR, LF, CR, LF. */
  predicate BlankAt(s: string, k: nat) {
    k + 3 < |s| && s[k] == '\r' && s[k + 1] == '\n' && s[k + 2] == '\r' && s[k + 3] == '\n'
  }

  lemma EndsBlankExactly(s: string)
    ensures EndsBlank(s) <==> |s| >= 4 && BlankAt(s, |s| - 4)
  {
    if |s| >= 4 {
      var end := s[|s| - 4..];
      assert end[0] == s[|s| - 4] && end[1] == s[|s| - 3] && end[2] == s[|s| - 2] && end[3] == s[|s| - 1];
    }
  }

  /** A head ends with these four characters, which stand nowhere before its end. */
  lemma HeadExactly(head: string)
    ensures IsHead(head) <==>
            |head| >= 4 && BlankAt(head, |head| - 4) && forall k :: 0 <= k < |head| - 4 ==> !BlankAt(head, k)
  {
    hide EndsBlank;
    EndsBlankExactly(head);
    forall k | 0 <= k < |head| ensures EndsBlank(head[..k]) <==> k >= 4 && BlankAt(head, k - 4) {
      EndsBlankExactly(head[..k]);
    }
    if IsHead(head) {
      forall k | 0 <= k < |head| - 4 ensures !BlankAt(head, k) { assert !EndsBlank(head[..k + 4]); }
    }
  }

  // ----- Lines -----

  function DropReturn(line: string): string {
    if line != "" && line[|line| - 1] == '\r' then line[..|line| - 1] else line
  }

  /** The next line without its end, and what follows it. */
  function NextLine(input: string): (r: Result<(string, string), HttpError>)
    ensures r.Ok? ==> |r.value.1| < |input|
  {
    var k := LineEnd(input);
    if k > LINE_LIMIT + 1 || (|input| == LINE_LIMIT + 1 == k && input[k - 1] != '\n') then Err(LineTooLong)
    else if k == 0 || input[k - 1] != '\n' then Err(BodyEof)
    else if !Utf8(DropReturn(input[..k - 1])) then Err(NotUtf8)
    else Ok((DropReturn(input[..k - 1]), input[k..]))
  }

  /** How a line found octet by octet ends: at its newline, at the end of the
      input, or at the limit. */
  lemma LineFound(line: string, rest: string)
    requires '\n' !in line && |line| <= 0x1_0000
    ensures NextLine(line + "\n" + rest)
            == if Utf8(DropReturn(line)) then Ok((DropReturn(line), rest)) else Err(NotUtf8)
  {
    hide LineEnd, Utf8, DropReturn;
    var input := line + "\n" + rest;
    assert input[..|line|] == line && input[|line| + 1..] == rest;
    LineEndIs(input, |line|);
  }

  lemma LineUnfinished(line: string)
    requires '\n' !in line && |line| <= LINE_LIMIT
    ensures NextLine(line) == Err(BodyEof)
  {
    hide LineEnd, Utf8;
    LineEndAll(line);
  }

  lemma LineOverlong(line: string, rest: string)
    requires '\n' !in line && |line| == 0x1_0001
    ensures NextLine(line + rest) == Err(LineTooLong)
  {
    hide LineEnd, Utf8;
    LineEndSkip(line, rest);
    if rest == "" { LineEndAll(rest); }
  }

  /** What has been read of a stream stays as it is when more arrives, unless the
      end of the stream decided it. */
  lemma LineExtends(a: string, b: string)
    ensures match NextLine(a)
            case Ok((line, rest)) => NextLine(a + b) == Ok((line, rest + b))
            case Err(e) => e != BodyEof ==> NextLine(a + b) == Err(e)
  {
    hide LineEnd, Utf8, DropReturn;
    var k := LineEnd(a);
    LineEndMeans(a);
    if k > 0 && a[k - 1] == '\n' {
      assert (a + b)[..k - 1] == a[..k - 1];
      LineEndIs(a + b, k - 1);
      assert (a + b)[k..] == a[k..] + b;
    } else {
      LineEndSkip(a, b);
      if b == "" { LineEndAll(b); }
    }
  }

  // ----- The chunked framing -----

  /** The size in a chunk line: extensions are cut off, a `0x` prefix is allowed. */
  function ChunkSize(line: string): Option<nat> {
    var text := TrimOctets(Split(line, ';')[0]);
    ParseNumber(if "0x" <= text then text[2..] else text, 16, USIZE_LIMIT)
  }

  /** Trailer lines up to the empty one. */
  function Trailers(input: string): Result<(), HttpError>
    decreases |input|
  {
    match NextLine(input)
    case Err(e) => Err(e)
    case Ok((line, rest)) => if line == "" then Ok(()) else Trailers(rest)
  }

  /** At most `room` further octets of a chunked body. */
  function ChunkedBody(input: string, room: nat): Result<string, HttpError>
    decreases |input|
  {
    match NextLine(input)
    case Err(e) => Err(e)
    case Ok((line, rest)) =>
      match ChunkSize(line)
      case None => Err(ChunkSizeMalformed)
      case Some(size) =>
        if size == 0 then
          match Trailers(rest)
          case Err(e) => Err(e)
          case Ok(_) => Ok("")
        else
          var keep := Least(size, room);
          if keep > |rest| then Err(BodyEof)
          else if keep == room then Ok(rest[..keep])
          else
            match NextLine(rest[keep..])
            case Err(e) => Err(e)
            case Ok((end, later)) =>
              if end != "" then Err(ChunkEndMalformed)
              else
                match ChunkedBody(later, room - keep)
                case Err(e) => Err(e)
                case Ok(more) => Ok(rest[..keep] + more)
  }

  lemma {:induction false} TrailersExtend(a: string, b: string)
    ensures Trailers(a) != Err(BodyEof) ==> Trailers(a + b) == Trailers(a)
    decreases |a|
  {
    hide NextLine;
    LineExtends(a, b);
    if NextLine(a).Ok? { TrailersExtend(NextLine(a).value.1, b); }
  }

  lemma {:induction false} ChunkedExtends(a: string, b: string, room: nat)
    ensures ChunkedBody(a, room) != Err(BodyEof) ==> ChunkedBody(a + b, room) == ChunkedBody(a, room)
    decreases |a|
  {
    hide NextLine, ChunkSize, Trailers;
    LineExtends(a, b);
    if NextLine(a).Ok? {
      var (line, rest) := NextLine(a).value;
      TrailersExtend(rest, b);
      if ChunkSize(line).Some? && ChunkSize(line).value > 0 {
        var keep := Least(ChunkSize(line).value, room);
        if keep <= |rest| {
          assert (rest + b)[..keep] == rest[..keep] && (rest + b)[keep..] == rest[keep..] + b;
          LineExtends(rest[keep..], b);
          if keep < room && NextLine(rest[keep..]).Ok? {
            ChunkedExtends(NextLine(rest[keep..]).value.1, b, room - keep);
          }
        }
      }
    }
  }

  // ----- The three framings -----

  type Headers = map<string, string>

  function Cut(body: string, limit: nat): string {
    if |body| <= limit then body else body[..limit]
  }

  predicate HasClose(items: seq<string>) {
    exists k :: 0 <= k < |items| && Lower(TrimOctets(items[k])) == "close"
  }

  function Body(status: nat, headers: Headers, input: string, limit: nat): Result<string, HttpError> {
    if status == 204 || status == 304 then Ok("")
    else if "content-length" in headers && "transfer-encoding" in headers then Err(BothFramings)
    else if "transfer-encoding" in headers then
      if Lower(headers["transfer-encoding"]) != "chunked" then Err(EncodingUnsupported)
      else ChunkedBody(input, limit)
    else if "content-length" in headers then
      match ParseUsize(headers["content-length"])
      case None => Err(LengthMalformed)
      case Some(n) =>
        var keep := Least(n, limit);
        if keep > |input| then Err(BodyEof) else Ok(input[..keep])
    else if "connection" in headers && HasClose(Split(headers["connection"], ',')) then Ok(Cut(input, limit))
    else Err(NoFraming)
  }

  // ----- What a sender may put on the wire for a body -----

  /** A chunk: its size in hexadecimal digits, any extension, and its data. */
  datatype Chunk = Chunk(size: string, extension: string, data: string)

  predicate SizeLine(size: string, extension: string, value: nat) {
    && size != "" && AreDigits(size, 16) && DigitsValue(size, 16) == value < USIZE_LIMIT
    && (extension == "" || extension[0] == ';')
    && '\n' !in extension && Ascii(extension)
    && |size| + |extension| < LINE_LIMIT
  }

  predicate GoodTrailer(line: string) {
    line != "" && '\n' !in line && Utf8(line) && |line| < LINE_LIMIT
  }

  predicate GoodChunk(chunk: Chunk) {
    chunk.data != "" && SizeLine(chunk.size, chunk.extension, |chunk.data|)
  }

  function Data(chunks: seq<Chunk>): string {
    if chunks == [] then "" else chunks[0].data + Data(chunks[1..])
  }

  function TrailerWire(trailers: seq<string>): string {
    if trailers == [] then "\r\n" else trailers[0] + "\r\n" + TrailerWire(trailers[1..])
  }

  /** The chunks, a last chunk of size zero, and the trailer section. */
  function ChunkWire(chunks: seq<Chunk>, last: Chunk, trailers: seq<string>): string {
    if chunks == [] then last.size + last.extension + "\r\n" + TrailerWire(trailers)
    else
      var c := chunks[0];
      c.size + c.extension + "\r\n" + c.data + "\r\n" + ChunkWire(chunks[1..], last, trailers)
  }

  // ----- All framings carry the same body -----

  lemma LineReads(line: string, tail: string)
    requires '\n' !in line && Utf8(line) && |line| < LINE_LIMIT
    ensures NextLine(line + "\r\n" + tail) == Ok((line, tail))
  {
    hide NextLine, Utf8;
    LineFound(line + "\r", tail);
    assert line + "\r\n" + tail == (line + "\r") + "\n" + tail;
    assert DropReturn(line + "\r") == line;
  }

  lemma {:induction false} SplitFirst(a: string, b: string, separator: char)
    requires separator !in a && (b == "" || b[0] == separator)
    ensures Split(a + b, separator)[0] == a
  {
    if a == "" {
      assert a + b == b;
    } else {
      SplitFirst(a[1..], b, separator);
      assert (a + b)[1..] == a[1..] + b;
      assert [a[0]] + a[1..] == a;
    }
  }

  /** Hexadecimal digits are solid and no part of a chunk line's punctuation. */
  lemma HexIsSolid(size: string)
    requires AreDigits(size, 16)
    ensures forall k :: 0 <= k < |size| ==> Solid(size[k]) && size[k] != ';' && size[k] != '+' && size[k] != 'x'
  {
    forall k | 0 <= k < |size| ensures Solid(size[k]) && size[k] != ';' && size[k] != '+' && size[k] != 'x' {
      assert DigitValue(size[k]).Some?;
    }
  }

  lemma SizeLineReads(size: string, extension: string, value: nat)
    requires SizeLine(size, extension, value)
    ensures var line := size + extension;
            ChunkSize(line) == Some(value) && '\n' !in line && Utf8(line)
  {
    hide AreDigits, DigitsValue, Split, Utf8, TrimOctets, ParseNumber, Ascii;
    HexIsSolid(size);
    SplitFirst(size, extension, ';');
    SolidEnds(size);
    UnspacedKept(size);
    SizeNumber(size);
    SizeLineAscii(size, extension, value);
    AsciiIsUtf8(size + extension);
  }

  lemma SizeNumber(size: string)
    requires size != "" && AreDigits(size, 16) && DigitsValue(size, 16) < USIZE_LIMIT
    ensures ParseNumber(size, 16, USIZE_LIMIT) == Some(DigitsValue(size, 16)) && !("0x" <= size)
  {
    hide DigitsValue;
    HexIsSolid(size);
    assert size[0] != '+' && (|size| >= 2 ==> size[1] != 'x');
  }

  lemma SizeLineAscii(size: string, extension: string, value: nat)
    requires SizeLine(size, extension, value)
    ensures Ascii(size + extension) && '\n' !in size + extension
  {
    hide DigitsValue;
    forall k | 0 <= k < |size| ensures size[k] as int < 128 && size[k] != '\n' { assert DigitValue(size[k]).Some?; }
  }

  lemma {:induction false} TrailersRead(trailers: seq<string>, tail: string)
    requires forall k :: 0 <= k < |trailers| ==> GoodTrailer(trailers[k])
    ensures Trailers(TrailerWire(trailers) + tail) == Ok(())
    decreases |trailers|
  {
    hide NextLine, Utf8;
    if trailers == [] {
      AsciiIsUtf8("");
      LineReads("", tail);
      assert "" + "\r\n" + tail == TrailerWire(trailers) + tail;
    } else {
      TrailersRead(trailers[1..], tail);
      var later := TrailerWire(trailers[1..]) + tail;
      LineReads(trailers[0], later);
      assert trailers[0] + "\r\n" + later == TrailerWire(trailers) + tail;
    }
  }

  /** Whatever the division into chunks, the sizes, extensions and trailers: the
      first `room` octets of the data come back. */
  lemma {:induction false} ChunksRead(chunks: seq<Chunk>, last: Chunk, trailers: seq<string>, tail: string, room: nat)
    requires forall k :: 0 <= k < |chunks| ==> GoodChunk(chunks[k])
    requires SizeLine(last.size, last.extension, 0)
    requires forall k :: 0 <= k < |trailers| ==> GoodTrailer(trailers[k])
    ensures ChunkedBody(ChunkWire(chunks, last, trailers) + tail, room) == Ok(Cut(Data(chunks), room))
    decreases |chunks|
  {
    hide ChunkedBody, TrailerWire, SizeLine, GoodTrailer;
    if chunks == [] {
      LastChunkReads(last, trailers, tail, room);
    } else {
      var c := chunks[0];
      var after := ChunkWire(chunks[1..], last, trailers) + tail;
      assert ChunkWire(chunks, last, trailers) + tail == c.size + c.extension + "\r\n" + (c.data + ("\r\n" + after));
      ChunkReads(c, after, room);
      if |c.data| < room {
        ChunksRead(chunks[1..], last, trailers, tail, room - |c.data|);
        CutsAgree(c.data, Data(chunks[1..]), room);
      } else {
        CutFirst(c.data, Data(chunks[1..]), room);
      }
    }
  }

  lemma LastChunkReads(last: Chunk, trailers: seq<string>, tail: string, room: nat)
    requires SizeLine(last.size, last.extension, 0)
    requires forall k :: 0 <= k < |trailers| ==> GoodTrailer(trailers[k])
    ensures ChunkedBody(last.size + last.extension + "\r\n" + TrailerWire(trailers) + tail, room) == Ok("")
  {
    hide NextLine, ChunkSize, Utf8, Trailers, TrailerWire, SizeLine;
    SizeLineReads(last.size, last.extension, 0);
    SizeLineShort(last.size, last.extension, 0);
    var later := TrailerWire(trailers) + tail;
    LineReads(last.size + last.extension, later);
    assert last.size + last.extension + "\r\n" + TrailerWire(trailers) + tail
        == last.size + last.extension + "\r\n" + later;
    TrailersRead(trailers, tail);
  }

  lemma ChunkReads(c: Chunk, after: string, room: nat)
    requires GoodChunk(c)
    ensures ChunkedBody(c.size + c.extension + "\r\n" + (c.data + ("\r\n" + after)), room) ==
            if |c.data| >= room then Ok(c.data[..room])
            else
              match ChunkedBody(after, room - |c.data|)
              case Err(e) => Err(e)
              case Ok(more) => Ok(c.data + more)
  {
    hide NextLine, ChunkSize, Utf8, Trailers, SizeLine;
    var rest := c.data + ("\r\n" + after);
    SizeLineReads(c.size, c.extension, |c.data|);
    SizeLineShort(c.size, c.extension, |c.data|);
    LineReads(c.size + c.extension, rest);
    ChunkEnds(c.data, after);
    if |c.data| >= room { assert rest[..room] == c.data[..room]; }
  }

  lemma SizeLineShort(size: string, extension: string, value: nat)
    requires SizeLine(size, extension, value)
    ensures |size + extension| < LINE_LIMIT
  {
  }

  lemma ChunkEnds(data: string, after: string)
    ensures var rest := data + ("\r\n" + after);
            rest[..|data|] == data && NextLine(rest[|data|..]) == Ok(("", after))
  {
    hide NextLine;
    var rest := data + ("\r\n" + after);
    AsciiIsUtf8("");
    LineReads("", after);
    assert rest[|data|..] == "" + "\r\n" + after;
  }

  lemma CutFirst(data: string, more: string, room: nat)
    requires |data| >= room
    ensures Cut(data + more, room) == data[..room]
  {
    assert (data + more)[..room] == data[..room];
    assert more == "" ==> data + more == data;
    assert |data| == room ==> data[..room] == data;
  }

  lemma CutsAgree(data: string, more: string, room: nat)
    requires |data| < room
    ensures Cut(data + more, room) == data + Cut(more, room - |data|)
  {
  }

  /** RFC 9112 section 6: the framing does not change what is received. */
  lemma FramingsAgree(body: string, chunks: seq<Chunk>, last: Chunk, trailers: seq<string>, tail: string,
                      status: nat, length: Headers, chunked: Headers, closing: Headers, limit: nat)
    requires status != 204 && status != 304
    requires forall k :: 0 <= k < |chunks| ==> GoodChunk(chunks[k])
    requires SizeLine(last.size, last.extension, 0)
    requires forall k :: 0 <= k < |trailers| ==> GoodTrailer(trailers[k])
    requires Data(chunks) == body
    requires "content-length" in length && "transfer-encoding" !in length
    requires ParseUsize(length["content-length"]) == Some(|body|)
    requires "transfer-encoding" in chunked && "content-length" !in chunked
    requires Lower(chunked["transfer-encoding"]) == "chunked"
    requires "content-length" !in closing && "transfer-encoding" !in closing
    requires "connection" in closing && HasClose(Split(closing["connection"], ','))
    ensures Body(status, length, body + tail, limit) == Ok(Cut(body, limit))
    ensures Body(status, chunked, ChunkWire(chunks, last, trailers) + tail, limit) == Ok(Cut(body, limit))
    ensures Body(status, closing, body, limit) == Ok(Cut(body, limit))
  {
    hide ChunkedBody, ChunkWire, Data, Split, Lower, ParseUsize, HasClose, SizeLine, GoodTrailer, GoodChunk;
    ChunksRead(chunks, last, trailers, tail, limit);
    assert forall n :: 0 <= n <= |body| ==> (body + tail)[..n] == body[..n];
  }
}
