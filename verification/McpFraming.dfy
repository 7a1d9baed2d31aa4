/** The framing layer of the MCP server: Content-Length framed and
    newline-delimited messages over a buffered octet stream. */
module McpFraming {
  import opened Common
  import opened Octets
  import opened Strings
  import opened McpProtocol

  const MAX_LINE_BYTES: nat := 0x10_0000
  const MAX_BODY_BYTES: nat := 0x10_0000

  /** Why no message could be read. */
  datatype ReadError = Eof | Io

  // ----- Text -----

  function TrimLineEnd(s: string): string {
    if s != "" && (s[|s| - 1] == '\n' || s[|s| - 1] == '\r') then TrimLineEnd(s[..|s| - 1]) else s
  }

  // ----- What the next message of a stream is -----

  function StreamEnd(ending: Ending): ReadError {
    if ending.EndOfInput? then Eof else Io
  }

  function NextLine(input: string, ending: Ending): (r: Result<(string, string), ReadError>)
    ensures r.Ok? ==> |r.value.1| < |input|
  {
    var k := LineEnd(input);
    if input == "" then Err(StreamEnd(ending))
    else if k > MAX_LINE_BYTES || (input[k - 1] != '\n' && ending.InputError?) then Err(Io)
    else Ok((Lossy(input[..k]), input[k..]))
  }

  function NextText(input: string, ending: Ending): (r: Result<(string, string), ReadError>)
    ensures r.Ok? ==> |r.value.1| < |input|
    decreases |input|
  {
    match NextLine(input, ending)
    case Err(e) => Err(e)
    case Ok((line, rest)) =>
      if TrimOctets(line) == "" then NextText(rest, ending) else Ok((TrimOctets(line), rest))
  }

  /** One header line; only Content-Length matters, and the last one counts. */
  function ParseHeader(line: string, length: Option<nat>): Result<Option<nat>, ReadError> {
    if "Content-Length:" <= line then
      match ParseUsize(TrimOctets(line[|"Content-Length:"|..]))
      case None => Err(Io)
      case Some(n) => Ok(Some(n))
    else Ok(length)
  }

  function NextHeaders(input: string, ending: Ending, length: Option<nat>)
    : (r: Result<(Option<nat>, string), ReadError>)
    ensures r.Ok? ==> |r.value.1| < |input|
    decreases |input|
  {
    match NextLine(input, ending)
    case Err(e) => Err(e)
    case Ok((line, rest)) =>
      if TrimLineEnd(line) == "" then Ok((length, rest))
      else
        match ParseHeader(TrimLineEnd(line), length)
        case Err(e) => Err(e)
        case Ok(next) => NextHeaders(rest, ending, next)
  }

  function NextBody(length: Option<nat>, input: string): (r: Result<(string, string), ReadError>)
    ensures r.Ok? ==> |r.value.1| <= |input|
  {
    match length
    case None => Err(Io)
    case Some(n) =>
      if n == 0 || n > MAX_BODY_BYTES || n > |input| then Err(Io) else Ok((input[..n], input[n..]))
  }

  function ModeOf(first: string): Mode {
    if (first != "" && first[0] == '{') || ':' !in first then Line else Framed
  }

  datatype Payload = Payload(mode: Mode, text: string)

  /** The next message of the stream and what follows it. */
  function NextPayload(input: string, ending: Ending): (r: Result<(Payload, string), ReadError>)
    ensures r.Ok? ==> |r.value.1| < |input|
  {
    match NextText(input, ending)
    case Err(e) => Err(e)
    case Ok((first, rest)) =>
      if ModeOf(first).Line? then Ok((Payload(Line, first), rest))
      else
        match ParseHeader(first, None)
        case Err(e) => Err(e)
        case Ok(length) =>
          match NextHeaders(rest, ending, length)
          case Err(e) => Err(e)
          case Ok((length, rest)) =>
            match NextBody(length, rest)
            case Err(e) => Err(e)
            case Ok((body, rest)) => Ok((Payload(Framed, body), rest))
  }

  // ----- The reader over a buffered stream -----

  function Join(chunks: seq<string>): string {
    if chunks == [] then "" else chunks[0] + Join(chunks[1..])
  }

  /** A buffered stream. `chunks` are the buffers that successive refills will
      deliver, in any division of the stream; after them the stream ends. */
  class BufReader {
    var chunks: seq<string>
    const ending: Ending

    constructor (chunks: seq<string>, ending: Ending)
      requires forall k :: 0 <= k < |chunks| ==> chunks[k] != ""
      ensures Valid() && Remaining() == Join(chunks) && this.ending == ending
    {
      this.chunks := chunks;
      this.ending := ending;
    }

    ghost predicate Valid()
      reads this
    {
      forall k :: 0 <= k < |chunks| ==> chunks[k] != ""
    }

    ghost function Remaining(): string
      reads this
    {
      Join(chunks)
    }

    /** The buffered octets, empty at the end of the stream. */
    method FillBuf() returns (r: Result<string, ReadError>)
      requires Valid()
      ensures r.Err? ==> Remaining() == "" && ending.InputError? && r.error == Io
      ensures r.Ok? ==> r.value <= Remaining()
      ensures r.Ok? && r.value == "" ==> Remaining() == "" && ending.EndOfInput?
      ensures r.Ok? && r.value != "" ==> chunks != [] && r.value == chunks[0]
    {
      if chunks != [] { return Ok(chunks[0]); }
      if ending.InputError? { return Err(Io); }
      return Ok("");
    }

    method Consume(n: nat)
      requires Valid() && chunks != [] && 0 < n <= |chunks[0]|
      modifies this
      ensures Valid() && Remaining() == old(Remaining())[n..]
      ensures n == old(|chunks[0]|) ==> |chunks| < old(|chunks|)
    {
      if n == |chunks[0]| {
        chunks := chunks[1..];
      } else {
        chunks := [chunks[0][n..]] + chunks[1..];
        assert chunks[1..] == old(chunks)[1..];
      }
    }
  }

  method Position(s: string, c: char) returns (k: nat)
    ensures k <= |s| && c !in s[..k] && (k < |s| ==> s[k] == c)
  {
    k := 0;
    while k < |s| && s[k] != c
      invariant k <= |s| && c !in s[..k]
    {
      k := k + 1;
    }
  }

  predicate Unbroken(s: string) {
    '\n' !in s
  }

  /** How a line found buffer by buffer ends: with its newline, with the stream,
      or beyond the limit. */
  lemma LineFound(bytes: string, rest: string, ending: Ending)
    requires bytes != "" && Unbroken(bytes[..|bytes| - 1]) && bytes[|bytes| - 1] == '\n' && |bytes| <= MAX_LINE_BYTES
    ensures NextLine(bytes + rest, ending) == Ok((Lossy(bytes), rest))
  {
    hide LineEnd, Lossy;
    var input := bytes + rest;
    assert input[..|bytes| - 1] == bytes[..|bytes| - 1];
    LineEndIs(input, |bytes| - 1);
    assert input[..|bytes|] == bytes && input[|bytes|..] == rest;
  }

  lemma LineUnfinished(bytes: string)
    requires Unbroken(bytes) && |bytes| <= MAX_LINE_BYTES
    ensures NextLine(bytes + "", InputError) == Err(Io)
    ensures NextLine(bytes + "", EndOfInput) == if bytes == "" then Err(Eof) else Ok((Lossy(bytes), ""))
  {
    hide LineEnd, Lossy;
    LineEndAll(bytes);
    assert bytes[..|bytes|] == bytes == bytes + "";
  }

  lemma LineOverlong(bytes: string, rest: string, ending: Ending)
    requires Unbroken(bytes) && rest != "" && |bytes| + LineEnd(rest) > MAX_LINE_BYTES
    ensures NextLine(bytes + rest, ending) == Err(Io)
  {
    hide LineEnd, Lossy;
    LineEndSkip(bytes, rest);
  }

  /** The line that begins in the buffer ends in it or reaches beyond it. */
  lemma LineReaches(rest: string, available: string, k: nat)
    requires available <= rest && available != "" && k <= |available| && Unbroken(available[..k])
    requires k < |available| ==> available[k] == '\n'
    ensures k < |available| ==> LineEnd(rest) == k + 1
    ensures k == |available| ==> LineEnd(rest) >= |available| && available[|available| - 1] != '\n'
  {
    hide LineEnd;
    if k < |available| {
      assert rest[..k] == available[..k];
      LineEndIs(rest, k);
    } else {
      assert available[..k] == available;
      LineEndSkip(available, rest[|available|..]);
      assert rest == available + rest[|available|..];
    }
  }

  /** The line with what was taken from the buffer: a newline stands only at its end. */
  lemma Grows(bytes: string, available: string, k: nat, take: nat)
    requires Unbroken(bytes) && k <= |available| && Unbroken(available[..k])
    requires take == if k < |available| then k + 1 else k
    requires k < |available| ==> available[k] == '\n'
    ensures var longer := bytes + available[..take];
            if k < |available| then Unbroken(longer[..|longer| - 1]) && longer[|longer| - 1] == '\n'
            else Unbroken(longer)
  {
    if k < |available| {
      var longer := bytes + available[..take];
      assert longer[..|longer| - 1] == bytes + available[..k];
    }
  }

  /** Reads one line as text, whatever the division into buffers. */
  method ReadLineLimited(reader: BufReader) returns (r: Result<string, ReadError>)
    requires reader.Valid()
    modifies reader
    ensures reader.Valid()
    ensures match NextLine(old(reader.Remaining()), reader.ending)
            case Ok((line, rest)) => r == Ok(line) && reader.Remaining() == rest
            case Err(e) => r == Err(e)
  {
    hide LineEnd, Join, Lossy, NextLine, Unbroken, BufReader.Valid, BufReader.Remaining;
    ghost var input := reader.Remaining();
    var bytes := "";
    Unread(input);
    while true
      invariant reader.Valid() && bytes + reader.Remaining() == input
      invariant Unbroken(bytes) && |bytes| <= MAX_LINE_BYTES
      decreases |reader.chunks|
    {
      ghost var rest := reader.Remaining();
      LineUnfinished(bytes);
      var available := reader.FillBuf();
      if available.Err? { return Err(Io); }
      if available.value == "" {
        if bytes == "" { return Err(Eof); }
        return Ok(Lossy(bytes));
      }
      var k := Position(available.value, '\n');
      var take := if k < |available.value| then k + 1 else |available.value|;
      FoundAt(available.value, k);
      LineReaches(rest, available.value, k);
      if |bytes| + take > MAX_LINE_BYTES {
        LineOverlong(bytes, rest, reader.ending);
        return Err(Io);
      }
      var hasNewline := available.value[take - 1] == '\n';
      Moves(bytes, rest, available.value, take);
      Grows(bytes, available.value, k, take);
      bytes := bytes + available.value[..take];
      reader.Consume(take);
      if hasNewline {
        LineFound(bytes, reader.Remaining(), reader.ending);
        return Ok(Lossy(bytes));
      }
    }
  }

  lemma Unread(s: string)
    ensures "" + s == s && Unbroken("")
  {
  }

  lemma FoundAt(s: string, k: nat)
    requires k <= |s| && '\n' !in s[..k]
    ensures Unbroken(s[..k])
  {
  }

  method ReadNonEmptyLine(reader: BufReader) returns (r: Result<string, ReadError>)
    requires reader.Valid()
    modifies reader
    ensures reader.Valid()
    ensures match NextText(old(reader.Remaining()), reader.ending)
            case Ok((text, rest)) => r == Ok(text) && reader.Remaining() == rest
            case Err(e) => r == Err(e)
  {
    while true
      invariant reader.Valid()
      invariant NextText(reader.Remaining(), reader.ending) == old(NextText(reader.Remaining(), reader.ending))
      decreases |reader.Remaining()|
    {
      var line := ReadLineLimited(reader);
      if line.Err? { return Err(line.error); }
      if TrimOctets(line.value) != "" { return Ok(TrimOctets(line.value)); }
    }
  }

  /** Octets move from the front of the stream to the end of the body. */
  lemma Moves(body: string, rest: string, available: string, take: nat)
    requires available <= rest && take <= |available|
    ensures (body + available[..take]) + rest[take..] == body + rest
  {
  }

  lemma Parted(body: string, rest: string)
    ensures (body + rest)[..|body|] == body && (body + rest)[|body|..] == rest
  {
  }

  method ReadExact(reader: BufReader, length: nat) returns (r: Result<string, ReadError>)
    requires reader.Valid()
    modifies reader
    ensures reader.Valid()
    ensures if length <= |old(reader.Remaining())|
            then r == Ok(old(reader.Remaining())[..length]) && reader.Remaining() == old(reader.Remaining())[length..]
            else r == Err(Io)
  {
    hide Join;
    ghost var input := reader.Remaining();
    var body := "";
    while |body| < length
      invariant reader.Valid() && |body| <= length && body + reader.Remaining() == input
      decreases length - |body|
    {
      var available := reader.FillBuf();
      if available.Err? || available.value == "" {
        assert body == input;
        return Err(Io);
      }
      var take := if |available.value| <= length - |body| then |available.value| else length - |body|;
      ghost var rest := reader.Remaining();
      Moves(body, rest, available.value, take);
      body := body + available.value[..take];
      reader.Consume(take);
    }
    Parted(body, reader.Remaining());
    return Ok(body);
  }

  /** Reads the next message, whatever the division into buffers. */
  method ReadRequest(reader: BufReader) returns (r: Result<Payload, ReadError>)
    requires reader.Valid()
    modifies reader
    ensures reader.Valid()
    ensures match NextPayload(old(reader.Remaining()), reader.ending)
            case Ok((payload, rest)) => r == Ok(payload) && reader.Remaining() == rest
            case Err(e) => r == Err(e)
  {
    var first := ReadNonEmptyLine(reader);
    if first.Err? { return Err(first.error); }
    if ModeOf(first.value).Line? { return Ok(Payload(Line, first.value)); }
    var header := ParseHeader(first.value, None);
    if header.Err? { return Err(header.error); }
    var length: Option<nat> := header.value;
    ghost var target := NextHeaders(reader.Remaining(), reader.ending, length);
    while true
      invariant reader.Valid()
      invariant NextHeaders(reader.Remaining(), reader.ending, length) == target
      decreases |reader.Remaining()|
    {
      var line := ReadLineLimited(reader);
      if line.Err? { return Err(line.error); }
      if TrimLineEnd(line.value) == "" { break; }
      header := ParseHeader(TrimLineEnd(line.value), length);
      if header.Err? { return Err(header.error); }
      length := header.value;
    }
    if length.None? || length.value == 0 || length.value > MAX_BODY_BYTES { return Err(Io); }
    var body := ReadExact(reader, length.value);
    if body.Err? { return Err(Io); }
    return Ok(Payload(Framed, body.value));
  }

  // ----- Writing and reading back -----

  /** All messages of a stream, and how it ends. */
  function Payloads(input: string, ending: Ending): (seq<Payload>, Ending)
    decreases |input|
  {
    match NextPayload(input, ending)
    case Err(Eof) => ([], EndOfInput)
    case Err(Io) => ([], InputError)
    case Ok((payload, rest)) =>
      var (later, end) := Payloads(rest, ending);
      ([payload] + later, end)
  }

  function Wire(payloads: seq<Payload>): string {
    if payloads == [] then "" else Frame(payloads[0].mode, payloads[0].text) + Wire(payloads[1..])
  }

  /** What the two modes can carry: framed octets of legal size, and single lines of
      UTF-8 without outer white space that begin with a brace or have no colon. */
  predicate Transmissible(p: Payload) {
    match p.mode
    case Framed => 1 <= |p.text| <= 0x10_0000
    case Line => |p.text| < 0x10_0000 && Legible(p.text) && (p.text[0] == '{' || ':' !in p.text)
  }

  predicate Legible(text: string) {
    text != "" && '\n' !in text && Utf8(text) && Unspaced(text)
  }

  lemma LineIsFirst(line: string, tail: string, ending: Ending)
    requires '\n' !in line && |line| < MAX_LINE_BYTES && Utf8(line)
    ensures NextLine(line + "\n" + tail, ending) == Ok((line + "\n", tail))
  {
    hide Lossy, Utf8, LineEnd;
    var input := line + "\n" + tail;
    assert input[..|line|] == line;
    LineEndIs(input, |line|);
    assert input[..|line| + 1] == line + "\n" && input[|line| + 1..] == tail;
    AsciiIsUtf8("\n");
    Utf8Joins(line, "\n");
    LossyIsUtf8(line + "\n");
  }

  lemma LineReadsBack(p: Payload, tail: string, ending: Ending)
    requires Transmissible(p) && p.mode.Line?
    ensures NextPayload(Frame(p.mode, p.text) + tail, ending) == Ok((p, tail))
  {
    hide TrimOctets, NextLine, Utf8, Unspaced;
    LineIsFirst(p.text, tail, ending);
    UnspacedLine(p.text);
  }

  /** The printed length: digits only. */
  predicate SolidText(text: string) {
    text != "" && forall k :: 0 <= k < |text| ==> Solid(text[k])
  }

  lemma DigitsAreSolid(n: nat)
    ensures SolidText(Digits(n))
  {
    NumeralValue(n, 10);
    forall k | 0 <= k < |Digits(n)| ensures Solid(Digits(n)[k]) {
      assert DigitValue(Digits(n)[k]).Some?;
    }
  }

  /** A header line: ASCII without a line feed, with solid ends. */
  predicate HeaderLine(line: string) {
    && line != "" && Solid(line[0]) && Solid(line[|line| - 1])
    && forall k :: 0 <= k < |line| ==> ' ' <= line[k] <= '~'
  }

  const HEADER: string := "Content-Length:"

  lemma HeaderValue(text: string, n: nat)
    requires ParseUsize(TrimOctets(text)) == Some(n)
    ensures ParseHeader(HEADER + text, None) == Ok(Some(n)) && ModeOf(HEADER + text).Framed?
  {
    hide ParseUsize, TrimOctets;
    var first := HEADER + text;
    assert first[14] == ':' && first[0] == 'C';
    assert first[|HEADER|..] == text;
  }

  lemma ValueTrims(digits: string)
    requires SolidText(digits)
    ensures TrimOctets(" " + digits) == digits
  {
    hide TrimOctetsEnd, TrimOctetsStart, LeadingBlank, TrailingBlank;
    SolidEnds(digits);
    UnspacedKept(digits);
    BlankBefore(digits);
  }

  lemma HeaderIsLine(digits: string)
    requires SolidText(digits)
    ensures HeaderLine(HEADER + (" " + digits))
  {
    var first := HEADER + (" " + digits);
    forall k | 0 <= k < |first| ensures ' ' <= first[k] <= '~' {
      if k >= 16 { assert first[k] == digits[k - 16]; }
    }
  }

  lemma LengthParses(n: nat)
    requires n < USIZE_LIMIT
    ensures var first := HEADER + (" " + Digits(n));
            ParseHeader(first, None) == Ok(Some(n)) && ModeOf(first).Framed? && HeaderLine(first)
  {
    hide ParseNumber, ParseHeader, ModeOf, SolidText, HeaderLine, Numeral, TrimOctets;
    NumeralParses(n, 10, USIZE_LIMIT);
    DigitsAreSolid(n);
    ValueTrims(Digits(n));
    HeaderValue(" " + Digits(n), n);
    HeaderIsLine(Digits(n));
  }

  lemma BlankLineEnds(tail: string, ending: Ending, length: Option<nat>)
    ensures NextHeaders("\r" + "\n" + tail, ending, length) == Ok((length, tail))
  {
    hide NextLine, Utf8;
    AsciiIsUtf8("\r");
    LineIsFirst("\r", tail, ending);
    var line := "\r" + "\n";
    assert line[..1] == "\r" && "\r"[..0] == "";
    assert TrimLineEnd(line) == TrimLineEnd("\r") == TrimLineEnd("");
  }

  lemma FirstLine(first: string, rest: string, ending: Ending)
    requires |first| < MAX_LINE_BYTES - 1 && HeaderLine(first)
    ensures NextText(first + "\r" + "\n" + rest, ending) == Ok((first, rest))
  {
    hide NextLine, TrimOctets, Utf8;
    AsciiIsUtf8(first + "\r");
    LineIsFirst(first + "\r", rest, ending);
    LineEndTrimmed(first);
    assert first + "\r" + "\n" == first + "\r\n";
  }

  lemma SizeHasEightDigits(n: nat)
    requires n <= MAX_BODY_BYTES
    ensures |Digits(n)| <= 8
  {
    assert Power(10, 8) == 100000000;
    NumeralShort(n, 10, 8);
  }

  lemma FramedReadsBack(p: Payload, tail: string, ending: Ending)
    requires Transmissible(p) && p.mode.Framed?
    ensures NextPayload(Frame(p.mode, p.text) + tail, ending) == Ok((p, tail))
  {
    hide NextText, NextHeaders, ParseHeader, ModeOf, Numeral, Power, HeaderLine;
    var first := HEADER + (" " + Digits(|p.text|));
    var rest := "\r" + "\n" + (p.text + tail);
    LengthParses(|p.text|);
    SizeHasEightDigits(|p.text|);
    assert HEADER + " " == "Content-Length: ";
    assert Frame(p.mode, p.text) + tail == first + "\r" + "\n" + rest;
    FirstLine(first, rest, ending);
    BlankLineEnds(p.text + tail, ending, Some(|p.text|));
    assert (p.text + tail)[..|p.text|] == p.text && (p.text + tail)[|p.text|..] == tail;
  }

  /** Every text that is read is legible. */
  lemma {:induction false} TextIsLegible(input: string, ending: Ending)
    ensures NextText(input, ending).Ok? ==> Legible(NextText(input, ending).value.0)
    decreases |input|
  {
    hide TrimOctets, Utf8, Unspaced, NextLine;
    var line := NextLine(input, ending);
    if line.Ok? {
      LineIsLegible(input, ending);
      if TrimOctets(line.value.0) == "" { TextIsLegible(line.value.1, ending); }
    }
  }

  lemma LineIsLegible(input: string, ending: Ending)
    requires NextLine(input, ending).Ok?
    ensures var text := TrimOctets(NextLine(input, ending).value.0);
            '\n' !in text && Utf8(text) && Unspaced(text)
  {
    hide LineEnd, Lossy, TrimOctets, Utf8, Unspaced;
    var k := LineEnd(input);
    LineEndMeans(input);
    LossyIsUtf8(input[..k]);
    Trimmed(Lossy(input[..k]));
    if input[k - 1] == '\n' {
      var line := input[..k - 1];
      assert input[..k] == line + "\n";
      LossyLine(line);
      LineTrimmed(Lossy(line));
    } else {
      assert input[..k] == input;
      LossyLine(input);
      LineTrimmed(Lossy(input));
    }
  }

  /** A line longer than the limit is not read. */
  lemma OverlongLine(text: string, tail: string, ending: Ending)
    requires '\n' !in text && |text| >= 0x10_0000
    ensures NextPayload(text + "\n" + tail, ending) == Err(Io)
  {
    hide LineEnd, TrimOctets, Lossy;
    var input := text + "\n" + tail;
    assert input[..|text|] == text;
    LineEndIs(input, |text|);
  }

  lemma PayloadIsLegible(input: string, ending: Ending)
    requires NextPayload(input, ending).Ok?
    ensures var p := NextPayload(input, ending).value.0;
            match p.mode
            case Framed => 1 <= |p.text| <= MAX_BODY_BYTES
            case Line => Legible(p.text) && (p.text[0] == '{' || ':' !in p.text)
  {
    hide NextText, NextHeaders, ParseHeader;
    TextIsLegible(input, ending);
  }

  /** A written payload is read back, with the reader exactly behind it, exactly
      if its mode can carry it. */
  lemma ReadsBackExactly(p: Payload, tail: string, ending: Ending)
    ensures NextPayload(Frame(p.mode, p.text) + tail, ending) == Ok((p, tail)) <==> Transmissible(p)
  {
    hide NextPayload, Legible, ModeOf;
    var input := Frame(p.mode, p.text) + tail;
    if Transmissible(p) {
      if p.mode.Line? { LineReadsBack(p, tail, ending); } else { FramedReadsBack(p, tail, ending); }
    } else if NextPayload(input, ending) == Ok((p, tail)) {
      PayloadIsLegible(input, ending);
      if p.mode.Line? {
        LegibleIsLine(p.text);
        OverlongLine(p.text, tail, ending);
      }
    }
  }

  lemma LegibleIsLine(text: string)
    ensures Legible(text) ==> '\n' !in text
  {
  }

  lemma NothingReadsBack()
    ensures Payloads("", EndOfInput) == ([], EndOfInput)
  {
  }

  /** Whatever is written is read back: the same texts in the same modes, then
      the end of the input. With `ReadRequest` this holds for any buffering. */
  lemma {:induction false} WireReadsBack(payloads: seq<Payload>)
    requires forall k :: 0 <= k < |payloads| ==> Transmissible(payloads[k])
    ensures Payloads(Wire(payloads), EndOfInput) == (payloads, EndOfInput)
    decreases |payloads|
  {
    hide NextPayload, Frame, Transmissible;
    if payloads == [] {
      NothingReadsBack();
    } else {
      ReadsBackExactly(payloads[0], Wire(payloads[1..]), EndOfInput);
      WireReadsBack(payloads[1..]);
      assert payloads == [payloads[0]] + payloads[1..];
    }
  }
}
