/** Responses as a server writes them, and that the client reads them as they
    were meant: RFC 9112 sections 2.1, 4, 5 and 6. */
module HttpMessage {
  import opened Common
  import opened Octets
  import opened Strings
  import opened HttpHead
  import opened HttpPieces
  import opened HttpResponse

  // ----- Printing -----

  /** How the end of the body is marked. */
  datatype Framing = Sized | Chunked(chunks: seq<Chunk>, last: Chunk, trailers: seq<string>) | Closing

  /** Field names are printed in any letter case. */
  datatype Message = Message(version: string, code: nat, reason: string, fields: seq<Field>, framing: Framing,
                             body: string)

  function StatusLine(m: Message): string {
    m.version + (" " + (Digits(m.code) + (" " + m.reason)))
  }

  function FieldLine(f: Field): string {
    f.name + ":" + (" " + f.value)
  }

  function FieldsText(fields: seq<Field>): string {
    if fields == [] then "" else "\r\n" + (FieldLine(fields[0]) + FieldsText(fields[1..]))
  }

  function HeadText(m: Message): string {
    StatusLine(m) + FieldsText(m.fields)
  }

  function BodyText(m: Message): string {
    match m.framing
    case Chunked(chunks, last, trailers) => ChunkWire(chunks, last, trailers)
    case _ => m.body
  }

  function MessageText(m: Message): string {
    HeadText(m) + "\r\n\r\n" + BodyText(m)
  }

  // ----- What may be printed -----

  predicate GoodField(f: Field) {
    ValidName(f.name) && ValidValue(f.value) && Unspaced(f.value) && Utf8(f.value)
  }

  predicate GoodHead(m: Message) {
    && (m.version == "HTTP/1.0" || m.version == "HTTP/1.1") && m.code < 0x1_0000
    && ValidValue(m.reason) && Utf8(m.reason)
    && (forall k :: 0 <= k < |m.fields| ==> GoodField(m.fields[k]))
    && |HeadText(m)| + 4 <= 0x1_0000
  }

  /** The values of the fields that bear a name, whatever their letter case, in order. */
  function FieldValues(fields: seq<Field>, name: string): seq<string> {
    if fields == [] then []
    else
      FieldValues(fields[..|fields| - 1], name)
      + if Lower(fields[|fields| - 1].name) == name then [fields[|fields| - 1].value] else []
  }

  /** Exactly the names that occur, each with its values joined in order. */
  ghost predicate HeaderMap(headers: Headers, fields: seq<Field>) {
    forall name ::
      && (name in headers <==> FieldValues(fields, name) != [])
      && (name in headers ==> headers[name] == CommaJoined(FieldValues(fields, name)))
  }

  /** A list of connection options, one of which is close. */
  predicate AsksClose(options: seq<string>) {
    && (forall k :: 0 <= k < |options| ==> options[k] != "" && forall i :: 0 <= i < |options[k]| ==>
          Solid(options[k][i]) && options[k][i] != ',')
    && exists k :: 0 <= k < |options| && Lower(options[k]) == "close"
  }

  /** The fields say what the framing is, and each framing field stands once. */
  ghost predicate Framed(m: Message) {
    var lengths, encodings := FieldValues(m.fields, "content-length"), FieldValues(m.fields, "transfer-encoding");
    match m.framing
    case Sized =>
      && encodings == [] && |lengths| == 1
      && lengths[0] != "" && AreDigits(lengths[0], 10) && DigitsValue(lengths[0], 10) == |m.body| < USIZE_LIMIT
    case Chunked(chunks, last, trailers) =>
      && lengths == [] && |encodings| == 1 && Lower(encodings[0]) == "chunked"
      && (forall k :: 0 <= k < |chunks| ==> GoodChunk(chunks[k])) && SizeLine(last.size, last.extension, 0)
      && (forall k :: 0 <= k < |trailers| ==> GoodTrailer(trailers[k]))
      && Data(chunks) == m.body
    case Closing =>
      && lengths == [] && encodings == [] && FieldValues(m.fields, "connection") != []
      && exists options ::
           options != [] && AsksClose(options)
           && CommaJoined(options) == CommaJoined(FieldValues(m.fields, "connection"))
  }

  // ----- Lines come back -----

  lemma {:induction false} LineSplit(line: string, rest: string)
    requires '\r' !in line
    ensures Lines(line) == [line] && Lines(line + "\r\n" + rest) == [line] + Lines(rest)
  {
    if line == "" {
      assert "" + "\r\n" + rest == "\r\n" + rest;
      assert "\r\n" <= "\r\n" + rest && ("\r\n" + rest)[2..] == rest;
    } else {
      LineSplit(line[1..], rest);
      var whole := line + "\r\n" + rest;
      assert whole[1..] == line[1..] + "\r\n" + rest && whole[0] == line[0];
      assert [line[0]] + line[1..] == line;
    }
  }

  function FieldLines(fields: seq<Field>): seq<string> {
    if fields == [] then [] else [FieldLine(fields[0])] + FieldLines(fields[1..])
  }

  predicate OneLine(line: string) {
    '\r' !in line && '\n' !in line && line != ""
  }

  lemma FieldIsLine(f: Field)
    requires GoodField(f)
    ensures OneLine(FieldLine(f)) && Utf8(FieldLine(f))
  {
    hide Utf8, NameChar, Unspaced, LowerChar;
    forall k | 0 <= k < |f.name| ensures f.name[k] != '\r' && f.name[k] != '\n' && f.name[k] as int < 128 {
      NameCharLowers(f.name[k]);
    }
    var front := f.name + ": ";
    AsciiIsUtf8(front);
    Utf8Joins(front, f.value);
    assert FieldLine(f) == front + f.value;
  }

  lemma StatusIsLine(m: Message)
    requires GoodHead(m)
    ensures OneLine(StatusLine(m)) && Utf8(StatusLine(m))
  {
    hide Utf8, Numeral, HeadText, GoodField;
    DigitsAreWords(m.code);
    var front := m.version + (" " + (Digits(m.code) + " "));
    assert forall k :: 0 <= k < |m.version| ==>
        m.version[k] as int < 128 && m.version[k] != '\r' && m.version[k] != '\n';
    AsciiIsUtf8(front);
    Utf8Joins(front, m.reason);
    assert StatusLine(m) == front + m.reason;
  }

  /** The lines of the printed head, in order, and it is UTF-8. */
  lemma {:induction false} HeadLines(first: string, fields: seq<Field>)
    requires OneLine(first) && Utf8(first) && forall k :: 0 <= k < |fields| ==> GoodField(fields[k])
    ensures Lines(first + FieldsText(fields)) == [first] + FieldLines(fields)
    ensures Utf8(first + FieldsText(fields))
    decreases |fields|
  {
    hide Utf8, Lines, FieldLine, GoodField;
    LineSplit(first, "");
    if fields == [] {
      assert first + "" == first;
    } else {
      var second := FieldLine(fields[0]);
      FieldIsLine(fields[0]);
      HeadLines(second, fields[1..]);
      var rest := second + FieldsText(fields[1..]);
      assert first + FieldsText(fields) == first + "\r\n" + rest;
      LineSplit(first, rest);
      AsciiIsUtf8("\r\n");
      Utf8Joins(first, "\r\n");
      Utf8Joins(first + "\r\n", rest);
    }
  }

  // ----- Fields come back -----

  lemma {:induction false} FieldLinesLast(fields: seq<Field>)
    requires fields != []
    ensures FieldLines(fields) == FieldLines(fields[..|fields| - 1]) + [FieldLine(fields[|fields| - 1])]
    decreases |fields|
  {
    hide FieldLine;
    if |fields| > 1 {
      FieldLinesLast(fields[1..]);
      assert fields[1..][..|fields| - 2] == fields[..|fields| - 1][1..];
    }
  }

  lemma {:induction false} FieldsRead(fields: seq<Field>, name: string)
    requires forall k :: 0 <= k < |fields| ==> GoodField(fields[k])
    ensures Parseable(FieldLines(fields)) && Values(FieldLines(fields), name) == FieldValues(fields, name)
    decreases |fields|
  {
    hide ParseField, FieldLine, GoodField, Lower, FieldLines, Parseable, Values;
    if fields == [] {
      NoFieldLines();
      NoValues(name);
    } else {
      var front, last := fields[..|fields| - 1], fields[|fields| - 1];
      FieldsRead(front, name);
      FieldLinesLast(fields);
      LineOfField(last);
      OneLineMore(FieldLines(front), FieldLine(last), name);
      assert FieldValues(front, name) + [] == FieldValues(front, name);
    }
  }

  lemma OneLineMore(lines: seq<string>, line: string, name: string)
    requires Parseable(lines) && ParseField(line).Some?
    ensures Parseable(lines + [line])
    ensures Values(lines + [line], name) ==
            Values(lines, name) + if ParseField(line).value.name == name then [ParseField(line).value.value] else []
  {
    hide ParseField;
    var more := lines + [line];
    assert more[..|more| - 1] == lines && more[|more| - 1] == line;
    assert Values(lines, name) + [] == Values(lines, name);
  }

  lemma NoValues(name: string)
    ensures Parseable([]) && Values([], name) == []
  {
  }

  lemma NoFieldLines()
    ensures FieldLines([]) == []
  {
  }

  lemma LineOfField(f: Field)
    requires GoodField(f)
    ensures ParseField(FieldLine(f)) == Some(Field(Lower(f.name), f.value))
  {
    hide ParseField, ValidName, ValidValue, Unspaced, Lower;
    FieldLineReads(f.name, f.value);
  }

  /** The printed head gives its code and its fields, if no framing field repeats. */
  lemma HeadReads(m: Message)
    requires GoodHead(m)
    requires |FieldValues(m.fields, "content-length")| <= 1 && |FieldValues(m.fields, "transfer-encoding")| <= 1
    ensures ParseHead(HeadText(m)).Ok? && ParseHead(HeadText(m)).value.0 == m.code
    ensures HeaderMap(ParseHead(HeadText(m)).value.1, m.fields)
  {
    hide Utf8, Lines, ParseStatus, ParseFields, Parseable, Values, FieldValues, FieldLines, CommaJoined, GoodField;
    var lines := FieldLines(m.fields);
    StatusIsLine(m);
    HeadLines(StatusLine(m), m.fields);
    StatusLineReads(m.version, m.code, m.reason);
    assert ([StatusLine(m)] + lines)[1..] == lines;
    FieldsCollected(lines);
    FieldsRead(m.fields, "content-length");
    FieldsRead(m.fields, "transfer-encoding");
    forall name ensures Values(lines, name) == FieldValues(m.fields, name) { FieldsRead(m.fields, name); }
  }

  // ----- Where the head ends -----

  lemma BlankShifts(front: string, rest: string, p: nat)
    requires p >= |front| && BlankAt(front + rest, p)
    ensures BlankAt(rest, p - |front|)
  {
  }

  lemma NoBlankEarly(first: string, rest: string, p: nat)
    requires OneLine(first) && rest != "" && rest[0] != '\r' && p < |first| + 2
    ensures !BlankAt(first + "\r\n" + rest, p)
  {
    var s := first + "\r\n" + rest;
    assert s[|first| + 1] == '\n' && s[|first| + 2] == rest[0];
    if p < |first| { assert s[p] == first[p] && first[p] in first; }
  }

  lemma NoBlankLast(first: string, p: nat)
    requires OneLine(first) && BlankAt(first + "\r\n\r\n", p)
    ensures p >= |first|
  {
    var s := first + "\r\n\r\n";
    assert forall k :: 0 <= k < |first| ==> s[k] == first[k] && first[k] in first;
  }

  lemma {:induction false} NoBlankInside(first: string, fields: seq<Field>, p: nat)
    requires OneLine(first) && forall k :: 0 <= k < |fields| ==> GoodField(fields[k])
    requires BlankAt(first + FieldsText(fields) + "\r\n\r\n", p)
    ensures p >= |first + FieldsText(fields)|
    decreases |fields|
  {
    hide FieldLine, GoodField, BlankAt, OneLine;
    if fields == [] {
      assert first + "" + "\r\n\r\n" == first + "\r\n\r\n";
      NoBlankLast(first, p);
    } else {
      var second := FieldLine(fields[0]);
      FieldIsLine(fields[0]);
      LineBegins(second);
      var rest := second + FieldsText(fields[1..]) + "\r\n\r\n";
      assert first + FieldsText(fields) + "\r\n\r\n" == first + "\r\n" + rest;
      if p < |first| + 2 {
        NoBlankEarly(first, rest, p);
      } else {
        BlankShifts(first + "\r\n", rest, p);
        NoBlankInside(second, fields[1..], p - |first| - 2);
      }
    }
  }

  lemma LineBegins(line: string)
    requires OneLine(line)
    ensures line != "" && line[0] != '\r'
  {
    assert line[0] in line;
  }

  lemma HeadIsHead(m: Message)
    requires GoodHead(m)
    ensures IsHead(HeadText(m) + "\r\n\r\n")
  {
    hide StatusLine, FieldsText, GoodField, IsHead;
    var text := HeadText(m);
    var s := text + "\r\n\r\n";
    StatusIsLine(m);
    HeadExactly(s);
    forall k | 0 <= k < |s| - 4 ensures !BlankAt(s, k) {
      if BlankAt(s, k) { NoBlankInside(StatusLine(m), m.fields, k); }
    }
  }

  // ----- Bodies come back -----

  predicate GoodOption(option: string) {
    option != "" && forall i :: 0 <= i < |option| ==> Solid(option[i]) && option[i] != ','
  }

  lemma {:induction false} OptionsSplit(options: seq<string>, k: nat)
    requires k < |options| && forall i :: 0 <= i < |options| ==> GoodOption(options[i])
    ensures var parts := Split(CommaJoined(options), ',');
            |parts| == |options| && TrimOctets(parts[k]) == options[k]
    decreases |options|
  {
    hide Split, TrimOctets, GoodOption;
    var last := options[|options| - 1];
    OptionTrims(last);
    if |options| == 1 {
      SplitNone(last, ',');
    } else {
      var front := options[..|options| - 1];
      OptionsSplit(front, if k < |front| then k else 0);
      SplitAppends(CommaJoined(front), " " + last, ',');
      SplitNone(" " + last, ',');
      assert CommaJoined(options) == CommaJoined(front) + ([','] + (" " + last));
    }
  }

  lemma OptionTrims(option: string)
    requires GoodOption(option)
    ensures TrimOctets(option) == option && TrimOctets(" " + option) == option && ',' !in option && ',' !in " " + option
  {
    hide TrimOctetsStart, TrimOctetsEnd, LeadingBlank, TrailingBlank;
    SolidEnds(option);
    UnspacedKept(option);
    BlankBefore(option);
  }

  lemma CloseFound(options: seq<string>)
    requires options != [] && AsksClose(options)
    ensures HasClose(Split(CommaJoined(options), ','))
  {
    hide Split, TrimOctets, Solid, Lower;
    assert forall i :: 0 <= i < |options| ==> GoodOption(options[i]);
    var k :| 0 <= k < |options| && Lower(options[k]) == "close";
    OptionsSplit(options, k);
  }

  /** A number in digits, leading zeros allowed. */
  lemma DigitsParse(v: string)
    requires v != "" && AreDigits(v, 10) && DigitsValue(v, 10) < USIZE_LIMIT
    ensures ParseUsize(v) == Some(DigitsValue(v, 10))
  {
    assert DigitValue(v[0]).Some?;
  }

  lemma BodyReads(m: Message, headers: Headers, tail: string, limit: nat)
    requires Framed(m) && HeaderMap(headers, m.fields) && m.code != 204 && m.code != 304
    requires m.framing.Closing? ==> tail == ""
    ensures Body(m.code, headers, BodyText(m) + tail, limit) == Ok(Cut(m.body, limit))
  {
    hide ChunkedBody, ChunkWire, Data, Split, Lower, HasClose, SizeLine, GoodTrailer, GoodChunk, FieldValues,
      ParseUsize, DigitsValue, AreDigits, AsksClose;
    match m.framing
    case Sized =>
      DigitsParse(FieldValues(m.fields, "content-length")[0]);
      assert forall n :: 0 <= n <= |m.body| ==> (m.body + tail)[..n] == m.body[..n];
    case Chunked(chunks, last, trailers) => ChunksRead(chunks, last, trailers, tail, limit);
    case Closing =>
      var options :| options != [] && AsksClose(options)
        && CommaJoined(options) == CommaJoined(FieldValues(m.fields, "connection"));
      CloseFound(options);
      assert m.body + "" == m.body;
  }

  // ----- Messages come back -----

  predicate GoodMessage(m: Message, tail: string) {
    && GoodHead(m)
    && |FieldValues(m.fields, "content-length")| <= 1 && |FieldValues(m.fields, "transfer-encoding")| <= 1
    && (m.framing.Closing? ==> tail == "")
  }

  /** The response is the message: its code, its fields, and its body up to the
      limit, or no body for the codes 204 and 304. */
  ghost predicate IsMessage(r: Result<(nat, Headers, string), HttpError>, m: Message, limit: nat) {
    && r.Ok? && r.value.0 == m.code && HeaderMap(r.value.1, m.fields)
    && r.value.2 == if m.code in {204, 304} then "" else if |m.body| <= limit then m.body else m.body[..limit]
  }

  /** Whatever message the input begins with is what is read. */
  ghost predicate Understood(r: Result<(nat, Headers, string), HttpError>, input: string, limit: nat) {
    forall m: Message, tail: string ::
      input == MessageText(m) + tail && GoodMessage(m, tail) && (m.code in {204, 304} || Framed(m)) ==>
        IsMessage(r, m, limit)
  }

  lemma MessageReads(r: Result<(nat, Headers, string), HttpError>, m: Message, tail: string, limit: nat)
    requires GoodMessage(m, tail) && (m.code in {204, 304} || Framed(m))
    requires Answers(r, MessageText(m) + tail, limit)
    ensures IsMessage(r, m, limit)
  {
    hide HeadText, BodyText, ParseHead, Framed, HeaderMap, IsHead, GoodHead, FieldValues, Body;
    var head := HeadText(m) + "\r\n\r\n";
    var input := MessageText(m) + tail;
    HeadReads(m);
    HeadIsHead(m);
    HeadFits(m);
    var headers := ParseHead(HeadText(m)).value.1;
    assert input == head + (BodyText(m) + tail);
    assert head[..|head| - 4] == HeadText(m);
    OnlyReading(r, head, BodyText(m) + tail, limit);
    if m.code in {204, 304} {
      NoBody(m.code, headers, BodyText(m) + tail, limit);
    } else {
      BodyReads(m, headers, tail, limit);
    }
  }

  lemma HeadFits(m: Message)
    requires GoodHead(m)
    ensures |HeadText(m)| + 4 <= HEAD_LIMIT
  {
  }

  lemma NoBody(code: nat, headers: Headers, input: string, limit: nat)
    requires code in {204, 304}
    ensures Body(code, headers, input, limit) == Ok("")
  {
  }

  /** A head that can be read leaves one response only. */
  lemma OnlyReading(r: Result<(nat, Headers, string), HttpError>, head: string, rest: string, limit: nat)
    requires IsHead(head) && 4 <= |head| <= HEAD_LIMIT && Answers(r, head + rest, limit)
    requires ParseHead(head[..|head| - 4]).Ok?
    ensures var (code, headers) := ParseHead(head[..|head| - 4]).value;
            match Body(code, headers, rest, limit)
            case Ok(body) => r == Ok((code, headers, body))
            case Err(_) => r.Err?
  {
    hide IsHead, ParseHead, Body;
    var input := head + rest;
    assert input[..|head|] == head && input[|head|..] == rest && input[..|head| - 4] == head[..|head| - 4];
    if r.Ok? {
      var n: nat :| IsResponse(input, n, r.value.0, r.value.1, r.value.2, limit);
      OneEnd(input, n, |head|);
    } else {
      HasResponse(head, rest, limit);
    }
  }

  lemma HasResponse(head: string, rest: string, limit: nat)
    requires IsHead(head) && 4 <= |head| <= HEAD_LIMIT && ParseHead(head[..|head| - 4]).Ok?
    ensures var (code, headers) := ParseHead(head[..|head| - 4]).value;
            Body(code, headers, rest, limit).Ok? ==>
              exists n: nat, status: nat, fields, body :: IsResponse(head + rest, n, status, fields, body, limit)
  {
    hide IsHead, ParseHead, Body;
    var input := head + rest;
    assert input[..|head|] == head && input[|head|..] == rest && input[..|head| - 4] == head[..|head| - 4];
    var (code, headers) := ParseHead(head[..|head| - 4]).value;
    if Body(code, headers, rest, limit).Ok? {
      assert IsResponse(input, |head|, code, headers, Body(code, headers, rest, limit).value, limit);
    }
  }

  lemma AnswersUnderstand(r: Result<(nat, Headers, string), HttpError>, input: string, limit: nat)
    requires Answers(r, input, limit)
    ensures Understood(r, input, limit)
  {
    hide Answers, Framed, GoodMessage, IsMessage, MessageText;
    forall m: Message, tail: string
      | input == MessageText(m) + tail && GoodMessage(m, tail) && (m.code in {204, 304} || Framed(m))
      ensures IsMessage(r, m, limit)
    {
      MessageReads(r, m, tail, limit);
    }
  }
}
