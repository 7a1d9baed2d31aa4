/** The head of an HTTP/1.1 response as the client parses it: the status line and
    the header fields, repeated fields joined, framing fields never repeated. */
module HttpHead {
  import opened Common
  import opened Octets
  import opened Strings
  import opened HttpResponse

  /** The parts between line ends. */
  function Lines(text: string): (lines: seq<string>)
    ensures |lines| > 0
  {
    if text == "" then [""]
    else if "\r\n" <= text then [""] + Lines(text[2..])
    else
      var rest := Lines(text[1..]);
      [[text[0]] + rest[0]] + rest[1..]
  }

  /** The status line: a version, a code, and anything else. */
  function ParseStatus(line: string): Result<nat, HttpError> {
    var text := TrimOctetsStart(line);
    var version := text[..WordEnd(text)];
    var after := TrimOctetsStart(text[WordEnd(text)..]);
    match ParseNumber(after[..WordEnd(after)], 10, 0x1_0000)
    case None => Err(HeadMalformed)
    case Some(status) =>
      if version == "HTTP/1.0" || version == "HTTP/1.1" then Ok(status) else Err(VersionUnsupported)
  }

  predicate NameChar(c: char) {
    || '0' <= c <= '9' || 'a' <= c <= 'z' || 'A' <= c <= 'Z'
    || c in ['!', '#', '$', '%', '&', '\'', '*', '+', '-', '.', '^', '_', '`', '|', '~']
  }

  predicate ValidName(name: string) {
    name != "" && forall k :: 0 <= k < |name| ==> NameChar(name[k])
  }

  predicate ValidValue(value: string) {
    forall k :: 0 <= k < |value| ==> value[k] == '\t' || (' ' <= value[k] && value[k] as int != 0x7F)
  }

  datatype Field = Field(name: string, value: string)

  function ParseField(line: string): Option<Field> {
    match Find(line, ":")
    case None => None
    case Some(k) =>
      var field := Field(Lower(TrimOctets(line[..k])), TrimOctets(line[k + 1..]));
      if ValidName(field.name) && ValidValue(field.value) then Some(field) else None
  }

  predicate Frames(name: string) {
    name == "content-length" || name == "transfer-encoding"
  }

  function Insert(headers: Headers, field: Field): Result<Headers, HttpError> {
    if field.name !in headers then Ok(headers[field.name := field.value])
    else if Frames(field.name) then Err(DuplicateFraming)
    else Ok(headers[field.name := headers[field.name] + ", " + field.value])
  }

  function ParseFields(lines: seq<string>): Result<Headers, HttpError> {
    if lines == [] then Ok(map[])
    else
      match ParseFields(lines[..|lines| - 1])
      case Err(e) => Err(e)
      case Ok(headers) =>
        match ParseField(lines[|lines| - 1])
        case None => Err(HeadMalformed)
        case Some(field) => Insert(headers, field)
  }

  function ParseHead(text: string): Result<(nat, Headers), HttpError> {
    if !Utf8(text) then Err(NotUtf8)
    else
      match ParseStatus(Lines(text)[0])
      case Err(e) => Err(e)
      case Ok(status) =>
        match ParseFields(Lines(text)[1..])
        case Err(e) => Err(e)
        case Ok(headers) => Ok((status, headers))
  }

  lemma FieldErrors(lines: seq<string>)
    ensures ParseFields(lines).Err? ==> ParseFields(lines).error in {HeadMalformed, DuplicateFraming}
  {
  }

  lemma HeadErrors(text: string)
    ensures ParseHead(text).Err? ==>
              ParseHead(text).error in {NotUtf8, HeadMalformed, VersionUnsupported, DuplicateFraming}
  {
    hide Utf8, Lines, ParseFields;
    if Utf8(text) { FieldErrors(Lines(text)[1..]); }
  }

  method ReadFields(lines: seq<string>) returns (r: Result<Headers, HttpError>)
    ensures r == ParseFields(lines)
  {
    hide Insert, ParseField;
    var headers: Headers := map[];
    for k := 0 to |lines|
      invariant ParseFields(lines[..k]) == Ok(headers)
    {
      assert lines[..k + 1][..k] == lines[..k];
      var field := ParseField(lines[k]);
      var next := if field.None? then Err(HeadMalformed) else Insert(headers, field.value);
      if next.Err? {
        FailureStays(lines, k + 1);
        return Err(next.error);
      }
      headers := next.value;
    }
    assert lines[..|lines|] == lines;
    return Ok(headers);
  }

  lemma {:induction false} FailureStays(lines: seq<string>, k: nat)
    requires k <= |lines| && ParseFields(lines[..k]).Err?
    ensures ParseFields(lines) == ParseFields(lines[..k])
  {
    if k == |lines| {
      assert lines[..k] == lines;
    } else {
      assert lines[..|lines| - 1][..k] == lines[..k];
      FailureStays(lines[..|lines| - 1], k);
    }
  }

  // ----- Lines in print -----

  lemma VersionWords()
    ensures forall k :: 0 <= k < 8 ==> Solid("HTTP/1.0"[k]) && Solid("HTTP/1.1"[k])
  {
  }

  /** A word of solid characters before a blank. */
  lemma FirstWord(word: string, rest: string)
    requires word != "" && forall k :: 0 <= k < |word| ==> Solid(word[k])
    ensures var line := word + (" " + rest);
            TrimOctetsStart(line) == line && WordEnd(line) == |word| && line[..|word|] == word
            && line[|word|..] == " " + rest
  {
    hide WordEnd, TrimOctetsStart;
    SolidStart(word, " " + rest);
    assert (" " + rest)[..1] == " ";
    WordStops(word, " " + rest);
  }

  /** A status line of either version is read, whatever its reason phrase. */
  lemma StatusLineReads(version: string, code: nat, reason: string)
    requires version == "HTTP/1.0" || version == "HTTP/1.1"
    requires code < 0x1_0000
    ensures ParseStatus(version + (" " + (Digits(code) + (" " + reason)))) == Ok(code)
  {
    hide ParseNumber, WordEnd, TrimOctetsStart, Numeral, Solid;
    var rest := Digits(code) + (" " + reason);
    NumeralParses(code, 10, 0x1_0000);
    DigitsAreWords(code);
    VersionWords();
    FirstWord(version, rest);
    FirstWord(Digits(code), reason);
    BlankBefore(rest);
  }

  lemma DigitsAreWords(n: nat)
    ensures Digits(n) != "" && forall k :: 0 <= k < |Digits(n)| ==> Solid(Digits(n)[k])
  {
    NumeralValue(n, 10);
    forall k | 0 <= k < |Digits(n)| ensures Solid(Digits(n)[k]) {
      assert DigitValue(Digits(n)[k]).Some?;
    }
  }

  lemma NameIsSolid(name: string)
    requires ValidName(name)
    ensures ':' !in name && Solid(name[0]) && Solid(name[|name| - 1]) && ValidName(Lower(name))
  {
    hide NameChar, LowerChar, Solid;
    forall k | 0 <= k < |name| ensures NameChar(Lower(name)[k]) && name[k] != ':' && Solid(name[k]) {
      NameCharLowers(name[k]);
    }
  }

  lemma NameCharLowers(c: char)
    requires NameChar(c)
    ensures NameChar(LowerChar(c)) && c != ':' && Solid(c)
  {
  }

  /** A field line gives its name in lower case and its value without outer blanks. */
  lemma FieldLineReads(name: string, value: string)
    requires ValidName(name) && ValidValue(value) && Unspaced(value)
    ensures ParseField(name + ":" + (" " + value)) == Some(Field(Lower(name), value))
  {
    hide ValidName, ValidValue, Find, Lower, TrimOctetsStart, TrimOctetsEnd, LeadingBlank, TrailingBlank, Solid;
    var line := name + ":" + (" " + value);
    NameIsSolid(name);
    FindFirst(name, ":", " " + value);
    assert line[..|name|] == name && line[|name| + 1..] == " " + value;
    NotEmpty(name);
    SolidEnds(name);
    UnspacedKept(name);
    UnspacedKept(value);
    BlankBefore(value);
  }

  lemma NotEmpty(name: string)
    ensures ValidName(name) ==> name != ""
  {
  }

  // ----- What the fields are -----

  /** The values of the lines that bear a name, in order. */
  function Values(lines: seq<string>, name: string): seq<string> {
    if lines == [] then []
    else
      var field := ParseField(lines[|lines| - 1]);
      var earlier := Values(lines[..|lines| - 1], name);
      if field.Some? && field.value.name == name then earlier + [field.value.value] else earlier
  }

  function CommaJoined(values: seq<string>): string
    requires values != []
  {
    if |values| == 1 then values[0] else CommaJoined(values[..|values| - 1]) + ", " + values[|values| - 1]
  }

  /** Every name maps to all its values, joined in order. */
  ghost predicate Collected(headers: Headers, lines: seq<string>) {
    forall name ::
      && (name in headers <==> Values(lines, name) != [])
      && (name in headers ==> headers[name] == CommaJoined(Values(lines, name)))
  }

  predicate Parseable(lines: seq<string>) {
    forall k :: 0 <= k < |lines| ==> ParseField(lines[k]).Some?
  }

  lemma ValuesLast(lines: seq<string>, name: string)
    requires lines != [] && ParseField(lines[|lines| - 1]).Some?
    ensures var field := ParseField(lines[|lines| - 1]).value;
            var earlier := Values(lines[..|lines| - 1], name);
            Values(lines, name) == if field.name == name then earlier + [field.value] else earlier
  {
    hide ParseField;
  }

  lemma JoinedLast(values: seq<string>, value: string)
    ensures CommaJoined(values + [value]) == if values == [] then value else CommaJoined(values) + ", " + value
  {
    assert (values + [value])[..|values|] == values;
  }

  lemma InsertCollects(headers: Headers, lines: seq<string>)
    requires lines != [] && ParseField(lines[|lines| - 1]).Some? && Collected(headers, lines[..|lines| - 1])
    ensures var r := Insert(headers, ParseField(lines[|lines| - 1]).value);
            && (r.Ok? ==> Collected(r.value, lines))
            && (r.Ok? <==> ParseField(lines[|lines| - 1]).value.name !in headers
                           || !Frames(ParseField(lines[|lines| - 1]).value.name))
  {
    hide ParseField, Values, CommaJoined;
    var field := ParseField(lines[|lines| - 1]).value;
    var r := Insert(headers, field);
    if r.Ok? {
      forall name
        ensures (name in r.value <==> Values(lines, name) != [])
             && (name in r.value ==> r.value[name] == CommaJoined(Values(lines, name)))
      {
        ValuesLast(lines, name);
        JoinedLast(Values(lines[..|lines| - 1], name), field.value);
      }
    }
  }

  /** A head is accepted exactly if every line is a field and no framing field is
      repeated; then every name maps to all its values, joined in order. */
  lemma {:induction false} FieldsCollected(lines: seq<string>)
    ensures ParseFields(lines).Ok? <==>
              && Parseable(lines)
              && |Values(lines, "content-length")| <= 1 && |Values(lines, "transfer-encoding")| <= 1
    ensures ParseFields(lines).Ok? ==> Collected(ParseFields(lines).value, lines)
  {
    hide ParseField, Insert, CommaJoined;
    if lines != [] {
      var earlier := lines[..|lines| - 1];
      FieldsCollected(earlier);
      assert Parseable(lines) <==> Parseable(earlier) && ParseField(lines[|lines| - 1]).Some?;
      if ParseField(lines[|lines| - 1]).Some? {
        ValuesLast(lines, "content-length");
        ValuesLast(lines, "transfer-encoding");
        if ParseFields(earlier).Ok? {
          InsertCollects(ParseFields(earlier).value, lines);
        }
      }
    }
  }
}
