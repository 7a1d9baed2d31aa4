/** Header blocks of framed messages: which length a block announces, and which
    message is read behind it. */
module McpHeaders {
  import opened Common
  import opened Octets
  import opened Strings
  import opened McpProtocol
  import opened McpFraming

  /** A line with its end: CR LF, or LF alone. */
  datatype HeadLine = HeadLine(text: string, cr: bool)

  function LineText(l: HeadLine): string {
    l.text + if l.cr then "\r\n" else "\n"
  }

  function Block(lines: seq<HeadLine>): string {
    if lines == [] then "" else LineText(lines[0]) + Block(lines[1..])
  }

  /** UTF-8 on one line that ends neither with a carriage return nor beyond the limit. */
  predicate Good(l: HeadLine) {
    && l.text != "" && '\n' !in l.text && l.text[|l.text| - 1] != '\r'
    && Utf8(l.text) && |l.text| < 0x10_0000 - 1
  }

  ghost predicate AllGood(lines: seq<HeadLine>) {
    forall l <- lines :: Good(l)
  }

  /** A line that can begin a framed message. */
  predicate Opens(l: HeadLine) {
    Good(l) && ':' in l.text && l.text[0] != '{' && Solid(l.text[0]) && Solid(l.text[|l.text| - 1])
  }

  /** The line gives the length: a decimal number below 2^64 with at most one plus
      sign, and white space around it. */
  ghost predicate Announces(line: string, n: nat) {
    exists value, number ::
      && line == "Content-Length:" + value && Around(value, number)
      && Spelled(number, 10, n) && n < 0x1_0000_0000_0000_0000
  }

  /** The lines can be read, and the last one that gives a length gives this one. */
  ghost predicate LengthOf(lines: seq<HeadLine>, length: Option<nat>)
    decreases |lines|
  {
    if lines == [] then length == None
    else
      var front, last := lines[..|lines| - 1], lines[|lines| - 1];
      if "Content-Length:" <= last.text
      then length.Some? && Announces(last.text, length.value) && exists earlier :: LengthOf(front, earlier)
      else LengthOf(front, length)
  }

  // ----- One line -----

  lemma DecimalSolid(number: string, n: nat)
    requires Spelled(number, 10, n)
    ensures number != "" && Solid(number[0]) && Solid(number[|number| - 1])
  {
    hide DigitsValue;
    var digits :| (number == digits || number == "+" + digits) && digits != "" && AreDigits(digits, 10);
    assert DigitValue(digits[0]).Some? && DigitValue(digits[|digits| - 1]).Some?;
  }

  lemma AnnouncedLength(line: string, n: nat)
    requires "Content-Length:" <= line
    ensures ParseUsize(TrimOctets(line[15..])) == Some(n) <==> Announces(line, n)
  {
    hide ParseNumber, TrimOctets, Around, Spelled, Unspaced;
    var value, number := line[15..], TrimOctets(line[15..]);
    assert line == "Content-Length:" + value;
    Trimmed(value);
    AroundExactly(value, number);
    SpelledExactly(number, 10, n, USIZE_LIMIT);
    if Announces(line, n) {
      var given, digits :|
        && line == "Content-Length:" + given && Around(given, digits)
        && Spelled(digits, 10, n) && n < 0x1_0000_0000_0000_0000;
      assert given == value;
      DecimalSolid(digits, n);
      SolidEnds(digits);
      AroundExactly(value, digits);
    }
  }

  /** One line after lines that can be read. */
  lemma HeaderMeans(l: HeadLine, length: Option<nat>)
    ensures !("Content-Length:" <= l.text) ==> ParseHeader(l.text, length) == Ok(length)
    ensures "Content-Length:" <= l.text ==>
              && (forall n: nat :: ParseHeader(l.text, length) == Ok(Some(n)) <==> Announces(l.text, n))
              && ParseHeader(l.text, length) != Ok(None)
              && (ParseHeader(l.text, length).Err? ==> ParseHeader(l.text, length) == Err(Io))
  {
    hide ParseUsize, TrimOctets, Announces;
    if "Content-Length:" <= l.text {
      forall n: nat ensures ParseUsize(TrimOctets(l.text[15..])) == Some(n) <==> Announces(l.text, n) {
        AnnouncedLength(l.text, n);
      }
    }
  }

  // ----- The block -----

  /** The lines parsed one after another. */
  function ParsedLines(lines: seq<HeadLine>, length: Option<nat>): Result<Option<nat>, ReadError>
    decreases |lines|
  {
    if lines == [] then Ok(length)
    else
      match ParsedLines(lines[..|lines| - 1], length)
      case Err(e) => Err(e)
      case Ok(earlier) => ParseHeader(lines[|lines| - 1].text, earlier)
  }

  lemma {:induction false} ParsedExactly(lines: seq<HeadLine>)
    ensures forall length :: ParsedLines(lines, None) == Ok(length) <==> LengthOf(lines, length)
    ensures ParsedLines(lines, None).Err? ==> ParsedLines(lines, None) == Err(Io)
    decreases |lines|
  {
    hide ParseHeader, Announces;
    if lines != [] {
      var front, last := lines[..|lines| - 1], lines[|lines| - 1];
      ParsedExactly(front);
      if ParsedLines(front, None).Ok? {
        assert LengthOf(front, ParsedLines(front, None).value);
        HeaderMeans(last, ParsedLines(front, None).value);
        LastMeans(lines, front, ParsedLines(front, None).value);
      }
    }
  }

  lemma LastMeans(lines: seq<HeadLine>, front: seq<HeadLine>, earlier: Option<nat>)
    requires lines != [] && front == lines[..|lines| - 1] && LengthOf(front, earlier)
    requires forall length :: LengthOf(front, length) ==> length == earlier
    ensures var last := lines[|lines| - 1].text;
            forall length :: LengthOf(lines, length) <==>
              if "Content-Length:" <= last then length.Some? && Announces(last, length.value) else length == earlier
  {
    hide Announces;
  }

  lemma {:induction false} ParsedFirst(lines: seq<HeadLine>, length: Option<nat>)
    requires lines != []
    ensures ParsedLines(lines, length) ==
            match ParseHeader(lines[0].text, length)
            case Err(e) => Err(e)
            case Ok(next) => ParsedLines(lines[1..], next)
    decreases |lines|
  {
    hide ParseHeader;
    var front := lines[..|lines| - 1];
    if front == [] {
      assert lines[1..] == [];
    } else {
      ParsedFirst(front, length);
      assert lines[1..][..|lines[1..]| - 1] == front[1..];
    }
  }

  lemma LineRead(l: HeadLine, rest: string, ending: Ending)
    requires Good(l)
    ensures NextLine(LineText(l) + rest, ending).Ok?
    ensures var (line, after) := NextLine(LineText(l) + rest, ending).value;
            after == rest && TrimLineEnd(line) == l.text
  {
    hide Utf8, NextLine;
    var text := if l.cr then l.text + "\r" else l.text;
    AsciiIsUtf8("\r");
    Utf8Joins(l.text, "\r");
    LineIsFirst(text, rest, ending);
    assert LineText(l) + rest == text + "\n" + rest;
    EndsTrimmed(l);
    assert text + "\n" == LineText(l);
  }

  lemma EndsTrimmed(l: HeadLine)
    requires Good(l)
    ensures TrimLineEnd(LineText(l)) == l.text
  {
    hide Utf8;
    var line := LineText(l);
    assert l.text[|l.text| - 1] in l.text;
    assert TrimLineEnd(l.text) == l.text;
    if l.cr {
      assert line[..|line| - 1] == l.text + "\r" && (l.text + "\r")[..|l.text|] == l.text;
      assert TrimLineEnd(line) == TrimLineEnd(l.text + "\r") == TrimLineEnd(l.text);
    } else {
      assert line[..|line| - 1] == l.text;
    }
  }

  lemma {:induction false} BlockRead(lines: seq<HeadLine>, rest: string, ending: Ending, length: Option<nat>)
    requires AllGood(lines)
    ensures NextHeaders(Block(lines) + ("\r" + "\n" + rest), ending, length) ==
            match ParsedLines(lines, length)
            case Err(e) => Err(e)
            case Ok(last) => Ok((last, rest))
    decreases |lines|
  {
    hide ParseHeader, NextLine, TrimLineEnd, Good, ParsedLines, LineText;
    var tail := "\r" + "\n" + rest;
    if lines == [] {
      BlankLineEnds(rest, ending, length);
      assert Block(lines) + tail == tail;
      NothingParsed(length);
    } else {
      var more := Block(lines[1..]) + tail;
      assert Good(lines[0]);
      LineRead(lines[0], more, ending);
      TextGiven(lines[0]);
      Regroup(LineText(lines[0]), Block(lines[1..]), tail);
      ParsedFirst(lines, length);
      if ParseHeader(lines[0].text, length).Ok? {
        BlockRead(lines[1..], rest, ending, ParseHeader(lines[0].text, length).value);
      }
    }
  }

  lemma NothingParsed(length: Option<nat>)
    ensures ParsedLines([], length) == Ok(length)
  {
  }

  lemma TextGiven(l: HeadLine)
    requires Good(l)
    ensures l.text != ""
  {
  }

  // ----- The message -----

  /** Lines of white space only, then a text that visible characters enclose, with
      white space around it on its line: this text is the next one. */
  lemma {:induction false} TextFound(skipped: seq<string>, a: string, text: string, b: string, rest: string,
                                     ending: Ending)
    requires forall line <- skipped :: AllSpace(line) && '\n' !in Encoded(line) && |Encoded(line)| < 0x10_0000
    requires AllSpace(a) && AllSpace(b) && text != "" && Solid(text[0]) && Solid(text[|text| - 1])
    requires var line := Encoded(a) + text + Encoded(b); '\n' !in line && Utf8(line) && |line| < 0x10_0000
    ensures NextText(Skipped(skipped) + ((Encoded(a) + text + Encoded(b)) + "\n" + rest), ending) == Ok((text, rest))
    decreases |skipped|
  {
    hide AllSpace, Encoded, NextLine, TrimOctets, Utf8, Solid, Unspaced;
    var line := Encoded(a) + text + Encoded(b);
    var found := line + "\n" + rest;
    if skipped == [] {
      LineIsFirst(line, rest, ending);
      LineEnds(b);
      SolidEnds(text);
      SpacesTrimmed(a, text, b + "\n");
      assert line + "\n" == Encoded(a) + text + Encoded(b + "\n");
      assert Skipped(skipped) + found == found;
    } else {
      var first, more := skipped[0], Skipped(skipped[1..]) + found;
      TextFound(skipped[1..], a, text, b, rest, ending);
      SpacesUtf8(first);
      LineIsFirst(Encoded(first), more, ending);
      LineEnds(first);
      OnlySpacesTrimmed(first + "\n");
      assert Skipped(skipped) + found == Encoded(first) + "\n" + more;
    }
  }

  function Skipped(lines: seq<string>): string {
    if lines == [] then "" else Encoded(lines[0]) + "\n" + Skipped(lines[1..])
  }

  lemma LineEnds(b: string)
    ensures Encoded(b + "\n") == Encoded(b) + "\n" && (AllSpace(b) ==> AllSpace(b + "\n"))
  {
    hide Encoded, IsSpace;
    EncodedAppends(b, "\n");
    EncodedOne('\n');
    assert IsSpace('\n') by { LineFeedSpace(); }
  }

  lemma LineFeedSpace()
    ensures IsSpace('\n')
  {
  }

  lemma {:induction false} SpacesUtf8(a: string)
    requires AllSpace(a)
    ensures Utf8(Encoded(a))
  {
    hide Utf8Of;
    if a != "" {
      SpacesUtf8(a[..|a| - 1]);
      SpaceUtf8(a[|a| - 1]);
      Utf8Joins(Encoded(a[..|a| - 1]), Utf8Of(a[|a| - 1]));
    }
  }

  lemma SpaceUtf8(c: char)
    requires IsSpace(c)
    ensures Utf8(Utf8Of(c))
  {
    var w := Utf8Of(c);
    assert Utf8Width(w) == |w| && w[|w|..] == "";
  }

  /** A header block with any lines: the message is the octets behind the empty line,
      as many as the last Content-Length line says, from one octet to a mebibyte.
      Without such a line, with one that does not read as a number, or without
      that many octets there is an error. */
  lemma MessageExactly(lines: seq<HeadLine>, rest: string, ending: Ending)
    requires lines != [] && AllGood(lines) && Opens(lines[0])
    ensures var read := NextPayload(Block(lines) + "\r\n" + rest, ending);
            && (read.Ok? ==> exists n: nat :: LengthOf(lines, Some(n)) && 1 <= n <= 0x10_0000 && n <= |rest|)
            && (read.Err? ==> read == Err(Io))
            && (forall n: nat :: LengthOf(lines, Some(n)) && 1 <= n <= 0x10_0000 && n <= |rest| ==>
                  read == Ok((Payload(Framed, rest[..n]), rest[n..])))
  {
    hide NextText, NextHeaders, ParseHeader, LengthOf, ParsedLines, LineText, Good, Block;
    var input := Block(lines) + "\r\n" + rest;
    var tail := Block(lines[1..]) + ("\r" + "\n" + rest);
    OpeningRead(lines[0], tail, ending);
    BlockFirst(lines);
    assert input == LineText(lines[0]) + tail;
    ParsedFirst(lines, None);
    ParsedExactly(lines);
    if ParseHeader(lines[0].text, None).Ok? {
      BlockRead(lines[1..], rest, ending, ParseHeader(lines[0].text, None).value);
    } else {
      assert ParsedLines(lines, None) == Err(Io);
    }
  }

  lemma BlockFirst(lines: seq<HeadLine>)
    requires lines != []
    ensures Block(lines) == LineText(lines[0]) + Block(lines[1..])
  {
  }

  lemma OpeningRead(l: HeadLine, tail: string, ending: Ending)
    requires Opens(l)
    ensures NextText(LineText(l) + tail, ending) == Ok((l.text, tail)) && ModeOf(l.text).Framed?
  {
    hide NextText, Utf8, IsSpace, Encoded, Solid;
    var b := if l.cr then "\r" else "";
    assert AllSpace(b) by { assert IsSpace('\r') by { CarriageReturn(); } }
    CarriageReturn();
    EncodedNothing();
    AsciiIsUtf8("\r");
    Utf8Joins(l.text, "\r");
    var line := Encoded("") + l.text + Encoded(b);
    assert line == l.text + b;
    assert l.text + "" == l.text;
    TextFound([], "", l.text, b, tail, ending);
    assert Skipped([]) + (line + "\n" + tail) == LineText(l) + tail;
  }

  lemma CarriageReturn()
    ensures IsSpace('\r') && Encoded("\r") == "\r"
  {
    EncodedOne('\r');
  }
}
