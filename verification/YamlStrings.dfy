/** Strings in the YAML output: what the reader makes of each, quoted or plain. */
module YamlStrings {
  import opened Common
  import opened Strings
  import opened YamlText
  import opened Yaml

  // ----- What the reader changes -----

  /** The four characters of an escaped line end. */
  predicate Four(s: string, k: nat) {
    k + 3 < |s| && s[k] == '\\' && s[k + 1] == 'r' && s[k + 2] == '\\' && s[k + 3] == 'n'
  }

  /** They stand nowhere in the text. */
  predicate Calm(s: string) {
    forall k :: 0 <= k < |s| ==> !Four(s, k)
  }

  /** At `k` the string holds what prints as those four characters: a carriage return
      and a line feed, or a backslash, an `r` and a line feed. */
  predicate EndAt(s: string, k: nat) {
    || (k + 1 < |s| && s[k] == '\r' && s[k + 1] == '\n')
    || (k + 2 < |s| && s[k] == '\\' && s[k + 1] == 'r' && s[k + 2] == '\n')
  }

  /** What is left of a string that is printed with quotes. */
  function Dropped(s: string): string {
    if s == "" then ""
    else if |s| >= 2 && s[0] == '\r' && s[1] == '\n' then "\n" + Dropped(s[2..])
    else if |s| >= 3 && s[0] == '\\' && s[1] == 'r' && s[2] == '\n' then "\\n" + Dropped(s[3..])
    else [s[0]] + Dropped(s[1..])
  }

  lemma EndsLater(s: string)
    requires s != "" && !EndAt(s, 0)
    ensures (exists k :: EndAt(s, k)) <==> (exists k :: EndAt(s[1..], k))
  {
    if k: nat :| EndAt(s, k) { assert EndAt(s[1..], k - 1); }
    if k: nat :| EndAt(s[1..], k) { assert EndAt(s, k + 1); }
  }

  lemma {:induction false} DroppedExactly(s: string)
    ensures |Dropped(s)| <= |s|
    ensures if exists k :: EndAt(s, k) then |Dropped(s)| < |s| else Dropped(s) == s
  {
    hide EndAt;
    if s == "" {
      NoEnd();
    } else if EndAt(s, 0) {
      DroppedEnd(s);
      DroppedExactly(s[if s[0] == '\r' then 2 else 3..]);
    } else {
      DroppedStep(s);
      EndsLater(s);
      DroppedExactly(s[1..]);
      assert [s[0]] + s[1..] == s;
    }
  }

  lemma EndsInside(s: string)
    ensures forall k: nat :: EndAt(s, k) ==> k < |s|
  {
  }

  lemma NoEnd()
    ensures forall k :: !EndAt("", k)
  {
  }

  lemma DroppedEnd(s: string)
    requires EndAt(s, 0)
    ensures if s[0] == '\r' then |s| >= 2 && Dropped(s) == "\n" + Dropped(s[2..])
            else |s| >= 3 && Dropped(s) == "\\n" + Dropped(s[3..])
  {
  }

  lemma DroppedStep(s: string)
    requires s != "" && !EndAt(s, 0)
    ensures Dropped(s) == [s[0]] + Dropped(s[1..])
  {
  }

  lemma ReplaceStep(s: string)
    requires s != ""
    ensures ReplaceEscapedEnds(s) ==
            if Four(s, 0) then "\\n" + ReplaceEscapedEnds(s[4..]) else [s[0]] + ReplaceEscapedEnds(s[1..])
  {
    if "\\r\\n" <= s {
      assert s[..4] == "\\r\\n";
      assert s[0] == s[..4][0] && s[1] == s[..4][1] && s[2] == s[..4][2] && s[3] == s[..4][3];
    }
  }

  lemma FourLater(s: string)
    requires s != "" && !Four(s, 0)
    ensures Calm(s) <==> Calm(s[1..])
  {
    assert forall k :: 1 <= k < |s| ==> (Four(s, k) <==> Four(s[1..], k - 1));
    if !Calm(s[1..]) {
      var k :| 0 <= k < |s[1..]| && Four(s[1..], k);
      assert Four(s, k + 1);
    }
  }

  lemma {:induction false} CalmKept(s: string)
    ensures |ReplaceEscapedEnds(s)| <= |s|
    ensures if Calm(s) then ReplaceEscapedEnds(s) == s else |ReplaceEscapedEnds(s)| < |s|
  {
    hide ReplaceEscapedEnds;
    if s == "" {
      NothingReplaced();
    } else {
      ReplaceStep(s);
      if Four(s, 0) {
        CalmKept(s[4..]);
      } else {
        CalmKept(s[1..]);
        FourLater(s);
        assert [s[0]] + s[1..] == s;
      }
    }
  }

  lemma NothingReplaced()
    ensures ReplaceEscapedEnds("") == ""
  {
  }

  // ----- Escapes come back -----

  /** Every escape is read as its character. */
  lemma CharUnescapes(c: char, rest: string)
    ensures Unescape(EscapeChar(c) + rest) == Prepend(c, Unescape(rest))
  {
    hide AreDigits, DigitsValue;
    var e := EscapeChar(c);
    var s := e + rest;
    if |e| == 1 {
      assert s[0] == c && s[1..] == rest;
    } else if |e| == 2 {
      assert s[0] == '\\' && s[1] == e[1] && s[2..] == rest;
    } else {
      ControlUnescapes(c, rest);
    }
  }

  lemma ControlUnescapes(c: char, rest: string)
    requires |EscapeChar(c)| == 6
    ensures Unescape(EscapeChar(c) + rest) == Prepend(c, Unescape(rest))
  {
    hide AreDigits, DigitsValue;
    var s := EscapeChar(c) + rest;
    var n := c as int;
    var digits := ['0', '0', Digit(n / 16), Digit(n % 16)];
    assert EscapeChar(c) == "\\u00" + [Digit(n / 16), Digit(n % 16)];
    assert s[2..6] == digits && s[6..] == rest && s[0] == '\\' && s[1] == 'u';
    FourDigits(digits, n);
  }

  lemma FourDigits(digits: string, n: nat)
    requires n < 256 && digits == ['0', '0', Digit(n / 16), Digit(n % 16)]
    ensures AreDigits(digits, 16) && DigitsValue(digits, 16) == n
  {
    hide AreDigits, DigitsValue, Digit;
    var one, two, three := "0", "00", ['0', '0', Digit(n / 16)];
    SingleDigit(0, 16);
    assert [Digit(0)] == "0" by { DigitZero(); }
    AppendDigit(one, 0, 16);
    assert one + [Digit(0)] == two by { DigitZero(); }
    AppendDigit(two, n / 16, 16);
    assert two + [Digit(n / 16)] == three;
    AppendDigit(three, n % 16, 16);
    assert three + [Digit(n % 16)] == digits;
  }

  lemma DigitZero()
    ensures Digit(0) == '0'
  {
  }

  lemma {:induction false} EscapeReads(s: string)
    ensures Unescape(Escape(s) + "\"") == Some(s)
  {
    hide Unescape, EscapeChar;
    if s == "" {
      assert Escape(s) + "\"" == "\"";
      QuoteEnds();
    } else {
      var rest := Escape(s[1..]) + "\"";
      EscapeReads(s[1..]);
      CharUnescapes(s[0], rest);
      assert Escape(s) + "\"" == EscapeChar(s[0]) + rest;
      assert [s[0]] + s[1..] == s;
    }
  }

  lemma QuoteEnds()
    ensures Unescape("\"") == Some("")
  {
  }

  lemma QuotedLoads(s: string)
    ensures LoadJson("\"" + Escape(s) + "\"") == Some(Text(s))
  {
    hide Unescape, Escape, DigitRun, IsJsonNumber;
    var text := "\"" + Escape(s) + "\"";
    EscapeReads(s);
    assert text[1..] == Escape(s) + "\"";
    assert text[0] == '"';
    NoDigits(text);
  }

  lemma NoDigits(s: string)
    requires s != "" && s[0] == '"'
    ensures !IsJsonNumber(s)
  {
  }

  // ----- The replacement inside a quoted string -----

  /** A text that begins with no escaped line end is passed character by character. */
  lemma PassesChar(c: char, rest: string)
    requires !Four([c] + rest, 0)
    ensures ReplaceEscapedEnds([c] + rest) == [c] + ReplaceEscapedEnds(rest)
  {
    hide ReplaceEscapedEnds;
    ReplaceStep([c] + rest);
    assert ([c] + rest)[1..] == rest;
  }

  lemma {:induction false} PassesPlain(run: string, rest: string)
    requires '\\' !in run
    ensures ReplaceEscapedEnds(run + rest) == run + ReplaceEscapedEnds(rest)
  {
    hide ReplaceEscapedEnds;
    if run == "" {
      assert run + rest == rest;
    } else {
      assert run + rest == [run[0]] + (run[1..] + rest);
      PassesPlain(run[1..], rest);
      PassesChar(run[0], run[1..] + rest);
      assert [run[0]] + run[1..] == run;
    }
  }

  lemma CharBegins(c: char)
    ensures var e := EscapeChar(c);
            && e != ""
            && (|e| == 1 ==> e == [c] && c !in {'\n', '\r', '\\', '"'})
            && (|e| > 1 ==> e[0] == '\\')
            && (|e| > 1 ==> (e[1] == 'n' <==> c == '\n') && (e[1] == 'r' <==> c == '\r'))
            && (|e| > 1 && c != '\\' ==> '\\' !in e[1..])
            && (c == '\r' ==> e == "\\r") && (c == '\n' ==> e == "\\n") && (c == '\\' ==> e == "\\\\")
            && (c == 'r' || c == 'n' ==> e == [c])
  {
  }

  /** The printed rest of a string with its closing quote. */
  function Closed(s: string): string {
    Escape(s) + "\""
  }

  lemma ClosedStep(c: char, later: string)
    ensures Closed([c] + later) == EscapeChar(c) + Closed(later)
  {
    hide EscapeChar;
    assert ([c] + later)[1..] == later;
  }

  predicate BeginsN(text: string) {
    |text| >= 2 && text[0] == '\\' && text[1] == 'n'
  }

  predicate BeginsRN(text: string) {
    |text| >= 3 && text[0] == 'r' && text[1] == '\\' && text[2] == 'n'
  }

  lemma ClosedBegins(s: string)
    ensures BeginsN(Closed(s)) <==> s != "" && s[0] == '\n'
  {
    hide EscapeChar, Escape;
    if s == "" {
      assert Closed(s) == "\"" by { EscapedNothing(); }
    } else {
      assert s == [s[0]] + s[1..];
      ClosedStep(s[0], s[1..]);
      CharBegins(s[0]);
    }
  }

  lemma EscapedNothing()
    ensures Escape("") == ""
  {
  }

  lemma ClosedBeginsLater(s: string)
    ensures BeginsRN(Closed(s)) <==> |s| >= 2 && s[0] == 'r' && s[1] == '\n'
  {
    hide EscapeChar, Escape;
    if s == "" {
      assert Closed(s) == "\"" by { EscapedNothing(); }
    } else {
      assert s == [s[0]] + s[1..];
      ClosedStep(s[0], s[1..]);
      CharBegins(s[0]);
      ClosedBegins(s[1..]);
      if s[0] == 'r' {
        assert Closed(s)[0] == 'r' && Closed(s)[1..] == Closed(s[1..]);
      } else {
        assert Closed(s)[0] == EscapeChar(s[0])[0] != 'r';
      }
    }
  }

  /** An escape other than that of a backslash, with no escaped line end. */
  lemma PassesEscape(c: char, rest: string)
    requires c != '\\' && !(c == '\r' && BeginsN(rest))
    ensures ReplaceEscapedEnds(EscapeChar(c) + rest) == EscapeChar(c) + ReplaceEscapedEnds(rest)
  {
    hide ReplaceEscapedEnds, EscapeChar;
    var e := EscapeChar(c);
    CharBegins(c);
    if |e| == 1 {
      PassesPlain(e, rest);
    } else {
      PassesPlain(e[1..], rest);
      assert e + rest == [e[0]] + (e[1..] + rest);
      if c == '\r' { assert (e[1..] + rest)[1..] == rest; }
      PassesChar(e[0], e[1..] + rest);
      assert [e[0]] + e[1..] == e;
    }
  }

  lemma PassesBackslash(rest: string)
    ensures ReplaceEscapedEnds("\\\\" + rest) ==
            if BeginsRN(rest) then "\\\\n" + ReplaceEscapedEnds(rest[3..]) else "\\\\" + ReplaceEscapedEnds(rest)
  {
    hide ReplaceEscapedEnds;
    var inner := ['\\'] + rest;
    assert "\\\\" + rest == ['\\'] + inner;
    PassesChar('\\', inner);
    ReplaceStep(inner);
    assert inner[1..] == rest;
    if BeginsRN(rest) {
      assert inner[4..] == rest[3..];
      assert ['\\'] + ("\\n" + ReplaceEscapedEnds(rest[3..])) == "\\\\n" + ReplaceEscapedEnds(rest[3..]);
    } else {
      assert ['\\'] + (['\\'] + ReplaceEscapedEnds(rest)) == "\\\\" + ReplaceEscapedEnds(rest);
    }
  }

  /** The replacement takes exactly the dropped characters out of a printed string. */
  lemma {:induction false} ReplacedEscape(s: string)
    ensures ReplaceEscapedEnds(Closed(s)) == Closed(Dropped(s))
    decreases |s|
  {
    hide ReplaceEscapedEnds, EscapeChar, Escape, Dropped, Closed, BeginsN, BeginsRN;
    if s == "" {
      QuoteReplaced();
    } else {
      var c, rest := s[0], Closed(s[1..]);
      assert s == [c] + s[1..];
      ClosedStep(c, s[1..]);
      ClosedBegins(s[1..]);
      ClosedBeginsLater(s[1..]);
      CharBegins(c);
      if EndAt(s, 0) {
        DroppedEnd(s);
        if c == '\r' {
          assert s == "\r\n" + s[2..];
          ReplacedEscape(s[2..]);
          ReplacedPair(s[2..]);
          ReplacedPair(Dropped(s[2..]));
        } else {
          assert s == "\\r\n" + s[3..];
          ReplacedEscape(s[3..]);
          ReplacedTriple(s[3..]);
          ReplacedTriple(Dropped(s[3..]));
        }
      } else {
        DroppedStep(s);
        ReplacedEscape(s[1..]);
        if c == '\\' { PassesBackslash(rest); } else { PassesEscape(c, rest); }
        ClosedStep(c, Dropped(s[1..]));
      }
    }
  }

  lemma QuoteReplaced()
    ensures ReplaceEscapedEnds(Closed("")) == Closed(Dropped(""))
  {
    PassesPlain("\"", "");
    assert Closed("") == "\"" + "" && "\"" + "" == "\"";
  }

  lemma ReplacedPair(later: string)
    ensures ReplaceEscapedEnds(Closed("\r\n" + later)) == "\\n" + ReplaceEscapedEnds(Closed(later))
    ensures Closed("\n" + later) == "\\n" + Closed(later)
  {
    hide ReplaceEscapedEnds, EscapeChar, Closed;
    CharBegins('\r');
    CharBegins('\n');
    assert "\r\n" + later == ['\r'] + (['\n'] + later) && "\n" + later == ['\n'] + later;
    ClosedStep('\r', ['\n'] + later);
    ClosedStep('\n', later);
    var text := "\\r" + ("\\n" + Closed(later));
    ReplaceStep(text);
    assert text[4..] == Closed(later);
  }

  lemma ReplacedTriple(later: string)
    ensures ReplaceEscapedEnds(Closed("\\r\n" + later)) == "\\\\n" + ReplaceEscapedEnds(Closed(later))
    ensures Closed("\\n" + later) == "\\\\n" + Closed(later)
  {
    hide ReplaceEscapedEnds, EscapeChar, Closed;
    CharBegins('\\');
    CharBegins('r');
    CharBegins('n');
    CharBegins('\n');
    assert "\\r\n" + later == ['\\'] + (['r'] + (['\n'] + later)) && "\\n" + later == ['\\'] + (['n'] + later);
    ClosedStep('\\', ['r'] + (['\n'] + later));
    ClosedStep('r', ['\n'] + later);
    ClosedStep('\n', later);
    ClosedStep('\\', ['n'] + later);
    ClosedStep('n', later);
    var rest := "r" + ("\\n" + Closed(later));
    PassesBackslash(rest);
    assert rest[3..] == Closed(later);
    assert "\\\\" + ("n" + Closed(later)) == "\\\\n" + Closed(later);
  }

  lemma QuotedReplaced(s: string)
    ensures ReplaceEscapedEnds("\"" + Escape(s) + "\"") == "\"" + Escape(Dropped(s)) + "\""
  {
    hide ReplaceEscapedEnds, Escape, Dropped;
    ReplacedEscape(s);
    PassesPlain("\"", Closed(s));
    assert "\"" + Escape(s) + "\"" == "\"" + (Escape(s) + "\"");
    assert "\"" + Escape(Dropped(s)) + "\"" == "\"" + (Escape(Dropped(s)) + "\"");
  }

  lemma QuotedScalar(s: string)
    ensures Scalar("\"" + Escape(s) + "\"") == Some(Text(s))
  {
    hide Escape, LoadJson, Strip, IsBlank;
    VisibleKept("\"" + Escape(s) + "\"");
    QuotedLoads(s);
  }

  /** What the reader makes of a quoted string: all of it, but for the dropped ends. */
  lemma QuotedRereads(s: string)
    ensures Scalar(ReplaceEscapedEnds("\"" + Escape(s) + "\"")) == Some(Text(Dropped(s)))
  {
    hide Scalar, ReplaceEscapedEnds, Escape, Dropped;
    QuotedReplaced(s);
    QuotedScalar(Dropped(s));
  }

  lemma {:induction false} TextIsShort(raw: string)
    ensures Scalar(raw).Some? && Scalar(raw).value.Text? ==> |Scalar(raw).value.text| <= |raw|
  {
    hide Strip, LoadJson, IsBlank;
    StripUnchanged(raw);
    var t := Strip(raw);
    LoadedTextIsShorter(t);
    if |t| >= 2 { HalvedIsShorter(t[1..|t| - 1]); }
  }

  /** Of which strings the reader gets exactly what was printed: of those printed
      plain, the ones without outer white space that hold no escaped line end in four
      characters; of those printed with quotes, the ones with no line end that prints
      as these. */
  predicate Faithful(s: string) {
    if IsPlain(s) then NoOuterBlank(s) && Calm(s) else forall k :: 0 <= k < |s| ==> !EndAt(s, k)
  }

  lemma StringsRereadExactly(s: string)
    ensures Scalar(ReplaceEscapedEnds(ScalarText(Text(s)))) == Some(Text(s)) <==> Faithful(s)
  {
    hide IsPlain, Scalar, Escape, ReplaceEscapedEnds, Dropped, IsBlank, Calm;
    if IsPlain(s) {
      CalmKept(s);
      if Calm(s) { PlainIsReadAsText(s); }
      TextIsShort(ReplaceEscapedEnds(s));
    } else {
      QuotedRereads(s);
      DroppedExactly(s);
      EndsInside(s);
    }
  }

  /** Three strings of which the reader gets something else. */
  lemma SomeStringsChange()
    ensures Scalar(ReplaceEscapedEnds(ScalarText(Text("a\r\nb")))) != Some(Text("a\r\nb"))
    ensures Scalar(ReplaceEscapedEnds(ScalarText(Text("a\\r\nb")))) != Some(Text("a\\r\nb"))
    ensures Scalar(ReplaceEscapedEnds(ScalarText(Text("a ")))) != Some(Text("a "))
  {
    hide Scalar, ReplaceEscapedEnds, ScalarText;
    StringsRereadExactly("a\r\nb");
    StringsRereadExactly("a\\r\nb");
    StringsRereadExactly("a ");
    assert IsControl("a\r\nb"[1]) && IsControl("a\\r\nb"[3]);
    assert EndAt("a\r\nb", 1) && EndAt("a\\r\nb", 1);
    assert IsBlank("a "[1]);
    if !IsPlain("a ") { SpacedIsPlain(); }
  }

  lemma SpacedIsPlain()
    ensures IsPlain("a ")
  {
    hide IsYamlNumber;
    assert TrimEnd("a ") == TrimEnd("a") == "a" by { assert "a "[..1] == "a"; }
    assert Trim("a ") == "a";
    LetterIsNoNumber("a ");
    assert |RESERVED[3]| == 1 && RESERVED[3][0] == '~';
  }

  lemma LetterIsNoNumber(s: string)
    requires Trim(s) == "a"
    ensures !IsYamlNumber(s)
  {
    assert "a"[0] == 'a' && DigitValue("a"[0]) == Some(10);
    assert !AreDigits("a", 10);
    LetterIsNoFloat();
  }

  lemma LetterIsNoFloat()
    ensures !IsFloat("a")
  {
    assert |Lower("a")| == 1;
    assert DigitRun("a") == 0;
  }

  // ----- Which rows survive -----

  /** The characters at which the reader breaks lines. */
  predicate Breaks(c: char) {
    c as int in {0x0A, 0x0B, 0x0C, 0x0D, 0x1C, 0x1D, 0x1E, 0x85, 0x2028, 0x2029}
  }

  lemma LineBreaksExactly(c: char)
    ensures IsLineBreak(c) <==> Breaks(c)
  {
  }

  predicate OnOneLine(s: string) {
    forall k :: 0 <= k < |s| ==> !Breaks(s[k])
  }

  /** The content of a row that survives as it is. */
  predicate Safe(content: string) {
    content != "" && NoOuterBlank(content) && OnOneLine(content) && Calm(content)
  }

  /** No character that is printed as it is breaks a line. */
  predicate NoRawBreak(s: string) {
    forall k :: 0 <= k < |s| ==> s[k] as int !in {0x85, 0x2028, 0x2029}
  }

  lemma CharOnOneLine(c: char)
    requires c as int !in {0x85, 0x2028, 0x2029}
    ensures OnOneLine(EscapeChar(c)) && (c != ':' ==> ':' !in EscapeChar(c))
  {
    if c as int >= 0x20 { assert |EscapeChar(c)| == 1 || EscapeChar(c) in {"\\\"", "\\\\"}; }
  }

  lemma {:induction false} EscapeOnOneLine(s: string)
    requires NoRawBreak(s)
    ensures OnOneLine(Escape(s)) && (':' !in s ==> ':' !in Escape(s))
  {
    hide EscapeChar, Breaks;
    if s != "" {
      EscapeOnOneLine(s[1..]);
      CharOnOneLine(s[0]);
    }
  }

  lemma QuotedCalm(s: string)
    requires forall k :: 0 <= k < |s| ==> !EndAt(s, k)
    ensures Calm("\"" + Escape(s) + "\"") && Dropped(s) == s
  {
    hide Escape, ReplaceEscapedEnds, Dropped, Calm, EndAt;
    var text := "\"" + Escape(s) + "\"";
    DroppedExactly(s);
    EndsInside(s);
    ReplacedEscape(s);
    PassesPlain("\"", Closed(s));
    assert text == "\"" + Closed(s);
    CalmKept(text);
  }

  lemma QuotedSafe(s: string)
    requires NoRawBreak(s) && forall k :: 0 <= k < |s| ==> !EndAt(s, k)
    ensures var text := "\"" + Escape(s) + "\"";
            Safe(text) && (':' !in s ==> ':' !in text) && Scalar(text) == Some(Text(s))
  {
    hide Escape, Scalar, Strip, IsBlank, ReplaceEscapedEnds, Dropped, Calm, EndAt;
    var text := "\"" + Escape(s) + "\"";
    EscapeOnOneLine(s);
    VisibleKept(text);
    QuotedCalm(s);
    CalmKept(text);
    QuotedRereads(s);
  }

  lemma PlainSafe(s: string)
    requires IsPlain(s) && NoRawBreak(s) && NoOuterBlank(s) && Calm(s)
    ensures Safe(s) && Scalar(s) == Some(Text(s))
  {
    hide IsYamlNumber, Scalar, Calm, IsBlank;
    PlainIsReadAsText(s);
    forall k | 0 <= k < |s| ensures !Breaks(s[k]) { assert !IsControl(s[k]); }
  }

  /** A string reads back from its row. */
  lemma StringReads(s: string)
    requires NoRawBreak(s) && Faithful(s)
    ensures var text := ScalarText(Text(s));
            Safe(text) && (':' !in s ==> ':' !in text) && Scalar(text) == Some(Text(s))
  {
    hide IsPlain, Scalar, Escape, Safe, Calm;
    if IsPlain(s) { PlainSafe(s); } else { QuotedSafe(s); }
  }

  // ----- Scalars of other writers -----

  /** What Python's `strip` takes off. */
  predicate PythonSpace(c: char) {
    var n := c as int;
    || 9 <= n <= 13 || 28 <= n <= 32 || n == 0x85 || n == 0xA0 || n == 0x1680 || 0x2000 <= n <= 0x200A
    || n == 0x2028 || n == 0x2029 || n == 0x202F || n == 0x205F || n == 0x3000
  }

  predicate PythonSpaces(s: string) {
    forall k :: 0 <= k < |s| ==> PythonSpace(s[k])
  }

  lemma BlankExactly(c: char)
    ensures IsBlank(c) <==> PythonSpace(c)
  {
  }

  lemma {:induction false} LeadGone(before: string, rest: string)
    requires PythonSpaces(before)
    ensures StripStart(before + rest) == StripStart(rest)
    decreases |before|
  {
    hide IsBlank, PythonSpace;
    if before == "" {
      assert before + rest == rest;
    } else {
      BlankExactly(before[0]);
      LeadGone(before[1..], rest);
      assert (before + rest)[1..] == before[1..] + rest;
    }
  }

  lemma {:induction false} TrailGone(rest: string, after: string)
    requires PythonSpaces(after)
    ensures StripEnd(rest + after) == StripEnd(rest)
    decreases |after|
  {
    hide IsBlank, PythonSpace;
    if after == "" {
      assert rest + after == rest;
    } else {
      var s, n := rest + after, |after| - 1;
      assert after == after[..n] + [after[n]];
      BlankExactly(after[n]);
      assert s[|s| - 1] == after[n];
      assert s[..|s| - 1] == rest + after[..n];
      TrailGone(rest, after[..n]);
    }
  }

  /** White space around a text is taken off, and nothing else. */
  lemma StripAround(before: string, s: string, after: string)
    requires PythonSpaces(before) && PythonSpaces(after)
    requires s != "" ==> !PythonSpace(s[0]) && !PythonSpace(s[|s| - 1])
    ensures Strip(before + s + after) == s
  {
    hide IsBlank, PythonSpace;
    assert before + s + after == before + (s + after);
    LeadGone(before, s + after);
    if s == "" {
      assert s + after == after + "";
      LeadGone(after, "");
    } else {
      BlankExactly(s[0]);
      BlankExactly(s[|s| - 1]);
      TrailGone(s, after);
    }
  }

  /** The writer of a single-quoted scalar: every single quote is doubled. */
  function Doubled(s: string): string {
    if s == "" then "" else (if s[0] == '\'' then "''" else [s[0]]) + Doubled(s[1..])
  }

  lemma {:induction false} HalvedDoubled(s: string)
    ensures HalveQuotes(Doubled(s)) == s
  {
    if s != "" {
      HalvedDoubled(s[1..]);
      var later := Doubled(s[1..]);
      if s[0] == '\'' {
        assert ("''" + later)[2..] == later;
        assert s == "'" + s[1..];
      } else {
        assert ([s[0]] + later)[1..] == later;
      }
    }
  }

  /** A single-quoted scalar with white space around it is read as the text it quotes. */
  lemma SingleQuotedReads(before: string, s: string, after: string)
    requires PythonSpaces(before) && PythonSpaces(after)
    ensures Scalar(before + ("'" + Doubled(s) + "'") + after) == Some(Text(s))
  {
    hide Strip, LoadJson, PythonSpaces;
    var quoted := "'" + Doubled(s) + "'";
    assert quoted[0] == '\'' == quoted[|quoted| - 1] && quoted[1..|quoted| - 1] == Doubled(s);
    StripAround(before, quoted, after);
    HalvedDoubled(s);
  }
}
