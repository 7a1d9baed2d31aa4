/** Which strings the renderer prints plain, and whether YAML takes such a line for
    that string: plain scalars and the core schema (YAML 1.2.2 sections 7.3.3 and
    10.3.2), and the number syntax of JSON (RFC 8259 section 6). */
module YamlSyntax {
  import opened Common
  import opened Strings
  import opened YamlText

  // ----- Numbers as grammars -----

  predicate Digital(s: string) {
    forall k :: 0 <= k < |s| ==> '0' <= s[k] <= '9'
  }

  ghost predicate Exponent(s: string) {
    s == "" ||
    exists mark, sign, digits ::
      && mark in {"e", "E"} && sign in {"", "+", "-"} && digits != "" && Digital(digits)
      && s == mark + (sign + digits)
  }

  /** A minus sign or none, digits without a leading zero, a fraction and an exponent
      or none. */
  ghost predicate JsonNumber(s: string) {
    exists minus, whole, fraction, exponent ::
      && minus in {"", "-"} && whole != "" && Digital(whole) && (|whole| > 1 ==> whole[0] != '0')
      && Fraction(fraction) && Exponent(exponent)
      && s == minus + (whole + (fraction + exponent))
  }

  ghost predicate Fraction(s: string) {
    s == "" || exists digits :: digits != "" && Digital(digits) && s == "." + digits
  }

  /** Digits with a point or without, some before it or behind it, and an exponent. */
  ghost predicate Mantissa(s: string) {
    exists whole, point, fraction, exponent ::
      && Digital(whole) && Digital(fraction) && Exponent(exponent) && whole + fraction != ""
      && (point == "." || (point == "" && fraction == ""))
      && s == whole + (point + fraction + exponent)
  }

  ghost predicate FloatText(s: string) {
    exists sign, body ::
      && sign in {"", "+", "-"} && s == sign + body
      && (SameLetters(body, "inf") || SameLetters(body, "infinity") || SameLetters(body, "nan") || Mantissa(body))
  }

  // ----- The scanners read these grammars -----

  predicate StopsDigits(s: string) {
    s == "" || !('0' <= s[0] <= '9')
  }

  lemma {:induction false} RunMeans(s: string)
    ensures Digital(s[..DigitRun(s)]) && StopsDigits(s[DigitRun(s)..])
  {
    if s != "" && '0' <= s[0] <= '9' {
      RunMeans(s[1..]);
      var n := DigitRun(s[1..]);
      assert s[..n + 1] == [s[0]] + s[1..][..n] && s[n + 1..] == s[1..][n..];
    }
  }

  lemma {:induction false} RunIs(digits: string, rest: string)
    requires Digital(digits) && StopsDigits(rest)
    ensures DigitRun(digits + rest) == |digits|
  {
    if digits == "" {
      assert digits + rest == rest;
    } else {
      assert (digits + rest)[1..] == digits[1..] + rest;
      RunIs(digits[1..], rest);
    }
  }

  lemma ExponentExactly(s: string)
    ensures IsExponent(s) <==> Exponent(s)
    ensures Exponent(s) ==> StopsDigits(s) && (s == "" || s[0] in {'e', 'E'})
  {
    hide DigitRun, Digital;
    if IsExponent(s) && s != "" {
      var sign := if |s| > 1 && (s[1] == '+' || s[1] == '-') then [s[1]] else "";
      var digits := s[1 + |sign|..];
      RunMeans(digits);
      assert digits[..|digits|] == digits;
      assert [s[0]] in {"e", "E"} && sign in {"", "+", "-"};
      assert s == [s[0]] + (sign + digits);
    }
    if Exponent(s) && s != "" {
      var mark, sign, digits :|
        && mark in {"e", "E"} && sign in {"", "+", "-"} && digits != "" && Digital(digits)
        && s == mark + (sign + digits);
      ExponentScans(s, mark, sign, digits);
    }
  }

  lemma ExponentScans(s: string, mark: string, sign: string, digits: string)
    requires mark in {"e", "E"} && sign in {"", "+", "-"} && digits != "" && Digital(digits)
    requires s == mark + (sign + digits)
    ensures IsExponent(s) && s[0] in {'e', 'E'}
  {
    RunIs(digits, "");
    assert digits + "" == digits;
    assert '0' <= digits[0] <= '9';
    hide DigitRun, Digital;
    assert |mark| == 1 && s[0] == mark[0];
    if sign == "" {
      assert s[1] == digits[0] && s[1..] == digits;
    } else {
      assert s[1] == sign[0] && s[2..] == digits;
    }
  }

  lemma FractionStops(fraction: string, exponent: string)
    requires Fraction(fraction) && Exponent(exponent)
    ensures StopsDigits(fraction + exponent)
  {
    hide Exponent;
    ExponentExactly(exponent);
    if fraction == "" { assert fraction + exponent == exponent; }
  }

  /** What follows the whole digits of a JSON number. */
  predicate IsTail(rest: string) {
    if rest != "" && rest[0] == '.' then DigitRun(rest[1..]) > 0 && IsExponent(rest[1 + DigitRun(rest[1..])..])
    else IsExponent(rest)
  }

  lemma TailExactly(rest: string)
    ensures IsTail(rest) <==>
            exists fraction, exponent :: Fraction(fraction) && Exponent(exponent) && rest == fraction + exponent
  {
    hide DigitRun, Exponent, IsExponent;
    if IsTail(rest) {
      if rest != "" && rest[0] == '.' {
        var n := DigitRun(rest[1..]);
        RunMeans(rest[1..]);
        var digits, exponent := rest[1..][..n], rest[1 + n..];
        ExponentExactly(exponent);
        assert rest == ("." + digits) + exponent;
        assert Fraction("." + digits);
      } else {
        ExponentExactly(rest);
        assert rest == "" + rest;
        assert Fraction("");
      }
    }
    if fraction, exponent :| Fraction(fraction) && Exponent(exponent) && rest == fraction + exponent {
      ExponentExactly(exponent);
      if fraction == "" {
        assert rest == exponent;
      } else {
        var digits :| digits != "" && Digital(digits) && fraction == "." + digits;
        assert rest[1..] == digits + exponent;
        RunIs(digits, exponent);
        assert rest[1 + |digits|..] == exponent;
      }
    }
  }

  lemma JsonExactly(s: string)
    ensures IsJsonNumber(s) <==> JsonNumber(s)
  {
    if IsJsonNumber(s) { ScannedJson(s); }
    if JsonNumber(s) { JsonScans(s); }
  }

  lemma JsonOf(minus: string, whole: string, fraction: string, exponent: string)
    requires minus in {"", "-"} && whole != "" && Digital(whole) && (|whole| > 1 ==> whole[0] != '0')
    requires Fraction(fraction) && Exponent(exponent)
    ensures JsonNumber(minus + (whole + (fraction + exponent)))
  {
    hide Exponent, Fraction, Digital;
  }

  lemma ScannedJson(s: string)
    requires IsJsonNumber(s)
    ensures JsonNumber(s)
  {
    hide DigitRun, IsExponent, JsonNumber, IsTail;
    var minus := if s[0] == '-' then "-" else "";
    var t := s[|minus|..];
    assert s == minus + t;
    assert IsTail(t[DigitRun(t)..]) by { TailOf(s); }
    ScannedWhole(minus, t);
  }

  lemma TailOf(s: string)
    requires IsJsonNumber(s)
    ensures s != "" && var t := if s[0] == '-' then s[1..] else s; IsTail(t[DigitRun(t)..])
  {
    hide DigitRun, IsExponent;
  }

  lemma ScannedWhole(minus: string, t: string)
    requires minus in {"", "-"} && t != "" && DigitRun(t) > 0 && (t[0] == '0' ==> DigitRun(t) == 1)
    requires IsTail(t[DigitRun(t)..])
    ensures JsonNumber(minus + t)
  {
    hide DigitRun, Exponent, Fraction, JsonNumber, Digital, IsTail;
    var n := DigitRun(t);
    RunMeans(t);
    var whole, rest := t[..n], t[n..];
    assert t == whole + rest;
    TailExactly(rest);
    var fraction, exponent :| Fraction(fraction) && Exponent(exponent) && rest == fraction + exponent;
    JsonOf(minus, whole, fraction, exponent);
  }

  lemma JsonScans(s: string)
    requires JsonNumber(s)
    ensures IsJsonNumber(s)
  {
    hide DigitRun, IsExponent, Exponent, Fraction;
    var minus, whole, fraction, exponent :|
      && minus in {"", "-"} && whole != "" && Digital(whole) && (|whole| > 1 ==> whole[0] != '0')
      && Fraction(fraction) && Exponent(exponent)
      && s == minus + (whole + (fraction + exponent));
    var rest := fraction + exponent;
    FractionStops(fraction, exponent);
    RunIs(whole, rest);
    var t := whole + rest;
    assert t[0] == whole[0] && t[|whole|..] == rest;
    assert IsTail(rest) by { TailExactly(rest); }
    JsonParts(s, minus, t);
  }

  lemma JsonParts(s: string, minus: string, t: string)
    requires minus in {"", "-"} && s == minus + t && t != "" && t[0] != '-'
    requires DigitRun(t) > 0 && (t[0] == '0' ==> DigitRun(t) == 1) && IsTail(t[DigitRun(t)..])
    ensures IsJsonNumber(s)
  {
    hide DigitRun, IsExponent;
    if minus == "" { assert s == t; } else { assert s[0] == '-' && s[1..] == t; }
  }

  /** What the float parser accepts after a sign. */
  predicate IsMantissa(t: string) {
    var n := DigitRun(t);
    var rest := t[n..];
    if rest != "" && rest[0] == '.' then
      n + DigitRun(rest[1..]) > 0 && IsExponent(rest[1 + DigitRun(rest[1..])..])
    else n > 0 && IsExponent(rest)
  }

  lemma MantissaExactly(t: string)
    ensures IsMantissa(t) <==> Mantissa(t)
  {
    if IsMantissa(t) { ScannedMantissa(t); }
    if Mantissa(t) { MantissaScans(t); }
  }

  lemma MantissaOf(whole: string, point: string, fraction: string, exponent: string)
    requires Digital(whole) && Digital(fraction) && Exponent(exponent) && whole + fraction != ""
    requires point == "." || (point == "" && fraction == "")
    ensures Mantissa(whole + (point + fraction + exponent))
  {
    hide Exponent, Digital;
  }

  lemma ScannedMantissa(t: string)
    requires IsMantissa(t)
    ensures Mantissa(t)
  {
    hide DigitRun, IsExponent, Exponent, Mantissa, Digital;
    var n := DigitRun(t);
    RunMeans(t);
    var whole, rest := t[..n], t[n..];
    assert t == whole + rest;
    if rest != "" && rest[0] == '.' {
      ScannedPoint(whole, rest);
    } else {
      ExponentExactly(rest);
      assert Digital("") by { NoDigit(); }
      MantissaOf(whole, "", "", rest);
      assert "" + "" + rest == rest;
    }
  }

  lemma ScannedPoint(whole: string, rest: string)
    requires Digital(whole) && rest != "" && rest[0] == '.'
    requires |whole| + DigitRun(rest[1..]) > 0 && IsExponent(rest[1 + DigitRun(rest[1..])..])
    ensures Mantissa(whole + rest)
  {
    hide DigitRun, IsExponent, Exponent, Mantissa, Digital;
    var m := DigitRun(rest[1..]);
    RunMeans(rest[1..]);
    var fraction, exponent := rest[1..][..m], rest[1 + m..];
    ExponentExactly(exponent);
    assert |whole + fraction| > 0;
    MantissaOf(whole, ".", fraction, exponent);
    assert rest == "." + fraction + exponent;
  }

  lemma NoDigit()
    ensures Digital("")
  {
  }

  lemma MantissaScans(t: string)
    requires Mantissa(t)
    ensures IsMantissa(t)
  {
    hide DigitRun, IsExponent, Exponent;
    var whole, point, fraction, exponent :|
      && Digital(whole) && Digital(fraction) && Exponent(exponent) && whole + fraction != ""
      && (point == "." || (point == "" && fraction == ""))
      && t == whole + (point + fraction + exponent);
    var rest := point + fraction + exponent;
    ExponentExactly(exponent);
    if point == "" { assert rest == exponent; }
    RunIs(whole, rest);
    assert t[|whole|..] == rest;
    if point == "." {
      assert rest[1..] == fraction + exponent;
      RunIs(fraction, exponent);
      assert rest[1 + |fraction|..] == exponent;
    }
  }

  /** The names of the special values, in any letter case. */
  predicate IsSpecial(t: string) {
    Lower(t) == "inf" || Lower(t) == "infinity" || Lower(t) == "nan"
  }

  lemma SpecialExactly(t: string)
    ensures IsSpecial(t) <==> SameLetters(t, "inf") || SameLetters(t, "infinity") || SameLetters(t, "nan")
  {
    hide Lower, SameLetters;
    LowerExactly(t, "inf");
    LowerExactly(t, "infinity");
    LowerExactly(t, "nan");
    LowerNames();
  }

  lemma LowerNames()
    ensures Lower("inf") == "inf" && Lower("infinity") == "infinity" && Lower("nan") == "nan"
  {
  }

  lemma BodyStarts(body: string)
    requires IsSpecial(body) || IsMantissa(body)
    ensures body != "" && body[0] != '+' && body[0] != '-'
  {
    hide IsExponent;
    if IsSpecial(body) {
      assert Lower(body)[0] == LowerChar(body[0]);
    }
  }

  lemma FloatExactly(s: string)
    ensures IsFloat(s) <==> FloatText(s)
  {
    hide DigitRun, IsExponent, Mantissa, Lower, SameLetters, IsSpecial, IsMantissa;
    var t := if s != "" && (s[0] == '+' || s[0] == '-') then s[1..] else s;
    assert IsFloat(s) <==> IsSpecial(t) || IsMantissa(t) by { FloatParts(s); }
    if IsFloat(s) {
      var sign := if s != "" && (s[0] == '+' || s[0] == '-') then [s[0]] else "";
      SpecialExactly(t);
      MantissaExactly(t);
      assert sign in {"", "+", "-"} && s == sign + t;
    }
    if sign, body :|
      && sign in {"", "+", "-"} && s == sign + body
      && (SameLetters(body, "inf") || SameLetters(body, "infinity") || SameLetters(body, "nan") || Mantissa(body)) {
      SpecialExactly(body);
      MantissaExactly(body);
      BodyStarts(body);
      assert t == body;
    }
  }

  lemma FloatParts(s: string)
    ensures var t := if s != "" && (s[0] == '+' || s[0] == '-') then s[1..] else s;
            IsFloat(s) <==> IsSpecial(t) || IsMantissa(t)
  {
    hide DigitRun, IsExponent, Lower;
  }

  // ----- What counts as a number for the renderer -----

  /** Hexadecimal digits of a number below 2^64, with at most one plus sign. */
  ghost predicate HexText(s: string) {
    "0x" <= s && exists n: nat :: Spelled(s[2..], 16, n) && n < 0x1_0000_0000_0000_0000
  }

  /** A sign or none, then a floating point number or a hexadecimal one. */
  ghost predicate NumberText(t: string) {
    exists sign, body ::
      sign in {"", "+", "-"} && body != "" && t == sign + body && (FloatText(body) || HexText(body))
  }

  lemma HexExactly(s: string)
    ensures "0x" <= s && ParseNumber(s[2..], 16, USIZE_LIMIT).Some? <==> HexText(s)
  {
    hide ParseNumber, Spelled;
    if "0x" <= s {
      forall n: nat
        ensures ParseNumber(s[2..], 16, USIZE_LIMIT) == Some(n) <==> Spelled(s[2..], 16, n) && n < USIZE_LIMIT
      {
        SpelledExactly(s[2..], 16, n, USIZE_LIMIT);
      }
    }
  }

  lemma IntegerIsFloat(s: string)
    requires IsInteger(s)
    ensures FloatText(s)
  {
    hide DigitsValue, Exponent, SameLetters;
    var sign := if s[0] == '+' || s[0] == '-' then [s[0]] else "";
    var body := s[|sign|..];
    DecimalDigital(body);
    assert Exponent("") by { ExponentExactly(""); NoExponent(); }
    NoDigit();
    MantissaOf(body, "", "", "");
    assert body == body + ("" + "" + "");
    assert s == sign + body && sign in {"", "+", "-"};
  }

  lemma NoExponent()
    ensures Exponent("")
  {
  }

  lemma DecimalDigital(s: string)
    ensures AreDigits(s, 10) <==> Digital(s)
  {
    forall k | 0 <= k < |s|
      ensures (DigitValue(s[k]).Some? && DigitValue(s[k]).value < 10) <==> '0' <= s[k] <= '9'
    {
    }
  }

  /** The scanner accepts exactly the number texts, with white space around them. */
  lemma NumberExactly(s: string)
    ensures IsYamlNumber(s) <==> NumberText(Trim(s))
  {
    hide IsInteger, IsFloat, ParseNumber, FloatText, HexText, Trim;
    var t := Trim(s);
    if IsYamlNumber(s) {
      var sign := if t[0] == '+' || t[0] == '-' then [t[0]] else "";
      var body := t[|sign|..];
      FloatExactly(body);
      HexExactly(body);
      if IsInteger(body) { IntegerIsFloat(body); }
      assert sign in {"", "+", "-"} && t == sign + body;
    }
    if sign, body :|
      sign in {"", "+", "-"} && body != "" && t == sign + body && (FloatText(body) || HexText(body)) {
      NumberScans(t, sign, body);
    }
  }

  lemma NumberScans(t: string, sign: string, body: string)
    requires sign in {"", "+", "-"} && body != "" && t == sign + body && (FloatText(body) || HexText(body))
    ensures var digits := if t[0] == '+' || t[0] == '-' then t[1..] else t;
            digits != "" && (IsFloat(digits) || ("0x" <= digits && ParseNumber(digits[2..], 16, USIZE_LIMIT).Some?))
  {
    hide ParseNumber, FloatText, HexText, IsSpecial, IsMantissa;
    FloatExactly(body);
    HexExactly(body);
    if sign == "" {
      assert t == body;
      if t[0] == '+' || t[0] == '-' {
        if HexText(body) { HexStarts(body); }
        FloatParts(body);
        var inner := body[1..];
        BodyStarts(inner);
        FloatParts(inner);
      }
    } else {
      assert t[0] == sign[0] && t[1..] == body;
    }
  }

  lemma HexStarts(s: string)
    requires HexText(s)
    ensures s[0] == '0'
  {
    hide DigitsValue;
  }

  // ----- Which strings are printed plain -----

  /** Exactly these strings are printed without quotes. */
  lemma PlainExactly(s: string)
    ensures IsPlain(s) <==>
            && s != ""
            && (forall k :: 0 <= k < |s| ==>
                  s[k] as int >= 0x20 && !(0x7F <= s[k] as int <= 0x9F) && s[k] !in {':', '#'})
            && s[0] !in {'-', '?', '!', '*', '&', '|', '>', '@', '`', '{', '}', '[', ']', ',', '%', '"', '\''}
            && s !in {"null", "Null", "NULL", "~", "true", "True", "TRUE", "false", "False", "FALSE"}
            && !NumberText(Trim(s))
  {
    hide IsYamlNumber, NumberText, Trim;
    NumberExactly(s);
    if s != "" { IndicatorsAre(s[0]); }
    ReservedAre(s);
  }

  lemma IndicatorsAre(c: char)
    ensures c in INDICATORS <==>
            c in {'-', '?', '!', '*', '&', '|', '>', '@', '`', '{', '}', '[', ']', ',', '%', '"', '\''}
  {
    assert INDICATORS == ['-', '?', '!', '*', '&', '|', '>', '@', '`', '{', '}', '[', ']', ',', '%', '"', '\''];
  }

  lemma ReservedAre(s: string)
    ensures s in RESERVED <==>
            s in {"null", "Null", "NULL", "~", "true", "True", "TRUE", "false", "False", "FALSE"}
  {
  }

  // ----- What YAML makes of a plain string -----

  /** What the core schema resolves to null, a boolean, an integer or a float. */
  ghost predicate CoreNonString(s: string) {
    || s in {"", "null", "Null", "NULL", "~", "true", "True", "TRUE", "false", "False", "FALSE"}
    || CoreNumber(s) || Octal(s) || (exists digits :: digits != "" && AreDigits(digits, 16) && s == "0x" + digits)
    || Special(s)
  }

  /** A decimal integer or a float in digits. */
  ghost predicate CoreNumber(s: string) {
    exists sign, body :: sign in {"", "+", "-"} && s == sign + body && Mantissa(body)
  }

  ghost predicate Octal(s: string) {
    exists digits :: digits != "" && AreDigits(digits, 8) && s == "0o" + digits
  }

  /** Infinity and not-a-number with their leading point. */
  predicate Special(s: string) {
    s in {".inf", ".Inf", ".INF", "+.inf", "+.Inf", "+.INF", "-.inf", "-.Inf", "-.INF", ".nan", ".NaN", ".NAN"}
  }

  /** Hexadecimal digits of a number that needs more than 64 bits. */
  ghost predicate WideHex(s: string) {
    exists digits ::
      && digits != "" && AreDigits(digits, 16) && DigitsValue(digits, 16) >= 0x1_0000_0000_0000_0000
      && s == "0x" + digits
  }

  /** YAML reads the line as this string: a plain scalar, in block context, that the
      core schema leaves a string. */
  ghost predicate YamlString(s: string) {
    && s != "" && s[0] != ' ' && s[|s| - 1] != ' '
    && s[0] !in {'-', '?', ':', ',', '[', ']', '{', '}', '#', '&', '*', '!', '|', '>', '\'', '"', '%', '@', '`'}
    && (forall k :: 0 <= k < |s| ==> s[k] !in {'\n', '\r'})
    && (forall k :: 0 <= k < |s| && s[k] == ':' ==> k + 1 < |s| && s[k + 1] != ' ')
    && (forall k :: 0 < k < |s| && s[k] == '#' ==> s[k - 1] != ' ')
    && !CoreNonString(s)
  }

  /** A string that is printed plain is that string for YAML, except where it begins
      or ends with a blank, or spells infinity, not-a-number, an octal number, or a
      hexadecimal number of more than 64 bits in the manner of the core schema. */
  lemma PlainIsYamlExactly(s: string)
    requires IsPlain(s)
    ensures YamlString(s) <==> s[0] != ' ' && s[|s| - 1] != ' ' && !Special(s) && !Octal(s) && !WideHex(s)
  {
    hide IsPlain, CoreNumber, NumberText, Octal, WideHex, Trim, Special;
    PlainExactly(s);
    CoreAmongPlain(s);
  }

  lemma CoreAmongPlain(s: string)
    requires IsPlain(s)
    ensures CoreNonString(s) <==> Special(s) || Octal(s) || WideHex(s)
  {
    hide IsPlain, CoreNumber, NumberText, Octal, Trim, Special, DigitsValue;
    PlainExactly(s);
    if CoreNumber(s) { CoreIsNumber(s); }
    if digits :| digits != "" && AreDigits(digits, 16) && s == "0x" + digits {
      if DigitsValue(digits, 16) < 0x1_0000_0000_0000_0000 { HexIsNumber(s, digits); }
    }
  }

  lemma CoreIsNumber(s: string)
    requires CoreNumber(s)
    ensures NumberText(Trim(s))
  {
    hide Exponent, Mantissa, SameLetters;
    var sign, body :| sign in {"", "+", "-"} && s == sign + body && Mantissa(body);
    MantissaEnds(body);
    TrimKeeps(s);
    assert body == "" + body && FloatText(body);
  }

  predicate NumberEdge(c: char) {
    '0' <= c <= '9' || c == '.'
  }

  lemma EdgesAreNoSpace()
    ensures forall c :: NumberEdge(c) ==> !IsSpace(c)
    ensures !IsSpace('+') && !IsSpace('-')
  {
  }

  lemma MantissaEnds(body: string)
    requires Mantissa(body)
    ensures body != "" && !IsSpace(body[0]) && !IsSpace(body[|body| - 1]) && !IsSpace('+') && !IsSpace('-')
  {
    hide Exponent, IsSpace;
    var whole, point, fraction, exponent :|
      && Digital(whole) && Digital(fraction) && Exponent(exponent) && whole + fraction != ""
      && (point == "." || (point == "" && fraction == ""))
      && body == whole + (point + fraction + exponent);
    EdgesAreNoSpace();
    assert NumberEdge(body[0]) by {
      if whole != "" { assert body[0] == whole[0]; } else { assert body[0] == '.'; }
    }
    assert NumberEdge(body[|body| - 1]) by { MantissaLast(body, whole, point, fraction, exponent); }
  }

  lemma MantissaLast(body: string, whole: string, point: string, fraction: string, exponent: string)
    requires Digital(whole) && Digital(fraction) && Exponent(exponent) && whole + fraction != ""
    requires point == "." || (point == "" && fraction == "")
    requires body == whole + (point + fraction + exponent)
    ensures body != "" && NumberEdge(body[|body| - 1])
  {
    hide Exponent;
    ExponentEnds(exponent);
    if exponent != "" {
      assert body[|body| - 1] == exponent[|exponent| - 1];
    } else if fraction != "" {
      assert body[|body| - 1] == fraction[|fraction| - 1];
    } else if point == "." {
      assert body[|body| - 1] == '.';
    } else {
      assert body == whole;
    }
  }

  lemma ExponentEnds(exponent: string)
    requires Exponent(exponent)
    ensures exponent != "" ==> '0' <= exponent[|exponent| - 1] <= '9'
  {
    if exponent != "" {
      var mark, sign, digits :|
        && mark in {"e", "E"} && sign in {"", "+", "-"} && digits != "" && Digital(digits)
        && exponent == mark + (sign + digits);
      assert exponent[|exponent| - 1] == digits[|digits| - 1];
    }
  }

  lemma HexIsNumber(s: string, digits: string)
    requires digits != "" && AreDigits(digits, 16) && s == "0x" + digits
    requires DigitsValue(digits, 16) < 0x1_0000_0000_0000_0000
    ensures NumberText(Trim(s))
  {
    hide DigitsValue, FloatText;
    assert DigitValue(digits[|digits| - 1]).Some? && s[|s| - 1] == digits[|digits| - 1];
    TrimKeeps(s);
    assert s[2..] == digits && s == "" + s;
    assert Spelled(s[2..], 16, DigitsValue(digits, 16));
    assert HexText(s);
  }

  /** Strings that are printed plain and that YAML takes for something else. */
  lemma SomePlainStringsAreNumbers()
    ensures IsPlain(".inf") && !YamlString(".inf")
    ensures IsPlain("0o7") && !YamlString("0o7")
  {
    hide IsPlain, YamlString;
    InfinityIsPlain();
    OctalIsPlain();
    PlainIsYamlExactly(".inf");
    PlainIsYamlExactly("0o7");
    assert DigitValue('7') == Some(7);
    assert "0o7" == "0o" + "7";
  }

  lemma PlainUnlessNumber(s: string)
    requires s in {".inf", "0o7"} && !IsYamlNumber(s)
    ensures IsPlain(s)
  {
    hide IsYamlNumber, NumberText, Trim;
    PlainExactly(s);
    NumberExactly(s);
  }

  lemma InfinityIsPlain()
    ensures IsPlain(".inf")
  {
    hide IsExponent, IsInteger, DigitRun, IsPlain;
    var s := ".inf";
    TrimKeeps(s);
    assert s[1..] == "inf";
    assert Lower(s)[0] == '.';
    assert DigitRun(s) == 0 && DigitRun("inf") == 0 by { NoRun(s); NoRun("inf"); }
    assert !IsInteger(s) by { assert DigitValue('.').None? && s[0] == '.'; NotInteger(s); }
    assert !IsYamlNumber(s);
    PlainUnlessNumber(s);
  }

  lemma OctalIsPlain()
    ensures IsPlain("0o7")
  {
    hide IsInteger, IsFloat, IsPlain, DigitRun;
    var s := "0o7";
    TrimKeeps(s);
    assert !IsInteger(s) by { assert DigitValue('o').None? && s[1] == 'o'; NotInteger(s); }
    OctalNoFloat(s);
    assert s[0] == '0' && !("0x" <= s) by { assert "0x"[1] == 'x' && s[1] == 'o'; }
    assert !IsYamlNumber(s);
    PlainUnlessNumber(s);
  }

  lemma OctalNoFloat(s: string)
    requires s == "0o7"
    ensures !IsFloat(s)
  {
    hide DigitRun, Lower;
    ZeroLow(s);
    assert s[1..] == "o7" && s == "0" + "o7";
    RunIs("0", "o7");
  }

  lemma ZeroLow(s: string)
    requires s != "" && s[0] == '0'
    ensures Lower(s) != "" && Lower(s)[0] == '0'
  {
  }

  lemma NoRun(s: string)
    requires s != "" && !('0' <= s[0] <= '9')
    ensures DigitRun(s) == 0
  {
  }

  lemma NotInteger(s: string)
    requires s != "" && s[0] != '+' && s[0] != '-' && exists k :: 0 <= k < |s| && DigitValue(s[k]).None?
    ensures !IsInteger(s)
  {
  }
}
