/** Scalars of the YAML output: how the renderer prints them, and how the reader
    of the comparison script takes them. */
module YamlText {
  import opened Common
  import opened Strings

  /** A structured value. A number is its JSON literal. */
  datatype Value =
    | Null
    | Bool(truth: bool)
    | Number(literal: string)
    | Text(text: string)
    | List(items: seq<Value>)
    | Map(entries: seq<Entry>)

  datatype Entry = Entry(key: string, value: Value)

  predicate IsScalar(v: Value) {
    !v.List? && !v.Map?
  }

  // ----- Number syntax -----

  /** How many characters from `k` on are decimal digits. */
  function DigitRun(s: string): (n: nat)
    ensures n <= |s|
  {
    if s == "" || !('0' <= s[0] <= '9') then 0 else 1 + DigitRun(s[1..])
  }

  predicate IsExponent(s: string) {
    s == "" ||
    ((s[0] == 'e' || s[0] == 'E') &&
     var digits := if |s| > 1 && (s[1] == '+' || s[1] == '-') then s[2..] else s[1..];
     digits != "" && DigitRun(digits) == |digits|)
  }

  /** A JSON number (RFC 8259 section 6). */
  predicate IsJsonNumber(s: string) {
    var t := if s != "" && s[0] == '-' then s[1..] else s;
    var n := DigitRun(t);
    && n > 0 && (t[0] == '0' ==> n == 1)
    && var rest := t[n..];
       if rest != "" && rest[0] == '.' then DigitRun(rest[1..]) > 0 && IsExponent(rest[1 + DigitRun(rest[1..])..])
       else IsExponent(rest)
  }

  /** A floating point literal of the standard library. */
  predicate IsFloat(s: string) {
    var t := if s != "" && (s[0] == '+' || s[0] == '-') then s[1..] else s;
    || Lower(t) == "inf" || Lower(t) == "infinity" || Lower(t) == "nan"
    || var n := DigitRun(t);
       var rest := t[n..];
       if rest != "" && rest[0] == '.' then
         n + DigitRun(rest[1..]) > 0 && IsExponent(rest[1 + DigitRun(rest[1..])..])
       else n > 0 && IsExponent(rest)
  }

  /** A signed 64-bit integer literal. */
  predicate IsInteger(s: string) {
    var t := if s != "" && (s[0] == '+' || s[0] == '-') then s[1..] else s;
    && t != "" && AreDigits(t, 10)
    && DigitsValue(t, 10) < 0x8000_0000_0000_0000 + if s[0] == '-' then 1 else 0
  }

  predicate IsYamlNumber(s: string) {
    var trimmed := Trim(s);
    && trimmed != ""
    && var digits := if trimmed[0] == '+' || trimmed[0] == '-' then trimmed[1..] else trimmed;
       && digits != ""
       && (IsInteger(digits) || IsFloat(digits)
           || ("0x" <= digits && ParseNumber(digits[2..], 16, USIZE_LIMIT).Some?))
  }

  // ----- Printing -----

  predicate IsControl(c: char) {
    c as int < 0x20 || 0x7F <= c as int <= 0x9F
  }

  const INDICATORS: string := "-?!*&|>@`{}[],%\"'"
  const RESERVED: seq<string> :=
    ["null", "Null", "NULL", "~", "true", "True", "TRUE", "false", "False", "FALSE"]

  predicate IsPlain(s: string) {
    && s != ""
    && (forall k :: 0 <= k < |s| ==> !IsControl(s[k]) && s[k] != ':' && s[k] != '#')
    && s[0] !in INDICATORS
    && s !in RESERVED
    && !IsYamlNumber(s)
  }

  function EscapeChar(c: char): string {
    if c == '"' then "\\\""
    else if c == '\\' then "\\\\"
    else if c == '\n' then "\\n"
    else if c == '\r' then "\\r"
    else if c == '\t' then "\\t"
    else if c as int == 8 then "\\b"
    else if c as int == 12 then "\\f"
    else if c as int < 0x20 then "\\u00" + [Digit(c as int / 16), Digit(c as int % 16)]
    else [c]
  }

  function Escape(s: string): string {
    if s == "" then "" else EscapeChar(s[0]) + Escape(s[1..])
  }

  function ScalarText(v: Value): string
    requires IsScalar(v)
  {
    match v
    case Null => "null"
    case Bool(truth) => if truth then "true" else "false"
    case Number(literal) => literal
    case Text(s) => if IsPlain(s) then s else "\"" + Escape(s) + "\""
  }

  // ----- Reading -----

  /** What the reader strips: white space and four more control characters. */
  predicate IsBlank(c: char) {
    IsSpace(c) || 0x1C <= c as int <= 0x1F
  }

  function StripStart(s: string): string {
    if s != "" && IsBlank(s[0]) then StripStart(s[1..]) else s
  }

  function StripEnd(s: string): string {
    if s != "" && IsBlank(s[|s| - 1]) then StripEnd(s[..|s| - 1]) else s
  }

  function Strip(s: string): string {
    StripEnd(StripStart(s))
  }

  predicate NoOuterBlank(s: string) {
    s != "" ==> !IsBlank(s[0]) && !IsBlank(s[|s| - 1])
  }

  lemma StripKeeps(s: string)
    requires NoOuterBlank(s)
    ensures Strip(s) == s
  {
    hide IsBlank;
  }

  lemma VisibleKept(s: string)
    requires s != "" && '!' <= s[0] <= '~' && '!' <= s[|s| - 1] <= '~'
    ensures NoOuterBlank(s) && Strip(s) == s
  {
    hide Strip;
    StripKeeps(s);
  }

  /** The inside of a JSON string up to its closing quote, which ends the text. */
  function Unescape(s: string): Option<string> {
    if s == "" then None
    else if s[0] == '"' then if |s| == 1 then Some("") else None
    else if s[0] as int < 0x20 then None
    else if s[0] != '\\' then Prepend(s[0], Unescape(s[1..]))
    else if |s| == 1 then None
    else if s[1] == '"' || s[1] == '\\' || s[1] == '/' then Prepend(s[1], Unescape(s[2..]))
    else if s[1] == 'n' then Prepend('\n', Unescape(s[2..]))
    else if s[1] == 'r' then Prepend('\r', Unescape(s[2..]))
    else if s[1] == 't' then Prepend('\t', Unescape(s[2..]))
    else if s[1] == 'b' then Prepend(8 as char, Unescape(s[2..]))
    else if s[1] == 'f' then Prepend(12 as char, Unescape(s[2..]))
    else if s[1] == 'u' && |s| >= 6 && AreDigits(s[2..6], 16) && DigitsValue(s[2..6], 16) < 0xD800
    then Prepend(DigitsValue(s[2..6], 16) as char, Unescape(s[6..]))
    else None
  }

  function Prepend(c: char, rest: Option<string>): Option<string> {
    if rest.None? then None else Some([c] + rest.value)
  }

  /** What a JSON reader makes of a scalar or of an empty collection. */
  function LoadJson(s: string): Option<Value> {
    if s == "null" then Some(Null)
    else if s == "true" then Some(Bool(true))
    else if s == "false" then Some(Bool(false))
    else if IsJsonNumber(s) || s == "NaN" || s == "Infinity" || s == "-Infinity" then Some(Number(s))
    else if s == "[]" then Some(List([]))
    else if s == "{}" then Some(Map([]))
    else if s != "" && s[0] == '"' then
      match Unescape(s[1..]) case None => None case Some(text) => Some(Text(text))
    else None
  }

  /** Two single quotes stand for one. */
  function HalveQuotes(s: string): string {
    if |s| >= 2 && s[0] == '\'' && s[1] == '\'' then "'" + HalveQuotes(s[2..])
    else if s == "" then ""
    else [s[0]] + HalveQuotes(s[1..])
  }

  /** What the reader takes a scalar for; none if it fails. */
  function Scalar(raw: string): Option<Value> {
    var s := Strip(raw);
    if s == "" || s == "null" || s == "~" then Some(Null)
    else if s == "true" || s == "false" then Some(Bool(s == "true"))
    else if s[0] == '\'' && s[|s| - 1] == '\'' then
      Some(Text(HalveQuotes(if |s| >= 2 then s[1..|s| - 1] else "")))
    else if s[0] == '"' && s[|s| - 1] == '"' then LoadJson(s)
    else
      match LoadJson(s) case None => Some(Text(s)) case Some(v) => Some(v)
  }

  // ----- Plain strings stay strings -----

  lemma StripUnchanged(s: string)
    ensures |Strip(s)| <= |s| && (Strip(s) == s <==> NoOuterBlank(s))
    ensures NoOuterBlank(Strip(s))
  {
    hide IsBlank, StripStart, StripEnd;
    StripStartStops(s);
    StripEndStops(StripStart(s));
    if NoOuterBlank(s) { StripKeeps(s); }
  }

  lemma {:induction false} StripStartStops(s: string)
    ensures |StripStart(s)| <= |s| && (StripStart(s) != "" ==> !IsBlank(StripStart(s)[0]))
    ensures StripStart(s) == s || |StripStart(s)| < |s|
  {
    hide IsBlank;
    if s != "" && IsBlank(s[0]) { StripStartStops(s[1..]); }
  }

  lemma {:induction false} StripEndStops(s: string)
    ensures |StripEnd(s)| <= |s| && (StripEnd(s) != "" ==> !IsBlank(StripEnd(s)[|StripEnd(s)| - 1]))
    ensures StripEnd(s) == s[..|StripEnd(s)|]
  {
    hide IsBlank;
    if s != "" && IsBlank(s[|s| - 1]) {
      StripEndStops(s[..|s| - 1]);
      var n := |StripEnd(s)|;
      assert s[..|s| - 1][..n] == s[..n];
    }
  }

  /** Every JSON number is a number for the renderer. */
  lemma JsonNumberIsYamlNumber(s: string)
    requires IsJsonNumber(s) && s[0] != '-' && NoOuterBlank(s)
    ensures IsYamlNumber(s)
  {
    hide IsExponent;
    TrimKeeps(s);
    assert s[0] != '+' by {
      assert DigitRun(s) > 0;
    }
    assert IsFloat(s);
  }

  lemma JsonWordsAreNumbers()
    ensures IsYamlNumber("NaN") && IsYamlNumber("Infinity")
  {
    TrimKeeps("NaN");
    TrimKeeps("Infinity");
    assert Lower("NaN") == "nan" && Lower("Infinity") == "infinity";
    assert IsFloat("NaN") && IsFloat("Infinity");
  }

  lemma PlainIsNotJson(s: string)
    requires IsPlain(s) && NoOuterBlank(s)
    ensures LoadJson(s) == None
  {
    hide IsYamlNumber, IsJsonNumber, Unescape;
    JsonWordsAreNumbers();
    assert "null" == RESERVED[0] && "true" == RESERVED[4] && "false" == RESERVED[7];
    assert INDICATORS[0] == '-' && INDICATORS[9] == '{' && INDICATORS[11] == '[' && INDICATORS[15] == '"';
    if IsJsonNumber(s) { JsonNumberIsYamlNumber(s); }
  }

  /** A string that is printed plain is read as that string, so never as null, a
      boolean or a number, exactly if it has no outer blanks. */
  lemma PlainIsReadAsText(s: string)
    requires IsPlain(s)
    ensures Scalar(s) == Some(Text(s)) <==> NoOuterBlank(s)
  {
    hide IsYamlNumber, LoadJson, Strip, IsBlank;
    StripUnchanged(s);
    var t := Strip(s);
    if NoOuterBlank(s) {
      PlainIsNotJson(s);
      assert "null" == RESERVED[0] && "~" == RESERVED[3] && "true" == RESERVED[4] && "false" == RESERVED[7];
      assert INDICATORS[15] == '"' && INDICATORS[16] == '\'';
    } else if t != "" {
      LoadedTextIsShorter(t);
      if |t| >= 2 { HalvedIsShorter(t[1..|t| - 1]); }
    }
  }

  lemma {:induction false} HalvedIsShorter(s: string)
    ensures |HalveQuotes(s)| <= |s|
  {
    if |s| >= 2 && s[0] == '\'' && s[1] == '\'' {
      HalvedIsShorter(s[2..]);
    } else if s != "" {
      HalvedIsShorter(s[1..]);
    }
  }

  lemma {:induction false} UnescapedIsShorter(s: string)
    ensures Unescape(s).Some? ==> |Unescape(s).value| <= |s|
  {
    if s != "" {
      UnescapedIsShorter(s[1..]);
      if |s| >= 2 { UnescapedIsShorter(s[2..]); }
      if |s| >= 6 { UnescapedIsShorter(s[6..]); }
    }
  }

  lemma LoadedTextIsShorter(s: string)
    ensures LoadJson(s).Some? && LoadJson(s).value.Text? ==> |LoadJson(s).value.text| < |s|
  {
    hide IsJsonNumber, Unescape;
    if s != "" { UnescapedIsShorter(s[1..]); }
  }
}
