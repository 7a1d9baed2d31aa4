/** Digest headers as lists of fields: reading a challenge field by field, and what a
    server that knows the password makes of the answer (RFC 7616 section 3.4). */
module DigestFields {
  import opened Common
  import opened Strings
  import opened DigestHeader

  /** One `key=value`, with any white space around its four boundaries. */
  datatype Field = Field(lead: string, key: string, gap: string, inset: string, value: string, quoted: bool,
                         trail: string) {
    function ValueText(): string {
      if quoted then "\"" + value + "\"" else value
    }

    function KeyText(): string {
      lead + key + gap
    }

    function Text(): string {
      KeyText() + "=" + (inset + ValueText() + trail)
    }
  }

  /** The fields with commas between them. */
  function ListText(fields: seq<Field>): string {
    if fields == [] then ""
    else if |fields| == 1 then fields[0].Text()
    else fields[0].Text() + ("," + ListText(fields[1..]))
  }

  /** The last value given for a key, or nothing. */
  function Last(fields: seq<Field>, key: string): string {
    if fields == [] then ""
    else if fields[|fields| - 1].key == key then fields[|fields| - 1].value
    else Last(fields[..|fields| - 1], key)
  }

  predicate Plain(s: string) {
    '"' !in s
  }

  predicate Unspaced(s: string) {
    s != "" ==> !IsSpace(s[0]) && !IsSpace(s[|s| - 1])
  }

  /** A field whose text neither ends the quotation nor runs into the next field. */
  predicate Regular(f: Field) {
    && AllSpace(f.lead) && AllSpace(f.gap) && AllSpace(f.inset) && AllSpace(f.trail)
    && Plain(f.key) && ',' !in f.key && '=' !in f.key && Unspaced(f.key)
    && Plain(f.value) && (!f.quoted ==> ',' !in f.value && Unspaced(f.value))
  }

  ghost predicate AllRegular(fields: seq<Field>) {
    forall f <- fields :: Regular(f)
  }

  // ----- Splitting -----

  lemma SpaceIsPlain(s: string)
    requires AllSpace(s)
    ensures Plain(s) && ',' !in s && '=' !in s
  {
    assert !IsSpace('"') && !IsSpace(',') && !IsSpace('=');
  }

  /** Text without quotes, and without commas unless quoted, goes to the current part. */
  lemma {:induction false} PlainRun(text: string, rest: string, quoted: bool)
    requires Plain(text) && (quoted || ',' !in text)
    ensures var parts := Parts(rest, quoted);
            Parts(text + rest, quoted) == [text + parts[0]] + parts[1..]
  {
    var parts := Parts(rest, quoted);
    if text == "" {
      assert text + rest == rest && "" + parts[0] == parts[0];
    } else {
      assert (text + rest)[1..] == text[1..] + rest;
      PlainRun(text[1..], rest, quoted);
      assert [text[0]] + (text[1..] + parts[0]) == text + parts[0];
    }
  }

  lemma QuoteRun(rest: string, quoted: bool)
    ensures var parts := Parts(rest, !quoted);
            Parts("\"" + rest, quoted) == [['"'] + parts[0]] + parts[1..]
  {
    assert ("\"" + rest)[1..] == rest;
  }

  /** A value, quoted or not, goes to the current part. */
  lemma ValueRun(f: Field, rest: string)
    requires Regular(f)
    ensures var parts := Parts(rest, false);
            Parts(f.ValueText() + rest, false) == [f.ValueText() + parts[0]] + parts[1..]
  {
    hide Parts;
    var parts := Parts(rest, false);
    if f.quoted {
      var closed := "\"" + rest;
      QuoteRun(rest, true);
      PlainRun(f.value, closed, true);
      QuoteRun(f.value + closed, false);
      assert f.ValueText() + rest == "\"" + (f.value + closed);
      assert ['"'] + (f.value + (['"'] + parts[0])) == f.ValueText() + parts[0];
    } else {
      PlainRun(f.value, rest, false);
    }
  }

  lemma FieldRun(f: Field, rest: string)
    requires Regular(f)
    ensures var parts := Parts(rest, false);
            Parts(f.Text() + rest, false) == [f.Text() + parts[0]] + parts[1..]
  {
    hide Parts, AllSpace, Unspaced;
    var parts := Parts(rest, false);
    var start := f.lead + f.key + f.gap + "=" + f.inset;
    SpaceIsPlain(f.lead);
    SpaceIsPlain(f.gap);
    SpaceIsPlain(f.inset);
    SpaceIsPlain(f.trail);
    PlainRun(f.trail, rest, false);
    ValueRun(f, f.trail + rest);
    PlainRun(start, f.ValueText() + (f.trail + rest), false);
    assert f.Text() + rest == start + (f.ValueText() + (f.trail + rest));
    assert f.Text() + parts[0] == start + (f.ValueText() + (f.trail + parts[0]));
  }

  function Texts(fields: seq<Field>): seq<string> {
    if fields == [] then [] else [fields[0].Text()] + Texts(fields[1..])
  }

  lemma CommaRun(rest: string)
    ensures Parts("", false) == [""] && Parts("," + rest, false) == [""] + Parts(rest, false)
  {
    assert ("," + rest)[1..] == rest;
  }

  lemma {:induction false} ListSplits(fields: seq<Field>)
    requires fields != [] && AllRegular(fields)
    ensures Parts(ListText(fields), false) == Texts(fields)
    decreases |fields|
  {
    hide Regular, Parts, Field.Text;
    var text := fields[0].Text();
    CommaRun("");
    if |fields| == 1 {
      FieldRun(fields[0], "");
      assert text + "" == text;
    } else {
      var rest := ListText(fields[1..]);
      CommaRun(rest);
      ListSplits(fields[1..]);
      FieldRun(fields[0], "," + rest);
      assert text + "" == text;
    }
  }

  lemma {:induction false} TextsEnd(fields: seq<Field>)
    requires fields != []
    ensures |Texts(fields)| == |fields| && Texts(fields)[|fields| - 1] != ""
    decreases |fields|
  {
    if |fields| > 1 { TextsEnd(fields[1..]); }
  }

  // ----- Reading a field -----

  lemma {:induction false} TrimQuoted(value: string)
    requires Plain(value)
    ensures TrimQuotes("\"" + value + "\"") == value && TrimQuotes(value) == value
  {
    var s := "\"" + value + "\"";
    assert s[1..] == value + "\"";
    if value == "" {
      assert "\""[1..] == "";
      assert TrimQuotes("\"") == TrimQuotes("");
    } else {
      assert value[0] in value && value[|value| - 1] in value;
      assert (value + "\"")[..|value|] == value;
      assert TrimQuotes(s) == TrimQuotes(value + "\"") == TrimQuotes(value);
    }
  }

  lemma TrimsTo(before: string, s: string, after: string)
    requires AllSpace(before) && AllSpace(after) && Unspaced(s)
    ensures Trim(before + s + after) == s
  {
    hide Trim, AllSpace, IsSpace;
    TrimExactly(before + s + after, s);
  }

  lemma QuoteUnspaced(f: Field)
    requires Regular(f)
    ensures Unspaced(f.ValueText())
  {
    assert !IsSpace('"');
  }

  lemma FieldApplies(c: Challenge, f: Field)
    requires Regular(f)
    ensures ApplyPart(c, f.Text()) == SetField(c, f.key, f.value)
  {
    hide SetField, Find, TrimQuotes, Trim, AllSpace, Unspaced;
    var value := f.inset + f.ValueText() + f.trail;
    SpaceIsPlain(f.lead);
    SpaceIsPlain(f.gap);
    assert f.Text() == f.KeyText() + "=" + value;
    FindFirst(f.KeyText(), "=", value);
    assert f.Text()[..|f.KeyText()|] == f.KeyText() && f.Text()[|f.KeyText()| + 1..] == value;
    TrimsTo(f.lead, f.key, f.gap);
    QuoteUnspaced(f);
    TrimsTo(f.inset, f.ValueText(), f.trail);
    TrimQuoted(f.value);
  }

  /** The challenge that the fields describe: for each name the last value. */
  function Described(fields: seq<Field>): Challenge {
    Challenge(Last(fields, "realm"), Last(fields, "nonce"), Last(fields, "qop"), Last(fields, "algorithm"),
              Last(fields, "opaque"))
  }

  lemma {:induction false} FieldsApply(fields: seq<Field>)
    requires AllRegular(fields)
    ensures ApplyParts(EMPTY, Texts(fields)) == Described(fields)
    decreases |fields|
  {
    hide Regular, ApplyPart, ApplyParts, Texts;
    if fields == [] {
      AppliesNothing();
    } else {
      var front, last := fields[..|fields| - 1], fields[|fields| - 1];
      FieldsApply(front);
      TextsAppend(front, last);
      assert front + [last] == fields;
      ApplyAppends(EMPTY, Texts(front), last.Text());
      FieldApplies(Described(front), last);
    }
  }

  lemma AppliesNothing()
    ensures Texts([]) == [] && ApplyParts(EMPTY, []) == EMPTY
  {
  }

  lemma {:induction false} TextsAppend(front: seq<Field>, last: Field)
    ensures Texts(front + [last]) == Texts(front) + [last.Text()]
    decreases |front|
  {
    hide Field.Text;
    if front != [] {
      assert (front + [last])[1..] == front[1..] + [last];
      TextsAppend(front[1..], last);
    }
  }

  lemma {:induction false} ApplyAppends(c: Challenge, parts: seq<string>, last: string)
    ensures ApplyParts(c, parts + [last]) == ApplyPart(ApplyParts(c, parts), last)
    decreases |parts|
  {
    hide ApplyPart;
    if parts != [] {
      assert (parts + [last])[1..] == parts[1..] + [last];
      ApplyAppends(ApplyPart(c, parts[0]), parts[1..], last);
    }
  }

  /** A challenge is read field by field: in any order, with any white space around
      keys and values, quoted or not, with other fields between them and another
      scheme before, and commas inside quotes. */
  lemma ChallengeReads(before: string, fields: seq<Field>)
    requires 'D' !in before && fields != [] && AllRegular(fields)
    ensures ParseChallenge(before + "Digest " + ListText(fields)) == (Described(fields), Last(fields, "nonce") != "")
  {
    hide Parts, ApplyParts, ListText, Texts, Find, AllRegular, Last;
    var list := ListText(fields);
    FindFirst(before, "Digest ", list);
    assert (before + "Digest " + list)[|before| + 7..] == list;
    ListSplits(fields);
    TextsEnd(fields);
    FieldsApply(fields);
  }

  /** Without the scheme there is no challenge. */
  lemma NoChallenge(header: string)
    requires 'D' !in header
    ensures ParseChallenge(header) == (Challenge("", "", "", "", ""), false)
  {
    FindNone(header, "Digest ");
  }

  // ----- What the server makes of an answer -----

  /** One of the comma separated options reads `auth`. */
  ghost predicate Offers(qop: string) {
    exists a, option, b ::
      && qop == a + option + b && ',' !in option && TrimmedTo(option, "auth")
      && (a == "" || a[|a| - 1] == ',') && (b == "" || b[0] == ',')
  }

  /** Eight hexadecimal digits in lower case. */
  predicate CountIs(text: string, count: nat) {
    && |text| == 8 && (forall k :: 0 <= k < 8 ==> '0' <= text[k] <= '9' || 'a' <= text[k] <= 'f')
    && AreDigits(text, 16) && DigitsValue(text, 16) == count
  }

  /** The server's own computation from the fields it received and the password it
      knows: the response of RFC 7616 section 3.4.1, in the older form without `qop`. */
  ghost predicate Recomputes(fields: seq<Field>, password: string, verb: string, md5: string -> string) {
    var secret := md5(Last(fields, "username") + ":" + Last(fields, "realm") + ":" + password);
    var request := md5(verb + ":" + Last(fields, "uri"));
    var nonce := Last(fields, "nonce");
    Last(fields, "response") ==
    if Last(fields, "qop") == "" then md5(secret + ":" + nonce + ":" + request)
    else md5(secret + ":" + nonce + ":" + Last(fields, "nc") + ":" + Last(fields, "cnonce") + ":"
             + Last(fields, "qop") + ":" + request)
  }

  /** The header answers the challenge for this request: it names the user, returns
      what the challenge gave, counts if `auth` is offered, and proves the password. */
  ghost predicate Authorizes(header: string, c: Challenge, a: Answer, md5: string -> string) {
    exists fields ::
      && fields != [] && header == "Digest " + ListText(fields)
      && (Printable(c, a, md5) ==> AllRegular(fields))
      && Last(fields, "username") == a.user && Last(fields, "uri") == a.uri
      && Last(fields, "realm") == c.realm && Last(fields, "nonce") == c.nonce && Last(fields, "opaque") == c.token
      && (if Offers(c.qop)
          then
            && Last(fields, "qop") == "auth" && CountIs(Last(fields, "nc"), a.count)
            && Last(fields, "cnonce") == a.cnonce
          else Last(fields, "qop") == "")
      && Recomputes(fields, a.password, a.verb, md5)
  }

  /** No text that is put between quotes holds a quote. */
  ghost predicate Printable(c: Challenge, a: Answer, md5: string -> string) {
    && Plain(c.realm) && Plain(c.nonce) && Plain(c.token) && Plain(a.user) && Plain(a.uri) && Plain(a.cnonce)
    && forall s :: Plain(md5(s))
  }

  lemma OptionsOffer(qop: string)
    ensures OffersAuth(qop) <==> Offers(qop)
  {
    hide Split, Trim, TrimmedTo;
    var options := Split(qop, ',');
    if k: nat :| k < |options| && Trim(options[k]) == "auth" {
      var a, b := SplitWithin(qop, ',', k);
      TrimExactly(options[k], "auth");
    }
    if a, option, b :|
      && qop == a + option + b && ',' !in option && TrimmedTo(option, "auth")
      && (a == "" || a[|a| - 1] == ',') && (b == "" || b[0] == ',') {
      SplitAmong(a, option, b, ',');
      TrimExactly(option, "auth");
      var k :| 0 <= k < |options| && options[k] == option;
    }
  }

  lemma CountSays(count: nat)
    requires count <= COUNT_MAX
    ensures CountIs(CountText(count), count)
  {
    hide AreDigits, DigitsValue, Digit;
    var digits := Numeral(count, 16);
    NumeralValue(count, 16);
    SixteenToTheEighth();
    NumeralShort(count, 16, 8);
    ZerosAddNothing(8 - |digits|, digits);
    LowerDigits(count);
  }

  lemma {:induction false} LowerDigits(n: nat)
    ensures forall k :: 0 <= k < |Numeral(n, 16)| ==> '0' <= Numeral(n, 16)[k] <= '9' || 'a' <= Numeral(n, 16)[k] <= 'f'
  {
    if n >= 16 { LowerDigits(n / 16); }
  }

  lemma {:induction false} ZerosAddNothing(count: nat, digits: string)
    requires AreDigits(digits, 16)
    ensures AreDigits(Zeros(count) + digits, 16)
    ensures DigitsValue(Zeros(count) + digits, 16) == DigitsValue(digits, 16)
    decreases |digits|, count
  {
    var text := Zeros(count) + digits;
    forall k | 0 <= k < |text| ensures DigitValue(text[k]).Some? && DigitValue(text[k]).value < 16 {
      if k >= count { assert text[k] == digits[k - count]; }
    }
    if digits != "" {
      assert text[..|text| - 1] == Zeros(count) + digits[..|digits| - 1];
      ZerosAddNothing(count, digits[..|digits| - 1]);
    } else if count > 0 {
      assert text[..|text| - 1] == Zeros(count - 1) + "";
      ZerosAddNothing(count - 1, "");
    }
  }

  lemma SixteenToTheEighth()
    ensures Power(16, 8) == COUNT_MAX + 1
  {
    assert Power(16, 4) == 65536;
    assert Power(16, 8) == 16 * (16 * (16 * (16 * Power(16, 4))));
  }

  // ----- The printed header -----

  function FieldOf(p: Part, lead: string): Field {
    Field(lead, p.key, "", "", p.value, p.quoted, "")
  }

  /** The printed parts as fields: all but the first with a blank before the key. */
  function Fields(parts: seq<Part>, lead: string): seq<Field> {
    if parts == [] then [] else [FieldOf(parts[0], lead)] + Fields(parts[1..], " ")
  }

  lemma Bare(lead: string, key: string, value: string)
    ensures (lead + key + "") + "=" + ("" + value + "") == lead + (key + "=" + value)
  {
    assert lead + key + "" == lead + key && "" + value + "" == value;
  }

  lemma PrintedPart(p: Part, lead: string)
    ensures FieldOf(p, lead).Text() == lead + p.Text()
  {
    Bare(lead, p.key, FieldOf(p, lead).ValueText());
  }

  lemma {:induction false} PrintedList(parts: seq<Part>, lead: string)
    requires parts != []
    ensures ListText(Fields(parts, lead)) == lead + Joined(parts)
    decreases |parts|
  {
    hide Part.Text, Field.Text;
    var fields := Fields(parts, lead);
    PrintedPart(parts[0], lead);
    if |parts| > 1 {
      PrintedList(parts[1..], " ");
      assert fields[1..] == Fields(parts[1..], " ");
      assert fields[0].Text() + ("," + (" " + Joined(parts[1..])))
          == lead + (parts[0].Text() + ", " + Joined(parts[1..]));
    }
  }

  predicate WellFormed(p: Part) {
    && KeyLetters(p.key) && Plain(p.value) && (!p.quoted ==> ',' !in p.value && Unspaced(p.value))
  }

  predicate KeyLetters(key: string) {
    key != "" && forall k :: 0 <= k < |key| ==> 'a' <= key[k] <= 'z'
  }

  lemma {:induction false} FieldsRegular(parts: seq<Part>, lead: string)
    requires AllSpace(lead) && forall p <- parts :: WellFormed(p)
    ensures AllRegular(Fields(parts, lead))
    decreases |parts|
  {
    hide WellFormed, Regular;
    if parts != [] {
      PartRegular(parts[0], lead);
      assert AllSpace(" ") by { assert IsSpace(' '); }
      FieldsRegular(parts[1..], " ");
    }
  }

  lemma PartRegular(p: Part, lead: string)
    requires AllSpace(lead) && WellFormed(p)
    ensures Regular(FieldOf(p, lead))
  {
  }

  lemma {:induction false} FieldsAt(parts: seq<Part>, lead: string)
    ensures |Fields(parts, lead)| == |parts|
    ensures forall k :: 0 <= k < |parts| ==>
              Fields(parts, lead)[k].key == parts[k].key && Fields(parts, lead)[k].value == parts[k].value
    decreases |parts|
  {
    if parts != [] { FieldsAt(parts[1..], " "); }
  }

  lemma {:induction false} LastOnly(fields: seq<Field>, key: string, value: string, k: nat)
    requires k < |fields| && fields[k].key == key && fields[k].value == value
    requires forall j :: k < j < |fields| ==> fields[j].key != key
    ensures Last(fields, key) == value
    decreases |fields|
  {
    if k < |fields| - 1 { LastOnly(fields[..|fields| - 1], key, value, k); }
  }

  lemma {:induction false} LastNone(fields: seq<Field>, key: string)
    requires forall f <- fields :: f.key != key
    ensures Last(fields, key) == ""
    decreases |fields|
  {
    if fields != [] { LastNone(fields[..|fields| - 1], key); }
  }

  lemma HeaderWellFormed(c: Challenge, a: Answer, md5: string -> string)
    requires Printable(c, a, md5) && a.count <= COUNT_MAX
    ensures forall p <- HeaderParts(c, a, md5) :: WellFormed(p)
  {
    hide OffersAuth, CountText, ResponseText, Plain, Unspaced, CountIs;
    ResponseHashed(c, a, md5);
    CountSays(a.count);
    CountPlain(CountText(a.count), a.count);
    AuthPlain();
  }

  lemma ResponseHashed(c: Challenge, a: Answer, md5: string -> string)
    requires forall s :: Plain(md5(s))
    ensures Plain(ResponseText(c, a, md5))
  {
  }

  lemma CountPlain(text: string, count: nat)
    requires CountIs(text, count)
    ensures Plain(text) && ',' !in text && Unspaced(text)
  {
  }

  lemma AuthPlain()
    ensures Plain("auth") && ',' !in "auth" && Unspaced("auth")
  {
  }

  lemma HeaderKeys(c: Challenge, a: Answer, md5: string -> string)
    ensures var parts := HeaderParts(c, a, md5);
            && |parts| >= 5 && parts[0].key == "username" && parts[1].key == "realm" && parts[2].key == "nonce"
            && parts[3].key == "uri" && parts[4].key == "response"
            && (forall k :: 5 <= k < |parts| ==> parts[k].key in {"qop", "nc", "cnonce", "opaque"})
            && parts[0].value == a.user && parts[1].value == c.realm && parts[2].value == c.nonce
            && parts[3].value == a.uri && parts[4].value == ResponseText(c, a, md5)
            && (c.token == "" ==> forall part <- parts :: part.key != "opaque")
            && (c.token != "" ==> parts[|parts| - 1].key == "opaque" && parts[|parts| - 1].value == c.token)
  {
    hide OffersAuth, CountText, ResponseText;
  }

  lemma KeysDiffer()
    ensures var late := {"qop", "nc", "cnonce", "opaque"};
            "username" !in late && "realm" !in late && "nonce" !in late && "uri" !in late && "response" !in late
    ensures "username" != "realm" && "username" != "nonce" && "username" != "uri" && "username" != "response"
    ensures "realm" != "nonce" && "realm" != "uri" && "realm" != "response"
    ensures "nonce" != "uri" && "nonce" != "response" && "uri" != "response"
  {
    assert "nonce"[0] != "realm"[0];
  }

  lemma FirstValues(c: Challenge, a: Answer, md5: string -> string)
    ensures var fields := Fields(HeaderParts(c, a, md5), "");
            && Last(fields, "username") == a.user && Last(fields, "realm") == c.realm
            && Last(fields, "nonce") == c.nonce
  {
    hide OffersAuth, CountText, ResponseText, Last, Fields, HeaderParts;
    var fields := Fields(HeaderParts(c, a, md5), "");
    HeaderKeys(c, a, md5);
    KeysDiffer();
    FieldsAt(HeaderParts(c, a, md5), "");
    LastOnly(fields, "username", a.user, 0);
    LastOnly(fields, "realm", c.realm, 1);
    LastOnly(fields, "nonce", c.nonce, 2);
  }

  /** What the server finds under each name. */
  lemma HeaderValues(c: Challenge, a: Answer, md5: string -> string)
    ensures var fields := Fields(HeaderParts(c, a, md5), "");
            && Last(fields, "username") == a.user && Last(fields, "realm") == c.realm
            && Last(fields, "nonce") == c.nonce && Last(fields, "uri") == a.uri
            && Last(fields, "response") == ResponseText(c, a, md5) && Last(fields, "opaque") == c.token
  {
    hide OffersAuth, CountText, ResponseText, Last, Fields, HeaderParts;
    var fields := Fields(HeaderParts(c, a, md5), "");
    FirstValues(c, a, md5);
    HeaderKeys(c, a, md5);
    KeysDiffer();
    FieldsAt(HeaderParts(c, a, md5), "");
    LastOnly(fields, "uri", a.uri, 3);
    LastOnly(fields, "response", ResponseText(c, a, md5), 4);
    if c.token != "" {
      LastOnly(fields, "opaque", c.token, |fields| - 1);
    } else {
      LastNone(fields, "opaque");
    }
  }

  lemma HeaderCounts(c: Challenge, a: Answer, md5: string -> string)
    ensures var fields := Fields(HeaderParts(c, a, md5), "");
            if OffersAuth(c.qop)
            then Last(fields, "qop") == "auth" && Last(fields, "nc") == CountText(a.count)
                 && Last(fields, "cnonce") == a.cnonce
            else Last(fields, "qop") == ""
  {
    hide OffersAuth, CountText, ResponseText, Last, Fields;
    var parts := HeaderParts(c, a, md5);
    var fields := Fields(parts, "");
    FieldsAt(parts, "");
    if OffersAuth(c.qop) {
      LastOnly(fields, "qop", "auth", 5);
      LastOnly(fields, "nc", CountText(a.count), 6);
      LastOnly(fields, "cnonce", a.cnonce, 7);
    } else {
      LastNone(fields, "qop");
    }
  }

  /** Every printed header answers its challenge. */
  lemma HeaderAuthorizes(c: Challenge, a: Answer, md5: string -> string)
    requires a.count <= COUNT_MAX
    ensures Authorizes(Header(c, a, md5), c, a, md5)
  {
    hide Printable, AllRegular, CountIs, OffersAuth, Offers, CountText, Joined, ListText, Fields, Last, HeaderParts;
    var parts := HeaderParts(c, a, md5);
    var fields := Fields(parts, "");
    HeaderShape(c, a, md5);
    PrintedList(parts, "");
    assert "" + Joined(parts) == Joined(parts);
    if Printable(c, a, md5) {
      HeaderWellFormed(c, a, md5);
      FieldsRegular(parts, "");
    }
    HeaderValues(c, a, md5);
    HeaderCounts(c, a, md5);
    OptionsOffer(c.qop);
    CountSays(a.count);
    Proven(fields, c, a, md5);
  }

  lemma Proven(fields: seq<Field>, c: Challenge, a: Answer, md5: string -> string)
    requires Last(fields, "username") == a.user && Last(fields, "realm") == c.realm
    requires Last(fields, "nonce") == c.nonce && Last(fields, "uri") == a.uri
    requires Last(fields, "response") == ResponseText(c, a, md5)
    requires if OffersAuth(c.qop)
             then Last(fields, "qop") == "auth" && Last(fields, "nc") == CountText(a.count)
                  && Last(fields, "cnonce") == a.cnonce
             else Last(fields, "qop") == ""
    ensures Recomputes(fields, a.password, a.verb, md5)
  {
    hide Last, OffersAuth, CountText;
    var secret, request := md5(a.user + ":" + c.realm + ":" + a.password), md5(a.verb + ":" + a.uri);
    var start := secret + ":" + c.nonce + ":" + CountText(a.count) + ":" + a.cnonce;
    if OffersAuth(c.qop) {
      assert start + ":auth:" + request == start + ":" + "auth" + ":" + request by {
        assert ":" + "auth" + ":" == ":auth:";
      }
    }
  }

  lemma HeaderShape(c: Challenge, a: Answer, md5: string -> string)
    ensures HeaderParts(c, a, md5) != [] && Fields(HeaderParts(c, a, md5), "") != []
    ensures Header(c, a, md5) == "Digest " + Joined(HeaderParts(c, a, md5))
  {
  }

  /** Parsing a printed header returns the realm, the nonce and the opaque token,
      commas inside the quotes included. */
  lemma HeaderReadsBack(c: Challenge, a: Answer, md5: string -> string)
    requires Printable(c, a, md5) && a.count <= COUNT_MAX
    ensures ParseChallenge(Header(c, a, md5))
            == (Challenge(c.realm, c.nonce, if OffersAuth(c.qop) then "auth" else "", "", c.token), c.nonce != "")
  {
    hide Printable, AllRegular, OffersAuth, ParseChallenge, CountText, Joined, ListText, Fields, Last, HeaderParts,
      WellFormed;
    var parts := HeaderParts(c, a, md5);
    var fields := Fields(parts, "");
    HeaderShape(c, a, md5);
    PrintedList(parts, "");
    assert "" + "Digest " + ListText(fields) == "Digest " + Joined(parts);
    HeaderWellFormed(c, a, md5);
    FieldsRegular(parts, "");
    HeaderValues(c, a, md5);
    HeaderCounts(c, a, md5);
    NoAlgorithm(c, a, md5);
    ChallengeReads("", fields);
  }

  lemma NoAlgorithm(c: Challenge, a: Answer, md5: string -> string)
    ensures Last(Fields(HeaderParts(c, a, md5), ""), "algorithm") == ""
  {
    hide OffersAuth, CountText, ResponseText, Last, Fields;
    FieldsAt(HeaderParts(c, a, md5), "");
    LastNone(Fields(HeaderParts(c, a, md5), ""), "algorithm");
  }
}
