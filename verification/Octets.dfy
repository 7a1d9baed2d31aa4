/** Text as octets: characters below 256 that are meant as UTF-8. */
module Octets {
  import opened Common
  import opened Strings

  // ----- UTF-8 (RFC 3629 section 4) -----

  predicate Tail(s: string, k: nat) {
    k < |s| && 0x80 <= s[k] as int <= 0xBF
  }

  /** The second octet fits the first one of a longer sequence. */
  predicate SecondFits(s: string)
    requires s != ""
  {
    && Tail(s, 1)
    && var b, c := s[0] as int, s[1] as int;
       (b == 0xE0 ==> c >= 0xA0) && (b == 0xED ==> c <= 0x9F) && (b == 0xF0 ==> c >= 0x90) && (b == 0xF4 ==> c <= 0x8F)
  }

  /** The width of the well-formed sequence that `s` starts with, or 0. */
  function Utf8Width(s: string): (w: nat)
    requires s != ""
    ensures w <= |s|
  {
    var b := s[0] as int;
    if b < 0x80 then 1
    else if 0xC2 <= b <= 0xDF && Tail(s, 1) then 2
    else if 0xE0 <= b <= 0xEF && SecondFits(s) && Tail(s, 2) then 3
    else if 0xF0 <= b <= 0xF4 && SecondFits(s) && Tail(s, 2) && Tail(s, 3) then 4
    else 0
  }

  predicate Utf8(s: string)
    decreases |s|
  {
    s == "" || (Utf8Width(s) > 0 && Utf8(s[Utf8Width(s)..]))
  }

  predicate Ascii(s: string) {
    forall k :: 0 <= k < |s| ==> s[k] as int < 0x80
  }

  lemma {:induction false} AsciiIsUtf8(s: string)
    requires Ascii(s)
    ensures Utf8(s)
  {
    if s != "" { AsciiIsUtf8(s[1..]); }
  }

  /** How many octets of an ill-formed start one replacement stands for. */
  function BadWidth(s: string): (w: nat)
    requires s != "" && Utf8Width(s) == 0
    ensures 1 <= w <= |s|
  {
    var b := s[0] as int;
    if 0xE0 <= b <= 0xF4 && SecondFits(s) then if b >= 0xF0 && Tail(s, 2) then 3 else 2
    else 1
  }

  const REPLACEMENT: string := [0xEF as char, 0xBF as char, 0xBD as char]

  /** The lossy conversion: ill-formed parts give way to the replacement character. */
  function Lossy(s: string): string
    decreases |s|
  {
    if s == "" then ""
    else if Utf8Width(s) > 0 then s[..Utf8Width(s)] + Lossy(s[Utf8Width(s)..])
    else REPLACEMENT + Lossy(s[BadWidth(s)..])
  }

  lemma WidthPrefix(s: string, rest: string)
    requires s != "" && Utf8Width(s) > 0
    ensures var head := s[..Utf8Width(s)];
            head != "" && Utf8Width(head + rest) == |head|
  {
    var head := s[..Utf8Width(s)];
    assert forall k :: 0 <= k < |head| ==> (head + rest)[k] == s[k];
  }

  /** The lossy conversion always gives UTF-8, and changes nothing exactly where
      that was given. */
  lemma {:induction false} LossyIsUtf8(s: string)
    ensures Utf8(Lossy(s)) && (Utf8(s) <==> Lossy(s) == s)
    decreases |s|
  {
    hide Utf8Width, BadWidth;
    if s != "" {
      if Utf8Width(s) > 0 {
        var w := Utf8Width(s);
        var later := Lossy(s[w..]);
        LossyIsUtf8(s[w..]);
        WidthPrefix(s, later);
        assert Lossy(s) == s[..w] + later;
        assert (s[..w] + later)[w..] == later;
        assert s[..w] + s[w..] == s;
        if s[..w] + later == s { assert later == s[w..]; }
      } else {
        var later := Lossy(s[BadWidth(s)..]);
        LossyIsUtf8(s[BadWidth(s)..]);
        ReplacementWidth(later);
        assert Lossy(s) == REPLACEMENT + later && (REPLACEMENT + later)[3..] == later;
      }
    }
  }

  /** A line feed ends no sequence and is not changed. */
  lemma WidthLine(s: string)
    requires s != ""
    ensures Utf8Width(s + "\n") == Utf8Width(s)
    ensures Utf8Width(s) == 0 ==> BadWidth(s + "\n") == BadWidth(s)
  {
    var t := s + "\n";
    assert forall k: nat :: Tail(t, k) <==> Tail(s, k);
  }

  lemma {:induction false} LossyLine(s: string)
    requires '\n' !in s
    ensures Lossy(s + "\n") == Lossy(s) + "\n" && '\n' !in Lossy(s)
    decreases |s|
  {
    hide Utf8Width, BadWidth;
    if s == "" {
      LineFeedKept();
    } else {
      WidthLine(s);
      var w := if Utf8Width(s) > 0 then Utf8Width(s) else BadWidth(s);
      assert (s + "\n")[..w] == s[..w] && (s + "\n")[w..] == s[w..] + "\n";
      LossyLine(s[w..]);
    }
  }

  lemma LineFeedKept()
    ensures Lossy("" + "\n") == "\n" && Lossy("") == ""
  {
    assert "\n"[1..] == "" && "\n"[..1] == "\n";
  }

  lemma WidthCut(a: string, b: string)
    requires a != "" && b != "" && !(0x80 <= b[0] as int <= 0xBF) && Utf8Width(a + b) > 0
    ensures Utf8Width(a) == Utf8Width(a + b)
  {
    var s := a + b;
    assert !Tail(s, |a|);
    assert forall k: nat :: k < |a| ==> (Tail(s, k) <==> Tail(a, k));
    assert a[0] == s[0] && (|a| > 1 ==> a[1] == s[1]);
  }

  /** UTF-8 can be cut before an octet that continues no sequence. */
  lemma {:induction false} Utf8Cut(a: string, b: string)
    requires Utf8(a + b) && b != "" && !(0x80 <= b[0] as int <= 0xBF)
    ensures Utf8(a)
    decreases |a|
  {
    hide Utf8Width;
    if a != "" {
      WidthCut(a, b);
      var w := Utf8Width(a);
      assert (a + b)[w..] == a[w..] + b;
      Utf8Cut(a[w..], b);
    }
  }

  lemma {:induction false} Utf8Joins(a: string, b: string)
    requires Utf8(a) && Utf8(b)
    ensures Utf8(a + b)
    decreases |a|
  {
    hide Utf8Width;
    if a == "" {
      assert a + b == b;
    } else {
      var w := Utf8Width(a);
      Utf8Joins(a[w..], b);
      WidthPrefix(a, a[w..] + b);
      assert a[..w] + (a[w..] + b) == a + b;
      assert (a + b)[w..] == a[w..] + b;
    }
  }

  lemma ReplacementWidth(rest: string)
    ensures Utf8Width(REPLACEMENT + rest) == 3
  {
    var s := REPLACEMENT + rest;
    assert s[0] as int == 0xEF && s[1] as int == 0xBF && s[2] as int == 0xBD;
  }

  // ----- White space -----

  /** The encoding of one white space character. */
  predicate Blank(w: string) {
    if |w| == 1 then '\t' <= w[0] <= '\r' || w[0] == ' '
    else if |w| == 2 then w[0] as int == 0xC2 && w[1] as int in {0x85, 0xA0}
    else
      && |w| == 3
      && var a, b, c := w[0] as int, w[1] as int, w[2] as int;
         || (a == 0xE1 && b == 0x9A && c == 0x80)
         || (a == 0xE2 && b == 0x80 && (0x80 <= c <= 0x8A || c in {0xA8, 0xA9, 0xAF}))
         || (a == 0xE2 && b == 0x81 && c == 0x9F)
         || (a == 0xE3 && b == 0x80 && c == 0x80)
  }

  /** The encoding of one character (RFC 3629 section 3). */
  function Utf8Of(c: char): string {
    var n := c as int;
    if n < 0x80 then [c]
    else if n < 0x800 then [(0xC0 + n / 0x40) as char, (0x80 + n % 0x40) as char]
    else if n < 0x1_0000 then
      [(0xE0 + n / 0x1000) as char, (0x80 + n / 0x40 % 0x40) as char, (0x80 + n % 0x40) as char]
    else
      [(0xF0 + n / 0x4_0000) as char, (0x80 + n / 0x1000 % 0x40) as char, (0x80 + n / 0x40 % 0x40) as char,
       (0x80 + n % 0x40) as char]
  }

  function Encoded(s: string): string {
    if s == "" then "" else Encoded(s[..|s| - 1]) + Utf8Of(s[|s| - 1])
  }

  /** The code point of a blank. */
  function BlankChar(w: string): char
    requires Blank(w)
  {
    if |w| == 1 then w[0]
    else if |w| == 2 then (w[1] as int) as char
    else ((w[0] as int - 0xE0) * 0x1000 + (w[1] as int - 0x80) * 0x40 + (w[2] as int - 0x80)) as char
  }

  /** The blanks are the encodings of the white space characters. */
  lemma BlankIsSpace(w: string)
    requires Blank(w)
    ensures IsSpace(BlankChar(w)) && Utf8Of(BlankChar(w)) == w
  {
  }

  lemma SpaceIsBlank(c: char)
    requires IsSpace(c)
    ensures Blank(Utf8Of(c))
  {
  }

  function LeadingBlank(s: string): (n: nat)
    ensures n <= |s|
  {
    if |s| >= 1 && Blank(s[..1]) then 1
    else if |s| >= 2 && Blank(s[..2]) then 2
    else if |s| >= 3 && Blank(s[..3]) then 3
    else 0
  }

  function TrailingBlank(s: string): (n: nat)
    ensures n <= |s|
  {
    if |s| >= 1 && Blank(s[|s| - 1..]) then 1
    else if |s| >= 2 && Blank(s[|s| - 2..]) then 2
    else if |s| >= 3 && Blank(s[|s| - 3..]) then 3
    else 0
  }

  function TrimOctetsStart(s: string): string
    decreases |s|
  {
    if LeadingBlank(s) > 0 then TrimOctetsStart(s[LeadingBlank(s)..]) else s
  }

  function TrimOctetsEnd(s: string): string
    decreases |s|
  {
    if TrailingBlank(s) > 0 then TrimOctetsEnd(s[..|s| - TrailingBlank(s)]) else s
  }

  function TrimOctets(s: string): string {
    TrimOctetsEnd(TrimOctetsStart(s))
  }

  /** Where the first word ends. */
  function WordEnd(s: string): (k: nat)
    ensures k <= |s|
  {
    if s == "" || LeadingBlank(s) > 0 then 0 else 1 + WordEnd(s[1..])
  }

  predicate Unspaced(s: string) {
    LeadingBlank(s) == 0 && TrailingBlank(s) == 0
  }

  lemma UnspacedKept(s: string)
    requires Unspaced(s)
    ensures TrimOctetsStart(s) == s && TrimOctets(s) == s
  {
  }

  lemma {:induction false} StartTrimmed(s: string)
    ensures var t := TrimOctetsStart(s);
            LeadingBlank(t) == 0 && |t| <= |s| && t == s[|s| - |t|..] && (Utf8(s) ==> Utf8(t))
    decreases |s|
  {
    hide LeadingBlank, Utf8;
    var n := LeadingBlank(s);
    if n > 0 {
      StartTrimmed(s[n..]);
      BlankIsUtf8(s);
      var t := TrimOctetsStart(s);
      assert s[n..][|s| - n - |t|..] == s[|s| - |t|..];
    }
  }

  lemma BlankIsUtf8(s: string)
    requires LeadingBlank(s) > 0
    ensures Utf8(s) ==> Utf8(s[LeadingBlank(s)..])
  {
    assert Utf8Width(s) == LeadingBlank(s);
  }

  lemma {:induction false} EndTrimmed(s: string)
    ensures var t := TrimOctetsEnd(s);
            TrailingBlank(t) == 0 && t <= s && (Utf8(s) ==> Utf8(t))
    decreases |s|
  {
    hide TrailingBlank, Utf8;
    var n := TrailingBlank(s);
    if n > 0 {
      EndTrimmed(s[..|s| - n]);
      TrailingBlankCut(s);
    }
  }

  lemma TrailingBlankCut(s: string)
    requires TrailingBlank(s) > 0
    ensures Utf8(s) ==> Utf8(s[..|s| - TrailingBlank(s)])
  {
    hide Utf8, Blank, TrailingBlank;
    var n := TrailingBlank(s);
    var blank := s[|s| - n..];
    TrailingIsBlank(s);
    BlankBegins(blank);
    assert s == s[..|s| - n] + blank;
    if Utf8(s) { Utf8Cut(s[..|s| - n], blank); }
  }

  lemma TrailingIsBlank(s: string)
    requires TrailingBlank(s) > 0
    ensures Blank(s[|s| - TrailingBlank(s)..])
  {
    hide Blank;
  }

  lemma BlankBegins(w: string)
    requires Blank(w)
    ensures w != "" && !(0x80 <= w[0] as int <= 0xBF)
  {
  }

  lemma BlankPrefix(s: string, t: string)
    requires t <= s && LeadingBlank(s) == 0
    ensures LeadingBlank(t) == 0
  {
    assert forall k :: 0 <= k <= |t| ==> t[..k] == s[..k];
  }

  /** Trimming leaves a part without outer white space, and UTF-8 if it was given. */
  lemma Trimmed(s: string)
    ensures Unspaced(TrimOctets(s)) && (Utf8(s) ==> Utf8(TrimOctets(s)))
  {
    hide LeadingBlank, TrailingBlank, TrimOctetsStart, TrimOctetsEnd, Utf8;
    StartTrimmed(s);
    EndTrimmed(TrimOctetsStart(s));
    BlankPrefix(TrimOctetsStart(s), TrimOctets(s));
  }

  /** A line end is trimmed off. */
  lemma LineTrimmed(s: string)
    requires '\n' !in s
    ensures '\n' !in TrimOctets(s) && '\n' !in TrimOctets(s + "\n")
  {
    hide TrimOctetsStart, TrimOctetsEnd, LeadingBlank, TrailingBlank, Utf8;
    StartTrimmed(s);
    EndTrimmed(TrimOctetsStart(s));
    var line := s + "\n";
    var t := TrimOctetsStart(line);
    StartTrimmed(line);
    EndTrimmed(t);
    if t != "" {
      var rest := s[|line| - |t|..];
      assert t == rest + "\n";
      BlankAfter(rest, '\n');
      EndTrimmed(rest);
    }
  }

  /** A line end after a text without outer white space. */
  lemma UnspacedLine(s: string)
    requires s != "" && Unspaced(s)
    ensures TrimOctets(s + "\n") == s
  {
    hide TrimOctetsStart, TrimOctetsEnd, LeadingBlank, TrailingBlank;
    UnspacedKept(s);
    BlankAfter(s, '\n');
    StillUnspaced(s);
  }

  lemma StillUnspaced(s: string)
    requires s != "" && LeadingBlank(s) == 0
    ensures LeadingBlank(s + "\n") == 0 && TrimOctetsStart(s + "\n") == s + "\n"
  {
    var t := s + "\n";
    assert forall k :: 0 <= k <= |s| ==> t[..k] == s[..k];
    assert t[|s|] == '\n';
  }

  /** An ASCII character other than white space. */
  predicate Solid(c: char) {
    '!' <= c <= '~'
  }

  lemma SolidEnds(s: string)
    requires s != "" && Solid(s[0]) && Solid(s[|s| - 1])
    ensures Unspaced(s)
  {
  }

  lemma BlankBefore(s: string)
    ensures TrimOctetsStart(" " + s) == TrimOctetsStart(s)
  {
    assert (" " + s)[..1] == " " && (" " + s)[1..] == s;
  }

  lemma BlankAfter(s: string, c: char)
    requires c == '\n' || c == '\r'
    ensures TrimOctetsEnd(s + [c]) == TrimOctetsEnd(s)
  {
    var t := s + [c];
    assert t[|t| - 1..] == [c] && t[..|t| - 1] == s;
  }

  /** A line end after a text that ends solidly. */
  lemma LineEndTrimmed(text: string)
    requires text != "" && Solid(text[0]) && Solid(text[|text| - 1])
    ensures TrimOctets(text + "\n") == text && TrimOctets(text + "\r\n") == text
  {
    hide TrimOctetsStart, TrimOctetsEnd, LeadingBlank, TrailingBlank;
    SolidEnds(text);
    UnspacedKept(text);
    SolidStart(text, "\n");
    SolidStart(text, "\r\n");
    BlankAfter(text, '\n');
    BlankAfter(text, '\r');
    BlankAfter(text + "\r", '\n');
    assert text + "\r\n" == (text + "\r") + "\n";
  }

  lemma SolidStart(text: string, rest: string)
    requires text != "" && Solid(text[0])
    ensures TrimOctetsStart(text + rest) == text + rest
  {
    var s := text + rest;
    assert s[0] == text[0];
  }

  lemma {:induction false} WordStops(word: string, rest: string)
    requires forall k :: 0 <= k < |word| ==> Solid(word[k])
    requires LeadingBlank(rest) > 0 || rest == ""
    ensures WordEnd(word + rest) == |word|
  {
    if word == "" {
      assert word + rest == rest;
    } else {
      assert (word + rest)[1..] == word[1..] + rest;
      assert (word + rest)[0] == word[0];
      WordStops(word[1..], rest);
    }
  }

  // ----- Trimming encoded white space -----

  lemma {:induction false} EncodedAppends(a: string, b: string)
    ensures Encoded(a + b) == Encoded(a) + Encoded(b)
  {
    hide Utf8Of;
    if b == "" {
      assert a + b == a;
    } else {
      assert (a + b)[..|a + b| - 1] == a + b[..|b| - 1];
      EncodedAppends(a, b[..|b| - 1]);
    }
  }

  lemma EncodedOne(c: char)
    ensures Encoded([c]) == Utf8Of(c)
  {
    hide Utf8Of;
    assert [c][..0] == "";
  }

  /** A blank at the start is found as such, whatever follows. */
  lemma BlankLeads(w: string, rest: string)
    requires Blank(w)
    ensures LeadingBlank(w + rest) == |w|
  {
    var s := w + rest;
    assert forall k :: 0 <= k <= |w| ==> s[..k] == w[..k];
    assert w[..|w|] == w;
  }

  lemma BlankTrails(rest: string, w: string)
    requires Blank(w)
    ensures TrailingBlank(rest + w) == |w|
  {
    var s := rest + w;
    assert s[|s| - |w|..] == w;
    if |w| > 1 {
      var last := s[|s| - 1..];
      assert last == [w[|w| - 1]] && !Blank(last);
      if |w| > 2 {
        var two := s[|s| - 2..];
        assert two == [w[1], w[2]] && !Blank(two);
      }
    }
  }

  lemma {:induction false} SpacesLead(a: string, rest: string)
    requires AllSpace(a)
    ensures TrimOctetsStart(Encoded(a) + rest) == TrimOctetsStart(rest)
  {
    hide IsSpace, Utf8Of, LeadingBlank, Blank;
    if a == "" {
      assert Encoded(a) + rest == rest;
    } else {
      var w := Utf8Of(a[0]);
      SpaceIsBlank(a[0]);
      EncodedAppends([a[0]], a[1..]);
      EncodedOne(a[0]);
      assert [a[0]] + a[1..] == a;
      var tail := Encoded(a[1..]) + rest;
      assert Encoded(a) + rest == w + tail;
      BlankLeads(w, tail);
      BlankBegins(w);
      assert (w + tail)[|w|..] == tail;
      SpacesLead(a[1..], rest);
    }
  }

  lemma {:induction false} SpacesTrail(rest: string, b: string)
    requires AllSpace(b)
    ensures TrimOctetsEnd(rest + Encoded(b)) == TrimOctetsEnd(rest)
  {
    hide IsSpace, Utf8Of, TrailingBlank, Blank;
    if b == "" {
      assert rest + Encoded(b) == rest;
    } else {
      var front, w := rest + Encoded(b[..|b| - 1]), Utf8Of(b[|b| - 1]);
      SpaceIsBlank(b[|b| - 1]);
      assert rest + Encoded(b) == front + w;
      BlankTrails(front, w);
      BlankBegins(w);
      assert (front + w)[..|front|] == front;
      SpacesTrail(rest, b[..|b| - 1]);
    }
  }

  predicate Continues(c: char) {
    0x80 <= c as int <= 0xBF
  }

  /** What does not begin with a blank does not before more characters either. */
  lemma StillNoBlank(text: string, more: string)
    requires text != "" && LeadingBlank(text) == 0 && (more == "" || !Continues(more[0]))
    ensures LeadingBlank(text + more) == 0
  {
    var s := text + more;
    assert forall k :: 0 <= k <= |text| ==> s[..k] == text[..k];
    if more != "" { assert s[|text|] == more[0]; }
  }

  lemma {:induction false} SpacesBegin(a: string)
    requires AllSpace(a)
    ensures Encoded(a) == "" || !Continues(Encoded(a)[0])
  {
    hide Utf8Of, IsSpace, Blank;
    if a != "" {
      SpacesBegin(a[..|a| - 1]);
      SpaceIsBlank(a[|a| - 1]);
      BlankBegins(Utf8Of(a[|a| - 1]));
    }
  }

  /** White space in any encoding around a text is trimmed off. */
  lemma SpacesTrimmed(a: string, text: string, b: string)
    requires AllSpace(a) && AllSpace(b) && Unspaced(text)
    ensures TrimOctets(Encoded(a) + text + Encoded(b)) == text
  {
    hide IsSpace, LeadingBlank, TrailingBlank, TrimOctetsEnd, Encoded, Continues;
    var tail := Encoded(b);
    UnspacedKept(text);
    SpacesLead(a, text + tail);
    assert Encoded(a) + text + tail == Encoded(a) + (text + tail);
    if text == "" {
      assert text + tail == tail && tail + "" == tail;
      SpacesLead(b, "");
      assert TrimOctetsStart("") == "" && TrimOctetsEnd("") == "" by { UnspacedKept(""); }
    } else {
      SpacesBegin(b);
      StillNoBlank(text, tail);
      SpacesTrail(text, b);
    }
  }

  lemma OnlySpacesTrimmed(a: string)
    requires AllSpace(a)
    ensures TrimOctets(Encoded(a)) == ""
  {
    hide IsSpace, TrimOctetsStart, TrimOctetsEnd, Encoded;
    SpacesLead(a, "");
    assert Encoded(a) + "" == Encoded(a);
    assert TrimOctetsStart("") == "" && TrimOctetsEnd("") == "" by { UnspacedKept(""); }
  }

  lemma SpaceBefore(w: string, a: string) returns (longer: string)
    requires Blank(w) && AllSpace(a)
    ensures AllSpace(longer) && Encoded(longer) == w + Encoded(a)
  {
    hide Utf8Of, Blank, IsSpace, Encoded;
    longer := [BlankChar(w)] + a;
    BlankIsSpace(w);
    EncodedAppends([BlankChar(w)], a);
    EncodedOne(BlankChar(w));
  }

  lemma SpaceBehind(a: string, w: string) returns (longer: string)
    requires Blank(w) && AllSpace(a)
    ensures AllSpace(longer) && Encoded(longer) == Encoded(a) + w
  {
    hide Utf8Of, Blank, IsSpace, Encoded;
    longer := a + [BlankChar(w)];
    BlankIsSpace(w);
    EncodedAppends(a, [BlankChar(w)]);
    EncodedOne(BlankChar(w));
  }

  lemma {:induction false} StartMeans(s: string) returns (a: string)
    ensures AllSpace(a) && s == Encoded(a) + TrimOctetsStart(s)
    decreases |s|
  {
    hide AllSpace, Blank, Encoded;
    a := "";
    EncodedNothing();
    if LeadingBlank(s) > 0 {
      var n := LeadingBlank(s);
      var more := StartMeans(s[n..]);
      a := SpaceBefore(s[..n], more);
      Regroup(s[..n], Encoded(more), TrimOctetsStart(s[n..]));
      assert s == s[..n] + s[n..];
    }
  }

  lemma EncodedNothing()
    ensures Encoded("") == "" && AllSpace("")
  {
  }

  lemma {:induction false} EndMeans(s: string) returns (b: string)
    ensures AllSpace(b) && s == TrimOctetsEnd(s) + Encoded(b)
    decreases |s|
  {
    hide AllSpace, Blank, Encoded, TrailingBlank;
    b := "";
    EncodedNothing();
    if TrailingBlank(s) > 0 {
      var n := |s| - TrailingBlank(s);
      TrailingIsBlank(s);
      var more := EndMeans(s[..n]);
      b := SpaceBehind(more, s[n..]);
      Regroup(TrimOctetsEnd(s[..n]), Encoded(more), s[n..]);
      assert s == s[..n] + s[n..];
    }
  }

  /** Nothing but encoded white space is trimmed off. */
  lemma TrimmedOnlySpaces(s: string) returns (a: string, b: string)
    ensures AllSpace(a) && AllSpace(b) && s == Encoded(a) + TrimOctets(s) + Encoded(b)
  {
    hide IsSpace, TrimOctetsStart, TrimOctetsEnd, Encoded;
    a := StartMeans(s);
    b := EndMeans(TrimOctetsStart(s));
  }

  /** `inner` with white space around it. */
  ghost predicate Around(s: string, inner: string) {
    exists a, b :: AllSpace(a) && AllSpace(b) && s == Encoded(a) + inner + Encoded(b)
  }

  /** Trimming takes off exactly the outer white space. */
  lemma AroundExactly(s: string, inner: string)
    requires Unspaced(inner)
    ensures TrimOctets(s) == inner <==> Around(s, inner)
  {
    hide AllSpace, Encoded, TrimOctets, Unspaced;
    if TrimOctets(s) == inner {
      var a, b := TrimmedOnlySpaces(s);
    }
    if a, b :| AllSpace(a) && AllSpace(b) && s == Encoded(a) + inner + Encoded(b) {
      SpacesTrimmed(a, inner, b);
    }
  }

  // ----- UTF-8 is the encoding of characters -----

  /** The first character of a well-formed sequence. */
  function FirstChar(s: string): char
    requires s != "" && Utf8Width(s) > 0
  {
    var w, a := Utf8Width(s), s[0] as int;
    if w == 1 then s[0]
    else if w == 2 then ((a - 0xC0) * 0x40 + (s[1] as int - 0x80)) as char
    else if w == 3 then ((a - 0xE0) * 0x1000 + (s[1] as int - 0x80) * 0x40 + (s[2] as int - 0x80)) as char
    else ((a - 0xF0) * 0x4_0000 + (s[1] as int - 0x80) * 0x1000 + (s[2] as int - 0x80) * 0x40
          + (s[3] as int - 0x80)) as char
  }

  lemma Sextet(q: int, r: int)
    requires 0 <= r < 0x40
    ensures (q * 0x40 + r) / 0x40 == q && (q * 0x40 + r) % 0x40 == r
  {
  }

  lemma Sextets(a: int, b: int, c: int, d: int)
    requires 0 <= b < 0x40 && 0 <= c < 0x40 && 0 <= d < 0x40 && a >= 0
    ensures var n := a * 0x4_0000 + b * 0x1000 + c * 0x40 + d;
            n / 0x4_0000 == a && n / 0x1000 % 0x40 == b && n / 0x40 % 0x40 == c && n % 0x40 == d
            && (a == 0 ==> n / 0x1000 == b && (b == 0 ==> n / 0x40 == c))
  {
    var n := a * 0x4_0000 + b * 0x1000 + c * 0x40 + d;
    Sextet(a * 0x1000 + b * 0x40 + c, d);
    Sextet(a * 0x40 + b, c);
    Sextet(a, b);
    assert n / 0x40 == a * 0x1000 + b * 0x40 + c;
    assert n / 0x1000 == n / 0x40 / 0x40 && n / 0x4_0000 == n / 0x1000 / 0x40;
  }

  lemma FirstCharEncodes(s: string)
    requires s != "" && Utf8Width(s) > 0
    ensures Utf8Of(FirstChar(s)) == s[..Utf8Width(s)]
  {
    var w := Utf8Width(s);
    if w == 2 {
      PairEncodes(FirstChar(s), s[0] as int - 0xC0, s[1] as int - 0x80);
    } else if w == 3 {
      TripleFirst(s);
    } else if w == 4 {
      QuadFirst(s);
    }
  }

  lemma TripleFirst(s: string)
    requires s != "" && Utf8Width(s) == 3
    ensures Utf8Of(FirstChar(s)) == s[..3]
  {
    hide Utf8Of;
    TripleEncodes(FirstChar(s), s[0] as int - 0xE0, s[1] as int - 0x80, s[2] as int - 0x80);
  }

  lemma QuadFirst(s: string)
    requires s != "" && Utf8Width(s) == 4
    ensures Utf8Of(FirstChar(s)) == s[..4]
  {
    hide Utf8Of;
    QuadEncodes(FirstChar(s), s[0] as int - 0xF0, s[1] as int - 0x80, s[2] as int - 0x80, s[3] as int - 0x80);
  }

  lemma PairEncodes(ch: char, a: int, b: int)
    requires 2 <= a < 0x20 && 0 <= b < 0x40 && ch as int == a * 0x40 + b
    ensures Utf8Of(ch) == [(0xC0 + a) as char, (0x80 + b) as char]
  {
    Sextets(0, 0, a, b);
  }

  lemma TripleEncodes(ch: char, a: int, b: int, c: int)
    requires 0 <= a < 0x10 && 0 <= b < 0x40 && 0 <= c < 0x40 && ch as int == a * 0x1000 + b * 0x40 + c >= 0x800
    ensures Utf8Of(ch) == [(0xE0 + a) as char, (0x80 + b) as char, (0x80 + c) as char]
  {
    Sextets(0, a, b, c);
  }

  lemma QuadEncodes(ch: char, a: int, b: int, c: int, d: int)
    requires 0 <= a <= 4 && 0 <= b < 0x40 && 0 <= c < 0x40 && 0 <= d < 0x40
    requires ch as int == a * 0x4_0000 + b * 0x1000 + c * 0x40 + d >= 0x1_0000
    ensures Utf8Of(ch) == [(0xF0 + a) as char, (0x80 + b) as char, (0x80 + c) as char, (0x80 + d) as char]
  {
    Sextets(a, b, c, d);
  }

  lemma CharWidth(c: char, rest: string)
    ensures Utf8Of(c) != "" && Utf8Width(Utf8Of(c) + rest) == |Utf8Of(c)|
  {
    var w := Utf8Of(c);
    var s := w + rest;
    assert s[0] == w[0] && (|w| > 1 ==> s[1] == w[1]) && (|w| > 2 ==> s[2] == w[2]) && (|w| > 3 ==> s[3] == w[3]);
  }

  lemma {:induction false} EncodedIsUtf8(text: string)
    ensures Utf8(Encoded(text))
    decreases |text|
  {
    hide Utf8Of, Encoded, Utf8Width;
    if text == "" {
      EncodedNothing();
    } else {
      EncodedIsUtf8(text[1..]);
      EncodedAppends([text[0]], text[1..]);
      EncodedOne(text[0]);
      assert [text[0]] + text[1..] == text;
      var w, rest := Utf8Of(text[0]), Encoded(text[1..]);
      CharWidth(text[0], rest);
      assert (w + rest)[|w|..] == rest;
    }
  }

  lemma {:induction false} Utf8Decodes(s: string) returns (text: string)
    requires Utf8(s)
    ensures Encoded(text) == s
    decreases |s|
  {
    hide Utf8Of, Encoded, Utf8Width, FirstChar;
    if s == "" {
      text := "";
      EncodedNothing();
    } else {
      var w := Utf8Width(s);
      var later := Utf8Decodes(s[w..]);
      text := [FirstChar(s)] + later;
      FirstCharEncodes(s);
      EncodedAppends([FirstChar(s)], later);
      EncodedOne(FirstChar(s));
      assert s == s[..w] + s[w..];
    }
  }

  /** The well-formed octets are exactly the encodings of texts. */
  lemma Utf8Exactly(s: string)
    ensures Utf8(s) <==> exists text :: s == Encoded(text)
  {
    hide Utf8, Encoded;
    if Utf8(s) {
      var text := Utf8Decodes(s);
    }
    if text :| s == Encoded(text) { EncodedIsUtf8(text); }
  }
}
