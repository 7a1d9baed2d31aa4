/** Which lines are header fields and chunk sizes, said character by character: names
    are tokens (RFC 9110 section 5.6.2), values hold no control character but the tab. */
module HttpField {
  import opened Common
  import opened Octets
  import opened Strings
  import opened HttpHead
  import opened HttpResponse

  predicate TokenChar(c: char) {
    'a' <= c <= 'z' || 'A' <= c <= 'Z' || '0' <= c <= '9' || c in "!#$%&'*+-.^_`|~"
  }

  predicate Token(name: string) {
    name != "" && forall k :: 0 <= k < |name| ==> TokenChar(name[k])
  }

  predicate Uncontrolled(value: string) {
    forall k :: 0 <= k < |value| ==> value[k] as int == 9 || (value[k] as int >= 32 && value[k] as int != 127)
  }

  /** The line is a token, a colon and a value, with white space around the two; the
      field has the name in lower case. */
  ghost predicate IsField(line: string, f: Field) {
    exists before, name, after ::
      && line == before + ":" + after && Around(before, name) && Around(after, f.value)
      && Token(name) && SameLetters(f.name, name) && NoCapitals(f.name)
      && Uncontrolled(f.value) && Unspaced(f.value)
  }

  lemma NameCharExactly(c: char)
    ensures NameChar(LowerChar(c)) <==> TokenChar(c)
    ensures TokenChar(c) ==> Solid(c) && c != ':'
  {
    assert "!#$%&'*+-.^_`|~" == ['!', '#', '$', '%', '&', '\'', '*', '+', '-', '.', '^', '_', '`', '|', '~'];
  }

  lemma NamesExactly(name: string)
    ensures ValidName(Lower(name)) <==> Token(name)
    ensures Token(name) ==> ':' !in name && Unspaced(name)
  {
    hide NameChar, LowerChar, Solid, TokenChar, Unspaced;
    forall k | 0 <= k < |name|
      ensures NameChar(Lower(name)[k]) <==> TokenChar(name[k])
      ensures TokenChar(name[k]) ==> Solid(name[k]) && name[k] != ':'
    {
      NameCharExactly(name[k]);
    }
    if Token(name) { SolidEnds(name); }
  }

  lemma ValuesExactly(value: string)
    ensures ValidValue(value) <==> Uncontrolled(value)
  {
  }

  lemma {:induction false} FoundFirst(s: string, word: char)
    ensures Find(s, [word]).Some? ==>
              var k := Find(s, [word]).value; k < |s| && s[k] == word && word !in s[..k]
    ensures Find(s, [word]).None? ==> word !in s
  {
    if s != "" && !([word] <= s) {
      FoundFirst(s[1..], word);
      assert s == [s[0]] + s[1..];
      if Find(s[1..], [word]).Some? {
        var k := Find(s[1..], [word]).value;
        assert s[..k + 1] == [s[0]] + s[1..][..k];
      }
    }
  }

  lemma {:induction false} NoColonInSpace(a: string)
    requires AllSpace(a)
    ensures ':' !in Encoded(a)
  {
    hide Utf8Of, IsSpace;
    if a != "" {
      NoColonInSpace(a[..|a| - 1]);
      SpaceNoColon(a[|a| - 1]);
    }
  }

  lemma SpaceNoColon(c: char)
    requires IsSpace(c)
    ensures ':' !in Utf8Of(c)
  {
  }

  lemma NoColonAround(before: string, name: string)
    requires Around(before, name) && ':' !in name
    ensures ':' !in before
  {
    hide AllSpace, Encoded;
    var a, b :| AllSpace(a) && AllSpace(b) && before == Encoded(a) + name + Encoded(b);
    NoColonInSpace(a);
    NoColonInSpace(b);
  }

  /** Exactly these lines are accepted as fields, each as this field. */
  lemma FieldExactly(line: string, f: Field)
    ensures ParseField(line) == Some(f) <==> IsField(line, f)
  {
    hide ParseField, IsField;
    if ParseField(line) == Some(f) { ParsedIsField(line, f); }
    if IsField(line, f) { FieldParses(line, f); }
  }

  lemma ParsedIsField(line: string, f: Field)
    requires ParseField(line) == Some(f)
    ensures IsField(line, f)
  {
    hide Find, Lower, TrimOctets, Around, Token, Uncontrolled, ValidName, ValidValue, Unspaced, SameLetters, NoCapitals;
    FoundFirst(line, ':');
    assert ":" == [':'];
    var k := Find(line, ":").value;
    var name := TrimOctets(line[..k]);
    Trimmed(line[k + 1..]);
    NamesExactly(name);
    ValuesExactly(f.value);
    LowerMeans(name);
    AroundExactly(line[..k], name);
    AroundExactly(line[k + 1..], f.value);
    assert line == line[..k] + ":" + line[k + 1..];
  }

  lemma FieldParses(line: string, f: Field)
    requires IsField(line, f)
    ensures ParseField(line) == Some(f)
  {
    hide Find, Lower, TrimOctets, Around, Token, Uncontrolled, ValidName, ValidValue, Unspaced, SameLetters, NoCapitals;
    var before, name, after :|
      && line == before + ":" + after && Around(before, name) && Around(after, f.value)
      && Token(name) && SameLetters(f.name, name) && NoCapitals(f.name)
      && Uncontrolled(f.value) && Unspaced(f.value);
    NamesExactly(name);
    ValuesExactly(f.value);
    NoColonAround(before, name);
    FindFirst(before, ":", after);
    assert line[..|before|] == before && line[|before| + 1..] == after;
    AroundExactly(before, name);
    AroundExactly(after, f.value);
    LowerExactly(f.name, name);
    LowerStays(f.name);
  }

  // ----- Chunk sizes -----

  /** The line gives the size: before a semicolon or the end, with white space around
      it, a hexadecimal number below 2^64, with `0x` before it or not. */
  ghost predicate GivesSize(line: string, n: nat) {
    exists text, size, digits ::
      && (line == text || exists extension :: line == text + ";" + extension) && ';' !in text
      && Around(text, size) && (size == digits || size == "0x" + digits)
      && Spelled(digits, 16, n) && n < 0x1_0000_0000_0000_0000
  }

  lemma PrefixIsNoDigit(s: string, n: nat)
    requires Spelled(s, 16, n)
    ensures s != "" && !("0x" <= s) && Solid(s[0]) && Solid(s[|s| - 1])
  {
    hide DigitsValue;
    var digits :| (s == digits || s == "+" + digits) && digits != "" && AreDigits(digits, 16);
    assert DigitValue(digits[0]).Some? && DigitValue(digits[|digits| - 1]).Some?;
    if |s| > 1 {
      assert s[1] == if s == digits then digits[1] else digits[0];
      assert DigitValue(s[1]).Some? && s[1] != 'x' == "0x"[1];
    }
  }

  lemma FirstPartOf(line: string)
    ensures var text := Split(line, ';')[0];
            ';' !in text && (line == text || exists extension :: line == text + ";" + extension)
    ensures forall text :: ';' !in text && (line == text || exists extension :: line == text + ";" + extension) ==>
              text == Split(line, ';')[0]
  {
    hide Split;
    var a, b := SplitWithin(line, ';', 0);
    if b != "" { assert line == Split(line, ';')[0] + ";" + b[1..]; }
    forall text | ';' !in text && (line == text || exists extension :: line == text + ";" + extension)
      ensures text == Split(line, ';')[0]
    {
      if line == text {
        SplitNone(line, ';');
      } else {
        var extension :| line == text + ";" + extension;
        SplitPart(text, extension, ';');
        assert line == text + ([';'] + extension);
      }
    }
  }

  /** Exactly these lines are read as chunk sizes. */
  lemma SizeExactly(line: string, n: nat)
    ensures ChunkSize(line) == Some(n) <==> GivesSize(line, n)
  {
    hide Split, ParseNumber, Spelled, Around, TrimOctets, Unspaced, Solid;
    var text := Split(line, ';')[0];
    var size := TrimOctets(text);
    FirstPartOf(line);
    Trimmed(text);
    AroundExactly(text, size);
    var digits := if "0x" <= size then size[2..] else size;
    SpelledExactly(digits, 16, n, USIZE_LIMIT);
    if ChunkSize(line) == Some(n) { assert size == digits || size == "0x" + digits; }
    if GivesSize(line, n) { GivenSize(line, n, text, size); }
  }

  lemma GivenSize(line: string, n: nat, text: string, size: string)
    requires GivesSize(line, n) && text == Split(line, ';')[0] && size == TrimOctets(text)
    ensures Spelled(if "0x" <= size then size[2..] else size, 16, n) && n < 0x1_0000_0000_0000_0000
  {
    hide Split, Spelled, Around, TrimOctets, Unspaced;
    var t, given, digits :|
      && (line == t || exists extension :: line == t + ";" + extension) && ';' !in t
      && Around(t, given) && (given == digits || given == "0x" + digits)
      && Spelled(digits, 16, n) && n < 0x1_0000_0000_0000_0000;
    FirstPartOf(line);
    PrefixIsNoDigit(digits, n);
    assert Solid(given[0]) && given[|given| - 1] == digits[|digits| - 1];
    SolidEnds(given);
    AroundExactly(t, given);
    if given == "0x" + digits { assert given[2..] == digits; }
  }
}
