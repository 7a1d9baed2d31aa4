/** Text helpers of the standard library that several modules parse with.
    Letter case is that of ASCII. */
module Strings {
  import opened Common

  const USIZE_LIMIT: nat := 0x1_0000_0000_0000_0000

  /** The white space characters of Unicode. */
  predicate IsSpace(c: char) {
    || c == ' ' || '\t' <= c <= '\r'
    || c as int in {0x85, 0xA0, 0x1680, 0x2028, 0x2029, 0x202F, 0x205F, 0x3000}
    || 0x2000 <= c as int <= 0x200A
  }

  function TrimStart(s: string): string {
    if s != "" && IsSpace(s[0]) then TrimStart(s[1..]) else s
  }

  function TrimEnd(s: string): string {
    if s != "" && IsSpace(s[|s| - 1]) then TrimEnd(s[..|s| - 1]) else s
  }

  function Trim(s: string): string {
    TrimEnd(TrimStart(s))
  }

  lemma TrimKeeps(s: string)
    requires s != "" ==> !IsSpace(s[0]) && !IsSpace(s[|s| - 1])
    ensures Trim(s) == s
  {
  }

  predicate AllSpace(s: string) {
    forall k :: 0 <= k < |s| ==> IsSpace(s[k])
  }

  /** `t` is what is left of `s` without outer white space. */
  ghost predicate TrimmedTo(s: string, t: string) {
    && (t != "" ==> !IsSpace(t[0]) && !IsSpace(t[|t| - 1]))
    && exists a, b :: AllSpace(a) && AllSpace(b) && s == a + t + b
  }

  lemma {:induction false} TrimStartMeans(s: string) returns (a: string)
    ensures AllSpace(a) && s == a + TrimStart(s) && (TrimStart(s) != "" ==> !IsSpace(TrimStart(s)[0]))
  {
    hide IsSpace;
    if s != "" && IsSpace(s[0]) {
      var more := TrimStartMeans(s[1..]);
      a := [s[0]] + more;
      assert s == [s[0]] + s[1..];
    } else {
      a := "";
    }
  }

  lemma {:induction false} TrimEndMeans(s: string) returns (b: string)
    ensures AllSpace(b) && s == TrimEnd(s) + b && TrimEnd(s) <= s
    ensures TrimEnd(s) != "" ==> !IsSpace(TrimEnd(s)[|TrimEnd(s)| - 1])
  {
    hide IsSpace;
    if s != "" && IsSpace(s[|s| - 1]) {
      var more := TrimEndMeans(s[..|s| - 1]);
      b := more + [s[|s| - 1]];
      assert s == s[..|s| - 1] + [s[|s| - 1]];
    } else {
      b := "";
      assert s + "" == s;
    }
  }

  lemma TrimMeans(s: string)
    ensures TrimmedTo(s, Trim(s))
  {
    hide IsSpace, AllSpace, TrimStart, TrimEnd;
    var t := TrimStart(s);
    var u := TrimEnd(t);
    var a := TrimStartMeans(s);
    var b := TrimEndMeans(t);
    assert s == a + u + b by { assert s == a + (u + b); }
    if u != "" { assert u[0] == t[0]; }
  }

  lemma TrimUnique(s: string, t: string, u: string)
    requires TrimmedTo(s, t) && TrimmedTo(s, u)
    ensures t == u
  {
    hide IsSpace;
    var a, b :| AllSpace(a) && AllSpace(b) && s == a + t + b;
    var c, d :| AllSpace(c) && AllSpace(d) && s == c + u + d;
    EndsAgree(s, a, t, b, c, u, d);
    EndsAgree(s, c, u, d, a, t, b);
  }

  lemma EndsAgree(s: string, a: string, t: string, b: string, c: string, u: string, d: string)
    requires s == a + t + b == c + u + d && AllSpace(a) && AllSpace(b) && AllSpace(c) && AllSpace(d)
    requires t != "" ==> !IsSpace(t[0]) && !IsSpace(t[|t| - 1])
    ensures t != "" ==> u != "" && |c| <= |a| && |d| <= |b|
    ensures |c| == |a| && |d| == |b| ==> t == u
  {
    hide IsSpace;
    forall k | 0 <= k < |c| ensures IsSpace(s[k]) { assert s[k] == c[k]; }
    forall k | |s| - |d| <= k < |s| ensures IsSpace(s[k]) { assert s[k] == d[k - (|s| - |d|)]; }
    if t != "" { assert s[|a|] == t[0] && s[|a| + |t| - 1] == t[|t| - 1]; }
    if |c| == |a| && |d| == |b| {
      assert s[|a|..|a| + |t|] == t && s[|c|..|c| + |u|] == u;
    }
  }

  /** Trimming takes off exactly the outer white space. */
  lemma TrimExactly(s: string, t: string)
    ensures Trim(s) == t <==> TrimmedTo(s, t)
  {
    hide Trim, TrimmedTo;
    TrimMeans(s);
    if TrimmedTo(s, t) { TrimUnique(s, t, Trim(s)); }
  }

  lemma BlankExactly(s: string)
    ensures Trim(s) == "" <==> AllSpace(s)
  {
    hide Trim, AllSpace;
    TrimExactly(s, "");
    if AllSpace(s) {
      assert s + "" + "" == s && AllSpace("") by { SpaceJoins("", ""); }
    }
    if TrimmedTo(s, "") {
      var a, b :| AllSpace(a) && AllSpace(b) && s == a + "" + b;
      SpaceJoins(a, b);
      assert s == a + b;
    }
  }

  lemma SpaceJoins(a: string, b: string)
    ensures AllSpace("")
    ensures AllSpace(a) && AllSpace(b) ==> AllSpace(a + b)
  {
  }

  function LowerChar(c: char): char {
    if 'A' <= c <= 'Z' then ((c as int) + 32) as char else c
  }

  function Lower(s: string): string {
    seq(|s|, k requires 0 <= k < |s| => LowerChar(s[k]))
  }

  /** The same text up to the case of ASCII letters. */
  predicate SameLetters(a: string, b: string) {
    |a| == |b| && forall k :: 0 <= k < |a| ==> SameLetter(a[k], b[k])
  }

  predicate SameLetter(a: char, b: char) {
    a == b || ('A' <= a <= 'Z' && b as int == a as int + 32) || ('A' <= b <= 'Z' && a as int == b as int + 32)
  }

  lemma LowerExactly(a: string, b: string)
    ensures Lower(a) == Lower(b) <==> SameLetters(a, b)
  {
    forall k | 0 <= k < |a| && k < |b| ensures Lower(a)[k] == Lower(b)[k] <==> SameLetter(a[k], b[k]) {}
  }

  predicate NoCapitals(s: string) {
    forall k :: 0 <= k < |s| ==> !('A' <= s[k] <= 'Z')
  }

  lemma LowerStays(s: string)
    requires NoCapitals(s)
    ensures Lower(s) == s
  {
  }

  lemma LowerMeans(s: string)
    ensures SameLetters(Lower(s), s) && NoCapitals(Lower(s))
  {
  }

  /** The parts of `s` between the separators; at least one. */
  function Split(s: string, separator: char): (parts: seq<string>)
    ensures |parts| > 0
  {
    if s == "" then [""]
    else
      var rest := Split(s[1..], separator);
      if s[0] == separator then [""] + rest else [[s[0]] + rest[0]] + rest[1..]
  }

  /** Where `word` first occurs. */
  function Find(s: string, word: string): (r: Option<nat>)
    ensures r.Some? ==> r.value + |word| <= |s|
  {
    if word <= s then Some(0)
    else if s == "" then None
    else
      match Find(s[1..], word)
      case None => None
      case Some(k) => Some(k + 1)
  }

  lemma {:induction false} FindFirst(before: string, word: string, after: string)
    requires word != "" && word[0] !in before
    ensures Find(before + word + after, word) == Some(|before|)
  {
    var s := before + word + after;
    if before == "" {
      assert word <= s;
    } else {
      FindFirst(before[1..], word, after);
      assert s[1..] == before[1..] + word + after;
      assert s[0] == before[0];
    }
  }

  lemma {:induction false} FindNone(s: string, word: string)
    requires word != "" && word[0] !in s
    ensures Find(s, word) == None
  {
    if s != "" { FindNone(s[1..], word); }
  }

  lemma SplitStep(c: char, rest: string, separator: char)
    ensures var parts := Split(rest, separator);
            Split([c] + rest, separator) == if c == separator then [""] + parts else [[c] + parts[0]] + parts[1..]
  {
    assert ([c] + rest)[1..] == rest;
  }

  lemma SplitEmpty(separator: char)
    ensures Split("", separator) == [""]
  {
  }

  lemma {:induction false} SplitNone(s: string, separator: char)
    requires separator !in s
    ensures Split(s, separator) == [s]
  {
    hide Split;
    if s == "" {
      SplitEmpty(separator);
    } else {
      SplitNone(s[1..], separator);
      SplitStep(s[0], s[1..], separator);
      assert [s[0]] + s[1..] == s;
    }
  }

  lemma FirstExtends(c: char, parts: seq<string>, more: seq<string>)
    requires |parts| > 0
    ensures (parts + more)[0] == parts[0] && (parts + more)[1..] == parts[1..] + more
    ensures [[c] + (parts + more)[0]] + (parts + more)[1..] == ([[c] + parts[0]] + parts[1..]) + more
    ensures [""] + (parts + more) == ([""] + parts) + more
  {
  }

  lemma {:induction false} SplitAppends(a: string, b: string, separator: char)
    ensures Split(a + ([separator] + b), separator) == Split(a, separator) + Split(b, separator)
  {
    hide Split;
    var tail := [separator] + b;
    if a == "" {
      SplitStep(separator, b, separator);
      SplitEmpty(separator);
      assert a + tail == tail;
    } else {
      var c, rest := a[0], a[1..];
      assert [c] + rest == a;
      SplitAppends(rest, b, separator);
      SplitStep(c, rest, separator);
      Regroup([c], rest, tail);
      SplitStep(c, rest + tail, separator);
      FirstExtends(c, Split(rest, separator), Split(b, separator));
    }
  }

  /** A part without separators stands for itself, before whatever follows. */
  lemma SplitPart(part: string, rest: string, separator: char)
    requires separator !in part
    ensures Split(part, separator) == [part]
    ensures Split(part + ([separator] + rest), separator) == [part] + Split(rest, separator)
  {
    hide Split;
    SplitNone(part, separator);
    SplitAppends(part, rest, separator);
  }

  /** Where a part stands in the text. */
  lemma {:induction false} SplitWithin(s: string, separator: char, k: nat) returns (a: string, b: string)
    requires k < |Split(s, separator)|
    ensures separator !in Split(s, separator)[k] && s == a + Split(s, separator)[k] + b
    ensures if k == 0 then a == "" else a != "" && a[|a| - 1] == separator
    ensures b == "" || b[0] == separator
  {
    hide Split;
    a, b := "", "";
    SplitEmpty(separator);
    if s != "" {
      var c, tail := s[0], s[1..];
      assert s == [c] + tail;
      SplitStep(c, tail, separator);
      if c == separator && k == 0 {
        b := s;
      } else if c == separator {
        a, b := SplitWithin(tail, separator, k - 1);
        Regroup([c], a, Split(tail, separator)[k - 1] + b);
        a := [c] + a;
      } else {
        a, b := SplitWithin(tail, separator, k);
        if k > 0 { a := [c] + a; }
      }
    }
  }

  /** Text between two separators, or an end and a separator, is one of the parts. */
  lemma SplitAmong(a: string, part: string, b: string, separator: char)
    requires separator !in part
    requires (a == "" || a[|a| - 1] == separator) && (b == "" || b[0] == separator)
    ensures part in Split(a + part + b, separator)
  {
    hide Split;
    var tail := part + b;
    SplitPart(part, if b == "" then "" else b[1..], separator);
    if b == "" { assert tail == part; } else { assert tail == part + ([separator] + b[1..]); }
    assert Split(tail, separator)[0] == part;
    if a == "" {
      assert a + part + b == tail;
    } else {
      var front := a[..|a| - 1];
      SplitAppends(front, tail, separator);
      assert a + part + b == front + ([separator] + tail);
    }
  }

  // ----- Lines -----

  /** Where the first line ends, its newline included. */
  function LineEnd(input: string): (k: nat)
    ensures k <= |input| && (input != "" ==> k > 0)
  {
    if input == "" then 0 else if input[0] == '\n' then 1 else 1 + LineEnd(input[1..])
  }

  lemma {:induction false} LineEndSkip(a: string, b: string)
    requires '\n' !in a
    ensures LineEnd(a + b) == |a| + LineEnd(b)
  {
    if a == "" {
      assert a + b == b;
    } else {
      assert (a + b)[1..] == a[1..] + b;
      LineEndSkip(a[1..], b);
    }
  }

  /** The first line ends with its newline, or the text has none. */
  lemma {:induction false} LineEndMeans(s: string)
    ensures var k := LineEnd(s);
            if k > 0 && s[k - 1] == '\n' then '\n' !in s[..k - 1] else k == |s| && '\n' !in s
  {
    if s != "" && s[0] != '\n' {
      LineEndMeans(s[1..]);
      var k := LineEnd(s);
      assert s[k - 1] == '\n' ==> s[..k - 1] == [s[0]] + s[1..][..k - 2];
    }
  }

  lemma {:induction false} LineEndIs(input: string, k: nat)
    requires k < |input| && input[k] == '\n' && '\n' !in input[..k]
    ensures LineEnd(input) == k + 1
  {
    LineEndSkip(input[..k], input[k..]);
    assert input == input[..k] + input[k..];
  }

  lemma {:induction false} LineEndAll(input: string)
    requires '\n' !in input
    ensures LineEnd(input) == |input|
  {
    LineEndSkip(input, "");
    assert input + "" == input;
  }

  // ----- Numbers -----

  /** The value of a digit in a radix up to sixteen. */
  function DigitValue(c: char): Option<nat> {
    if '0' <= c <= '9' then Some(c as nat - 48)
    else if 'a' <= c <= 'f' then Some(c as nat - 87)
    else if 'A' <= c <= 'F' then Some(c as nat - 55)
    else None
  }

  /** Above nine, digits are the letters up to `f`, small or capital alike. */
  lemma LettersExactly(c: char)
    ensures DigitValue(c).Some? ==> '0' <= c <= '9' || 'A' <= c <= 'F' || 'a' <= c <= 'f'
    ensures 'A' <= c <= 'F' ==> DigitValue(c) == DigitValue((c as int + 32) as char) == Some(c as nat - 55)
  {
  }

  predicate AreDigits(s: string, radix: nat) {
    forall k :: 0 <= k < |s| ==> DigitValue(s[k]).Some? && DigitValue(s[k]).value < radix
  }

  function WithDigit(value: nat, radix: nat, digit: nat): nat {
    radix * value + digit
  }

  function DigitsValue(s: string, radix: nat): nat
    requires AreDigits(s, radix)
  {
    if s == "" then 0
    else WithDigit(DigitsValue(s[..|s| - 1], radix), radix, DigitValue(s[|s| - 1]).value)
  }

  /** An unsigned number below `bound`; one leading plus sign is allowed. */
  function ParseNumber(s: string, radix: nat, bound: nat): Option<nat> {
    var digits := if s != "" && s[0] == '+' then s[1..] else s;
    if digits != "" && AreDigits(digits, radix) && DigitsValue(digits, radix) < bound
    then Some(DigitsValue(digits, radix)) else None
  }

  /** Digits with this value, after at most one plus sign. */
  ghost predicate Spelled(s: string, radix: nat, n: nat) {
    exists digits ::
      && (s == digits || s == "+" + digits)
      && digits != "" && AreDigits(digits, radix) && DigitsValue(digits, radix) == n
  }

  lemma SpelledExactly(s: string, radix: nat, n: nat, bound: nat)
    ensures ParseNumber(s, radix, bound) == Some(n) <==> Spelled(s, radix, n) && n < bound
  {
    hide DigitsValue;
    if digits :|
      && (s == digits || s == "+" + digits)
      && digits != "" && AreDigits(digits, radix) && DigitsValue(digits, radix) == n {
      assert DigitValue(digits[0]).Some? && DigitValue('+').None?;
      assert s == "+" + digits ==> s[1..] == digits;
    }
    if ParseNumber(s, radix, bound) == Some(n) && s[0] == '+' { assert s == "+" + s[1..]; }
  }

  function ParseUsize(s: string): Option<nat> {
    ParseNumber(s, 10, USIZE_LIMIT)
  }

  function Digit(d: nat): char
    requires d < 16
  {
    if d < 10 then (48 + d) as char else (87 + d) as char
  }

  /** `n` in a radix, without leading zeros, in lower case. */
  function Numeral(n: nat, radix: nat): string
    requires 2 <= radix <= 16
  {
    if n < radix then [Digit(n)] else Numeral(n / radix, radix) + [Digit(n % radix)]
  }

  function Digits(n: nat): string {
    Numeral(n, 10)
  }

  lemma AppendDigit(s: string, d: nat, radix: nat)
    requires AreDigits(s, radix) && d < radix <= 16
    ensures AreDigits(s + [Digit(d)], radix)
    ensures DigitsValue(s + [Digit(d)], radix) == radix * DigitsValue(s, radix) + d
  {
    var t := s + [Digit(d)];
    assert DigitValue(Digit(d)) == Some(d);
    assert t[..|t| - 1] == s && t[|t| - 1] == Digit(d);
  }

  lemma SingleDigit(d: nat, radix: nat)
    requires d < radix <= 16
    ensures AreDigits([Digit(d)], radix) && DigitsValue([Digit(d)], radix) == d
  {
    AppendDigit("", d, radix);
    assert "" + [Digit(d)] == [Digit(d)];
    assert radix * 0 == 0;
  }

  lemma DivideByRadix(n: nat, radix: nat)
    requires 2 <= radix <= n
    ensures n / radix < n && n % radix < radix && radix * (n / radix) + n % radix == n
  {
  }

  lemma {:induction false} NumeralValue(n: nat, radix: nat)
    requires 2 <= radix <= 16
    ensures Numeral(n, radix) != "" && AreDigits(Numeral(n, radix), radix)
    ensures DigitsValue(Numeral(n, radix), radix) == n
    decreases n
  {
    hide AreDigits, DigitsValue, Digit;
    if n < radix {
      SingleDigit(n, radix);
    } else {
      DivideByRadix(n, radix);
      NumeralValue(n / radix, radix);
      AppendDigit(Numeral(n / radix, radix), n % radix, radix);
    }
  }

  /** No leading zeros. */
  lemma {:induction false} NumeralLeads(n: nat, radix: nat)
    requires 2 <= radix <= 16
    ensures Numeral(n, radix) != "" && (n > 0 ==> Numeral(n, radix)[0] != '0')
    ensures n == 0 ==> Numeral(n, radix) == "0"
    decreases n
  {
    if n >= radix {
      DivideByRadix(n, radix);
      NumeralLeads(n / radix, radix);
    }
  }

  lemma LastDigit(s: string, radix: nat)
    requires radix <= 10 && s != "" && AreDigits(s, radix)
    ensures var front, last := s[..|s| - 1], s[|s| - 1];
            && AreDigits(front, radix) && DigitValue(last).Some? && DigitValue(last).value < radix
            && Digit(DigitValue(last).value) == last && s == front + [last]
            && DigitsValue(s, radix) == WithDigit(DigitsValue(front, radix), radix, DigitValue(last).value)
            && (DigitValue(last).value == 0 <==> last == '0')
  {
  }

  lemma NumeralStep(v: nat, radix: nat, d: nat)
    requires 2 <= radix <= 10 && d < radix
    ensures v > 0 ==> Numeral(WithDigit(v, radix, d), radix) == Numeral(v, radix) + [Digit(d)]
    ensures v > 0 ==> WithDigit(v, radix, d) > 0
    ensures v == 0 ==> WithDigit(v, radix, d) == d && Numeral(d, radix) == [Digit(d)]
  {
    hide Digit;
    if v > 0 { ShiftDivides(v, radix, d); }
  }

  /** The numeral of a value is the only digit string in lower case without
      leading zeros that has it. */
  lemma {:induction false} NumeralUnique(s: string, radix: nat)
    requires 2 <= radix <= 10 && s != "" && AreDigits(s, radix) && (|s| > 1 ==> s[0] != '0')
    ensures s == Numeral(DigitsValue(s, radix), radix)
    ensures s[0] != '0' ==> DigitsValue(s, radix) > 0
    decreases |s|
  {
    hide AreDigits, Numeral, Digit, DigitValue, WithDigit;
    var front, last := s[..|s| - 1], s[|s| - 1];
    LastDigit(s, radix);
    var v := DigitsValue(front, radix);
    NumeralStep(v, radix, DigitValue(last).value);
    if front == "" {
      assert v == 0 && s == [last];
    } else {
      NumeralUnique(front, radix);
    }
  }

  lemma FactorLarge(radix: int, k: int)
    requires radix > 0 && k != 0
    ensures if k > 0 then radix * k >= radix else radix * k <= -radix
  {
    if k > 0 { assert radix * (k - 1) >= 0; } else { assert radix * (-k - 1) >= 0; }
  }

  lemma ShiftDivides(v: nat, radix: nat, d: nat)
    requires v > 0 && d < radix
    ensures WithDigit(v, radix, d) >= radix
    ensures WithDigit(v, radix, d) / radix == v && WithDigit(v, radix, d) % radix == d
  {
    var x := WithDigit(v, radix, d);
    var q, r := x / radix, x % radix;
    assert radix * v >= radix * 1;
    assert x == radix * q + r;
    assert radix * (q - v) == d - r;
    if q != v { FactorLarge(radix, q - v); }
  }

  /** What is printed is read back. */
  lemma NumeralParses(n: nat, radix: nat, bound: nat)
    requires 2 <= radix <= 16 && n < bound
    ensures ParseNumber(Numeral(n, radix), radix, bound) == Some(n)
  {
    NumeralValue(n, radix);
    assert DigitValue(Numeral(n, radix)[0]).Some?;
  }

  function Power(base: nat, k: nat): nat {
    if k == 0 then 1 else base * Power(base, k - 1)
  }

  lemma FactorLess(factor: nat, a: nat, b: nat)
    requires factor * a < factor * b
    ensures a < b
  {
  }

  lemma {:induction false} NumeralShort(n: nat, radix: nat, size: nat)
    requires 2 <= radix <= 16 && size > 0 && n < Power(radix, size)
    ensures |Numeral(n, radix)| <= size
    decreases size
  {
    if n >= radix {
      assert size > 1;
      DivideByRadix(n, radix);
      FactorLess(radix, n / radix, Power(radix, size - 1));
      NumeralShort(n / radix, radix, size - 1);
    }
  }
}
