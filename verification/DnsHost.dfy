/** Which names are accepted for a query, said character by character. */
module DnsHost {
  import opened Common
  import opened Strings
  import opened DnsName
  import opened DnsQuery

  predicate Inner(c: char) {
    'a' <= c <= 'z' || 'A' <= c <= 'Z' || '0' <= c <= '9'
  }

  predicate DotWithin(s: string, k: nat)
    requires k + 64 <= |s|
  {
    exists j :: k <= j < k + 64 && s[j] == '.'
  }

  /** Letters, digits, and between them single dots or any hyphens that touch no
      dot, with a dot in any 64 characters (RFC 1123 section 2.1). */
  predicate HostShape(s: string) {
    && s != "" && Inner(s[0]) && Inner(s[|s| - 1])
    && (forall k :: 0 <= k < |s| ==> Inner(s[k]) || s[k] == '-' || s[k] == '.')
    && (forall k :: 0 <= k < |s| - 1 && s[k] == '.' ==> Inner(s[k + 1]))
    && (forall k :: 0 < k < |s| && s[k] == '.' ==> Inner(s[k - 1]))
    && (forall k: nat :: k + 64 <= |s| ==> DotWithin(s, k))
  }

  predicate AllValid(parts: seq<string>) {
    forall part <- parts :: ValidLabel(part)
  }

  lemma NoDot(s: string, k: nat)
    requires k + 64 <= |s| && forall j :: k <= j < k + 64 ==> s[j] != '.'
    ensures !DotWithin(s, k)
  {
  }

  lemma OneLabel(s: string)
    requires '.' !in s
    ensures HostShape(s) <==> ValidLabel(s)
  {
    if |s| >= 64 { NoDot(s, 0); }
  }

  lemma LabelAndRest(a: string, rest: string)
    requires '.' !in a
    ensures HostShape(a + "." + rest) <==> ValidLabel(a) && HostShape(rest)
  {
    hide HostShape, ValidLabel;
    if HostShape(a + "." + rest) { RestShaped(a, rest); }
    if ValidLabel(a) && HostShape(rest) { WholeShaped(a, rest); }
  }

  lemma RestShaped(a: string, rest: string)
    requires '.' !in a && HostShape(a + "." + rest)
    ensures ValidLabel(a) && HostShape(rest)
  {
    hide Inner;
    var s := a + "." + rest;
    var n := |a| + 1;
    assert s[|a|] == '.';
    LabelShaped(a, rest);
    DotNotInner();
    assert s[|s| - 1] == if rest == "" then '.' else rest[|rest| - 1];
    assert rest[0] == s[|a| + 1] && rest[|rest| - 1] == s[|s| - 1];
    forall k | 0 <= k < |rest| ensures Inner(rest[k]) || rest[k] == '-' || rest[k] == '.' {
      assert rest[k] == s[n + k];
    }
    forall k | 0 <= k < |rest| - 1 && rest[k] == '.' ensures Inner(rest[k + 1]) {
      assert s[n + k] == '.' && s[n + k + 1] == rest[k + 1];
    }
    forall k | 0 < k < |rest| && rest[k] == '.' ensures Inner(rest[k - 1]) {
      assert s[n + k] == '.' && s[n + k - 1] == rest[k - 1];
    }
    forall k: nat | k + 64 <= |rest| ensures DotWithin(rest, k) {
      assert DotWithin(s, n + k);
      var j :| n + k <= j < n + k + 64 && s[j] == '.';
      assert rest[j - n] == '.';
    }
  }

  lemma DotNotInner()
    ensures !Inner('.') && !Inner('-')
  {
  }

  lemma LabelShaped(a: string, rest: string)
    requires '.' !in a && HostShape(a + "." + rest)
    ensures ValidLabel(a)
  {
    var s := a + "." + rest;
    assert s[|a|] == '.';
    assert a != "";
    assert s[0] == a[0] && s[|a| - 1] == a[|a| - 1];
    forall k | 0 <= k < |a| ensures LabelChar(a[k]) { assert s[k] == a[k] && a[k] in a; }
    if |a| >= 64 {
      assert forall j :: 0 <= j < 64 ==> s[j] == a[j] && a[j] in a;
      NoDot(s, 0);
    }
  }

  lemma ValidMeans(a: string)
    requires ValidLabel(a)
    ensures a != "" && |a| <= 63 && (forall k :: 0 <= k < |a| ==> Inner(a[k]) || a[k] == '-')
    ensures '.' !in a && Inner(a[0]) && Inner(a[|a| - 1])
  {
  }

  lemma WholeShaped(a: string, rest: string)
    requires ValidLabel(a) && HostShape(rest)
    ensures HostShape(a + "." + rest)
  {
    hide Inner, ValidLabel;
    ValidMeans(a);
    var s := a + "." + rest;
    var n := |a| + 1;
    assert forall k :: 0 <= k < |a| ==> s[k] == a[k] && a[k] in a;
    DotNotInner();
    assert s[n] == rest[0];
    forall k | 0 <= k < |s| ensures Inner(s[k]) || s[k] == '-' || s[k] == '.' {
      if k < |a| { assert s[k] == a[k]; } else if k > |a| { assert s[k] == rest[k - n]; }
    }
    forall k | 0 <= k < |s| - 1 && s[k] == '.' ensures Inner(s[k + 1]) {
      if k == |a| { assert s[k + 1] == rest[0]; }
      else { assert s[k] == rest[k - n] && s[k + 1] == rest[k - n + 1]; }
    }
    forall k | 0 < k < |s| && s[k] == '.' ensures Inner(s[k - 1]) {
      if k == |a| { assert s[k - 1] == a[|a| - 1]; }
      else if k > n { assert s[k] == rest[k - n] && s[k - 1] == rest[k - n - 1]; }
    }
    forall k: nat | k + 64 <= |s| ensures DotWithin(s, k) {
      if k <= |a| {
        assert s[|a|] == '.';
      } else {
        assert DotWithin(rest, k - n);
        var j :| k - n <= j < k - n + 64 && rest[j] == '.';
        assert s[n + j] == '.';
      }
    }
  }

  lemma LabelSplit(a: string, rest: string)
    requires '.' !in a
    ensures Split(a, '.') == [a] && Split(a + "." + rest, '.') == [a] + Split(rest, '.')
  {
    hide Split;
    SplitPart(a, rest, '.');
    assert a + "." + rest == a + ("." + rest);
  }

  lemma {:induction false} FirstDot(s: string) returns (k: nat)
    requires '.' in s
    ensures k < |s| && s[k] == '.' && '.' !in s[..k]
  {
    if s[0] == '.' {
      k := 0;
    } else {
      assert s == [s[0]] + s[1..];
      k := FirstDot(s[1..]);
      k := k + 1;
      assert s[..k] == [s[0]] + s[1..][..k - 1];
    }
  }

  /** The labels are valid exactly if the name has the shape of a host name. */
  lemma {:induction false} ShapeIsLabels(s: string)
    ensures HostShape(s) <==> AllValid(Split(s, '.'))
    decreases |s|
  {
    hide Split, HostShape, ValidLabel;
    if '.' !in s {
      LabelSplit(s, "");
      OneLabel(s);
    } else {
      var k := FirstDot(s);
      var a, rest := s[..k], s[k + 1..];
      assert s == a + "." + rest;
      LabelSplit(a, rest);
      LabelAndRest(a, rest);
      ShapeIsLabels(rest);
    }
  }

  // ----- Addresses -----

  /** A dotted quad of decimal numbers below 256 without leading zeros. */
  ghost predicate DottedQuad(s: string) {
    exists a: nat, b: nat, c: nat, d: nat :: a < 256 && b < 256 && c < 256 && d < 256 && s == Dotted(a, b, c, d)
  }

  function Dotted(a: nat, b: nat, c: nat, d: nat): string {
    Digits(a) + "." + (Digits(b) + "." + (Digits(c) + "." + Digits(d)))
  }

  lemma Unfolded(s: string)
    requires AreDigits(s, 10) && 1 <= |s| <= 3
    ensures DigitsValue(s, 10) ==
            if |s| == 1 then s[0] as int - 48
            else if |s| == 2 then 10 * (s[0] as int - 48) + (s[1] as int - 48)
            else 100 * (s[0] as int - 48) + 10 * (s[1] as int - 48) + (s[2] as int - 48)
  {
    var one := s[..1];
    assert one[..0] == "" && DigitsValue(one, 10) == s[0] as int - 48;
    if |s| >= 2 {
      var two := s[..2];
      assert two[..1] == one;
      assert DigitsValue(two, 10) == 10 * (s[0] as int - 48) + (s[1] as int - 48);
      if |s| == 3 { assert s[..2] == two; } else { assert s == two; }
    } else {
      assert s == one;
    }
  }

  lemma OctetIsNumeral(s: string)
    ensures Octet(s) <==> exists n: nat :: n < 256 && s == Digits(n)
  {
    hide Octet, Digits;
    if Octet(s) {
      var n := OctetValue(s);
    }
    if n: nat :| n < 256 && s == Digits(n) { NumeralIsOctet(n); }
  }

  lemma OctetValue(s: string) returns (n: nat)
    requires Octet(s)
    ensures n < 256 && s == Digits(n)
  {
    hide Numeral, DigitsValue;
    DecimalDigits(s);
    Unfolded(s);
    NumeralUnique(s, 10);
    n := DigitsValue(s, 10);
  }

  lemma NumeralIsOctet(n: nat)
    requires n < 256
    ensures Octet(Digits(n))
  {
    hide Numeral, DigitsValue;
    var s := Digits(n);
    NumeralValue(n, 10);
    NumeralLeads(n, 10);
    assert Power(10, 3) == 1000;
    NumeralShort(n, 10, 3);
    Unfolded(s);
    DecimalDigits(s);
  }

  lemma DecimalDigits(s: string)
    ensures AreDigits(s, 10) <==> forall k :: 0 <= k < |s| ==> '0' <= s[k] <= '9'
  {
    forall k | 0 <= k < |s|
      ensures (DigitValue(s[k]).Some? && DigitValue(s[k]).value < 10) <==> '0' <= s[k] <= '9'
    {
    }
  }

  lemma OctetHasNoDot(s: string)
    requires Octet(s)
    ensures '.' !in s
  {
  }

  /** Four parts that are numbers below 256. */
  lemma AddressIsQuad(s: string)
    ensures IsAddress(s) <==> DottedQuad(s)
  {
    hide Split, Octet, Digits;
    var parts := Split(s, '.');
    if IsAddress(s) {
      OctetIsNumeral(parts[0]);
      OctetIsNumeral(parts[1]);
      OctetIsNumeral(parts[2]);
      OctetIsNumeral(parts[3]);
      var a: nat :| a < 256 && parts[0] == Digits(a);
      var b: nat :| b < 256 && parts[1] == Digits(b);
      var c: nat :| c < 256 && parts[2] == Digits(c);
      var d: nat :| d < 256 && parts[3] == Digits(d);
      JoinSplit(s);
      JoinFour(parts);
      assert s == Dotted(a, b, c, d);
    }
    if a: nat, b: nat, c: nat, d: nat :| a < 256 && b < 256 && c < 256 && d < 256 && s == Dotted(a, b, c, d) {
      OctetIsNumeral(Digits(a));
      OctetIsNumeral(Digits(b));
      OctetIsNumeral(Digits(c));
      OctetIsNumeral(Digits(d));
      OctetHasNoDot(Digits(a));
      OctetHasNoDot(Digits(b));
      OctetHasNoDot(Digits(c));
      OctetHasNoDot(Digits(d));
      LabelSplit(Digits(a), Digits(b) + "." + (Digits(c) + "." + Digits(d)));
      LabelSplit(Digits(b), Digits(c) + "." + Digits(d));
      LabelSplit(Digits(c), Digits(d));
      LabelSplit(Digits(d), "");
    }
  }

  lemma JoinFour(parts: seq<string>)
    requires |parts| == 4
    ensures Join(parts) == parts[0] + "." + (parts[1] + "." + (parts[2] + "." + parts[3]))
  {
    assert parts[1..][1..] == parts[2..] && parts[2..][1..] == parts[3..] && parts[3..] == [parts[3]];
    assert Join(parts[3..]) == parts[3];
    assert Join(parts[2..]) == parts[2] + "." + parts[3];
  }

  // ----- What is accepted -----

  function WithoutDot(input: string): string {
    if input != "" && input[|input| - 1] == '.' then input[..|input| - 1] else input
  }

  /** A query is made exactly for host names of at most 253 characters, after one
      trailing dot is dropped, that are no addresses. */
  lemma AcceptedExactly(input: string)
    ensures var name := WithoutDot(input);
            Normalize(input) ==
            if |name| <= 253 && HostShape(name) && !DottedQuad(name) then Some(Lower(name)) else None
  {
    hide Split, HostShape, DottedQuad, IsAddress, ValidLabel;
    var name := WithoutDot(input);
    ShapeIsLabels(name);
    AddressIsQuad(name);
    ShapeNotEmpty(name);
  }

  lemma ShapeNotEmpty(s: string)
    ensures HostShape(s) ==> s != ""
  {
  }
}
