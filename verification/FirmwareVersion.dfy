/** Firmware versions, their comparison, and which offers may be installed. */
module FirmwareVersion {
  import opened Common
  import opened Strings

  const U32_LIMIT: nat := 4_294_967_296

  /** A version: an optional model prefix, a major and a minor number. */
  datatype Version = Version(model: Option<nat>, major: nat, minor: nat)

  function Parse(s: string): Option<Version> {
    var parts := Split(s, '.');
    if |parts| == 2 then
      var major, minor := ParseNumber(parts[0], 10, U32_LIMIT), ParseNumber(parts[1], 10, U32_LIMIT);
      if major.Some? && minor.Some? then Some(Version(None, major.value, minor.value)) else None
    else if |parts| == 3 then
      var model, major := ParseNumber(parts[0], 10, U32_LIMIT), ParseNumber(parts[1], 10, U32_LIMIT);
      var minor := ParseNumber(parts[2], 10, U32_LIMIT);
      if model.Some? && major.Some? && minor.Some? then Some(Version(model, major.value, minor.value)) else None
    else None
  }

  /** Two versions are comparable unless both name a model and the models differ. */
  predicate Agree(a: Version, b: Version) {
    a.model.Some? && b.model.Some? ==> a.model == b.model
  }

  predicate Comparable(a: string, b: string) {
    Parse(a).Some? && Parse(b).Some? && Agree(Parse(a).value, Parse(b).value)
  }

  predicate Below(a: Version, b: Version) {
    a.major < b.major || (a.major == b.major && a.minor < b.minor)
  }

  predicate Newer(offered: string, current: string) {
    Comparable(current, offered) && Below(Parse(current).value, Parse(offered).value)
  }

  predicate SameVersion(a: string, b: string) {
    && Comparable(a, b)
    && Parse(a).value.major == Parse(b).value.major && Parse(a).value.minor == Parse(b).value.minor
  }

  // ----- Versions in print -----

  function Print(v: Version): string {
    (if v.model.Some? then Digits(v.model.value) + "." else "") + (Digits(v.major) + ("." + Digits(v.minor)))
  }

  lemma DigitsHaveNoDot(n: nat)
    ensures '.' !in Digits(n)
  {
    NumeralValue(n, 10);
    forall k | 0 <= k < |Digits(n)| ensures Digits(n)[k] != '.' {
      assert DigitValue(Digits(n)[k]).Some?;
    }
  }

  /** Every version whose numbers fit is read back from its printed form. */
  lemma PrintedVersionReads(v: Version)
    requires v.major < U32_LIMIT && v.minor < U32_LIMIT && (v.model.Some? ==> v.model.value < U32_LIMIT)
    ensures Parse(Print(v)) == Some(v)
  {
    hide ParseNumber, Split, Numeral;
    var tail := Digits(v.major) + ("." + Digits(v.minor));
    NumeralParses(v.major, 10, U32_LIMIT);
    NumeralParses(v.minor, 10, U32_LIMIT);
    DigitsHaveNoDot(v.major);
    DigitsHaveNoDot(v.minor);
    SplitPart(Digits(v.minor), "", '.');
    SplitPart(Digits(v.major), Digits(v.minor), '.');
    if v.model.Some? {
      NumeralParses(v.model.value, 10, U32_LIMIT);
      DigitsHaveNoDot(v.model.value);
      SplitPart(Digits(v.model.value), tail, '.');
      assert Print(v) == Digits(v.model.value) + ("." + tail);
    } else {
      assert Print(v) == tail;
    }
  }

  // ----- Which texts are versions -----

  ghost predicate NumberText(s: string, n: nat) {
    Spelled(s, 10, n) && n < 0x1_0000_0000
  }

  /** The text is major and minor number, or model, major and minor number, with
      dots between them. */
  ghost predicate Spells(s: string, v: Version) {
    match v.model
    case None =>
      exists major, minor :: NumberText(major, v.major) && NumberText(minor, v.minor) && s == major + ("." + minor)
    case Some(number) =>
      exists model, major, minor ::
        && NumberText(model, number) && NumberText(major, v.major) && NumberText(minor, v.minor)
        && s == model + ("." + (major + ("." + minor)))
  }

  /** Both texts are versions of models that do not contradict each other, and the
      second version is the higher one. */
  ghost predicate Raises(current: string, offered: string) {
    exists c, o ::
      && Spells(current, c) && Spells(offered, o) && (c.model.None? || o.model.None? || c.model == o.model)
      && (o.major > c.major || (o.major == c.major && o.minor > c.minor))
  }

  /** Both texts are versions of models that do not contradict each other. */
  ghost predicate Related(a: string, b: string) {
    exists v, w :: Spells(a, v) && Spells(b, w) && (v.model.None? || w.model.None? || v.model == w.model)
  }

  /** Both texts are the same version, up to a missing model. */
  ghost predicate Equals(a: string, b: string) {
    exists v, w ::
      && Spells(a, v) && Spells(b, w) && (v.model.None? || w.model.None? || v.model == w.model)
      && v.major == w.major && v.minor == w.minor
  }

  lemma NumberExactly(s: string, n: nat)
    ensures ParseNumber(s, 10, U32_LIMIT) == Some(n) <==> NumberText(s, n)
    ensures NumberText(s, n) ==> '.' !in s
  {
    hide ParseNumber, Spelled;
    SpelledExactly(s, 10, n, U32_LIMIT);
    if Spelled(s, 10, n) { NoDotInside(s, n); }
  }

  lemma NoDotInside(s: string, n: nat)
    requires Spelled(s, 10, n)
    ensures '.' !in s
  {
    hide DigitsValue;
    assert DigitValue('.').None?;
  }

  lemma {:induction false} FirstPart(s: string) returns (rest: string)
    ensures var parts := Split(s, '.');
            if |parts| == 1 then s == parts[0] else s == parts[0] + ("." + rest) && Split(rest, '.') == parts[1..]
  {
    hide Split;
    rest := "";
    if s == "" {
      SplitEmpty('.');
    } else {
      SplitStep(s[0], s[1..], '.');
      assert s == [s[0]] + s[1..];
      if s[0] == '.' {
        rest := s[1..];
        assert s == "" + ("." + rest);
      } else {
        rest := FirstPart(s[1..]);
        Regroup([s[0]], Split(s[1..], '.')[0], "." + rest);
      }
    }
  }

  /** Exactly these texts are versions. */
  lemma ParseExactly(s: string, v: Version)
    ensures Parse(s) == Some(v) <==> Spells(s, v)
  {
    hide Split, ParseNumber, NumberText;
    if Parse(s) == Some(v) { ParsedIsSpelled(s, v); }
    if Spells(s, v) { SpelledParses(s, v); }
  }

  lemma ParsedIsSpelled(s: string, v: Version)
    requires Parse(s) == Some(v)
    ensures Spells(s, v)
  {
    hide Split, ParseNumber, NumberText;
    var parts := Split(s, '.');
    var rest := FirstPart(s);
    var last := FirstPart(rest);
    if v.model.None? {
      NumberExactly(parts[0], v.major);
      NumberExactly(parts[1], v.minor);
      assert s == parts[0] + ("." + parts[1]);
    } else {
      var _ := FirstPart(last);
      NumberExactly(parts[0], v.model.value);
      NumberExactly(parts[1], v.major);
      NumberExactly(parts[2], v.minor);
      assert s == parts[0] + ("." + (parts[1] + ("." + parts[2])));
    }
  }

  lemma SpelledParses(s: string, v: Version)
    requires Spells(s, v)
    ensures Parse(s) == Some(v)
  {
    hide Split, ParseNumber, NumberText;
    if v.model.None? {
      var major, minor :| NumberText(major, v.major) && NumberText(minor, v.minor) && s == major + ("." + minor);
      NumberExactly(major, v.major);
      NumberExactly(minor, v.minor);
      SplitPart(major, minor, '.');
      SplitPart(minor, "", '.');
    } else {
      var model, major, minor :|
        && NumberText(model, v.model.value) && NumberText(major, v.major) && NumberText(minor, v.minor)
        && s == model + ("." + (major + ("." + minor)));
      NumberExactly(model, v.model.value);
      NumberExactly(major, v.major);
      NumberExactly(minor, v.minor);
      SplitPart(model, major + ("." + minor), '.');
      SplitPart(major, minor, '.');
      SplitPart(minor, "", '.');
    }
  }

  /** The comparisons of the code are those of the versions that the texts spell. */
  lemma ComparesExactly(a: string, b: string)
    ensures Newer(b, a) <==> Raises(a, b)
    ensures Comparable(a, b) <==> Related(a, b)
    ensures SameVersion(a, b) <==> Equals(a, b)
  {
    hide Parse, Spells;
    forall v ensures Parse(a) == Some(v) <==> Spells(a, v) { ParseExactly(a, v); }
    forall v ensures Parse(b) == Some(v) <==> Spells(b, v) { ParseExactly(b, v); }
    if Parse(a).Some? && Parse(b).Some? {
      assert Spells(a, Parse(a).value) && Spells(b, Parse(b).value);
    }
  }

  /** Three one-digit versions in print. */
  lemma PrintedDigits(a: nat, b: nat, c: nat)
    requires a < 10 && b < 10 && c < 10
    ensures Print(Version(Some(a), b, c)) == [Digit(a), '.', Digit(b), '.', Digit(c)]
    ensures Print(Version(None, a, b)) == [Digit(a), '.', Digit(b)]
  {
    assert Digits(a) == [Digit(a)] && Digits(b) == [Digit(b)] && Digits(c) == [Digit(c)];
  }

  /** Comparability is not transitive: a version without a prefix bridges two models. */
  lemma ComparableIsNotTransitive()
    ensures Comparable("1.7.5", "7.6") && Comparable("7.6", "2.7.7") && !Comparable("1.7.5", "2.7.7")
  {
    hide Parse, Print;
    PrintedVersionReads(Version(Some(1), 7, 5));
    PrintedVersionReads(Version(None, 7, 6));
    PrintedVersionReads(Version(Some(2), 7, 7));
    PrintedDigits(1, 7, 5);
    PrintedDigits(7, 6, 0);
    PrintedDigits(2, 7, 7);
  }

  /** Through a bridge exactly these pairs stay comparable. */
  lemma ComparableThrough(a: string, bridge: string, c: string)
    requires Comparable(a, bridge) && Comparable(bridge, c)
    ensures Parse(bridge).value.model.Some? ==> Comparable(a, c)
    ensures Parse(bridge).value.model.None? ==>
              (Comparable(a, c) <==> !(Parse(a).value.model.Some? && Parse(c).value.model.Some?
                                      && Parse(a).value.model != Parse(c).value.model))
  {
  }

  predicate PairwiseAgree(versions: seq<Version>) {
    forall i, j :: 0 <= i < j < |versions| ==> Agree(versions[i], versions[j])
  }

  predicate OfModel(versions: seq<Version>, model: nat) {
    forall i :: 0 <= i < |versions| ==> versions[i].model == None || versions[i].model == Some(model)
  }

  /** Pairwise comparisons, and nothing less, leave one model. */
  lemma PairwiseMeansOneModel(versions: seq<Version>)
    ensures PairwiseAgree(versions) <==> exists model :: OfModel(versions, model)
  {
    if PairwiseAgree(versions) {
      if i :| 0 <= i < |versions| && versions[i].model.Some? {
        assert OfModel(versions, versions[i].model.value) by {
          forall j | 0 <= j < |versions| ensures versions[j].model == None || versions[j].model == versions[i].model {
            assert j < i ==> Agree(versions[j], versions[i]);
            assert i < j ==> Agree(versions[i], versions[j]);
          }
        }
      } else {
        assert OfModel(versions, 0);
      }
    }
  }
}
