/** The question a resolver is asked can be read back from the packet. */
module DnsQuery {
  import opened Common
  import opened Strings
  import opened DnsName

  // ----- Splitting and joining -----

  /** All trailing dots are taken off. */
  lemma {:induction false} DotsTrimmed(s: string)
    ensures TrimDots(s) <= s && (TrimDots(s) != "" ==> TrimDots(s)[|TrimDots(s)| - 1] != '.')
    ensures forall k :: |TrimDots(s)| <= k < |s| ==> s[k] == '.'
  {
    if s != "" && s[|s| - 1] == '.' { DotsTrimmed(s[..|s| - 1]); }
  }

  lemma {:induction false} JoinSplit(s: string)
    ensures Join(Split(s, '.')) == s
  {
    if s != "" {
      JoinSplit(s[1..]);
      var rest := Split(s[1..], '.');
      if s[0] == '.' {
        assert ([""] + rest)[1..] == rest;
      } else {
        var labels := [[s[0]] + rest[0]] + rest[1..];
        assert labels[1..] == rest[1..];
        if |rest| > 1 {
          assert Join(labels) == ([s[0]] + rest[0]) + "." + Join(rest[1..]);
          assert Join(labels) == [s[0]] + (rest[0] + "." + Join(rest[1..]));
        }
      }
    }
  }

  function LowerAll(labels: seq<string>): seq<string> {
    if labels == [] then [] else [Lower(labels[0])] + LowerAll(labels[1..])
  }

  lemma {:induction false} SplitLower(s: string)
    ensures Split(Lower(s), '.') == LowerAll(Split(s, '.'))
  {
    hide Split, LowerAll;
    if s == "" {
      SplitNothing();
      assert Lower(s) == "";
    } else {
      SplitLower(s[1..]);
      SplitStep(s[0], s[1..], '.');
      SplitStep(LowerChar(s[0]), Lower(s[1..]), '.');
      LowerHead(s[0], Split(s[1..], '.'));
      assert [s[0]] + s[1..] == s && [LowerChar(s[0])] + Lower(s[1..]) == Lower(s);
    }
  }

  lemma SplitNothing()
    ensures Split("", '.') == [""] == LowerAll([""])
  {
  }

  lemma {:induction false} LowerCons(first: string, rest: seq<string>)
    ensures LowerAll([first] + rest) == [Lower(first)] + LowerAll(rest)
  {
    assert ([first] + rest)[1..] == rest;
  }

  lemma {:induction false} LowerHead(c: char, parts: seq<string>)
    requires parts != []
    ensures LowerAll(parts) == [Lower(parts[0])] + LowerAll(parts[1..])
    ensures LowerAll([""] + parts) == [""] + LowerAll(parts)
    ensures LowerAll([[c] + parts[0]] + parts[1..]) == [[LowerChar(c)] + Lower(parts[0])] + LowerAll(parts[1..])
  {
    hide LowerAll;
    assert [parts[0]] + parts[1..] == parts && Lower("") == "";
    LowerCons(parts[0], parts[1..]);
    LowerCons("", parts);
    LowerCons([c] + parts[0], parts[1..]);
    assert Lower([c] + parts[0]) == [LowerChar(c)] + Lower(parts[0]);
  }

  lemma {:induction false} LowerAllAt(labels: seq<string>)
    ensures |LowerAll(labels)| == |labels|
    ensures forall k :: 0 <= k < |labels| ==> LowerAll(labels)[k] == Lower(labels[k])
  {
    if labels != [] {
      LowerAllAt(labels[1..]);
    }
  }

  lemma {:induction false} TrailingDot(s: string)
    requires s != "" && s[|s| - 1] == '.'
    ensures Split(s, '.')[|Split(s, '.')| - 1] == "" && |Split(s, '.')| > 1
  {
    hide Split;
    assert [s[0]] + s[1..] == s;
    SplitStep(s[0], s[1..], '.');
    if |s| == 1 { SplitNothing(); } else { TrailingDot(s[1..]); }
  }

  /** Octets of the labels with one length octet each. */
  function EncodedLength(labels: seq<string>): nat {
    if labels == [] then 0 else |labels[0]| + 1 + EncodedLength(labels[1..])
  }

  lemma {:induction false} SplitLength(s: string)
    ensures EncodedLength(Split(s, '.')) == |s| + 1
  {
    if s != "" {
      SplitLength(s[1..]);
      var rest := Split(s[1..], '.');
      if s[0] == '.' {
        assert ([""] + rest)[1..] == rest;
      } else {
        assert ([[s[0]] + rest[0]] + rest[1..])[1..] == rest[1..];
      }
    }
  }

  lemma {:induction false} LabelsFit(labels: seq<string>)
    requires forall k :: 0 <= k < |labels| ==> |labels[k]| >= 1
    ensures 2 * |labels| <= EncodedLength(labels)
  {
    if labels != [] {
      LabelsFit(labels[1..]);
    }
  }

  // ----- Encoded names -----

  predicate PlainLabel(part: string) {
    1 <= |part| <= 63 && forall k :: 0 <= k < |part| ==> (part[k] as int) < 128
  }

  predicate Matches(packet: seq<byte>, position: nat, part: string) {
    position + |part| <= |packet| && forall k :: 0 <= k < |part| ==> packet[position + k] == part[k] as int
  }

  /** The labels stand at `position`, uncompressed, with a root label after them. */
  predicate Encodes(packet: seq<byte>, position: nat, labels: seq<string>)
    decreases labels
  {
    if labels == [] then position < |packet| && packet[position] == 0
    else
      && PlainLabel(labels[0])
      && position < |packet| && packet[position] == |labels[0]|
      && Matches(packet, position + 1, labels[0])
      && Encodes(packet, position + 1 + |labels[0]|, labels[1..])
  }

  lemma ReadsLabel(packet: seq<byte>, position: nat, part: string)
    requires PlainLabel(part) && position < |packet| && packet[position] == |part|
    requires Matches(packet, position + 1, part)
    ensures HopAt(packet, position) == Label(|part|)
    ensures LabelText(packet, position) == Lower(part)
    ensures |LabelBytes(packet, position)| == |part| && AllAscii(LabelBytes(packet, position))
  {
    var bytes := LabelBytes(packet, position);
    forall k | 0 <= k < |part| ensures bytes[k] == part[k] as int {
      assert packet[position + 1 + k] == part[k] as int;
    }
    assert Text(bytes) == part;
  }

  /** Reading an uncompressed name takes one position per label and one for the root. */
  lemma {:induction false} ReadsLabels(packet: seq<byte>, position: nat, labels: seq<string>, limit: nat)
    requires Encodes(packet, position, labels)
    ensures limit <= |labels| ==> Follow(packet, position, limit) == None
    ensures limit > |labels| ==>
              && Follow(packet, position, limit).Some?
              && var trail := Follow(packet, position, limit).value;
                 && Labels(packet, trail) == LowerAll(labels)
                 && Length(packet, trail) == EncodedLength(labels)
                 && Ascii(packet, trail)
                 && After(packet, trail) == position + EncodedLength(labels) + 1
    decreases labels
  {
    if labels == [] {
      if limit > 0 {
        assert Follow(packet, position, limit) == Some([position]);
        assert [position][1..] == [];
      }
    } else {
      ReadsLabel(packet, position, labels[0]);
      if limit > 0 {
        var next := position + 1 + |labels[0]|;
        ReadsLabels(packet, next, labels[1..], limit - 1);
        if limit > |labels| {
          var rest := Follow(packet, next, limit - 1).value;
          assert Follow(packet, position, limit) == Some([position] + rest);
          assert ([position] + rest)[1..] == rest;
          hide Follow, LabelText, LabelBytes, AllAscii, Encodes, HopAt;
        }
      }
    }
  }

  lemma {:induction false} EncodeLength(labels: seq<string>)
    ensures |Encode(labels)| == EncodedLength(labels)
  {
    if labels != [] { EncodeLength(labels[1..]); }
  }

  lemma OctetsPlaced(before: seq<byte>, part: string, after: seq<byte>)
    requires PlainLabel(part)
    ensures var packet := before + ([|part| % 256] + Octets(part)) + after;
            && |Octets(part)| == |part| && |before| < |packet| && packet[|before|] == |part|
            && Matches(packet, |before| + 1, part)
  {
  }

  lemma {:induction false} EncodeEncodes(before: seq<byte>, labels: seq<string>, after: seq<byte>)
    requires forall k :: 0 <= k < |labels| ==> PlainLabel(labels[k])
    ensures Encodes(before + Encode(labels) + [0] + after, |before|, labels)
    decreases labels
  {
    hide Octets, PlainLabel;
    var packet := before + Encode(labels) + [0] + after;
    if labels != [] {
      var part := labels[0];
      var more := before + ([|part| % 256] + Octets(part));
      EncodeEncodes(more, labels[1..], after);
      assert packet == more + Encode(labels[1..]) + [0] + after;
      OctetsPlaced(before, part, Encode(labels[1..]) + [0] + after);
      assert packet == before + ([|part| % 256] + Octets(part)) + (Encode(labels[1..]) + [0] + after);
    }
  }

  // ----- The question -----

  lemma ValidIsPlain(part: string)
    requires ValidLabel(part)
    ensures PlainLabel(part) && PlainLabel(Lower(part)) && Lower(Lower(part)) == Lower(part)
  {
  }

  /** What `dns_name` returns has plain lower-case labels and ends with none of its dots. */
  lemma AcceptedLabels(input: string)
    requires Normalize(input).Some?
    ensures var name := Normalize(input).value;
            && |name| <= 253 && TrimDots(name) == name
            && (forall k :: 0 <= k < |Split(name, '.')| ==> PlainLabel(Split(name, '.')[k]))
            && LowerAll(Split(name, '.')) == Split(name, '.')
  {
    var raw := if input != "" && input[|input| - 1] == '.' then input[..|input| - 1] else input;
    var name := Lower(raw);
    SplitLower(raw);
    var labels := Split(raw, '.');
    LowerAllAt(labels);
    forall k | 0 <= k < |labels|
      ensures PlainLabel(Split(name, '.')[k]) && Lower(Split(name, '.')[k]) == Split(name, '.')[k]
    {
      assert labels[k] in labels;
      ValidIsPlain(labels[k]);
    }
    LowerAllAt(Split(name, '.'));
    if name[|name| - 1] == '.' {
      TrailingDot(name);
    }
  }

  lemma {:induction false} WordsLength(words: seq<nat>)
    ensures |Words(words)| == 2 * |words|
  {
    if words != [] { WordsLength(words[..|words| - 1]); }
  }

  lemma WordAfter(before: seq<byte>, n: nat, after: seq<byte>)
    requires n < 0x10000
    ensures Word(before + WordBytes(n) + after, |before|) == Some(n)
  {
    var packet := before + WordBytes(n) + after;
    assert packet[|before|] == (n / 256) % 256 && packet[|before| + 1] == n % 256;
  }

  /** The layout of a query for an accepted name. */
  lemma QueryLayout(name: string, id: nat, code: nat)
    requires TrimDots(name) == name && code < 0x10000
    requires forall k :: 0 <= k < |Split(name, '.')| ==> PlainLabel(Split(name, '.')[k])
    ensures var packet := Query(id, name, code);
            && Encodes(packet, 12, Split(name, '.'))
            && Word(packet, 12 + |name| + 2) == Some(code)
            && Word(packet, 12 + |name| + 4) == Some(1)
  {
    var labels := Split(name, '.');
    SplitLength(name);
    EncodeLength(labels);
    WordsLength([id, 0x0100, 1, 0, 0, 0]);
    hide Encodes, Encode, Words, Word;
    var front := Header(id) + Encode(labels) + [0];
    var packet := Query(id, name, code);
    assert packet == front + (WordBytes(code) + WordBytes(1));
    EncodeEncodes(Header(id), labels, WordBytes(code) + WordBytes(1));
    assert packet == front + WordBytes(code) + WordBytes(1);
    WordAfter(front, code, WordBytes(1));
    assert packet == (front + WordBytes(code)) + WordBytes(1) + [];
    WordAfter(front + WordBytes(code), 1, []);
  }

  /** What the question section of a query reads back to, for any reading limit:
      one position per label and one for the root are needed, and are enough. */
  lemma QuestionWithin(input: string, id: nat, code: nat, limit: nat)
    requires Normalize(input).Some? && code < 0x10000
    ensures var name := Normalize(input).value;
            var packet := Query(id, name, code);
            && |Split(name, '.')| <= 127
            && (limit <= |Split(name, '.')| ==> NameWithin(packet, 12, limit) == None)
            && (limit > |Split(name, '.')| ==> NameWithin(packet, 12, limit) == Some((name, 12 + |name| + 2)))
            && Word(packet, 12 + |name| + 2) == Some(code)
            && Word(packet, 12 + |name| + 4) == Some(1)
  {
    hide Query, Encodes, Encode, Word, Follow, Labels, Length, Ascii, After, Normalize, Split, Join, LowerAll,
      TrimDots, EncodedLength;
    var name := Normalize(input).value;
    AcceptedLabels(input);
    SplitLength(name);
    LabelsFit(Split(name, '.'));
    JoinSplit(name);
    QueryLayout(name, id, code);
    ReadsLabels(Query(id, name, code), 12, Split(name, '.'), limit);
  }

  /** The header: the id, recursion desired and nothing else, one question. */
  lemma HeaderOctets(id: nat)
    ensures Header(id) == [(id / 256) % 256, id % 256, 1, 0, 0, 1, 0, 0, 0, 0, 0, 0]
  {
    hide Words;
    var words := [id, 0x0100, 1, 0, 0, 0];
    WordsLast(words, 0);
    WordsLast(words, 1);
    WordsLast(words, 2);
    WordsLast(words, 3);
    WordsLast(words, 4);
    WordsLast(words, 5);
    assert words[..6] == words;
  }

  lemma QueryBegins(id: nat, name: string, code: nat)
    ensures Header(id) <= Query(id, name, code)
  {
    hide Header, Encode, Split;
  }

  /** For every name that is accepted, its query asks one question with recursion
      desired, which reads back as that name, with the cursor on the type asked
      for and the class IN, where the packet ends. */
  lemma QuestionReadsBack(input: string, id: nat, code: nat)
    requires Normalize(input).Some? && code < 0x10000
    ensures var name := Normalize(input).value;
            var packet := Query(id, name, code);
            && NameAt(packet, 12) == Some((name, 12 + |name| + 2))
            && Word(packet, 12 + |name| + 2) == Some(code)
            && Word(packet, 12 + |name| + 4) == Some(1)
            && |packet| == 12 + |name| + 6
            && packet[..12] == [(id / 256) % 256, id % 256, 1, 0, 0, 1, 0, 0, 0, 0, 0, 0]
  {
    hide NameWithin, Query, Word, Header, Normalize;
    QuestionWithin(input, id, code, HOP_LIMIT);
    HeaderOctets(id);
    QueryBegins(id, Normalize(input).value, code);
    QueryEnds(input, id, code);
  }

  lemma QueryEnds(input: string, id: nat, code: nat)
    requires Normalize(input).Some?
    ensures |Query(id, Normalize(input).value, code)| == 12 + |Normalize(input).value| + 6
  {
    hide Normalize, Words, Encode, Split, EncodedLength, TrimDots;
    var name := Normalize(input).value;
    AcceptedLabels(input);
    SplitLength(name);
    EncodeLength(Split(name, '.'));
    WordsLength([id, 0x0100, 1, 0, 0, 0]);
  }

  /** `count` one-letter labels. */
  function Letters(count: nat): string {
    if count == 0 then "" else if count == 1 then "a" else "a." + Letters(count - 1)
  }

  lemma {:induction false} LettersSplit(count: nat)
    requires count > 0
    ensures |Letters(count)| == 2 * count - 1
    ensures Split(Letters(count), '.') == seq(count, _ => "a")
    ensures Letters(count)[|Letters(count)| - 1] == 'a'
  {
    hide Split;
    if count == 1 {
      SplitStep('a', "", '.');
      SplitNothing();
      assert ['a'] + "" == "a";
    } else {
      LettersSplit(count - 1);
      FirstLetter(Letters(count - 1));
      assert ["a"] + seq(count - 1, _ => "a") == seq(count, _ => "a");
    }
  }

  lemma FirstLetter(rest: string)
    ensures Split("a." + rest, '.') == ["a"] + Split(rest, '.')
  {
    hide Split;
    SplitStep('.', rest, '.');
    SplitStep('a', "." + rest, '.');
    assert ['a'] + ("." + rest) == "a." + rest && ['.'] + rest == "." + rest;
    assert ['a'] + "" == "a";
  }

  lemma LettersAccepted(count: nat)
    requires 1 < count <= 127
    ensures Normalize(Letters(count)) == Some(Letters(count))
    ensures EncodedLength(Split(Letters(count), '.')) == 2 * count
  {
    hide Letters, Split, EncodedLength;
    var name := Letters(count);
    LettersSplit(count);
    LettersLower(count);
    SplitLength(name);
    assert ValidLabel("a");
    forall part <- Split(name, '.') ensures ValidLabel(part) {
      var k :| 0 <= k < |Split(name, '.')| && Split(name, '.')[k] == part;
    }
    assert !Octet("a");
  }

  /** The limits are met exactly: a name of 253 octets in 127 labels is accepted,
      needs all 128 positions, and has encoded length 254. */
  lemma LimitsAreTight(id: nat, code: nat)
    requires code < 0x10000
    ensures var name := Letters(127);
            && |name| == 253 && Normalize(name) == Some(name)
            && NameWithin(Query(id, name, code), 12, HOP_LIMIT) == Some((name, 12 + |name| + 2))
            && NameWithin(Query(id, name, code), 12, HOP_LIMIT - 1) == None
            && EncodedLength(Split(name, '.')) == LENGTH_LIMIT
  {
    hide Letters, Split, Query, NameWithin, EncodedLength, Normalize;
    var name := Letters(127);
    LettersAccepted(127);
    LettersSplit(127);
    QuestionWithin(name, id, code, 128);
    QuestionWithin(name, id, code, 127);
  }

  lemma {:induction false} LettersLower(count: nat)
    ensures Lower(Letters(count)) == Letters(count)
  {
    if count > 1 {
      LettersLower(count - 1);
      assert Lower("a." + Letters(count - 1)) == Lower("a.") + Lower(Letters(count - 1));
    }
  }
}
