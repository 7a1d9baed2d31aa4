/** The ways in which XML can write a text, and that the response reader takes them
    for the same text (XML 1.0 sections 2.4, 2.5, 2.7, 4.1 and 4.6). */
module SoapEncodings {
  import opened Common
  import opened Strings
  import opened Soap
  import opened SoapRoundTrip

  // ----- References -----

  /** The name between ampersand and semicolon stands for this character: one of the
      five predefined names, or its number in decimal or hexadecimal digits. */
  ghost predicate StandsFor(name: string, c: char) {
    || (name == "amp" && c == '&') || (name == "lt" && c == '<') || (name == "gt" && c == '>')
    || (name == "apos" && c == '\'') || (name == "quot" && c == '"')
    || exists digits: string ::
         && digits != "" && c != '\0'
         && ((name == "#" + digits && AreDigits(digits, 10) && DigitsValue(digits, 10) == c as int)
             || (name == "#x" + digits && AreDigits(digits, 16) && DigitsValue(digits, 16) == c as int))
  }

  lemma DigitsExactly(s: string, radix: nat, n: nat)
    requires radix in {10, 16}
    ensures ParseDigits(s, radix) == Some(n) <==>
            s != "" && AreDigits(s, radix) && DigitsValue(s, radix) == n && n < 0x1_0000_0000
  {
    hide DigitsValue;
    if s != "" && AreDigits(s, radix) {
      assert DigitValue(s[0]).Some? && DigitValue('+').None?;
    }
  }

  /** A scalar value other than zero. */
  lemma CharOf(n: nat, c: char)
    ensures CodePoint(n) == Some(c) <==> n == c as int && n != 0
  {
  }

  /** Exactly these references are resolved, each to its character. */
  lemma ResolvesExactly(name: string, c: char)
    ensures Resolve(name) == Some(c) <==> StandsFor(name, c)
  {
    hide ParseDigits, CodePoint, AreDigits, DigitsValue;
    NumberExactly(name, c);
    assert "amp"[0] == 'a' && "lt"[0] == 'l' && "gt"[0] == 'g' && "apos"[0] == 'a' && "quot"[0] == 'q';
    assert "apos"[1] == 'p' && "amp"[1] == 'm';
    if "#" <= name { assert name[0] == '#'; }
  }

  lemma NumberExactly(name: string, c: char)
    ensures "#" <= name && Resolve(name) == Some(c) ==> StandsFor(name, c)
    ensures forall digits: string ::
              (name == "#x" + digits && digits != "" && AreDigits(digits, 16) && DigitsValue(digits, 16) == c as int
               && c != '\0')
              ==> Resolve(name) == Some(c)
    ensures forall digits: string ::
              (name == "#" + digits && digits != "" && AreDigits(digits, 10) && DigitsValue(digits, 10) == c as int
               && c != '\0')
              ==> Resolve(name) == Some(c)
  {
    hide ParseDigits, CodePoint, DigitsValue;
    if "#x" <= name {
      var digits := name[2..];
      assert name == "#x" + digits && name[1..] == "x" + digits;
      DigitsExactly(digits, 16, c as int);
      if ParseDigits(digits, 16).Some? {
        CharOf(ParseDigits(digits, 16).value, c);
        DigitsExactly(digits, 16, ParseDigits(digits, 16).value);
      }
      CharOf(c as int, c);
      assert DigitValue('x').None?;
    } else if "#" <= name {
      var digits := name[1..];
      assert name == "#" + digits;
      DigitsExactly(digits, 10, c as int);
      if ParseDigits(digits, 10).Some? {
        CharOf(ParseDigits(digits, 10).value, c);
        DigitsExactly(digits, 10, ParseDigits(digits, 10).value);
      }
      CharOf(c as int, c);
    }
  }

  // ----- Pieces of content -----

  datatype Piece =
    | Plain(c: char)
    | Referred(name: string, c: char)
    | Section(text: string)
    | Comment(text: string)
    | Instruction(text: string)

  /** The word is nowhere in the text, nor runs from its end into the word itself. */
  predicate EndsAt(text: string, word: string) {
    forall k :: 0 <= k < |text| ==> !(word <= (text + word)[k..])
  }

  ghost predicate WellFormed(p: Piece) {
    match p
    case Plain(c) => c !in {'<', '&'}
    case Referred(name, c) => StandsFor(name, c)
    case Section(text) => text != "" && EndsAt(text, "]]>")
    case Comment(text) => EndsAt(text, "-->")
    case Instruction(text) => EndsAt(text, "?>")
  }

  function PieceText(p: Piece): string {
    match p
    case Plain(c) => [c]
    case Referred(name, _) => "&" + name + ";"
    case Section(text) => "<![CDATA[" + text + "]]>"
    case Comment(text) => "<!--" + text + "-->"
    case Instruction(text) => "<?" + text + "?>"
  }

  function PieceValue(p: Piece): string {
    match p
    case Plain(c) => [c]
    case Referred(_, c) => [c]
    case Section(text) => text
    case _ => ""
  }

  function PiecesText(pieces: seq<Piece>): string {
    if pieces == [] then "" else PieceText(pieces[0]) + PiecesText(pieces[1..])
  }

  function PiecesValue(pieces: seq<Piece>): string {
    if pieces == [] then "" else PieceValue(pieces[0]) + PiecesValue(pieces[1..])
  }

  lemma {:induction false} FoundAt(text: string, word: string, rest: string)
    requires word != "" && EndsAt(text, word)
    ensures Find(text + word + rest, word) == Some(|text|)
  {
    var s := text + word + rest;
    if text == "" {
      assert word <= s;
    } else {
      assert !(word <= (text + word)[0..]);
      assert (text + word)[..|word|] == s[..|word|];
      assert s[1..] == text[1..] + word + rest;
      forall k | 0 <= k < |text[1..]| ensures !(word <= (text[1..] + word)[k..]) {
        assert (text[1..] + word)[k..] == (text + word)[k + 1..];
      }
      FoundAt(text[1..], word, rest);
    }
  }

  lemma CutAt(text: string, word: string, rest: string)
    requires word != "" && EndsAt(text, word)
    ensures Before(text + word + rest, word) == Some((text, rest))
  {
    hide Find, EndsAt;
    FoundAt(text, word, rest);
    var s := text + word + rest;
    assert s[..|text|] == text && s[|text| + |word|..] == rest;
  }

  lemma SectionToken(text: string, rest: string)
    requires EndsAt(text, "]]>")
    ensures NextToken("<![CDATA[" + text + "]]>" + rest) == Some((CData(text), rest))
  {
    hide Before, TagEnd, EndsAt;
    var s := "<![CDATA[" + text + "]]>" + rest;
    assert s[9..] == text + "]]>" + rest && s[1] == '!' && s[2] == '[';
    CutAt(text, "]]>", rest);
  }

  lemma CommentToken(text: string, rest: string)
    requires EndsAt(text, "-->")
    ensures NextToken("<!--" + text + "-->" + rest) == Some((Other, rest))
  {
    hide Before, TagEnd, EndsAt;
    var s := "<!--" + text + "-->" + rest;
    assert s[4..] == text + "-->" + rest;
    CutAt(text, "-->", rest);
  }

  lemma InstructionToken(text: string, rest: string)
    requires EndsAt(text, "?>")
    ensures NextToken("<?" + text + "?>" + rest) == Some((Other, rest))
  {
    hide Before, TagEnd, EndsAt;
    var s := "<?" + text + "?>" + rest;
    assert s[2..] == text + "?>" + rest && s[1] == '?';
    CutAt(text, "?>", rest);
  }

  lemma ReferenceNames(name: string, c: char)
    requires StandsFor(name, c)
    ensures '&' !in name && '<' !in name && ';' !in name
  {
    hide DigitsValue;
    if digits: string :| digits != "" && (name == "#" + digits || name == "#x" + digits) && AreDigits(digits, 16) {
      assert DigitValue('&').None? && DigitValue('<').None? && DigitValue(';').None?;
    }
  }

  lemma ReferredReads(name: string, c: char, rest: string, open: seq<string>, state: State, response: string)
    requires StandsFor(name, c)
    ensures Read("&" + name + ";" + rest, open, state, response) == Read(rest, open, state.Append([c]), response)
  {
    hide NextToken, Resolve, StandsFor;
    ReferenceNames(name, c);
    ResolvesExactly(name, c);
    ReferenceToken(name, rest);
  }

  lemma PieceReads(p: Piece, rest: string, open: seq<string>, state: State, response: string)
    requires WellFormed(p)
    ensures Read(PieceText(p) + rest, open, state, response)
            == Read(rest, open, Added(state, PieceValue(p)), response)
  {
    hide NextToken, StandsFor, EndsAt;
    match p
    case Plain(c) => PlainReads(c, rest, open, state, response);
    case Referred(name, c) => ReferredReads(name, c, rest, open, state, response);
    case Section(text) => SectionToken(text, rest);
    case Comment(text) => CommentToken(text, rest);
    case Instruction(text) => InstructionToken(text, rest);
  }

  lemma AddedTwice(state: State, a: string, b: string)
    ensures Added(Added(state, a), b) == Added(state, a + b)
  {
    hide State.Append;
    AppendTwice(state, a, b);
    assert a + "" == a && "" + b == b;
  }

  /** Content in any mixture of plain characters, references, sections, comments and
      instructions adds the text that it stands for. */
  lemma {:induction false} PiecesRead(pieces: seq<Piece>, rest: string, open: seq<string>, state: State,
                                      response: string)
    requires forall p <- pieces :: WellFormed(p)
    ensures Read(PiecesText(pieces) + rest, open, state, response)
            == Read(rest, open, Added(state, PiecesValue(pieces)), response)
    decreases |pieces|
  {
    hide Read, WellFormed, PieceText, PieceValue, Added;
    if pieces == [] {
      assert "" + rest == rest;
      AddedNothing(state);
    } else {
      var first := pieces[0];
      assert WellFormed(first);
      Regroup(PieceText(first), PiecesText(pieces[1..]), rest);
      PieceReads(first, PiecesText(pieces[1..]) + rest, open, state, response);
      PiecesRead(pieces[1..], rest, open, Added(state, PieceValue(first)), response);
      AddedTwice(state, PieceValue(first), PiecesValue(pieces[1..]));
    }
  }

  lemma AddedNothing(state: State)
    ensures Added(state, "") == state
  {
  }

  // ----- White space in tags -----

  /** XML white space (XML 1.0 section 2.3). */
  predicate Gap(s: string) {
    forall k :: 0 <= k < |s| ==> s[k] in {' ', '\t', '\r', '\n'}
  }

  /** White space before the end of a start tag or an end tag does not matter. */
  lemma LooseTagsRead(name: string, gap: string, rest: string)
    requires NameLike(name) && Gap(gap)
    ensures NextToken("<" + (name + gap) + ">" + rest) == Some((Start(name), rest))
    ensures NextToken("</" + (name + gap) + ">" + rest) == Some((End(name), rest))
  {
    LooseStart(name, gap, rest);
    LooseEnd(name, gap, rest);
  }

  lemma LooseStart(name: string, gap: string, rest: string)
    requires NameLike(name) && Gap(gap)
    ensures NextToken("<" + (name + gap) + ">" + rest) == Some((Start(name), rest))
  {
    hide TagEnd, NameEnd, NextToken;
    var content := name + gap;
    LooseContent(name, gap);
    TagRun(content, ">" + rest, None);
    TagCloses(rest);
    NameStops(name, gap);
    TagToken(name, content, rest);
  }

  lemma LooseContent(name: string, gap: string)
    requires NameLike(name) && Gap(gap)
    ensures var content := name + gap;
            && '>' !in content && '"' !in content && '\'' !in content && content[|content| - 1] != '/'
            && (forall k :: 0 <= k < |name| ==> !IsXmlSpace(name[k])) && (gap == "" || IsXmlSpace(gap[0]))
  {
    var content := name + gap;
    forall k | 0 <= k < |content| ensures content[k] !in {'>', '"', '\'', '/'} {
      if k < |name| { assert NameChar(name[k]); } else { assert content[k] == gap[k - |name|]; }
    }
  }

  lemma LooseEnd(name: string, gap: string, rest: string)
    requires NameLike(name) && Gap(gap)
    ensures NextToken("</" + (name + gap) + ">" + rest) == Some((End(name), rest))
  {
    hide Find, TrimXmlEnd, TagEnd, NameEnd;
    var content := name + gap;
    var s := "</" + content + ">" + rest;
    assert s[2..] == content + ">" + rest && s[1] == '/';
    FindFirst(content, ">", rest);
    assert s[2..][..|content|] == content && s[2..][|content| + 1..] == rest;
    GapTrims(name, gap);
  }

  lemma {:induction false} GapTrims(name: string, gap: string)
    requires NameLike(name) && Gap(gap)
    ensures TrimXmlEnd(name + gap) == name
    decreases |gap|
  {
    if gap == "" {
      NameTrims(name);
      assert name + gap == name;
    } else {
      assert (name + gap)[..|name + gap| - 1] == name + gap[..|gap| - 1];
      GapTrims(name, gap[..|gap| - 1]);
    }
  }

  // ----- Whole responses -----

  datatype Item = Item(key: string, pieces: seq<Piece>)

  function ItemsText(items: seq<Item>): string {
    if items == [] then ""
    else
      (StartTag(items[0].key, []) + PiecesText(items[0].pieces) + EndTag(items[0].key)) + ItemsText(items[1..])
  }

  function Values(items: seq<Item>): Arguments {
    if items == [] then [] else [(items[0].key, PiecesValue(items[0].pieces))] + Values(items[1..])
  }

  ghost predicate GoodItem(item: Item) {
    NameLike(item.key) && forall p <- item.pieces :: WellFormed(p)
  }

  lemma ItemReads(item: Item, rest: string, open: seq<string>, state: State, response: string)
    requires GoodItem(item) && state.key == ""
    ensures var text := StartTag(item.key, []) + PiecesText(item.pieces) + EndTag(item.key);
            var after := Gathered(state, (item.key, PiecesValue(item.pieces)), response);
            Read(text + rest, open, state, response) == Read(rest, open, after, response) && after.key == ""
  {
    hide Read, LocalName, NameLike, StartTag, EndTag, WellFormed, PiecesText, PiecesValue;
    var key, text, value := item.key, PiecesText(item.pieces), PiecesValue(item.pieces);
    var closing := EndTag(key) + rest;
    assert StartTag(key, []) + text + EndTag(key) + rest == StartTag(key, []) + (text + closing);
    StartReads(key, [], text + closing, open, state, response);
    var inside := state.Opened(key, response);
    PiecesRead(item.pieces, closing, open + [key], inside, response);
    EndReads(key, rest, open, Added(inside, value), response);
    assert Added(inside, value).Closed(key, response) == Gathered(state, (key, value), response);
  }

  lemma {:induction false} ItemsRead(items: seq<Item>, rest: string, open: seq<string>, state: State,
                                     response: string)
    requires (forall item <- items :: GoodItem(item)) && state.key == ""
    ensures Read(ItemsText(items) + rest, open, state, response)
            == Read(rest, open, GatheredAll(state, Values(items), response), response)
    ensures GatheredAll(state, Values(items), response).key == ""
    decreases |items|
  {
    hide Read, GoodItem, StartTag, EndTag, Gathered, PiecesText, PiecesValue;
    if items == [] {
      assert "" + rest == rest;
    } else {
      var item := items[0];
      assert GoodItem(item);
      var text := StartTag(item.key, []) + PiecesText(item.pieces) + EndTag(item.key);
      var more := ItemsText(items[1..]);
      Regroup(text, more, rest);
      ItemReads(item, more + rest, open, state, response);
      var value := (item.key, PiecesValue(item.pieces));
      ItemsRead(items[1..], rest, open, Gathered(state, value, response), response);
      assert Values(items)[1..] == Values(items[1..]);
    }
  }

  /** A response whose values are written in any of these ways gives the arguments of
      one with plainly written values. */
  lemma ResponseReads(service: string, action: string, items: seq<Item>)
    requires '"' !in service && ColonFree(action) && (action != "" ==> NameLike(action))
    requires forall item <- items :: GoodItem(item)
    ensures var response := action + "Response";
            Response(Enveloped(service, response, ItemsText(items)), action)
            == Ok(GatheredAll(State(true, "", map[]), Values(items), response).output)
  {
    hide NameLike, StartTag, EndTag, ItemsText, Values, GatheredAll, Read, Enveloped, ColonFree, GoodItem, Response;
    var response := action + "Response";
    var begun := State(true, "", map[]);
    var open := ["s:Envelope", "s:Body", "u:" + response];
    ItemsRead(items, Foot(response), open, begun, response);
    EnvelopeReads(service, action, ItemsText(items), GatheredAll(begun, Values(items), response));
  }

  // ----- Which documents are read at all -----

  /** The tokens of a text, if it has no malformed one. */
  function Tokens(s: string): Option<seq<Token>>
    decreases |s|
  {
    if s == "" then Some([])
    else
      match NextToken(s)
      case None => None
      case Some((token, rest)) => if Tokens(rest).None? then None else Some([token] + Tokens(rest).value)
  }

  predicate Parted(tokens: seq<Token>, inside: seq<Token>, name: string, after: seq<Token>) {
    tokens == inside + [End(name)] + after
  }

  /** A proper nesting: a start tag, properly nested tokens, its end tag, and again
      properly nested tokens; all other tokens stand alone. */
  ghost predicate Nested(tokens: seq<Token>)
    decreases |tokens|
  {
    tokens == [] ||
    match tokens[0]
    case Start(name) =>
      exists inside, after :: Parted(tokens[1..], inside, name, after) && Nested(inside) && Nested(after)
    case End(_) => false
    case _ => Nested(tokens[1..])
  }

  function Innermost(open: seq<string>): string
    requires open != []
  {
    open[|open| - 1]
  }

  /** With these elements open, the tokens close them all, from the innermost one on. */
  ghost predicate Closes(tokens: seq<Token>, open: seq<string>)
    decreases |open|
  {
    if open == [] then Nested(tokens)
    else
      exists inside, after ::
        && Parted(tokens, inside, Innermost(open), after)
        && Nested(inside) && Closes(after, open[..|open| - 1])
  }

  ghost predicate AllResolve(tokens: seq<Token>) {
    forall token <- tokens :: token.Reference? ==> exists c :: StandsFor(token.name, c)
  }

  lemma ClosesNone(tokens: seq<Token>)
    ensures Closes(tokens, []) <==> Nested(tokens)
  {
  }

  lemma ClosesFirst(tokens: seq<Token>, open: seq<string>) returns (inside: seq<Token>, after: seq<Token>)
    requires open != [] && Closes(tokens, open)
    ensures tokens == inside + [End(open[|open| - 1])] + after && Nested(inside) && Closes(after, open[..|open| - 1])
  {
    hide Nested;
    inside, after :|
      Parted(tokens, inside, Innermost(open), after) && Nested(inside) && Closes(after, open[..|open| - 1]);
  }

  lemma ClosesBy(inside: seq<Token>, after: seq<Token>, open: seq<string>, name: string)
    requires Nested(inside) && Closes(after, open)
    ensures Closes(inside + [End(name)] + after, open + [name])
  {
    hide Nested;
    assert (open + [name])[..|open|] == open;
    assert Innermost(open + [name]) == name;
    assert Parted(inside + [End(name)] + after, inside, Innermost(open + [name]), after);
  }

  lemma NestedFirst(tokens: seq<Token>)
    ensures Nested(tokens) ==> tokens == [] || !tokens[0].End?
    ensures Nested([])
  {
  }

  lemma NestedLeaf(token: Token, rest: seq<Token>)
    requires !token.Start? && !token.End?
    ensures Nested([token] + rest) <==> Nested(rest)
  {
    assert ([token] + rest)[1..] == rest;
  }

  lemma NestedPair(name: string, inside: seq<Token>, after: seq<Token>)
    requires Nested(inside) && Nested(after)
    ensures Nested([Start(name)] + (inside + [End(name)] + after))
  {
    var tokens := [Start(name)] + (inside + [End(name)] + after);
    assert tokens[1..] == inside + [End(name)] + after;
    assert Parted(tokens[1..], inside, name, after);
  }

  lemma PairNested(name: string, rest: seq<Token>) returns (inside: seq<Token>, after: seq<Token>)
    requires Nested([Start(name)] + rest)
    ensures rest == inside + [End(name)] + after && Nested(inside) && Nested(after)
  {
    assert ([Start(name)] + rest)[1..] == rest;
    inside, after :| Parted(rest, inside, name, after) && Nested(inside) && Nested(after);
  }

  lemma ClosesLeaf(token: Token, rest: seq<Token>, open: seq<string>)
    requires !token.Start? && !token.End?
    ensures Closes([token] + rest, open) <==> Closes(rest, open)
  {
    hide Nested, Closes;
    NestedLeaf(token, rest);
    if open == [] {
      ClosesNone([token] + rest);
      ClosesNone(rest);
    } else {
      var front, name := open[..|open| - 1], open[|open| - 1];
      assert front + [name] == open;
      if Closes([token] + rest, open) {
        var inside, after := ClosesFirst([token] + rest, open);
        FirstOfMarked(token, rest, inside, End(name), after);
        NestedLeaf(token, inside[1..]);
        ClosesBy(inside[1..], after, front, name);
      }
      if Closes(rest, open) {
        var inside, after := ClosesFirst(rest, open);
        NestedLeaf(token, inside);
        ClosesBy([token] + inside, after, front, name);
        assert [token] + rest == [token] + inside + [End(name)] + after;
      }
    }
  }

  lemma ClosesEnd(name: string, rest: seq<Token>, open: seq<string>)
    ensures Closes([End(name)] + rest, open) <==>
            open != [] && open[|open| - 1] == name && Closes(rest, open[..|open| - 1])
  {
    hide Nested, Closes;
    var tokens := [End(name)] + rest;
    NestedFirst(tokens);
    ClosesNone(tokens);
    if open != [] {
      var front := open[..|open| - 1];
      if Closes(tokens, open) {
        var inside, after := ClosesFirst(tokens, open);
        NestedFirst(inside);
        FirstOfMarked(End(name), rest, inside, End(open[|open| - 1]), after);
      }
      if open[|open| - 1] == name && Closes(rest, front) {
        ClosesBy([], rest, front, name);
        assert front + [name] == open && [] + [End(name)] + rest == tokens;
      }
    }
  }

  lemma ClosesStart(name: string, rest: seq<Token>, open: seq<string>)
    ensures Closes([Start(name)] + rest, open) <==> Closes(rest, open + [name])
  {
    hide Nested, Closes;
    if Closes(rest, open + [name]) { OpenedBefore(name, rest, open); }
    if Closes([Start(name)] + rest, open) { OpensInside(name, rest, open); }
  }

  lemma OpenedBefore(name: string, rest: seq<Token>, open: seq<string>)
    requires Closes(rest, open + [name])
    ensures Closes([Start(name)] + rest, open)
  {
    hide Nested, Closes;
    assert (open + [name])[..|open|] == open;
    var inside, after := ClosesFirst(rest, open + [name]);
    if open == [] {
      ClosesNone(after);
      NestedPair(name, inside, after);
      ClosesNone([Start(name)] + rest);
    } else {
      var front, outer := open[..|open| - 1], open[|open| - 1];
      var later, last := ClosesFirst(after, open);
      NestedPair(name, inside, later);
      var pair := [Start(name)] + (inside + [End(name)] + later);
      ClosesBy(pair, last, front, outer);
      assert front + [outer] == open;
      assert pair + [End(outer)] + last == [Start(name)] + rest;
    }
  }

  lemma OpensInside(name: string, rest: seq<Token>, open: seq<string>)
    requires Closes([Start(name)] + rest, open)
    ensures Closes(rest, open + [name])
  {
    hide Nested, Closes;
    var tokens := [Start(name)] + rest;
    if open == [] {
      ClosesNone(tokens);
      var inside, after := PairNested(name, rest);
      ClosesNone(after);
      ClosesBy(inside, after, open, name);
    } else {
      var front, outer := open[..|open| - 1], open[|open| - 1];
      var pair, last := ClosesFirst(tokens, open);
      FirstOfMarked(Start(name), rest, pair, End(outer), last);
      var inside, later := PairNested(name, pair[1..]);
      ClosesBy(later, last, front, outer);
      assert front + [outer] == open;
      ClosesBy(inside, later + [End(outer)] + last, open, name);
      assert rest == inside + [End(name)] + (later + [End(outer)] + last);
    }
  }

  lemma FirstTokens(s: string)
    requires s != ""
    ensures NextToken(s).None? ==> Tokens(s).None?
    ensures NextToken(s).Some? ==>
              var (token, rest) := NextToken(s).value;
              && (Tokens(s).Some? <==> Tokens(rest).Some?)
              && (Tokens(s).Some? ==> Tokens(s).value == [token] + Tokens(rest).value)
  {
    hide NextToken;
  }

  /** A text is read only if its tokens nest properly, and then unless it holds a
      reference that stands for nothing. */
  lemma {:induction false} ReadsNested(s: string, open: seq<string>, state: State, response: string)
    ensures Read(s, open, state, response).Ok? ==> Tokens(s).Some? && Closes(Tokens(s).value, open)
    ensures Tokens(s).Some? && Closes(Tokens(s).value, open) && AllResolve(Tokens(s).value) ==>
              Read(s, open, state, response).Ok?
    decreases |s|, 1
  {
    hide NextToken, Tokens, Nested, Closes, Resolve, LocalName, StandsFor, State.Append;
    if s == "" {
      NothingCloses(open);
    } else {
      FirstTokens(s);
      if NextToken(s).Some? {
        var (token, rest) := NextToken(s).value;
        StepReads(token, s, rest, open, state, response);
      }
    }
  }

  lemma NothingCloses(open: seq<string>)
    ensures Tokens("") == Some([]) && (Closes([], open) <==> open == [])
  {
  }

  lemma StepReads(token: Token, s: string, rest: string, open: seq<string>, state: State, response: string)
    requires s != "" && NextToken(s) == Some((token, rest)) && |rest| < |s|
    requires Tokens(s).Some? <==> Tokens(rest).Some?
    requires Tokens(s).Some? ==> Tokens(s).value == [token] + Tokens(rest).value
    ensures Read(s, open, state, response).Ok? ==> Tokens(s).Some? && Closes(Tokens(s).value, open)
    ensures Tokens(s).Some? && Closes(Tokens(s).value, open) && AllResolve(Tokens(s).value) ==>
              Read(s, open, state, response).Ok?
    decreases |s|, 0
  {
    hide NextToken, Tokens, Nested, Closes, Resolve, LocalName, StandsFor, State.Append;
    var more := if Tokens(rest).Some? then Tokens(rest).value else [];
    match token
    case Start(name) =>
      ReadsNested(rest, open + [name], state.Opened(name, response), response);
      ClosesStart(name, more, open);
    case End(name) =>
      ClosesEnd(name, more, open);
      if open != [] && open[|open| - 1] == name {
        ReadsNested(rest, open[..|open| - 1], state.Closed(name, response), response);
      }
    case Reference(name) =>
      ClosesLeaf(token, more, open);
      if Resolve(name).Some? { ReadsNested(rest, open, state.Append([Resolve(name).value]), response); }
      ReadsNested(rest, open, state, response);
      Resolvable(name);
    case Text(text) =>
      ClosesLeaf(token, more, open);
      ReadsNested(rest, open, state.Append(text), response);
    case CData(text) =>
      ClosesLeaf(token, more, open);
      ReadsNested(rest, open, state.Append(text), response);
    case _ =>
      ClosesLeaf(token, more, open);
      ReadsNested(rest, open, state, response);
  }

  lemma Resolvable(name: string)
    ensures Resolve(name).Some? <==> exists c :: StandsFor(name, c)
  {
    hide Resolve, StandsFor;
    forall c ensures Resolve(name) == Some(c) <==> StandsFor(name, c) { ResolvesExactly(name, c); }
    if Resolve(name).Some? { assert StandsFor(name, Resolve(name).value); }
  }

  /** A response is read exactly if its tokens nest properly, as far as no reference
      in it stands for nothing. */
  lemma ReadExactlyNested(xml: string, action: string)
    ensures Response(xml, action).Ok? ==> Tokens(xml).Some? && Nested(Tokens(xml).value)
    ensures Tokens(xml).Some? && Nested(Tokens(xml).value) && AllResolve(Tokens(xml).value) ==>
              Response(xml, action).Ok?
  {
    hide Tokens, Nested, Read, AllResolve;
    ReadsNested(xml, [], BEGIN, action + "Response");
    if Tokens(xml).Some? { ClosesNone(Tokens(xml).value); }
  }
}
