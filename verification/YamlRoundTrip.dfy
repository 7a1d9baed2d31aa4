/** What the renderer prints, the reader takes for the same tree. */
module YamlRoundTrip {
  import opened Common
  import opened Strings
  import opened YamlText
  import opened Yaml
  import opened YamlStrings

  // ----- The trees -----

  predicate GoodKey(key: string) {
    Safe(key) && ':' !in key && key[0] != '-'
  }

  datatype Place = AtRoot | InList | InField

  predicate GoodScalar(v: Value, place: Place)
    requires IsScalar(v)
  {
    && place != AtRoot
    && (v.Number? ==> IsJsonNumber(v.literal))
    && (v.Text? ==> NoRawBreak(v.text) && Faithful(v.text) && (place == InList ==> ':' !in v.text))
  }

  predicate DistinctKeys(entries: seq<Entry>) {
    forall i, j :: 0 <= i < j < |entries| ==> entries[i].key != entries[j].key
  }

  /** Mappings are not empty, empty lists stand only in fields, the root is a
      container, strings in lists have no colon, no string holds a line break that
      JSON leaves as it is, and all strings are such as the reader gets unchanged. */
  predicate Good(v: Value, place: Place)
    decreases v
  {
    match v
    case List(items) => (items == [] ==> place == InField) && forall k :: 0 <= k < |items| ==> Good(items[k], InList)
    case Map(entries) =>
      && entries != [] && DistinctKeys(entries)
      && forall k :: 0 <= k < |entries| ==> GoodKey(entries[k].key) && Good(entries[k].value, InField)
    case _ => GoodScalar(v, place)
  }

  // ----- Scalars -----

  lemma {:induction false} DigitRunIsDigits(s: string)
    ensures forall k :: 0 <= k < DigitRun(s) ==> '0' <= s[k] <= '9'
  {
    if s != "" && '0' <= s[0] <= '9' { DigitRunIsDigits(s[1..]); }
  }

  predicate NumberChar(c: char) {
    '0' <= c <= '9' || c in {'+', '-', '.', 'e', 'E'}
  }

  lemma ExponentChars(s: string)
    requires IsExponent(s)
    ensures forall k :: 0 <= k < |s| ==> NumberChar(s[k])
  {
    if s != "" {
      var sign := |s| > 1 && (s[1] == '+' || s[1] == '-');
      var digits := if sign then s[2..] else s[1..];
      DigitRunIsDigits(digits);
      forall k | 0 <= k < |s| ensures NumberChar(s[k]) {
        if k >= |s| - |digits| { assert s[k] == digits[k - (|s| - |digits|)]; }
      }
    }
  }

  lemma FractionChars(s: string)
    requires s != "" && s[0] == '.' && IsExponent(s[1 + DigitRun(s[1..])..])
    ensures forall k :: 0 <= k < |s| ==> NumberChar(s[k])
  {
    hide DigitRun, IsExponent;
    var n := DigitRun(s[1..]);
    DigitRunIsDigits(s[1..]);
    ExponentChars(s[1 + n..]);
    forall k | 0 <= k < |s| ensures NumberChar(s[k]) {
      if 1 <= k <= n { assert s[k] == s[1..][k - 1]; }
      else if k > n { assert s[k] == s[1 + n..][k - 1 - n]; }
    }
  }

  lemma NumberChars(s: string)
    requires IsJsonNumber(s)
    ensures s != "" && forall k :: 0 <= k < |s| ==> NumberChar(s[k])
  {
    hide DigitRun, IsExponent;
    var t := if s[0] == '-' then s[1..] else s;
    var n := DigitRun(t);
    DigitRunIsDigits(t);
    var rest := t[n..];
    if rest != "" && rest[0] == '.' { FractionChars(rest); } else { ExponentChars(rest); }
    forall k | 0 <= k < |t| ensures NumberChar(t[k]) {
      if k >= n { assert t[k] == rest[k - n]; }
    }
    forall k | 0 <= k < |s| ensures NumberChar(s[k]) {
      if s[0] == '-' && k > 0 { assert s[k] == t[k - 1]; }
    }
  }

  lemma NumberReads(s: string)
    requires IsJsonNumber(s)
    ensures Safe(s) && ':' !in s && Scalar(s) == Some(Number(s))
  {
    hide IsJsonNumber;
    NumberChars(s);
    NumberSafe(s);
    StripKeeps(s);
  }

  lemma NumberSafe(s: string)
    requires s != "" && forall k :: 0 <= k < |s| ==> NumberChar(s[k])
    ensures Safe(s) && ':' !in s && s[0] !in {'n', '~', 't', 'f', '\'', '"'}
  {
    assert NumberChar(s[0]) && NumberChar(s[|s| - 1]);
  }

  lemma ScalarReads(v: Value, place: Place)
    requires IsScalar(v) && Good(v, place)
    ensures var text := ScalarText(v);
            Safe(text) && Scalar(text) == Some(v) && (place == InList ==> ':' !in text)
  {
    hide Scalar, IsPlain, IsJsonNumber, ScalarText, Safe, NoRawBreak, Faithful;
    ScalarWords();
    match v {
      case Null => WordsRead();
      case Bool(truth) => WordsRead();
      case Number(literal) => NumberReads(literal);
      case Text(s) => StringReads(s);
    }
  }

  lemma ScalarWords()
    ensures ScalarText(Null) == "null" && ScalarText(Bool(true)) == "true" && ScalarText(Bool(false)) == "false"
    ensures forall literal :: ScalarText(Number(literal)) == literal
  {
  }

  lemma WordsRead()
    ensures Safe("null") && Scalar("null") == Some(Null) && ':' !in "null"
    ensures Safe("true") && Scalar("true") == Some(Bool(true)) && ':' !in "true"
    ensures Safe("false") && Scalar("false") == Some(Bool(false)) && ':' !in "false"
  {
    hide Strip, LoadJson, IsBlank;
    VisibleKept("null");
    VisibleKept("true");
    VisibleKept("false");
  }

  lemma EmptyListReads()
    ensures Scalar("[]") == Some(List([])) && Safe("[]")
  {
    hide Strip, IsBlank;
    VisibleKept("[]");
    assert !IsJsonNumber("[]");
  }

  // ----- Rows -----

  /** The rows that follow a block of this indentation. */
  predicate Ends(after: seq<Row>, indent: nat) {
    after == [] || after[0].indent < indent
  }

  lemma SpaceStrips(s: string)
    ensures Strip(" " + s) == Strip(s)
  {
    hide StripEnd;
    assert (" " + s)[1..] == s;
  }

  lemma BlankStrips(text: string)
    requires text != "" && NoOuterBlank(text)
    ensures Strip(" " + text) == text && Strip(text) == text && Strip("") == ""
  {
    hide Strip, IsBlank;
    StripKeeps(text);
    StripKeeps("");
    SpaceStrips(text);
  }

  lemma ScalarBlank(text: string, rows: seq<Row>)
    requires text != "" && NoOuterBlank(text)
    ensures ScalarAt(" " + text, rows) == ScalarAt(text, rows)
  {
    hide Strip, LoadJson;
    BlankStrips(text);
  }

  lemma {:induction false} SetNewKey(entries: seq<Entry>, key: string, value: Value)
    requires forall k :: 0 <= k < |entries| ==> entries[k].key != key
    ensures SetKey(entries, key, value) == entries + [Entry(key, value)]
  {
    if entries != [] { SetNewKey(entries[1..], key, value); }
  }

  /** How a good container begins. */
  lemma FirstRow(v: Value, indent: nat, place: Place)
    requires !IsScalar(v) && Good(v, place) && v != List([])
    ensures var rows := Rows(v, indent);
            && rows != [] && rows[0].indent == indent
            && (v.List? <==> "-" <= rows[0].content)
            && rows[0].content != "[]" && rows[0].content != "{}"
  {
    hide ScalarText;
    match v {
      case Map(entries) =>
        var entry := entries[0];
        var row := EntryPart(entry, indent)[0];
        assert Rows(v, indent) == EntryPart(entry, indent) + EntryRows(entries[1..], indent);
        assert row.content[0] == entry.key[0];
        assert row.content[|entry.key|] == ':';
      case List(items) =>
        var row := ItemPart(items[0], indent)[0];
        assert Rows(v, indent) == ItemPart(items[0], indent) + ItemRows(items[1..], indent);
        assert row.content[0] == '-';
    }
  }

  lemma {:induction false} BlockReads(v: Value, indent: nat, place: Place, after: seq<Row>)
    requires !IsScalar(v) && Good(v, place) && v != List([]) && Ends(after, indent)
    ensures Block(Rows(v, indent) + after, indent) == Ok((v, after))
    decreases v, 1
  {
    hide MapFrom, ListFrom, EntryRows, ItemRows;
    FirstRow(v, indent, place);
    match v {
      case Map(entries) =>
        EntriesRead(entries, [], indent, after);
        assert [] + entries == entries;
      case List(items) =>
        ItemsRead(items, [], indent, after);
        assert [] + items == items;
    }
  }

  lemma {:induction false} EntriesRead(entries: seq<Entry>, done: seq<Entry>, indent: nat, after: seq<Row>)
    requires DistinctKeys(done + entries) && Ends(after, indent)
    requires forall k :: 0 <= k < |entries| ==> GoodKey(entries[k].key) && Good(entries[k].value, InField)
    ensures MapFrom(EntryRows(entries, indent) + after, indent, done) == Ok((Map(done + entries), after))
    decreases entries, 0
  {
    hide Good, GoodKey, EntryPart, MapFrom, DistinctKeys;
    if entries == [] {
      assert EntryRows(entries, indent) + after == after && done + entries == done;
      MapEnds(done, indent, after);
    } else {
      var entry := entries[0];
      var later := EntryRows(entries[1..], indent) + after;
      assert EntryRows(entries, indent) + after == EntryPart(entry, indent) + later;
      NextRow(entries[1..], indent, after);
      EntryReads(entry, done, indent, later);
      NewKey(done, entries);
      SetNewKey(done, entry.key, entry.value);
      assert done + entries == (done + [entry]) + entries[1..];
      EntriesRead(entries[1..], done + [entry], indent, after);
    }
  }

  lemma MapEnds(done: seq<Entry>, indent: nat, after: seq<Row>)
    requires Ends(after, indent)
    ensures MapFrom(after, indent, done) == Ok((Map(done), after))
  {
  }

  lemma NewKey(done: seq<Entry>, entries: seq<Entry>)
    requires entries != [] && DistinctKeys(done + entries)
    ensures forall k :: 0 <= k < |done| ==> done[k].key != entries[0].key
  {
    assert (done + entries)[|done|] == entries[0];
    assert forall k :: 0 <= k < |done| ==> (done + entries)[k] == done[k];
  }

  lemma NextRow(entries: seq<Entry>, indent: nat, after: seq<Row>)
    requires Ends(after, indent)
    ensures Ends(EntryRows(entries, indent) + after, indent + 2)
  {
    if entries != [] {
      assert EntryPart(entries[0], indent)[0].indent == indent;
    }
  }

  lemma EntryReads(entry: Entry, done: seq<Entry>, indent: nat, later: seq<Row>)
    requires GoodKey(entry.key) && Good(entry.value, InField) && Ends(later, indent + 2)
    ensures MapFrom(EntryPart(entry, indent) + later, indent, done)
            == MapFrom(later, indent, SetKey(done, entry.key, entry.value))
    decreases entry, 0
  {
    hide MapFrom, Block, Scalar, Rows, Good, Strip, GoodKey;
    var key, value := entry.key, entry.value;
    var rows := EntryPart(entry, indent) + later;
    BlankStrips("-");
    if IsScalar(value) {
      var text := ScalarText(value);
      ScalarReads(value, InField);
      BlankStrips(text);
      ScalarBlank(text, later);
      assert key + ": " + text == key + ":" + (" " + text);
      FieldRow(rows, key, " " + text, later, done, indent);
    } else {
      var below := Rows(value, indent + 2) + later;
      if value == List([]) {
        EmptyListReads();
        EmptyListRows(indent + 2);
        assert below[0] == Row(indent + 2, "[]") && below[1..] == later;
      } else {
        FirstRow(value, indent + 2, InField);
        assert below[0] == Rows(value, indent + 2)[0];
        BlockReads(value, indent + 2, InField, later);
      }
      assert key + ":" == key + ":" + "";
      FieldRow(rows, key, "", below, done, indent);
    }
  }

  lemma EmptyListRows(indent: nat)
    ensures Rows(List([]), indent) == [Row(indent, "[]")]
  {
  }

  /** A row of a mapping, with what stands on it after the colon and below it. */
  lemma FieldRow(rows: seq<Row>, key: string, raw: string, rest: seq<Row>, done: seq<Entry>, indent: nat)
    requires GoodKey(key) && rows == [Row(indent, key + ":" + raw)] + rest
    ensures var field := Field(raw, rest, indent);
            MapFrom(rows, indent, done) ==
            if field.Err? then field else MapFrom(field.value.1, indent, SetKey(done, key, field.value.0))
  {
    hide Field, Strip, SetKey, Find;
    var content := key + ":" + raw;
    FindFirst(key, ":", raw);
    assert content[0] == key[0];
    assert content[..|key|] == key && content[|key| + 1..] == raw;
    BlankStrips(key);
    assert rows[1..] == rest;
  }

  lemma {:induction false} ItemsRead(items: seq<Value>, done: seq<Value>, indent: nat, after: seq<Row>)
    requires forall k :: 0 <= k < |items| ==> Good(items[k], InList)
    requires Ends(after, indent)
    ensures ListFrom(ItemRows(items, indent) + after, indent, done) == Ok((List(done + items), after))
    decreases items, 0
  {
    hide Good, ItemPart, ListFrom, Item;
    if items == [] {
      assert ItemRows(items, indent) + after == after && done + items == done;
      ListEnds(done, indent, after);
    } else {
      var later := ItemRows(items[1..], indent) + after;
      assert ItemRows(items, indent) + after == ItemPart(items[0], indent) + later;
      NextItem(items[1..], indent, after);
      ItemReads(items[0], indent, later);
      ListStep(items[0], done, indent, later);
      assert done + items == (done + [items[0]]) + items[1..];
      ItemsRead(items[1..], done + [items[0]], indent, after);
    }
  }

  lemma ListEnds(done: seq<Value>, indent: nat, after: seq<Row>)
    requires Ends(after, indent)
    ensures ListFrom(after, indent, done) == Ok((List(done), after))
  {
  }

  lemma ListStep(item: Value, done: seq<Value>, indent: nat, later: seq<Row>)
    requires var rows := ItemPart(item, indent) + later;
             rows != [] && rows[0].content != "" && Item(rows, indent) == Ok((item, later))
    ensures ListFrom(ItemPart(item, indent) + later, indent, done) == ListFrom(later, indent, done + [item])
  {
    hide Item, Rows, ScalarText;
  }

  lemma NextItem(items: seq<Value>, indent: nat, after: seq<Row>)
    requires Ends(after, indent)
    ensures Ends(ItemRows(items, indent) + after, indent + 2)
  {
    if items != [] {
      assert ItemPart(items[0], indent)[0].indent == indent;
    }
  }

  lemma ItemReads(item: Value, indent: nat, later: seq<Row>)
    requires Good(item, InList) && Ends(later, indent + 2)
    ensures ItemPart(item, indent) != [] && (ItemPart(item, indent) + later)[0].content != ""
    ensures Item(ItemPart(item, indent) + later, indent) == Ok((item, later))
    decreases item, 2
  {
    hide Block, Scalar, ScalarText, Rows, Good, Strip, Find;
    var rows := ItemPart(item, indent) + later;
    if IsScalar(item) {
      var text := ScalarText(item);
      ScalarReads(item, InList);
      FindNone(text, ":");
      BlankStrips(text);
      assert rows[0].content[1..] == " " + text;
      assert rows[1..] == later;
    } else {
      ListsInListsAreNotEmpty(item);
      FirstRow(item, indent + 2, InList);
      BlockReads(item, indent + 2, InList, later);
      assert rows[0].content[1..] == "";
      BlankStrips("-");
      assert rows[1..] == Rows(item, indent + 2) + later;
    }
  }

  lemma ListsInListsAreNotEmpty(v: Value)
    requires Good(v, InList)
    ensures v != List([])
  {
  }

  // ----- Text -----

  predicate AllSafe(rows: seq<Row>) {
    forall k :: 0 <= k < |rows| ==> Safe(rows[k].content)
  }

  lemma {:induction false} LineRun(run: string, rest: string)
    requires forall k :: 0 <= k < |run| ==> !IsLineBreak(run[k])
    ensures Lines(run + "\n" + rest) == [run] + Lines(rest)
  {
    var s := run + "\n" + rest;
    if run == "" {
      assert s[1..] == rest;
    } else {
      assert s[1..] == run[1..] + "\n" + rest;
      LineRun(run[1..], rest);
      assert [run[0]] + run[1..] == run;
    }
  }

  lemma RowLine(row: Row)
    requires Safe(row.content)
    ensures var line := Blanks(row.indent) + row.content;
            && (forall k :: 0 <= k < |line| ==> !IsLineBreak(line[k]))
            && Strip(line) == row.content && LeadingBlanks(line) == row.indent
  {
    BlanksStripped(row.indent, row.content);
    var line := Blanks(row.indent) + row.content;
    forall k | 0 <= k < |line| ensures !IsLineBreak(line[k]) { LineBreaksExactly(line[k]); }
  }

  lemma {:induction false} BlanksStripped(count: nat, content: string)
    requires content != "" && NoOuterBlank(content)
    ensures Strip(Blanks(count) + content) == content && LeadingBlanks(Blanks(count) + content) == count
    decreases count
  {
    hide Strip, IsBlank, Blanks, LeadingBlanks;
    BlanksFirst(count, content);
    if count == 0 {
      StripKeeps(content);
      NotSpace(content);
      NotIndented(content);
    } else {
      BlanksStripped(count - 1, content);
      SpaceStrips(Blanks(count - 1) + content);
      OneMoreBlank(Blanks(count - 1) + content);
    }
  }

  lemma BlanksFirst(count: nat, content: string)
    ensures Blanks(count) + content == if count == 0 then content else " " + (Blanks(count - 1) + content)
  {
    if count > 0 { assert Blanks(count) == " " + Blanks(count - 1); }
  }

  lemma NotIndented(s: string)
    requires s != "" && s[0] != ' '
    ensures LeadingBlanks(s) == 0
  {
  }

  lemma OneMoreBlank(s: string)
    ensures LeadingBlanks(" " + s) == 1 + LeadingBlanks(s)
  {
    assert (" " + s)[1..] == s;
  }

  lemma NotSpace(content: string)
    requires content != "" && NoOuterBlank(content)
    ensures content[0] != ' '
  {
  }

  lemma {:induction false} RowsComeBack(rows: seq<Row>)
    requires AllSafe(rows)
    ensures RowsOf(Lines(RowsText(rows))) == rows
    decreases |rows|
  {
    hide Lines, Strip, LeadingBlanks, Safe, Blanks;
    if rows == [] {
      NoRows();
    } else {
      var line := Blanks(rows[0].indent) + rows[0].content;
      var rest := RowsText(rows[1..]);
      RowLine(rows[0]);
      SafeNotEmpty(rows[0].content);
      LineRun(line, rest);
      assert RowsText(rows) == line + "\n" + rest;
      RowsComeBack(rows[1..]);
      assert ([line] + Lines(rest))[1..] == Lines(rest);
    }
  }

  lemma NoRows()
    ensures RowsOf(Lines("")) == []
  {
    assert [""][1..] == [];
    assert Strip("") == "";
  }

  lemma SafeNotEmpty(content: string)
    ensures Safe(content) ==> content != ""
  {
  }

  /** Parts of a text that a line end or a blank closes stay calm side by side. */
  lemma CalmJoins(a: string, b: string)
    requires Calm(a) && Calm(b) && a != "" && a[|a| - 1] in {' ', '\n'}
    ensures Calm(a + b)
  {
    var s := a + b;
    forall k | 0 <= k < |s| ensures !Four(s, k) {
      if k >= |a| {
        assert Four(s, k) <==> Four(b, k - |a|);
      } else if k + 3 < |a| {
        assert Four(s, k) <==> Four(a, k);
      } else {
        assert s[|a| - 1] == a[|a| - 1];
      }
    }
  }

  lemma LineCalm(row: Row)
    requires Calm(row.content)
    ensures Calm(RowText(row))
  {
    var blanks := Blanks(row.indent);
    forall k | 0 <= k < |RowText(row)| ensures !Four(RowText(row), k) {
      if k >= row.indent { assert Four(RowText(row), k) ==> Four(row.content, k - row.indent); }
    }
  }

  lemma {:induction false} TextCalm(rows: seq<Row>)
    requires AllSafe(rows)
    ensures Calm(RowsText(rows))
    decreases |rows|
  {
    hide Calm, RowText;
    if rows == [] {
      assert Calm("") by { NothingCalm(); }
    } else {
      LineCalm(rows[0]);
      LineEnds(rows[0]);
      TextCalm(rows[1..]);
      CalmJoins(RowText(rows[0]), RowsText(rows[1..]));
    }
  }

  lemma NothingCalm()
    ensures Calm("")
  {
  }

  lemma LineEnds(row: Row)
    ensures RowText(row) != "" && RowText(row)[|RowText(row)| - 1] == '\n'
  {
  }

  // ----- Every rendered row is safe -----

  lemma FieldSafe(key: string, text: string)
    requires GoodKey(key)
    ensures Safe(key + ":") && Safe("-")
    ensures Safe(text) ==> Safe(key + ": " + text) && Safe("- " + text)
  {
    hide Safe, Head, GoodKey;
    KeySafe(key);
    ColonVisible();
    if Safe(text) {
      SafeJoin(key + ": ", text);
      SafeJoin("- ", text);
    }
  }

  /** What can stand before the text of a scalar on its row. */
  predicate Head(s: string) {
    s != "" && !IsBlank(s[0]) && s[|s| - 1] == ' ' && OnOneLine(s) && Calm(s)
  }

  lemma KeySafe(key: string)
    requires GoodKey(key)
    ensures Head(key + ": ") && Safe(key + ":")
  {
    hide IsBlank;
    var long := key + ": ";
    forall k | 0 <= k < |long| ensures !Breaks(long[k]) && !Four(long, k) {
      if k < |key| { assert long[k] == key[k]; }
      if k + 3 < |key| { assert Four(long, k) <==> Four(key, k); }
    }
    var short := key + ":";
    forall k | 0 <= k < |short| ensures !Breaks(short[k]) && !Four(short, k) {
      assert short[k] == long[k] && (Four(short, k) ==> Four(long, k));
    }
    assert !IsBlank(':') by { ColonVisible(); }
  }

  lemma ColonVisible()
    ensures !IsBlank(':') && Safe("-") && Head("- ")
  {
  }

  lemma SafeJoin(head: string, text: string)
    requires Head(head) && Safe(text)
    ensures Safe(head + text)
  {
    hide IsBlank, Breaks, Calm;
    CalmJoins(head, text);
    var s := head + text;
    assert s[|s| - 1] == text[|text| - 1];
  }

  lemma {:induction false} RowsSafe(v: Value, indent: nat, place: Place)
    requires Good(v, place)
    ensures AllSafe(Rows(v, indent))
    decreases v, 1
  {
    hide Safe, ScalarText, GoodKey;
    match v {
      case Map(entries) => EntriesSafe(entries, indent);
      case List(items) => if items == [] { EmptyListReads(); } else { ItemsSafe(items, indent); }
      case _ => ScalarReads(v, place);
    }
  }

  lemma {:induction false} EntriesSafe(entries: seq<Entry>, indent: nat)
    requires forall k :: 0 <= k < |entries| ==> GoodKey(entries[k].key) && Good(entries[k].value, InField)
    ensures AllSafe(EntryRows(entries, indent))
    decreases entries, 0
  {
    hide Safe, ScalarText, Good, GoodKey;
    if entries != [] {
      var entry := entries[0];
      if IsScalar(entry.value) {
        ScalarReads(entry.value, InField);
        FieldSafe(entry.key, ScalarText(entry.value));
      } else {
        FieldSafe(entry.key, "");
        RowsSafe(entry.value, indent + 2, InField);
      }
      EntriesSafe(entries[1..], indent);
    }
  }

  lemma {:induction false} ItemsSafe(items: seq<Value>, indent: nat)
    requires forall k :: 0 <= k < |items| ==> Good(items[k], InList)
    ensures AllSafe(ItemRows(items, indent))
    decreases items, 0
  {
    hide Safe, ScalarText, Good;
    if items != [] {
      if IsScalar(items[0]) {
        ScalarReads(items[0], InList);
        ItemSafe(ScalarText(items[0]));
      } else {
        ItemSafe("");
        RowsSafe(items[0], indent + 2, InList);
      }
      ItemsSafe(items[1..], indent);
    }
  }

  lemma ItemSafe(text: string)
    ensures (Safe(text) ==> Safe("- " + text)) && Safe("-")
  {
    hide Safe;
    assert GoodKey("a") by { LetterKey(); }
    FieldSafe("a", text);
  }

  lemma LetterKey()
    ensures GoodKey("a")
  {
  }

  /** Reading what was printed gives the same tree. */
  lemma RenderedTreeReadsBack(v: Value)
    requires Good(v, AtRoot)
    ensures Parse(RowsText(Rows(v, 0))) == Ok(v)
  {
    hide Good, Block, Rows, RowsText, AllSafe, ReplaceEscapedEnds, Calm;
    RootIsContainer(v);
    var rows := Rows(v, 0);
    RowsSafe(v, 0, AtRoot);
    TextCalm(rows);
    CalmKept(RowsText(rows));
    RowsComeBack(rows);
    FirstRow(v, 0, AtRoot);
    BlockReads(v, 0, AtRoot, []);
    assert rows + [] == rows;
  }

  lemma RootIsContainer(v: Value)
    requires Good(v, AtRoot)
    ensures !IsScalar(v) && v != List([])
  {
  }
}
