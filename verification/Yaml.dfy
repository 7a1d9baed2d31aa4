/** The YAML renderer, and the reader that the comparison script pairs it with. */
module Yaml {
  import opened Common
  import opened Strings
  import opened YamlText

  // ----- Rendering -----

  /** One line: its indentation and its content. */
  datatype Row = Row(indent: nat, content: string)

  function Blanks(count: nat): string {
    seq(count, _ => ' ')
  }

  function RowText(row: Row): string {
    Blanks(row.indent) + row.content + "\n"
  }

  function RowsText(rows: seq<Row>): string {
    if rows == [] then "" else RowText(rows[0]) + RowsText(rows[1..])
  }

  /** The lines that a value is rendered as. */
  function Rows(v: Value, indent: nat): seq<Row>
    decreases v, 1
  {
    match v
    case Map(entries) => EntryRows(entries, indent)
    case List(items) => if items == [] then [Row(indent, "[]")] else ItemRows(items, indent)
    case _ => [Row(indent, ScalarText(v))]
  }

  function EntryRows(entries: seq<Entry>, indent: nat): seq<Row>
    decreases entries, 0
  {
    if entries == [] then [] else EntryPart(entries[0], indent) + EntryRows(entries[1..], indent)
  }

  function EntryPart(entry: Entry, indent: nat): seq<Row>
    decreases entry, 0
  {
    if IsScalar(entry.value) then [Row(indent, entry.key + ": " + ScalarText(entry.value))]
    else [Row(indent, entry.key + ":")] + Rows(entry.value, indent + 2)
  }

  function ItemRows(items: seq<Value>, indent: nat): seq<Row>
    decreases items, 0
  {
    if items == [] then [] else ItemPart(items[0], indent) + ItemRows(items[1..], indent)
  }

  function ItemPart(item: Value, indent: nat): seq<Row>
    decreases item, 2
  {
    if IsScalar(item) then [Row(indent, "- " + ScalarText(item))]
    else [Row(indent, "-")] + Rows(item, indent + 2)
  }

  lemma {:induction false} TextAppends(a: seq<Row>, b: seq<Row>)
    ensures RowsText(a + b) == RowsText(a) + RowsText(b)
    decreases |a|
  {
    hide RowText;
    if a == [] {
      assert a + b == b;
    } else {
      assert (a + b)[1..] == a[1..] + b;
      TextAppends(a[1..], b);
    }
  }

  lemma OneRowText(row: Row)
    ensures RowsText([row]) == RowText(row)
  {
    assert [row][1..] == [];
  }

  /** Appends the rendered value to the output. */
  method RenderYaml(value: Value, indent: nat, output: string) returns (r: string)
    ensures r == output + RowsText(Rows(value, indent))
    decreases value, 1
  {
    hide RowsText, RowText, EntryPart, ItemPart;
    r := output;
    NoRowsText();
    match value {
      case Map(entries) =>
        assert entries[0..] == entries;
        for k := 0 to |entries|
          invariant r + RowsText(EntryRows(entries[k..], indent)) == output + RowsText(EntryRows(entries, indent))
        {
          assert entries[k..][0] == entries[k] && entries[k..][1..] == entries[k + 1..];
          TextAppends(EntryPart(entries[k], indent), EntryRows(entries[k + 1..], indent));
          r := RenderEntry(entries[k], indent, r);
        }
        assert entries[|entries|..] == [];
      case List(items) =>
        if items == [] {
          OneRowText(Row(indent, "[]"));
          return r + RowText(Row(indent, "[]"));
        }
        assert items[0..] == items;
        for k := 0 to |items|
          invariant r + RowsText(ItemRows(items[k..], indent)) == output + RowsText(ItemRows(items, indent))
        {
          assert items[k..][0] == items[k] && items[k..][1..] == items[k + 1..];
          TextAppends(ItemPart(items[k], indent), ItemRows(items[k + 1..], indent));
          r := RenderItem(items[k], indent, r);
        }
        assert items[|items|..] == [];
      case _ =>
        OneRowText(Row(indent, ScalarText(value)));
        r := r + RowText(Row(indent, ScalarText(value)));
    }
  }

  method RenderEntry(entry: Entry, indent: nat, output: string) returns (r: string)
    ensures r == output + RowsText(EntryPart(entry, indent))
    decreases entry, 0
  {
    hide RowsText, RowText, Rows;
    if IsScalar(entry.value) {
      var row := Row(indent, entry.key + ": " + ScalarText(entry.value));
      OneRowText(row);
      return output + RowText(row);
    }
    var row := Row(indent, entry.key + ":");
    OneRowText(row);
    TextAppends([row], Rows(entry.value, indent + 2));
    r := RenderYaml(entry.value, indent + 2, output + RowText(row));
  }

  method RenderItem(item: Value, indent: nat, output: string) returns (r: string)
    ensures r == output + RowsText(ItemPart(item, indent))
    decreases item, 2
  {
    hide RowsText, RowText, Rows;
    if IsScalar(item) {
      var row := Row(indent, "- " + ScalarText(item));
      OneRowText(row);
      return output + RowText(row);
    }
    var row := Row(indent, "-");
    OneRowText(row);
    TextAppends([row], Rows(item, indent + 2));
    r := RenderYaml(item, indent + 2, output + RowText(row));
  }

  lemma NoRowsText()
    ensures RowsText([]) == ""
  {
  }

  // ----- Reading rows -----

  datatype YamlError = EmptyOutput | BadIndent | BadMapping | BadContinuation | BadScalar | Unfinished

  /** A value and the rows after it. */
  type Parsed = Result<(Value, seq<Row>), YamlError>

  function SetKey(entries: seq<Entry>, key: string, value: Value): seq<Entry> {
    if entries == [] then [Entry(key, value)]
    else if entries[0].key == key then [Entry(key, value)] + entries[1..]
    else [entries[0]] + SetKey(entries[1..], key, value)
  }

  function SetAll(entries: seq<Entry>, more: seq<Entry>): seq<Entry>
    decreases |more|
  {
    if more == [] then entries else SetAll(SetKey(entries, more[0].key, more[0].value), more[1..])
  }

  predicate Deeper(rows: seq<Row>, indent: nat) {
    rows != [] && rows[0].indent > indent
  }

  function ScalarAt(raw: string, rows: seq<Row>): Parsed {
    match Scalar(raw) case None => Err(BadScalar) case Some(v) => Ok((v, rows))
  }

  /** A block of rows of one indentation: a list or a mapping. */
  function Block(rows: seq<Row>, indent: nat): (r: Parsed)
    ensures r.Ok? ==> |r.value.1| < |rows|
    decreases |rows|, 3
  {
    if rows == [] || rows[0].indent != indent then Err(BadIndent)
    else if "-" <= rows[0].content then ListFrom(rows, indent, [])
    else MapFrom(rows, indent, [])
  }

  function ListFrom(rows: seq<Row>, indent: nat, items: seq<Value>): (r: Parsed)
    ensures r.Ok? ==> |r.value.1| <= |rows|
    ensures r.Ok? && rows != [] && rows[0].indent == indent && "-" <= rows[0].content ==> |r.value.1| < |rows|
    decreases |rows|, 2
  {
    if rows == [] || rows[0].indent != indent || !("-" <= rows[0].content) then Ok((List(items), rows))
    else
      match Item(rows, indent)
      case Err(e) => Err(e)
      case Ok((item, rest)) => ListFrom(rest, indent, items + [item])
  }

  function Item(rows: seq<Row>, indent: nat): (r: Parsed)
    requires rows != [] && rows[0].content != ""
    ensures r.Ok? ==> |r.value.1| < |rows|
    decreases |rows|, 1
  {
    var item, rest := Strip(rows[0].content[1..]), rows[1..];
    if item == "" then
      if Deeper(rest, indent) then Block(rest, rest[0].indent) else Ok((Null, rest))
    else if Find(item, ":").None? then ScalarAt(item, rest)
    else
      var k := Find(item, ":").value;
      var raw := item[k + 1..];
      var field := if Strip(raw) != "" then ScalarAt(raw, rest)
                   else if Deeper(rest, indent) then Block(rest, rest[0].indent)
                   else Ok((Null, rest));
      match field
      case Err(e) => Err(e)
      case Ok((value, after)) => Continued(after, indent, [Entry(Strip(item[..k]), value)])
  }

  /** Deeper rows after a mapping that began on the row of a list item. */
  function Continued(rows: seq<Row>, indent: nat, entries: seq<Entry>): (r: Parsed)
    ensures r.Ok? ==> |r.value.1| <= |rows|
    decreases |rows|, 4
  {
    if !Deeper(rows, indent) then Ok((Map(entries), rows))
    else
      match Block(rows, rows[0].indent)
      case Err(e) => Err(e)
      case Ok((value, rest)) =>
        if value.Map? then Continued(rest, indent, SetAll(entries, value.entries)) else Err(BadContinuation)
  }

  function MapFrom(rows: seq<Row>, indent: nat, entries: seq<Entry>): (r: Parsed)
    ensures r.Ok? ==> |r.value.1| <= |rows|
    ensures r.Ok? && rows != [] && rows[0].indent == indent ==> |r.value.1| < |rows|
    decreases |rows|, 2
  {
    if rows == [] || rows[0].indent != indent then Ok((Map(entries), rows))
    else if "-" <= rows[0].content || Find(rows[0].content, ":").None? then Err(BadMapping)
    else
      var k := Find(rows[0].content, ":").value;
      match Field(rows[0].content[k + 1..], rows[1..], indent)
      case Err(e) => Err(e)
      case Ok((value, rest)) => MapFrom(rest, indent, SetKey(entries, Strip(rows[0].content[..k]), value))
  }

  /** The value of a mapping's field: on its row or below it. */
  function Field(raw: string, rest: seq<Row>, indent: nat): (r: Parsed)
    ensures r.Ok? ==> |r.value.1| <= |rest|
    decreases |rest|, 4
  {
    if Strip(raw) != "" then ScalarAt(raw, rest)
    else if !Deeper(rest, indent) then Ok((Null, rest))
    else if rest[0].content == "[]" || rest[0].content == "{}" then ScalarAt(rest[0].content, rest[1..])
    else Block(rest, rest[0].indent)
  }

  // ----- Reading text -----

  predicate IsLineBreak(c: char) {
    '\n' <= c <= '\r' || 0x1C <= c as int <= 0x1E || c as int == 0x85 || c as int == 0x2028 || c as int == 0x2029
  }

  function Lines(s: string): (lines: seq<string>)
    ensures |lines| > 0
  {
    if s == "" then [""]
    else if IsLineBreak(s[0]) then [""] + Lines(s[1..])
    else [[s[0]] + Lines(s[1..])[0]] + Lines(s[1..])[1..]
  }

  /** The reader replaces the four characters of an escaped line end by two. */
  function ReplaceEscapedEnds(s: string): string {
    if "\\r\\n" <= s then "\\n" + ReplaceEscapedEnds(s[4..])
    else if s == "" then ""
    else [s[0]] + ReplaceEscapedEnds(s[1..])
  }

  function LeadingBlanks(s: string): (n: nat)
    ensures n <= |s|
  {
    if s == "" || s[0] != ' ' then 0 else 1 + LeadingBlanks(s[1..])
  }

  /** The rows of the lines that are not blank. */
  function RowsOf(lines: seq<string>): seq<Row> {
    if lines == [] then []
    else
      (if Strip(lines[0]) == "" then [] else [Row(LeadingBlanks(lines[0]), Strip(lines[0]))]) + RowsOf(lines[1..])
  }

  function ParseRows(rows: seq<Row>): Result<Value, YamlError> {
    if rows == [] then Err(EmptyOutput)
    else
      match Block(rows, rows[0].indent)
      case Err(e) => Err(e)
      case Ok((value, rest)) => if rest == [] then Ok(value) else Err(Unfinished)
  }

  function Parse(text: string): Result<Value, YamlError> {
    ParseRows(RowsOf(Lines(ReplaceEscapedEnds(text))))
  }

  // ----- The reader's loops -----

  /** A result with the index of the next row stands for one with the rows left. */
  predicate Agrees(r: Result<(Value, nat), YamlError>, rows: seq<Row>, expected: Parsed) {
    match expected
    case Err(e) => r == Err(e)
    case Ok(parsed) => r.Ok? && r.value.0 == parsed.0 && r.value.1 <= |rows| && rows[r.value.1..] == parsed.1
  }

  method ReadBlock(rows: seq<Row>, index: nat, indent: nat) returns (r: Result<(Value, nat), YamlError>)
    requires index <= |rows|
    ensures Agrees(r, rows, Block(rows[index..], indent))
    ensures r.Ok? ==> r.value.1 > index
    decreases |rows| - index, 2
  {
    hide Item, Continued, Field, SetKey, Find;
    if index >= |rows| || rows[index].indent != indent { return Err(BadIndent); }
    ghost var expected := Block(rows[index..], indent);
    var isList := "-" <= rows[index].content;
    var items: seq<Value>, entries: seq<Entry> := [], [];
    var k := index;
    while k < |rows| && rows[k].indent == indent
      invariant index <= k <= |rows|
      invariant k == index ==> isList == ("-" <= rows[index].content) && items == [] && entries == []
      invariant expected == if isList then ListFrom(rows[k..], indent, items) else MapFrom(rows[k..], indent, entries)
      decreases |rows| - k
    {
      var content := rows[k].content;
      assert rows[k..][0] == rows[k] && rows[k..][1..] == rows[k + 1..];
      if isList {
        if !("-" <= content) { break; }
        var item := ReadItem(rows, k, indent);
        if item.Err? { return item; }
        items := items + [item.value.0];
        k := item.value.1;
      } else {
        var colon := Find(content, ":");
        if "-" <= content || colon.None? { return Err(BadMapping); }
        var field := ReadField(rows, k + 1, indent, content[colon.value + 1..]);
        if field.Err? { return field; }
        entries := SetKey(entries, Strip(content[..colon.value]), field.value.0);
        k := field.value.1;
      }
    }
    return Ok((if isList then List(items) else Map(entries), k));
  }

  method ReadField(rows: seq<Row>, index: nat, indent: nat, raw: string) returns (r: Result<(Value, nat), YamlError>)
    requires index <= |rows|
    ensures Agrees(r, rows, Field(raw, rows[index..], indent))
    ensures r.Ok? ==> r.value.1 >= index
    decreases |rows| - index, 3
  {
    hide Block, Scalar, Strip;
    if Strip(raw) != "" {
      var v := Scalar(raw);
      return if v.None? then Err(BadScalar) else Ok((v.value, index));
    }
    if index < |rows| && rows[index].indent > indent {
      if rows[index].content == "[]" || rows[index].content == "{}" {
        var v := Scalar(rows[index].content);
        assert rows[index..][1..] == rows[index + 1..];
        return if v.None? then Err(BadScalar) else Ok((v.value, index + 1));
      }
      r := ReadBlock(rows, index, rows[index].indent);
      return;
    }
    return Ok((Null, index));
  }

  method ReadItem(rows: seq<Row>, index: nat, indent: nat) returns (r: Result<(Value, nat), YamlError>)
    requires index < |rows| && rows[index].content != ""
    ensures Agrees(r, rows, Item(rows[index..], indent))
    ensures r.Ok? ==> r.value.1 > index
    decreases |rows| - index, 1
  {
    hide Block, Scalar, Strip, SetAll, Find;
    var item := Strip(rows[index].content[1..]);
    var next := index + 1;
    ghost var rest := rows[index..][1..];
    assert rest == rows[next..];
    if item == "" {
      if next < |rows| && rows[next].indent > indent {
        r := ReadBlock(rows, next, rows[next].indent);
        return;
      }
      return Ok((Null, next));
    }
    var colon := Find(item, ":");
    if colon.None? {
      var v := Scalar(item);
      return if v.None? then Err(BadScalar) else Ok((v.value, next));
    }
    var raw := item[colon.value + 1..];
    var value := Null;
    if Strip(raw) != "" {
      var v := Scalar(raw);
      if v.None? { return Err(BadScalar); }
      value := v.value;
    } else if next < |rows| && rows[next].indent > indent {
      var child := ReadBlock(rows, next, rows[next].indent);
      if child.Err? { return child; }
      value := child.value.0;
      next := child.value.1;
    }
    var entries := [Entry(Strip(item[..colon.value]), value)];
    ghost var expected := Continued(rows[next..], indent, entries);
    while next < |rows| && rows[next].indent > indent
      invariant index < next <= |rows|
      invariant Continued(rows[next..], indent, entries) == expected
      decreases |rows| - next
    {
      var child := ReadBlock(rows, next, rows[next].indent);
      if child.Err? { return child; }
      if !child.value.0.Map? { return Err(BadContinuation); }
      entries := SetAll(entries, child.value.0.entries);
      next := child.value.1;
    }
    return Ok((Map(entries), next));
  }

  method ParseMinimalYaml(text: string) returns (r: Result<Value, YamlError>)
    ensures r == Parse(text)
  {
    var rows := RowsOf(Lines(ReplaceEscapedEnds(text)));
    if rows == [] { return Err(EmptyOutput); }
    assert rows[0..] == rows;
    var block := ReadBlock(rows, 0, rows[0].indent);
    if block.Err? { return Err(block.error); }
    if block.value.1 != |rows| { return Err(Unfinished); }
    return Ok(block.value.0);
  }
}
