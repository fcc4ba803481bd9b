/** PixelMEDIA.PixelCore.Helpers.ExportHelper: CSV fields, lines and
    documents. Fields are quoted as in section 2 of RFC 4180 (rules 6 and 7);
    records are separated by "\n" rather than CRLF. */
module ExportHelper {
  import opened Wrappers
  import opened Values
  import opened Seqs
  import ReflectionHelper

  /** CHARACTERS_THAT_MUST_BE_QUOTED: ',', '"' and '\n' (not '\r'). */
  predicate MustBeQuoted(c: char) {
    c == ',' || c == '"' || c == '\n'
  }

  /** s.IndexOfAny(CHARACTERS_THAT_MUST_BE_QUOTED) > -1. */
  predicate NeedsQuotes(s: string) {
    exists i :: 0 <= i < |s| && MustBeQuoted(s[i])
  }

  /** s.Replace(QUOTE, ESCAPED_QUOTE): every '"' doubled. */
  function DoubleQuotes(s: string): (r: string)
    ensures |r| >= |s|
  {
    if s == [] then []
    else (if s[0] == '"' then "\"\"" else [s[0]]) + DoubleQuotes(s[1..])
  }

  lemma {:induction false} DoubleQuotesNoQuote(s: string)
    requires '"' !in s
    ensures DoubleQuotes(s) == s
  {
    if s != [] {
      assert '"' !in s[1..] by { assert forall c :: c in s[1..] ==> c in s; }
      DoubleQuotesNoQuote(s[1..]);
    }
  }

  lemma NeedsQuotesAppend(a: string, b: string)
    ensures NeedsQuotes(a + b) <==> NeedsQuotes(a) || NeedsQuotes(b)
  {
    if NeedsQuotes(a + b) {
      var i :| 0 <= i < |a + b| && MustBeQuoted((a + b)[i]);
      if i < |a| { assert MustBeQuoted(a[i]); } else { assert MustBeQuoted(b[i - |a|]); }
    }
    if NeedsQuotes(a) {
      var i :| 0 <= i < |a| && MustBeQuoted(a[i]);
      assert MustBeQuoted((a + b)[i]);
    }
    if NeedsQuotes(b) {
      var i :| 0 <= i < |b| && MustBeQuoted(b[i]);
      assert MustBeQuoted((a + b)[i + |a|]);
    }
  }

  lemma NeedsQuotesCons(s: string)
    requires s != []
    ensures NeedsQuotes(s) <==> MustBeQuoted(s[0]) || NeedsQuotes(s[1..])
  {
    NeedsQuotesAppend([s[0]], s[1..]);
    assert [s[0]] + s[1..] == s;
    assert NeedsQuotes([s[0]]) <==> MustBeQuoted(s[0]) by {
      if MustBeQuoted(s[0]) { assert MustBeQuoted([s[0]][0]); }
    }
  }

  lemma {:induction false} DoubleQuotesNeedsQuotes(s: string)
    ensures NeedsQuotes(DoubleQuotes(s)) <==> NeedsQuotes(s)
  {
    if s != [] {
      DoubleQuotesNeedsQuotes(s[1..]);
      var head := if s[0] == '"' then "\"\"" else [s[0]];
      assert DoubleQuotes(s) == head + DoubleQuotes(s[1..]);
      NeedsQuotesCons(s);
      NeedsQuotesAppend(head, DoubleQuotes(s[1..]));
      assert NeedsQuotes(head) <==> MustBeQuoted(s[0]) by {
        if MustBeQuoted(s[0]) { assert MustBeQuoted(head[0]); }
        if NeedsQuotes(head) {
          var i :| 0 <= i < |head| && MustBeQuoted(head[i]);
          assert head[i] == s[0];
        }
      }
    }
  }

  /** EscapeCsv(s): null becomes the empty string; otherwise quotes are
      doubled, and the result is wrapped in quotes when it holds a character
      that must be quoted. */
  function EscapeCsv(s: Option<string>): (r: string)
    ensures s.None? ==> r == ""
  {
    match s
    case None => ""
    case Some(s) =>
      var d := if '"' in s then DoubleQuotes(s) else s;
      if NeedsQuotes(d) then "\"" + d + "\"" else d
  }

  /** A field without ',', '"' or '\n' comes back unchanged (a lone '\r'
      included); any other field comes back wrapped in quotes, and only such
      a field does. */
  lemma EscapeCsvQuotingIff(s: string)
    ensures !NeedsQuotes(s) ==> EscapeCsv(Some(s)) == s
    ensures var r := EscapeCsv(Some(s));
            (|r| >= 2 && r[0] == '"' && r[|r| - 1] == '"') <==> NeedsQuotes(s)
  {
    if '"' in s {
      DoubleQuotesNeedsQuotes(s);
      var i :| 0 <= i < |s| && s[i] == '"';
      assert MustBeQuoted(s[i]);
    } else if !NeedsQuotes(s) {
      var r := EscapeCsv(Some(s));
      if |r| >= 2 {
        assert MustBeQuoted(r[0]) ==> NeedsQuotes(s);
      }
    }
  }

  /** A lone carriage return is not quoted. */
  lemma CarriageReturnIsNotQuoted()
    ensures EscapeCsv(Some("a\rb")) == "a\rb"
  {
    NeedsQuotesCons("a\rb");
    NeedsQuotesCons("\rb");
    NeedsQuotesCons("b");
    EscapeCsvQuotingIff("a\rb");
  }

  /** A comma is quoted; a quote is doubled and quoted. */
  lemma CommaAndQuoteAreQuoted()
    ensures EscapeCsv(Some("a,b")) == "\"a,b\""
    ensures EscapeCsv(Some("\"")) == "\"\"\"\""
  {
    assert MustBeQuoted("a,b"[1]);
    assert DoubleQuotes("\"") == "\"\"";
    assert MustBeQuoted("\"\""[0]);
  }

  /** GetCsvLine(IEnumerable<string> values): the escaped fields joined by ','. */
  function GetCsvLine(values: seq<Option<string>>): (r: string)
    ensures values == [] ==> r == ""
    ensures |values| == 1 ==> r == EscapeCsv(values[0])
  {
    Join(",", Map(EscapeCsv, values))
  }

  /** No field needs quoting. */
  predicate AllPlain(values: seq<Option<string>>) {
    forall k :: 0 <= k < |values| ==> values[k].None? || !NeedsQuotes(values[k].value)
  }

  /** A line of fields that need no quoting is the fields as they are (null
      as ""), joined by ','. */
  lemma PlainCsvLine(values: seq<Option<string>>)
    requires AllPlain(values)
    ensures GetCsvLine(values) == Join(",", Map(OrEmpty, values))
  {
    forall k | 0 <= k < |values|
      ensures EscapeCsv(values[k]) == OrEmpty(values[k])
    {
      if values[k].Some? { EscapeCsvQuotingIff(values[k].value); }
    }
    assert Map(EscapeCsv, values) == Map(OrEmpty, values);
  }

  /** GetCsvLine(IEnumerable<object> values): each value through
      Convert.ToString, then escaped and joined like the string overload. */
  function GetCsvLineOfObjects(values: seq<Value>, toString: Value -> string): (r: string)
    ensures values == [] ==> r == ""
    ensures |values| >= 1 ==> ParseRecord(r) == Some((Map((v: Value) => ConvertToString(v, toString), values), EndOfInput))
  {
    var fields := Map((v: Value) => Some(ConvertToString(v, toString)), values);
    if |values| >= 1 then
      ParseCsvLine(fields, "");
      assert GetCsvLine(fields) + "" == GetCsvLine(fields);
      assert Map(OrEmpty, fields) == Map((v: Value) => ConvertToString(v, toString), values);
      GetCsvLine(fields)
    else GetCsvLine(fields)
  }

  // ---- Decoding under RFC 4180, section 2, with '\n' between records ----

  /** The rest of a quoted field after its opening quote: the field's text,
      with "" read as ", and the input after the closing quote. None when the
      closing quote is missing. */
  function ParseQuoted(s: string): (r: Option<(string, string)>)
    ensures r.Some? ==> |r.value.1| < |s|
  {
    if s == [] then None
    else if s[0] == '"' then
      if |s| >= 2 && s[1] == '"' then
        match ParseQuoted(s[2..])
        case None => None
        case Some((f, rest)) => Some(("\"" + f, rest))
      else Some(([], s[1..]))
    else
      match ParseQuoted(s[1..])
      case None => None
      case Some((f, rest)) => Some(([s[0]] + f, rest))
  }

  /** An unquoted field: everything up to the next ',' or '\n'. */
  function ParseUnquoted(s: string): (r: (string, string))
    ensures r.0 + r.1 == s
  {
    if s == [] || s[0] == ',' || s[0] == '\n' then ([], s)
    else
      var (f, rest) := ParseUnquoted(s[1..]);
      ([s[0]] + f, rest)
  }

  function ParseField(s: string): (r: Option<(string, string)>)
    ensures r.Some? ==> |r.value.1| <= |s|
  {
    if s != [] && s[0] == '"' then ParseQuoted(s[1..]) else Some(ParseUnquoted(s))
  }

  /** How a record ends: at the end of the input, or at a '\n' followed by
      the next record. */
  datatype Ending = EndOfInput | NewLine(rest: string)

  /** One record: fields separated by ','. None when text follows a closing
      quote or a quote is not closed. */
  function ParseRecord(s: string): (r: Option<(seq<string>, Ending)>)
    ensures r.Some? && r.value.1.NewLine? ==> |r.value.1.rest| < |s|
    decreases |s|
  {
    match ParseField(s)
    case None => None
    case Some((f, rest)) =>
      if rest == [] then Some(([f], EndOfInput))
      else if rest[0] == ',' then
        match ParseRecord(rest[1..])
        case None => None
        case Some((fs, ending)) => Some(([f] + fs, ending))
      else if rest[0] == '\n' then Some(([f], NewLine(rest[1..])))
      else None
  }

  /** A whole document: records separated by '\n'. */
  function ParseDocument(s: string): (r: Option<seq<seq<string>>>)
    decreases |s|
  {
    match ParseRecord(s)
    case None => None
    case Some((record, EndOfInput)) => Some([record])
    case Some((record, NewLine(rest))) =>
      match ParseDocument(rest)
      case None => None
      case Some(records) => Some([record] + records)
  }

  /** What may follow a field: nothing, a ',' or a '\n'. */
  predicate FieldEnd(tail: string) {
    tail == [] || tail[0] == ',' || tail[0] == '\n'
  }

  lemma {:induction false} ParseQuotedDoubled(s: string, tail: string)
    requires FieldEnd(tail)
    ensures ParseQuoted(DoubleQuotes(s) + "\"" + tail) == Some((s, tail))
  {
    var input := DoubleQuotes(s) + "\"" + tail;
    if s == [] {
      assert input == "\"" + tail;
      assert input[1..] == tail;
    } else {
      ParseQuotedDoubled(s[1..], tail);
      var more := DoubleQuotes(s[1..]) + "\"" + tail;
      if s[0] == '"' {
        assert input == "\"\"" + more;
        assert input[2..] == more;
      } else {
        assert input == [s[0]] + more;
        assert input[1..] == more;
      }
      assert [s[0]] + s[1..] == s;
    }
  }

  lemma {:induction false} ParseUnquotedPlain(s: string, tail: string)
    requires !NeedsQuotes(s) && FieldEnd(tail)
    ensures ParseUnquoted(s + tail) == (s, tail)
  {
    if s != [] {
      NeedsQuotesCons(s);
      ParseUnquotedPlain(s[1..], tail);
      assert (s + tail)[1..] == s[1..] + tail;
      assert [s[0]] + s[1..] == s;
    } else {
      assert s + tail == tail;
    }
  }

  /** Decoding recovers an escaped field; null is read back as the empty field. */
  lemma ParseEscapedField(s: Option<string>, tail: string)
    requires FieldEnd(tail)
    ensures ParseField(EscapeCsv(s) + tail) == Some((s.GetOr(""), tail))
  {
    match s
    case None =>
      assert EscapeCsv(s) + tail == tail;
      ParseUnquotedPlain("", tail);
    case Some(v) =>
      if '"' !in v {
        DoubleQuotesNoQuote(v);
      }
      DoubleQuotesNeedsQuotes(v);
      if NeedsQuotes(v) {
        ParseQuotedField(v, tail);
      } else {
        ParsePlainField(v, tail);
      }
  }

  /** A field that needs quotes is quoted, and the quotes are stripped again. */
  lemma ParseQuotedField(v: string, tail: string)
    requires FieldEnd(tail) && NeedsQuotes(v) && NeedsQuotes(DoubleQuotes(v))
    requires '"' !in v ==> DoubleQuotes(v) == v
    ensures ParseField(EscapeCsv(Some(v)) + tail) == Some((v, tail))
  {
    var d := DoubleQuotes(v);
    assert EscapeCsv(Some(v)) == "\"" + d + "\"";
    var body := d + "\"" + tail;
    var input := EscapeCsv(Some(v)) + tail;
    assert input == "\"" + body;
    assert input[0] == '"' && input[1..] == body;
    assert ParseField(input) == ParseQuoted(body);
    ParseQuotedDoubled(v, tail);
  }

  /** A field that needs no quotes is read back as it is. */
  lemma ParsePlainField(v: string, tail: string)
    requires FieldEnd(tail) && !NeedsQuotes(v) && DoubleQuotes(v) == v
    ensures ParseField(EscapeCsv(Some(v)) + tail) == Some((v, tail))
  {
    assert EscapeCsv(Some(v)) == v;
    ParseUnquotedPlain(v, tail);
    if v != [] {
      assert (v + tail)[0] == v[0];
      assert !MustBeQuoted(v[0]);
    } else {
      assert v + tail == tail;
    }
  }

  function EndingOf(tail: string): Ending {
    if tail == [] then EndOfInput else NewLine(tail[1..])
  }

  function OrEmpty(v: Option<string>): string {
    v.GetOr("")
  }

  /** A record whose first field is followed by the end of the line. */
  lemma ParseRecordLastField(s: string, f: string, tail: string)
    requires tail == [] || tail[0] == '\n'
    requires ParseField(s) == Some((f, tail))
    ensures ParseRecord(s) == Some(([f], EndingOf(tail)))
  {
  }

  /** A record whose first field is followed by a ','. */
  lemma ParseRecordNextField(s: string, f: string, rest: string)
    requires ParseField(s) == Some((f, "," + rest))
    ensures ParseRecord(s) == match ParseRecord(rest)
                              case None => None
                              case Some((fs, ending)) => Some(([f] + fs, ending))
  {
    assert ("," + rest)[1..] == rest;
  }

  /** Decoding an emitted line gives back its fields, null ones as "". */
  lemma {:induction false} ParseCsvLine(values: seq<Option<string>>, tail: string)
    requires |values| >= 1
    requires tail == [] || tail[0] == '\n'
    ensures ParseRecord(GetCsvLine(values) + tail) == Some((Map(OrEmpty, values), EndingOf(tail)))
  {
    MapCons(EscapeCsv, values);
    MapCons(OrEmpty, values);
    var first := EscapeCsv(values[0]);
    if |values| == 1 {
      assert Map(EscapeCsv, values) == [first];
      assert GetCsvLine(values) == first;
      ParseEscapedField(values[0], tail);
      assert ParseField(first + tail) == Some((OrEmpty(values[0]), tail));
      ParseRecordLastField(first + tail, OrEmpty(values[0]), tail);
      assert Map(OrEmpty, values[1..]) == [];
      assert Map(OrEmpty, values) == [OrEmpty(values[0])];
      assert ParseRecord(GetCsvLine(values) + tail) == Some(([OrEmpty(values[0])], EndingOf(tail)));
    } else {
      var restLine := GetCsvLine(values[1..]);
      assert GetCsvLine(values) == first + "," + restLine;
      var after := "," + (restLine + tail);
      assert GetCsvLine(values) + tail == first + after;
      ParseEscapedField(values[0], after);
      ParseRecordNextField(first + after, OrEmpty(values[0]), restLine + tail);
      ParseCsvLine(values[1..], tail);
    }
  }

  function DecodedRow(row: seq<Option<string>>): seq<string> {
    Map(OrEmpty, row)
  }

  lemma ParseDocumentStep(s: string, record: seq<string>, rest: string)
    requires ParseRecord(s) == Some((record, NewLine(rest)))
    ensures ParseDocument(s) == match ParseDocument(rest)
                                case None => None
                                case Some(records) => Some([record] + records)
  {
  }

  /** Decoding lines joined by '\n' gives back every record, in order. */
  lemma {:induction false} ParseCsvLines(rows: seq<seq<Option<string>>>)
    requires |rows| >= 1
    requires forall k :: 0 <= k < |rows| ==> |rows[k]| >= 1
    ensures ParseDocument(Join("\n", Map(GetCsvLine, rows))) == Some(Map(DecodedRow, rows))
  {
    MapCons(GetCsvLine, rows);
    MapCons(DecodedRow, rows);
    var first := GetCsvLine(rows[0]);
    if |rows| == 1 {
      assert Map(GetCsvLine, rows) == [first];
      assert Join("\n", Map(GetCsvLine, rows)) == first;
      ParseCsvLine(rows[0], "");
      assert first + "" == first;
      assert ParseRecord(first) == Some((DecodedRow(rows[0]), EndOfInput));
      assert ParseDocument(first) == Some([DecodedRow(rows[0])]);
      assert Map(DecodedRow, rows[1..]) == [];
      assert Map(DecodedRow, rows) == [DecodedRow(rows[0])];
    } else {
      var rest := Join("\n", Map(GetCsvLine, rows[1..]));
      assert Join("\n", Map(GetCsvLine, rows)) == first + ("\n" + rest);
      ParseCsvLine(rows[0], "\n" + rest);
      assert ("\n" + rest)[1..] == rest;
      ParseDocumentStep(first + ("\n" + rest), DecodedRow(rows[0]), rest);
      ParseCsvLines(rows[1..]);
    }
  }

  // ---- GetCsv ----

  /** An item of the exported collection, by its property values; None is a
      null item. */
  type Item = Option<map<string, Value>>

  /** The header line: the property names. */
  function HeaderLine(props: seq<ReflectionHelper.PropertyInfo>): string {
    GetCsvLine(Map((p: ReflectionHelper.PropertyInfo) => Some(p.name), props))
  }

  /** The fields of one item's line, before escaping. */
  function ItemFields(props: seq<ReflectionHelper.PropertyInfo>, values: map<string, Value>,
                      toString: Value -> string): seq<Option<string>>
  {
    Map((p: ReflectionHelper.PropertyInfo) => Some(ConvertToString(ReflectionHelper.ValueOf(values, p.name), toString)), props)
  }

  function ItemLine(props: seq<ReflectionHelper.PropertyInfo>, item: Item, toString: Value -> string): string {
    GetCsvLine(ItemFields(props, item.GetOr(map[]), toString))
  }

  function ItemLines(props: seq<ReflectionHelper.PropertyInfo>, items: seq<Item>, toString: Value -> string): (r: seq<string>)
    ensures |r| == |items|
  {
    Map((item: Item) => ItemLine(props, item, toString), items)
  }

  /** The document: the header line, then the items' lines, joined by '\n'. */
  function CsvText(props: seq<ReflectionHelper.PropertyInfo>, items: seq<Item>, toString: Value -> string): string {
    Join("\n", [HeaderLine(props)] + ItemLines(props, items, toString))
  }

  /** GetCsv<T>(collection, fieldNames): a header line of the exported
      property names, then one '\n'-prefixed line per item. Reading a
      property of a null item throws TargetException. */
  method GetCsv(t: ReflectionHelper.TypeInfo, collection: seq<Item>, fieldNames: seq<string>,
                toString: Value -> string) returns (r: Result<string>)
    ensures var props := ReflectionHelper.FieldNameOrder(Filter(ReflectionHelper.IsGetable, t.properties), fieldNames);
            if props != [] && None in collection then r == Err(Target)
            else r == Ok(CsvText(props, collection, toString))
  {
    var props := ReflectionHelper.GetGetablePropertiesNamed(t, fieldNames);
    r := WriteCsv(props, collection, toString);
  }

  /** The StringBuilder loop of GetCsv over the exported properties. */
  method WriteCsv(props: seq<ReflectionHelper.PropertyInfo>, collection: seq<Item>, toString: Value -> string)
    returns (r: Result<string>)
    ensures if props != [] && None in collection then r == Err(Target) else r == Ok(CsvText(props, collection, toString))
  {
    var sb := HeaderLine(props);
    assert collection[..0] == [];
    assert [HeaderLine(props)] + ItemLines(props, [], toString) == [HeaderLine(props)];
    var i := 0;
    while i < |collection|
      invariant 0 <= i <= |collection|
      invariant props != [] ==> None !in collection[..i]
      invariant sb == CsvText(props, collection[..i], toString)
    {
      var item := collection[i];
      if props != [] && item.None? {
        assert item in collection;
        return Err(Target);
      }
      CsvStep(props, collection, i, toString);
      sb := sb + "\n" + ItemLine(props, item, toString);
      assert collection[..i + 1] == collection[..i] + [item];
      i := i + 1;
    }
    assert collection[..i] == collection;
    return Ok(sb);
  }

  /** One more item appends its line after a new line. */
  lemma CsvStep(props: seq<ReflectionHelper.PropertyInfo>, collection: seq<Item>, i: nat, toString: Value -> string)
    requires i < |collection|
    ensures CsvText(props, collection[..i + 1], toString) ==
            CsvText(props, collection[..i], toString) + "\n" + ItemLine(props, collection[i], toString)
  {
    var line := ItemLine(props, collection[i], toString);
    ItemLinesSnoc(props, collection, i, toString);
    JoinSnoc("\n", [HeaderLine(props)] + ItemLines(props, collection[..i], toString), line);
    assert [HeaderLine(props)] + ItemLines(props, collection[..i + 1], toString) ==
           [HeaderLine(props)] + ItemLines(props, collection[..i], toString) + [line];
  }

  lemma ItemLinesSnoc(props: seq<ReflectionHelper.PropertyInfo>, collection: seq<Item>, i: nat, toString: Value -> string)
    requires i < |collection|
    ensures ItemLines(props, collection[..i + 1], toString) ==
            ItemLines(props, collection[..i], toString) + [ItemLine(props, collection[i], toString)]
  {
    assert collection[..i + 1] == collection[..i] + [collection[i]];
    MapAppend((item: Item) => ItemLine(props, item, toString), collection[..i], [collection[i]]);
  }

  /** The record an item is read back as. */
  function ItemRecord(props: seq<ReflectionHelper.PropertyInfo>, item: Item, toString: Value -> string): seq<string> {
    Map((p: ReflectionHelper.PropertyInfo) => ConvertToString(ReflectionHelper.ValueOf(item.GetOr(map[]), p.name), toString), props)
  }

  function ItemRows(props: seq<ReflectionHelper.PropertyInfo>, collection: seq<Item>, toString: Value -> string)
    : (r: seq<seq<Option<string>>>)
    ensures |r| == |collection|
  {
    Map((item: Item) => ItemFields(props, item.GetOr(map[]), toString), collection)
  }

  lemma ItemRowsLines(props: seq<ReflectionHelper.PropertyInfo>, collection: seq<Item>, toString: Value -> string)
    ensures Map(GetCsvLine, ItemRows(props, collection, toString)) == ItemLines(props, collection, toString)
  {
  }

  lemma ItemRowsDecoded(props: seq<ReflectionHelper.PropertyInfo>, collection: seq<Item>, toString: Value -> string)
    ensures Map(DecodedRow, ItemRows(props, collection, toString)) ==
            Map((item: Item) => ItemRecord(props, item, toString), collection)
  {
    var fields := ItemRows(props, collection, toString);
    forall k | 0 <= k < |collection|
      ensures DecodedRow(fields[k]) == ItemRecord(props, collection[k], toString)
    {
      assert fields[k] == ItemFields(props, collection[k].GetOr(map[]), toString);
    }
  }

  lemma HeaderDecoded(props: seq<ReflectionHelper.PropertyInfo>)
    ensures DecodedRow(Map((p: ReflectionHelper.PropertyInfo) => Some(p.name), props)) == ReflectionHelper.Names(props)
  {
    var header := Map((p: ReflectionHelper.PropertyInfo) => Some(p.name), props);
    forall k | 0 <= k < |props|
      ensures DecodedRow(header)[k] == ReflectionHelper.Names(props)[k]
    {
      assert header[k] == Some(props[k].name);
    }
  }

  /** Round trip: reading the produced CSV back gives the header of property
      names followed by one record per item, each holding Convert.ToString of
      the item's property values, in order. */
  lemma GetCsvRoundTrip(props: seq<ReflectionHelper.PropertyInfo>, collection: seq<Item>, toString: Value -> string)
    requires props != []
    ensures ParseDocument(CsvText(props, collection, toString)) ==
              Some([ReflectionHelper.Names(props)] + Map((item: Item) => ItemRecord(props, item, toString), collection))
  {
    var header := Map((p: ReflectionHelper.PropertyInfo) => Some(p.name), props);
    var fields := ItemRows(props, collection, toString);
    var rows := [header] + fields;
    MapAppend(GetCsvLine, [header], fields);
    ItemRowsLines(props, collection, toString);
    assert Map(GetCsvLine, [header]) == [HeaderLine(props)];
    ParseCsvLines(rows);
    MapAppend(DecodedRow, [header], fields);
    HeaderDecoded(props);
    assert Map(DecodedRow, [header]) == [ReflectionHelper.Names(props)];
    ItemRowsDecoded(props, collection, toString);
  }
}
