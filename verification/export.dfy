/** The parser of one list export (`from_csv_text`): every line after the
    header becomes the key "<title> (<year>)", and the keys are collected in a
    set. A line whose fields are missing makes the source raise an IndexError;
    here that is an error value naming the offending data line. */
module Export {
  import opened Text
  import opened Results

  /** The IndexError the parser raises, on data line `dataLine` (counted from
      0 after the header, so it sits on line `dataLine + 2` of the file). */
  datatype LoadError = IndexError(dataLine: nat)

  /** The normalised identifier of a film: "<title> (<year>)". */
  function Key(title: string, year: string): string {
    title + " (" + year + ")"
  }

  /** The key of one data line, or `None` where the source's indexing raises.
      A line without a double quote is read as comma fields (title = field 1,
      year = field 2); a line with one is cut at the double quotes, the title
      is the text between the first two of them, commas included, and the
      year is the second comma field after the closing quote. */
  function ParseLine(line: string): Option<string> {
    var quoted := Split(line, '"');
    if |quoted| == 1 then
      var fields := Split(line, ',');
      if |fields| < 3 then None else Some(Key(fields[1], fields[2]))
    else if |quoted| < 3 then None
    else
      var after := Split(quoted[2], ',');
      if |after| < 2 then None else Some(Key(quoted[1], after[1]))
  }

  /** When a line is accepted, in terms of its separators: an unquoted line
      needs at least two commas (three fields); a quoted one needs a closing
      double quote (three quote segments) and a comma in the segment after
      it. */
  lemma ParseLineAccepts(line: string)
    ensures ParseLine(line).Some? <==>
      if '"' !in line then Count(line, ',') >= 2
      else |Split(line, '"')| >= 3 && ',' in Split(line, '"')[2]
  {
    SplitCount(line, '"');
    var quoted := Split(line, '"');
    if |quoted| == 1 {
      SplitCount(line, ',');
    } else if |quoted| >= 3 {
      SplitCount(quoted[2], ',');
    }
  }

  /** An unquoted line reads its title and year from comma fields 1 and 2. */
  lemma ParseUnquotedFields(line: string, fields: seq<string>)
    requires '"' !in line
    requires Split(line, ',') == fields && |fields| >= 3
    ensures ParseLine(line) == Some(Key(fields[1], fields[2]))
  {
    SplitNoSeparator(line, '"');
  }

  /** A line with a double quote, seen as `a"t"b` with `a` and `t` free of
      double quotes: it is accepted exactly when the text after the closing
      quote, up to any further double quote, holds a comma; the title is then
      `t`, commas included, and the year is the comma field after the first
      comma following the closing quote. */
  lemma ParseQuotedLine(a: string, t: string, b: string)
    requires '"' !in a && '"' !in t
    ensures ParseLine(a + ['"'] + (t + ['"'] + b)).Some? <==> ',' in Split(b, '"')[0]
    ensures |Split(Split(b, '"')[0], ',')| >= 2 ==>
      ParseLine(a + ['"'] + (t + ['"'] + b)) == Some(Key(t, Split(Split(b, '"')[0], ',')[1]))
  {
    SplitCons(t, '"', b);
    SplitCons(a, '"', t + ['"'] + b);
    SplitCount(Split(b, '"')[0], ',');
  }

  /** The CSV escape of a double quote: a second double quote right after
      the closing one leaves no text before the next quote, so the year field
      is missing and the line raises, whatever the rest says. */
  lemma DoubledQuoteRejected(a: string, t: string, b: string)
    requires '"' !in a && '"' !in t
    ensures ParseLine(a + ['"'] + (t + ['"'] + (['"'] + b))) == None
  {
    ParseQuotedLine(a, t, ['"'] + b);
    SplitLeadingSeparator(b, '"');
  }

  /** The unquoted export row `date,name,year,uri`. */
  function UnquotedRowText(date: string, name: string, year: string, uri: string): string {
    date + [','] + (name + [','] + (year + [','] + uri))
  }

  /** The quoted export row `date,"name",year,uri`. */
  function QuotedRowText(date: string, name: string, year: string, uri: string): string {
    (date + [',']) + ['"'] + (name + ['"'] + ([','] + (year + [','] + uri)))
  }

  /** An unquoted export row `date,name,year,uri` yields "name (year)". */
  lemma UnquotedRow(date: string, name: string, year: string, uri: string)
    requires ',' !in date && ',' !in name && ',' !in year
    requires '"' !in date && '"' !in name && '"' !in year && '"' !in uri
    ensures ParseLine(UnquotedRowText(date, name, year, uri)) == Some(Key(name, year))
  {
    UnquotedRowFields(date, name, year, uri);
    ParseUnquotedFields(UnquotedRowText(date, name, year, uri), [date, name, year] + Split(uri, ','));
  }

  /** The comma fields of an unquoted row, which holds no double quote. */
  lemma UnquotedRowFields(date: string, name: string, year: string, uri: string)
    requires ',' !in date && ',' !in name && ',' !in year
    requires '"' !in date && '"' !in name && '"' !in year && '"' !in uri
    ensures Split(UnquotedRowText(date, name, year, uri), ',') == [date, name, year] + Split(uri, ',')
    ensures '"' !in UnquotedRowText(date, name, year, uri)
  {
    SplitCons(year, ',', uri);
    SplitCons(name, ',', year + [','] + uri);
    SplitCons(date, ',', name + [','] + (year + [','] + uri));
  }

  /** A quoted export row `date,"name",year,uri` yields "name (year)", with
      every comma of the quoted name kept in the key. */
  lemma QuotedRow(date: string, name: string, year: string, uri: string)
    requires ',' !in year
    requires '"' !in date && '"' !in name && '"' !in year && '"' !in uri
    ensures ParseLine(QuotedRowText(date, name, year, uri)) == Some(Key(name, year))
  {
    var tail := [','] + (year + [','] + uri);
    SplitNoSeparator(tail, '"');
    assert Split(tail, ',') == ["", year] + Split(uri, ',') by {
      SplitLeadingSeparator(year + [','] + uri, ',');
      SplitCons(year, ',', uri);
    }
    ParseQuotedLine(date + [','], name, tail);
  }

  /** One film as the list export records it. */
  datatype Entry = Entry(date: string, name: string, year: string, uri: string)

  /** The fields an export row can carry without the parser misreading it:
      no line breaks or double quotes anywhere, no comma in the date or the
      year (the name may hold commas). */
  predicate Exportable(e: Entry) {
    && '\n' !in e.date && '\n' !in e.name && '\n' !in e.year && '\n' !in e.uri
    && '"' !in e.date && '"' !in e.name && '"' !in e.year && '"' !in e.uri
    && ',' !in e.date && ',' !in e.year
  }

  /** The row an exporter writes for `e`: the name is quoted exactly when it
      holds a comma. */
  function EncodeRow(e: Entry): string {
    if ',' in e.name then QuotedRowText(e.date, e.name, e.year, e.uri)
    else UnquotedRowText(e.date, e.name, e.year, e.uri)
  }

  /** Parsing an encoded row recovers the entry's key. */
  lemma ParseEncodedRow(e: Entry)
    requires Exportable(e)
    ensures ParseLine(EncodeRow(e)) == Some(Key(e.name, e.year))
    ensures '\n' !in EncodeRow(e)
  {
    if ',' in e.name {
      QuotedRow(e.date, e.name, e.year, e.uri);
    } else {
      UnquotedRow(e.date, e.name, e.year, e.uri);
    }
  }

  /** A CSV writer's escape of a quoted field: every double quote doubled. */
  function Escape(s: string): string
    decreases |s|
  {
    if |s| == 0 then ""
    else if s[0] == '"' then ['"', '"'] + Escape(s[1..])
    else [s[0]] + Escape(s[1..])
  }

  /** The escape of a field with a double quote: the text before its first
      quote, then two double quotes. */
  lemma {:induction false} EscapeAtFirstQuote(s: string)
    requires '"' in s
    ensures exists p, r :: '"' !in p && Escape(s) == p + ['"'] + (['"'] + r)
    decreases |s|
  {
    if s[0] == '"' {
      assert Escape(s) == [] + ['"'] + (['"'] + Escape(s[1..]));
    } else {
      assert s == [s[0]] + s[1..];
      EscapeAtFirstQuote(s[1..]);
      var p, r :| '"' !in p && Escape(s[1..]) == p + ['"'] + (['"'] + r);
      assert Escape(s) == ([s[0]] + p) + ['"'] + (['"'] + r);
    }
  }

  /** The row a CSV writer emits for `e`: the name is quoted when it holds a
      comma or a double quote, with its double quotes doubled. */
  function CsvRow(e: Entry): string {
    if ',' in e.name || '"' in e.name then QuotedRowText(e.date, Escape(e.name), e.year, e.uri)
    else UnquotedRowText(e.date, e.name, e.year, e.uri)
  }

  /** A film whose title holds a double quote cannot be loaded: its row, as
      a CSV writer emits it, always raises, so the whole export fails. */
  lemma QuoteInTitleRejected(e: Entry)
    requires '"' !in e.date && '"' in e.name
    ensures ParseLine(CsvRow(e)) == None
  {
    EscapeAtFirstQuote(e.name);
    var p, r :| '"' !in p && Escape(e.name) == p + ['"'] + (['"'] + r);
    var tail := [','] + (e.year + [','] + e.uri);
    assert Escape(e.name) + ['"'] + tail == p + ['"'] + (['"'] + (r + ['"'] + tail));
    DoubledQuoteRejected(e.date + [','], p, r + ['"'] + tail);
  }

  /** The row `d,"a""b",2000,u` written for the title `a"b` raises. */
  lemma QuoteInTitleExample()
    ensures CsvRow(Entry("d", "a\"b", "2000", "u")) == "d,\"a\"\"b\",2000,u"
    ensures ParseLine("d,\"a\"\"b\",2000,u") == None
  {
    assert "a\"b"[1] == '"';
    QuoteInTitleRejected(Entry("d", "a\"b", "2000", "u"));
  }

  /** The keys of the accepted lines among `lines`. */
  function KeySet(lines: seq<string>): set<string> {
    set l | l in lines && ParseLine(l).Some? :: ParseLine(l).value
  }

  /** The loop of `from_csv_text` over the data lines: every line is parsed
      in order and the first line that raises ends the load. */
  function ParseLines(lines: seq<string>): (r: Result<set<string>, LoadError>)
    ensures r.Ok? ==> forall i :: 0 <= i < |lines| ==> ParseLine(lines[i]).Some?
    ensures r.Err? ==>
      && r.error.dataLine < |lines|
      && ParseLine(lines[r.error.dataLine]).None?
      && forall i :: 0 <= i < r.error.dataLine ==> ParseLine(lines[i]).Some?
    decreases |lines|
  {
    if |lines| == 0 then Ok({})
    else
      match ParseLine(lines[0])
      case None => Err(IndexError(0))
      case Some(key) =>
        match ParseLines(lines[1..])
        case Err(IndexError(i)) => Err(IndexError(i + 1))
        case Ok(keys) => Ok({key} + keys)
  }

  /** A successful load is exactly the set of keys of the lines, so it has at
      most one key per line. */
  lemma {:induction false} ParseLinesKeys(lines: seq<string>)
    ensures ParseLines(lines).Ok? ==> ParseLines(lines).value == KeySet(lines)
    ensures ParseLines(lines).Ok? ==> |ParseLines(lines).value| <= |lines|
    decreases |lines|
  {
    if |lines| > 0 && ParseLines(lines).Ok? {
      ParseLinesKeys(lines[1..]);
      KeySetCons(lines);
      CardinalityAddOne(ParseLine(lines[0]).value, ParseLines(lines[1..]).value);
    }
  }

  /** The keys of lines whose first line is accepted: that line's key and
      the keys of the rest. */
  lemma KeySetCons(lines: seq<string>)
    requires |lines| > 0 && ParseLine(lines[0]).Some?
    ensures KeySet(lines) == {ParseLine(lines[0]).value} + KeySet(lines[1..])
  {
    assert forall l :: l in lines <==> l == lines[0] || l in lines[1..] by {
      assert lines == [lines[0]] + lines[1..];
    }
  }

  /** Adding one key to a set grows it by at most one. */
  lemma CardinalityAddOne(key: string, keys: set<string>)
    ensures |{key} + keys| <= |keys| + 1
  {
    if key !in keys {
      assert {key} + keys == keys + {key};
    } else {
      assert {key} + keys == keys;
    }
  }

  /** The data lines of an export: every line but the header. */
  function DataLines(text: string): seq<string> {
    var lines := Lines(text);
    if |lines| == 0 then [] else lines[1..]
  }

  /** `from_csv_text` on the decoded text of one export. The header line is
      never parsed: the load succeeds exactly when every later line is
      accepted, its result is then the set of their keys, and otherwise the
      error names the first line that is not. */
  function FromCsvText(text: string): (r: Result<set<string>, LoadError>)
    ensures r.Ok? <==> forall i :: 1 <= i < |Lines(text)| ==> ParseLine(Lines(text)[i]).Some?
    ensures r.Ok? ==> r.value == KeySet(DataLines(text))
    ensures r.Ok? ==> |r.value| <= |DataLines(text)|
    ensures r.Err? ==>
      && r.error.dataLine + 1 < |Lines(text)|
      && ParseLine(Lines(text)[r.error.dataLine + 1]).None?
      && forall i :: 1 <= i <= r.error.dataLine ==> ParseLine(Lines(text)[i]).Some?
  {
    var data := DataLines(text);
    assert forall i :: 0 <= i < |data| ==> data[i] == Lines(text)[i + 1];
    ParseLinesKeys(data);
    ParseLines(data)
  }

  /** The header never contributes: whatever the first line says, the load
      is the load of the lines after it. */
  lemma HeaderIgnored(header: string, body: string)
    requires '\n' !in header
    ensures DataLines(header + "\n" + body) == Lines(body)
    ensures FromCsvText(header + "\n" + body) == ParseLines(Lines(body))
  {
    LinesCons(header, body);
    assert Lines(header + "\n" + body)[1..] == Lines(body);
  }

  /** An empty export, or one with only its header, holds no films. */
  lemma HeaderOnly(header: string)
    requires '\n' !in header
    ensures FromCsvText("") == Ok({})
    ensures FromCsvText(header) == Ok({})
    ensures FromCsvText(header + "\n") == Ok({})
  {
    if |header| > 0 {
      LinesNoBreak(header);
    }
    HeaderIgnored(header, "");
    assert header + "\n" + "" == header + "\n";
  }

  /** A data line that repeats an earlier one changes nothing: its key is
      already in the set, and an earlier failure is still the first one. */
  lemma DuplicateLineCollapses(lines: seq<string>, line: string)
    requires line in lines
    ensures ParseLines(lines + [line]) == ParseLines(lines)
  {
    var longer := lines + [line];
    var k :| 0 <= k < |lines| && lines[k] == line;
    assert longer[|lines|] == lines[k];
    assert forall l :: l in longer <==> l in lines;
    ParseLinesKeys(lines);
    ParseLinesKeys(longer);
    match ParseLines(lines)
    case Ok(keys) =>
      forall i | 0 <= i < |longer|
        ensures ParseLine(longer[i]).Some?
      {
        if i == |lines| {
          assert longer[i] == lines[k];
        } else {
          assert longer[i] == lines[i];
        }
      }
      KeySetSameLines(longer, lines);
    case Err(IndexError(i)) =>
      assert ParseLine(longer[i]).None?;
      var j := ParseLines(longer).error.dataLine;
      if j < i {
        assert false;
      }
      if j > i {
        assert false;
      }
  }

  /** The key set depends only on which lines occur. */
  lemma KeySetSameLines(a: seq<string>, b: seq<string>)
    requires forall l :: l in a <==> l in b
    ensures KeySet(a) == KeySet(b)
  {
  }

  /** The rows an exporter writes for `entries`, in order. */
  function Rows(entries: seq<Entry>): (rows: seq<string>)
    ensures |rows| == |entries|
  {
    seq(|entries|, i requires 0 <= i < |entries| => EncodeRow(entries[i]))
  }

  /** Round trip: exporting films under any header and loading the export
      gives back exactly the films' keys. */
  lemma ExportRoundTrip(header: string, entries: seq<Entry>)
    requires '\n' !in header
    requires forall i :: 0 <= i < |entries| ==> Exportable(entries[i])
    ensures FromCsvText(Terminated([header] + Rows(entries))) ==
            Ok(set e | e in entries :: Key(e.name, e.year))
  {
    var rows := Rows(entries);
    var lines := [header] + rows;
    RowsParse(entries);
    LinesTerminated(lines);
    assert DataLines(Terminated(lines)) == rows;
    KeySetOfRows(entries);
  }

  /** Every encoded row is accepted with its entry's key, and holds no line
      break. */
  lemma RowsParse(entries: seq<Entry>)
    requires forall i :: 0 <= i < |entries| ==> Exportable(entries[i])
    ensures forall i :: 0 <= i < |entries| ==>
      ParseLine(Rows(entries)[i]) == Some(Key(entries[i].name, entries[i].year))
    ensures forall i :: 0 <= i < |entries| ==> '\n' !in Rows(entries)[i]
  {
    forall i | 0 <= i < |entries|
      ensures ParseLine(Rows(entries)[i]) == Some(Key(entries[i].name, entries[i].year))
      ensures '\n' !in Rows(entries)[i]
    {
      ParseEncodedRow(entries[i]);
    }
  }

  /** The keys of the encoded rows are the keys of the entries. */
  lemma KeySetOfRows(entries: seq<Entry>)
    requires forall i :: 0 <= i < |entries| ==>
      ParseLine(Rows(entries)[i]) == Some(Key(entries[i].name, entries[i].year))
    ensures KeySet(Rows(entries)) == set e | e in entries :: Key(e.name, e.year)
  {
    var rows := Rows(entries);
    var keys := set e | e in entries :: Key(e.name, e.year);
    forall k | k in KeySet(rows) ensures k in keys {
      var l :| l in rows && ParseLine(l).Some? && ParseLine(l).value == k;
      var i :| 0 <= i < |rows| && rows[i] == l;
      assert entries[i] in entries;
    }
    forall k | k in keys ensures k in KeySet(rows) {
      var e :| e in entries && k == Key(e.name, e.year);
      var i :| 0 <= i < |entries| && entries[i] == e;
      assert rows[i] in rows;
    }
  }
}
