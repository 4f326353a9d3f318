/** `Report` and its null-separated CSV rendering (`format_csv` and the
    `Format::NullSep` branch of `format_with`), together with a reader for
    that rendering that shows what it preserves. */
module Reports {
  import opened Wrappers
  import opened Decimal
  import opened Strings
  import opened Messages

  /** The output formats `format_with` accepts. */
  datatype Format = Debug | Json | NullSep

  datatype Report = Report(command: seq<string>, rootDirectory: string, messages: seq<Message>, exitCode: int)

  /** Failure of the JSON serialiser, with the serialiser's own error text. */
  datatype FormatError = SerializeFailed(cause: string)

  /** The separator of `Format::NullSep`. */
  const NullSeparator: string := "\0"

  /** Column names of the header line. */
  const HeaderFields: seq<string> := ["is_error", "msg", "file", "line", "column"]

  /** A `line` or `column` cell: the decimal number, or nothing when absent. */
  function NumberField(n: Option<nat>): string {
    if n.Some? then NatToString(n.value) else ""
  }

  /** The five cells of one message's record. */
  function Fields(m: Message): seq<string> {
    [if m.isError then "1" else "0", m.msg, m.file, NumberField(m.line), NumberField(m.column)]
  }

  function Record(m: Message, sep: string): string {
    Join(Fields(m), sep)
  }

  /** The header line followed by one record line per message, in order. */
  function Lines(ms: seq<Message>, sep: string): (lines: seq<string>)
    ensures |lines| == |ms| + 1
  {
    [Join(HeaderFields, sep)] + seq(|ms|, i requires 0 <= i < |ms| => Record(ms[i], sep))
  }

  /** The whole table: its lines joined by `\n`, with no trailing newline. */
  function Table(ms: seq<Message>, sep: string): string {
    Join(Lines(ms, sep), "\n")
  }

  lemma JoinFive(a: string, b: string, c: string, d: string, e: string, sep: string)
    ensures Join([a, b, c, d, e], sep) == a + sep + b + sep + c + sep + d + sep + e
  {
    assert [a, b][..1] == [a];
    assert Join([a, b], sep) == a + sep + b;
    assert [a, b, c][..2] == [a, b];
    assert Join([a, b, c], sep) == a + sep + b + sep + c;
    assert [a, b, c, d][..3] == [a, b, c];
    assert Join([a, b, c, d], sep) == a + sep + b + sep + c + sep + d;
    assert [a, b, c, d, e][..4] == [a, b, c, d];
  }

  /** The header text, cell by cell. */
  lemma HeaderText(sep: string)
    ensures Join(HeaderFields, sep) == "is_error" + sep + "msg" + sep + "file" + sep + "line" + sep + "column"
  {
    JoinFive("is_error", "msg", "file", "line", "column", sep);
  }

  /** One more message adds exactly one record, introduced by `\n`, at the
      end; with no messages the table is the header alone. */
  lemma TableAppend(ms: seq<Message>, m: Message, sep: string)
    ensures Table([], sep) == Join(HeaderFields, sep)
    ensures Table(ms + [m], sep) == Table(ms, sep) + "\n" + Record(m, sep)
  {
    assert Lines(ms + [m], sep) == Lines(ms, sep) + [Record(m, sep)];
    JoinAppend(Lines(ms, sep), "\n", Record(m, sep));
  }

  /** A record, cell by cell. */
  lemma RecordText(m: Message, sep: string)
    ensures Record(m, sep) == (if m.isError then "1" else "0") + sep + m.msg + sep + m.file + sep
                              + NumberField(m.line) + sep + NumberField(m.column)
  {
    JoinFive(if m.isError then "1" else "0", m.msg, m.file, NumberField(m.line), NumberField(m.column), sep);
  }

  /** With no messages the table is the header line alone. */
  lemma TableEmpty(sep: string)
    ensures Table([], sep) == "is_error" + sep + "msg" + sep + "file" + sep + "line" + sep + "column"
  {
    TableAppend([], Message(false, "", "", None, None, Span(0, 0)), sep);
    HeaderText(sep);
  }

  lemma TableStep(ms: seq<Message>, i: nat, sep: string)
    requires i < |ms|
    ensures Table(ms[..i + 1], sep) == Table(ms[..i], sep) + "\n" + Record(ms[i], sep)
  {
    TableAppend(ms[..i], ms[i], sep);
    assert ms[..i + 1] == ms[..i] + [ms[i]];
  }

  /** The loop body of `format_csv`: a newline, then the record of `m`. */
  method AppendRecord(output: string, m: Message, separator: string) returns (out: string)
    ensures out == output + "\n" + Record(m, separator)
  {
    ghost var head := (if m.isError then "1" else "0") + separator + m.msg + separator + m.file + separator;
    out := output + "\n" + (if m.isError then "1" else "0") + separator + m.msg + separator + m.file + separator;
    assert out == output + "\n" + head;
    if m.line.Some? {
      out := out + NatToString(m.line.value);
    }
    assert out == output + "\n" + (head + NumberField(m.line));
    out := out + separator;
    if m.column.Some? {
      out := out + NatToString(m.column.value);
    }
    assert out == output + "\n" + (head + NumberField(m.line) + separator + NumberField(m.column));
    RecordText(m, separator);
  }

  /** `Report::format_csv`: appends the header and then, per message, a
      newline and its record to `output`; nothing is escaped. */
  method FormatCsv(report: Report, separator: string, output: string) returns (out: string)
    ensures out == output + Table(report.messages, separator)
    ensures |out| >= |output| && out[..|output|] == output
  {
    TableEmpty(separator);
    out := output + "is_error" + separator + "msg" + separator + "file" + separator + "line" + separator + "column";
    var ms := report.messages;
    assert ms[..0] == [];
    for i := 0 to |ms|
      invariant out == output + Table(ms[..i], separator)
    {
      out := AppendRecord(out, ms[i], separator);
      TableStep(ms, i, separator);
    }
    assert ms[..|ms|] == ms;
  }

  /** `Report::format_with`. The debug rendering and the JSON serialiser are
      library code and come in as parameters; only the JSON branch can fail. */
  method FormatWith(report: Report, format: Format, debugText: Report -> string,
                    toJson: Report -> Result<string, string>) returns (r: Result<string, FormatError>)
    ensures format == NullSep ==> r == Success(Table(report.messages, NullSeparator))
    ensures format == Debug ==> r == Success(debugText(report))
    ensures format == Json && toJson(report).Success? ==> r == Success(toJson(report).value)
    ensures format == Json && toJson(report).Failure? ==> r == Failure(SerializeFailed(toJson(report).error))
  {
    var output := "";
    match format {
      case Debug =>
        output := output + debugText(report);
      case Json =>
        var serialized := toJson(report);
        if serialized.Failure? {
          return Failure(SerializeFailed(serialized.error));
        }
        output := output + serialized.value;
        assert output == serialized.value;
      case NullSep =>
        output := FormatCsv(report, NullSeparator, output);
    }
    assert "" + debugText(report) == debugText(report);
    return Success(output);
  }

  // ---------------------------------------------------------------------
  // Reading a NullSep table back

  /** What a record keeps of a message: everything but its span. */
  datatype Row = Row(isError: bool, msg: string, file: string, line: Option<nat>, column: Option<nat>)

  function RowOf(m: Message): Row {
    Row(m.isError, m.msg, m.file, m.line, m.column)
  }

  /** A message the unescaped format can carry: its text holds neither the
      record separator nor the line separator, and its numbers are `usize`s. */
  predicate Representable(m: Message) {
    && '\n' !in m.msg && '\0' !in m.msg
    && '\n' !in m.file && '\0' !in m.file
    && (m.line.Some? ==> m.line.value <= UsizeMax)
    && (m.column.Some? ==> m.column.value <= UsizeMax)
  }

  function DecodeNumber(cell: string): Option<Option<nat>> {
    if cell == "" then Some(None)
    else match ParseUsize(cell)
      case Some(n) => Some(Some(n))
      case None => None
  }

  function DecodeRecord(line: string): Option<Row> {
    var cells := Split(line, '\0');
    if |cells| != 5 || (cells[0] != "0" && cells[0] != "1") then None
    else match (DecodeNumber(cells[3]), DecodeNumber(cells[4]))
      case (Some(l), Some(c)) => Some(Row(cells[0] == "1", cells[1], cells[2], l, c))
      case _ => None
  }

  function DecodeRecords(lines: seq<string>): Option<seq<Row>> {
    if lines == [] then Some([])
    else match (DecodeRecord(lines[0]), DecodeRecords(lines[1..]))
      case (Some(row), Some(rows)) => Some([row] + rows)
      case _ => None
  }

  /** Reads a NullSep table: the header line, then one record per line. */
  function DecodeNullSep(text: string): Option<seq<Row>> {
    var lines := Split(text, '\n');
    if lines[0] != Join(HeaderFields, NullSeparator) then None
    else DecodeRecords(lines[1..])
  }

  lemma {:induction false} JoinAvoids(parts: seq<string>, sep: string, c: char)
    requires |parts| > 0
    requires c !in sep
    requires forall i :: 0 <= i < |parts| ==> c !in parts[i]
    ensures c !in Join(parts, sep)
    decreases |parts|
  {
    if |parts| > 1 {
      JoinAvoids(parts[..|parts| - 1], sep, c);
    }
  }

  lemma NumberFieldAvoids(n: Option<nat>, c: char)
    requires !IsDigit(c)
    ensures c !in NumberField(n)
  {
  }

  lemma FieldsAvoid(m: Message, c: char)
    requires Representable(m)
    requires c == '\n' || c == '\0'
    ensures forall i :: 0 <= i < 5 ==> c !in Fields(m)[i]
  {
  }

  /** A record whose text holds no `\0` contains exactly four separators. */
  lemma RecordSeparators(m: Message)
    requires '\0' !in m.msg && '\0' !in m.file
    ensures Count(Record(m, NullSeparator), '\0') == 4
  {
    NumberFieldAvoids(m.line, '\0');
    NumberFieldAvoids(m.column, '\0');
    CountJoin(Fields(m), '\0');
  }

  lemma DecodeNumberField(n: Option<nat>)
    requires n.Some? ==> n.value <= UsizeMax
    ensures DecodeNumber(NumberField(n)) == Some(n)
  {
    if n.Some? {
      ParseUsizeOfNatToString(n.value);
    }
  }

  lemma DecodeRecordOf(m: Message)
    requires Representable(m)
    ensures DecodeRecord(Record(m, NullSeparator)) == Some(RowOf(m))
  {
    FieldsAvoid(m, '\0');
    SplitJoin(Fields(m), '\0');
    DecodeNumberField(m.line);
    DecodeNumberField(m.column);
  }

  lemma {:induction false} DecodeRecordsOf(lines: seq<string>, rows: seq<Row>)
    requires |lines| == |rows|
    requires forall i :: 0 <= i < |lines| ==> DecodeRecord(lines[i]) == Some(rows[i])
    ensures DecodeRecords(lines) == Some(rows)
    decreases |lines|
  {
    if lines != [] {
      DecodeRecordsOf(lines[1..], rows[1..]);
      assert [rows[0]] + rows[1..] == rows;
    }
  }

  /** No line of the table of representable messages contains `\n`. */
  lemma LinesAvoidNewline(ms: seq<Message>)
    requires forall i :: 0 <= i < |ms| ==> Representable(ms[i])
    ensures forall i :: 0 <= i < |Lines(ms, NullSeparator)| ==> '\n' !in Lines(ms, NullSeparator)[i]
  {
    var lines := Lines(ms, NullSeparator);
    forall i | 0 <= i < |lines|
      ensures '\n' !in lines[i]
    {
      if i == 0 {
        JoinAvoids(HeaderFields, NullSeparator, '\n');
      } else {
        FieldsAvoid(ms[i - 1], '\n');
        JoinAvoids(Fields(ms[i - 1]), NullSeparator, '\n');
      }
    }
  }

  /** Reading the NullSep table back yields every message, in order, except
      for its span, as long as no text contains a separator. */
  lemma NullSepRoundTrip(ms: seq<Message>)
    requires forall i :: 0 <= i < |ms| ==> Representable(ms[i])
    ensures DecodeNullSep(Table(ms, NullSeparator))
         == Some(seq(|ms|, i requires 0 <= i < |ms| => RowOf(ms[i])))
  {
    var lines := Lines(ms, NullSeparator);
    LinesAvoidNewline(ms);
    SplitJoin(lines, '\n');
    var records := lines[1..];
    var rows := seq(|ms|, i requires 0 <= i < |ms| => RowOf(ms[i]));
    forall i | 0 <= i < |ms|
      ensures DecodeRecord(records[i]) == Some(rows[i])
    {
      assert records[i] == Record(ms[i], NullSeparator);
      DecodeRecordOf(ms[i]);
    }
    DecodeRecordsOf(records, rows);
  }

  /** Without escaping, the table does not determine the messages: a
      separator inside `msg` reads the same as the boundary before `file`. */
  lemma SeparatorInTextIsAmbiguous()
    ensures
      var a := Message(false, "x\0y", "z", None, None, Span(0, 0));
      var b := Message(false, "x", "y\0z", None, None, Span(0, 0));
      RowOf(a) != RowOf(b) && Table([a], NullSeparator) == Table([b], NullSeparator)
  {
    var a := Message(false, "x\0y", "z", None, None, Span(0, 0));
    var b := Message(false, "x", "y\0z", None, None, Span(0, 0));
    assert Record(a, NullSeparator) == Record(b, NullSeparator) by {
      RecordText(a, NullSeparator);
      RecordText(b, NullSeparator);
      assert a.msg == "x" + NullSeparator + "y";
      assert b.file == "y" + NullSeparator + "z";
    }
    TableAppend([], a, NullSeparator);
    TableAppend([], b, NullSeparator);
    assert [] + [a] == [a] && [] + [b] == [b];
  }
}
