/**
 The Markdown table of the embedded SDK inventory: how it is printed and how the three
 checkers that share the file read it back. `Sdk` is the reader of check-embedded-sdk-api;
 `Rail` is the reader that check-brick-inventory-stability and
 check-experimental-sdk-port-budget both use.
 */
module InventoryTable {
  import opened Text
  import opened Order

  datatype Entry = Entry(entry: string, crateName: string, kind: string, stability: string, source: string)

  datatype ParseError = WrongColumns(line: nat, found: nat) | NoRows

  datatype Parsed = Ok(rows: seq<Entry>) | Err(errors: seq<ParseError>)

  datatype Reader = Sdk | Rail

  datatype LineReading = Skip | Row(row: Entry) | Malformed(found: nat)

  const COLUMN_COUNT: nat := 5

  // ------------------------------------------------------------------ reading one line

  /** The text between the first two backticks. */
  function ExtractCodeSpan(cell: string): (span: Option<string>)
    ensures span.Some? ==> '`' !in span.value && forall c :: c in span.value ==> c in cell
  {
    var start := IndexOf(cell, '`');
    if start == |cell| then None
    else
      var rest := cell[start + 1..];
      var end := IndexOf(rest, '`');
      if end == |rest| then None else Some(rest[..end])
  }

  /** At `i` stands a backtick, the first of the cell, and the next one right after the span. */
  predicate SpanAt(cell: string, span: string, i: nat) {
    && i + |span| + 2 <= |cell| && '`' !in cell[..i] && '`' !in span
    && cell[i] == '`' && cell[i + 1..i + 1 + |span|] == span && cell[i + 1 + |span|] == '`'
  }

  /** The code span of a cell is exactly the text between its first two backticks. */
  lemma CodeSpanIsExact(cell: string, span: string)
    ensures ExtractCodeSpan(cell) == Some(span) <==> exists i :: SpanAt(cell, span, i)
  {
    var start := IndexOf(cell, '`');
    if ExtractCodeSpan(cell) == Some(span) {
      var rest := cell[start + 1..];
      assert cell[start + 1..start + 1 + |span|] == rest[..|span|];
      assert SpanAt(cell, span, start);
    }
    if i :| SpanAt(cell, span, i) {
      SpanIsFound(cell, span, i);
    }
  }

  lemma SpanIsFound(cell: string, span: string, i: nat)
    requires SpanAt(cell, span, i)
    ensures ExtractCodeSpan(cell) == Some(span)
  {
    assert forall j :: 0 <= j < i ==> cell[j] == cell[..i][j];
    assert IndexOf(cell, '`') == i;
    var rest := cell[i + 1..];
    assert rest[..|span|] == span && rest[|span|] == '`';
    assert forall j :: 0 <= j < |span| ==> rest[j] == span[j];
    assert IndexOf(rest, '`') == |span|;
  }

  function StripCodeSpan(cell: string): string {
    match ExtractCodeSpan(cell)
    case Some(span) => span
    case None => Trim(cell)
  }

  function StripCode(text: string): string {
    TrimBy(Trim(text), Only('`'))
  }

  function Cells(trimmed: string): seq<string> {
    var pieces := Split(TrimBy(trimmed, Only('|')), '|');
    seq(|pieces|, i requires 0 <= i < |pieces| => Trim(pieces[i]))
  }

  function ReadSdkLine(line: string): LineReading {
    var trimmed := Trim(line);
    if !("|" <= trimmed) || '`' !in trimmed then Skip
    else
      var cells := Cells(trimmed);
      if |cells| != COLUMN_COUNT then Malformed(|cells|)
      else if "---" <= cells[0] then Skip
      else
        match ExtractCodeSpan(cells[0])
        case None => Skip
        case Some(entry) =>
          Row(Entry(entry, StripCodeSpan(cells[1]), Trim(cells[2]), Trim(cells[3]), StripCodeSpan(cells[4])))
  }

  function ReadRailLine(line: string): LineReading {
    var trimmed := Trim(line);
    if !("| `" <= trimmed) then Skip
    else
      var cells := Cells(trimmed);
      if |cells| != COLUMN_COUNT then Malformed(|cells|)
      else Row(Entry(StripCode(cells[0]), StripCode(cells[1]), cells[2], cells[3], StripCode(cells[4])))
  }

  function ReadLine(reader: Reader, line: string): LineReading {
    match reader
    case Sdk => ReadSdkLine(line)
    case Rail => ReadRailLine(line)
  }

  // ------------------------------------------------------------------ reading the file

  function Readings(reader: Reader, lines: seq<string>): seq<LineReading> {
    seq(|lines|, i requires 0 <= i < |lines| => ReadLine(reader, lines[i]))
  }

  /** The rows among the readings, in order. */
  function Rows(readings: seq<LineReading>): seq<Entry> {
    if readings == [] then []
    else
      var last := readings[|readings| - 1];
      Rows(readings[..|readings| - 1]) + if last.Row? then [last.row] else []
  }

  /** One error per table line with the wrong number of cells, with its line number from 1. */
  function ColumnErrors(readings: seq<LineReading>): seq<ParseError> {
    if readings == [] then []
    else
      var last := readings[|readings| - 1];
      ColumnErrors(readings[..|readings| - 1])
      + if last.Malformed? then [WrongColumns(|readings|, last.found)] else []
  }

  /** What `parse_inventory` returns for a file. */
  function Parse(reader: Reader, text: string): Parsed {
    var readings := Readings(reader, Lines(text));
    var rows := Rows(readings);
    var errors := ColumnErrors(readings) + if rows == [] then [NoRows] else [];
    if errors == [] then Ok(rows) else Err(errors)
  }

  method ParseInventory(reader: Reader, text: string) returns (r: Parsed)
    ensures r == Parse(reader, text)
  {
    var rows: seq<Entry>, errors: seq<ParseError> := [], [];
    var lines := Lines(text);
    ghost var readings := Readings(reader, lines);
    for i := 0 to |lines|
      invariant rows == Rows(readings[..i])
      invariant errors == ColumnErrors(readings[..i])
    {
      assert readings[..i + 1][..i] == readings[..i];
      var reading := ReadLine(reader, lines[i]);
      match reading
      case Skip =>
      case Malformed(found) => errors := errors + [WrongColumns(i + 1, found)];
      case Row(row) => rows := rows + [row];
    }
    assert readings[..|lines|] == readings;
    if rows == [] {
      errors := errors + [NoRows];
    }
    r := if errors == [] then Ok(rows) else Err(errors);
  }

  lemma {:induction false} RowsAppend(a: seq<LineReading>, b: seq<LineReading>)
    ensures Rows(a + b) == Rows(a) + Rows(b)
  {
    if b == [] {
      assert a + b == a;
    } else {
      assert (a + b)[..|a + b| - 1] == a + b[..|b| - 1];
      RowsAppend(a, b[..|b| - 1]);
    }
  }

  /** Every row the parser returns was read from one of the lines. */
  lemma {:induction false} RowsComeFromReadings(readings: seq<LineReading>, k: nat) returns (i: nat)
    requires k < |Rows(readings)|
    ensures i < |readings| && readings[i] == Row(Rows(readings)[k])
  {
    var n := |readings| - 1;
    if k < |Rows(readings[..n])| {
      i := RowsComeFromReadings(readings[..n], k);
    } else {
      i := n;
    }
  }

  lemma {:induction false} NoColumnErrors(readings: seq<LineReading>)
    requires forall i :: 0 <= i < |readings| ==> !readings[i].Malformed?
    ensures ColumnErrors(readings) == []
  {
    if readings != [] {
      NoColumnErrors(readings[..|readings| - 1]);
    }
  }

  lemma {:induction false} NoRowsIn(readings: seq<LineReading>)
    requires forall i :: 0 <= i < |readings| ==> readings[i].Skip?
    ensures Rows(readings) == []
  {
    if readings != [] {
      NoRowsIn(readings[..|readings| - 1]);
    }
  }

  // ------------------------------------------------------------------ printing

  function CodeCell(s: string): string {
    " `" + s + "` "
  }

  function PlainCell(s: string): string {
    " " + s + " "
  }

  /** A table line with the given padded cells. */
  function TableLine(p: seq<string>): string
    requires |p| == COLUMN_COUNT
  {
    "|" + (p[0] + "|" + p[1] + "|" + p[2] + "|" + p[3] + "|" + p[4]) + "|"
  }

  function PaddedCells(e: Entry): seq<string> {
    [CodeCell(e.entry), CodeCell(e.crateName), PlainCell(e.kind), PlainCell(e.stability), CodeCell(e.source)]
  }

  function RowLine(e: Entry): string {
    TableLine(PaddedCells(e))
  }

  function RowLines(rows: seq<Entry>): seq<string> {
    seq(|rows|, i requires 0 <= i < |rows| => RowLine(rows[i]))
  }

  const HEADER: string := "| Entry | Crate | Kind " + "| Stability | Source |"
  const SEPARATOR: string := "|---|---|---|---|---|"

  /** Everything `render_inventory` writes above the rows: running prose, then the table head. */
  function Head(prose: seq<string>): seq<string> {
    prose + [HEADER, SEPARATOR]
  }

  function Render(prose: seq<string>, rows: seq<Entry>): string {
    Unlines(Head(prose)) + Unlines(RowLines(rows))
  }

  /** The printed text is the prose, the two lines of the table head, and a line of five cells for each row. */
  lemma RenderIsExact(prose: seq<string>, rows: seq<Entry>)
    ensures Render(prose, rows)
      == Unlines(prose + ["| Entry | Crate | Kind " + "| Stability | Source |", "|---|---|---|---|---|"] + RowLines(rows))
    ensures forall i :: 0 <= i < |rows| ==>
      var e := rows[i];
      RowLines(rows)[i] == "| `" + e.entry + "` | `" + e.crateName + "` | " + e.kind + " | " + e.stability + " | `" + e.source + "` |"
  {
    UnlinesAppend(Head(prose), RowLines(rows));
    forall i | 0 <= i < |rows|
      ensures
        var e := rows[i];
        RowLines(rows)[i] == "| `" + e.entry + "` | `" + e.crateName + "` | " + e.kind + " | " + e.stability + " | `" + e.source + "` |"
    {
      RowLineText(rows[i]);
    }
  }

  lemma RowLineText(e: Entry)
    ensures RowLine(e)
      == "| `" + e.entry + "` | `" + e.crateName + "` | " + e.kind + " | " + e.stability + " | `" + e.source + "` |"
  {
  }

  lemma RowLinesSnoc(rows: seq<Entry>, i: nat)
    requires i < |rows|
    ensures Unlines(RowLines(rows[..i + 1])) == Unlines(RowLines(rows[..i])) + RowLine(rows[i]) + "\n"
  {
    assert RowLines(rows[..i + 1]) == RowLines(rows[..i]) + [RowLine(rows[i])];
    UnlinesAppend(RowLines(rows[..i]), [RowLine(rows[i])]);
  }

  method RenderInventory(prose: seq<string>, rows: seq<Entry>) returns (output: string)
    ensures output == Render(prose, rows)
  {
    output := Unlines(Head(prose));
    for i := 0 to |rows|
      invariant output == Unlines(Head(prose)) + Unlines(RowLines(rows[..i]))
    {
      RowLinesSnoc(rows, i);
      Reassociate(Unlines(Head(prose)), Unlines(RowLines(rows[..i])), RowLine(rows[i]), "\n");
      output := output + RowLine(rows[i]) + "\n";
    }
    assert rows[..|rows|] == rows;
  }

  // ------------------------------------------------------------------ printing and reading

  predicate Clean(s: string) {
    '|' !in s && '\n' !in s
  }

  predicate CleanCode(s: string) {
    Clean(s) && '`' !in s
  }

  predicate CleanRow(e: Entry) {
    Clean(e.entry) && Clean(e.crateName) && Clean(e.kind) && Clean(e.stability) && Clean(e.source)
  }

  /** What a reader makes of a text that was printed between backticks. */
  function CodeRead(reader: Reader, s: string): string {
    match reader
    case Sdk => s[..IndexOf(s, '`')]
    case Rail => TrimBy(s, Only('`'))
  }

  /** What a reader makes of a row that was printed without a bar or newline in it. */
  function ReadBack(reader: Reader, e: Entry): Entry {
    Entry(CodeRead(reader, e.entry), CodeRead(reader, e.crateName), Trim(e.kind), Trim(e.stability), CodeRead(reader, e.source))
  }

  function ReadBackRows(reader: Reader, rows: seq<Entry>): seq<Entry> {
    Map((e: Entry) => ReadBack(reader, e), rows)
  }

  predicate PrintableCode(reader: Reader, s: string) {
    match reader
    case Sdk => '`' !in s
    case Rail => Trimmed(s, Only('`'))
  }

  predicate PrintableCodes(reader: Reader, e: Entry) {
    PrintableCode(reader, e.entry) && PrintableCode(reader, e.crateName) && PrintableCode(reader, e.source)
  }

  /** The rows that survive being printed and read: what the table syntax itself cannot carry is left out. */
  predicate Printable(reader: Reader, e: Entry) {
    CleanRow(e) && PrintableCodes(reader, e) && Trimmed(e.kind, Space) && Trimmed(e.stability, Space)
  }

  lemma CodeReadIsExact(reader: Reader, s: string)
    ensures CodeRead(reader, s) == s <==> PrintableCode(reader, s)
  {
    TrimKeepsExactly(s, Only('`'));
    if '`' in s {
      assert s[IndexOf(s, '`')] == '`' && |s[..IndexOf(s, '`')]| < |s|;
    }
  }

  /** A row without bar or newline reads back as itself exactly when it is printable. */
  lemma ReadBackIsExact(reader: Reader, e: Entry)
    requires CleanRow(e)
    ensures ReadBack(reader, e) == e <==> Printable(reader, e)
  {
    CodeReadIsExact(reader, e.entry);
    CodeReadIsExact(reader, e.crateName);
    CodeReadIsExact(reader, e.source);
    TrimKeepsExactly(e.kind, Space);
    TrimKeepsExactly(e.stability, Space);
  }

  function CodeText(s: string): string {
    "`" + s + "`"
  }

  lemma TrimmedCode(s: string)
    ensures Trim(CodeCell(s)) == CodeText(s) == Trim(CodeText(s))
  {
    assert CodeCell(s) == " " + CodeText(s) + " ";
    TrimPadded(" ", CodeText(s), " ", Space);
    TrimKeepsExactly(CodeText(s), Space);
  }

  /** Code text reads back as code: up to a backtick inside for one reader, without outer backticks for the other. */
  lemma CodeReadsBack(s: string)
    ensures ExtractCodeSpan(CodeText(s)) == Some(CodeRead(Sdk, s)) && StripCode(CodeText(s)) == CodeRead(Rail, s)
    ensures !("---" <= CodeText(s))
  {
    var code, rest := CodeText(s), s + "`";
    assert code[0] == '`' && IndexOf(code, '`') == 0 && code[1..] == rest;
    var i := IndexOf(s, '`');
    assert forall j :: 0 <= j < |s| ==> rest[j] == s[j];
    assert rest[|s|] == '`' && IndexOf(rest, '`') == i && rest[..i] == s[..i];
    TrimmedCode(s);
    TrimIgnoresPads("`", s, "`", Only('`'));
  }

  lemma PlainReadsBack(s: string)
    ensures Trim(PlainCell(s)) == Trim(s) && Trim(Trim(s)) == Trim(s)
  {
    TrimIgnoresPads(" ", s, " ", Space);
    TrimShape(s, Space);
    TrimKeepsExactly(Trim(s), Space);
  }

  lemma TableLineIsJoined(p: seq<string>)
    requires |p| == COLUMN_COUNT
    ensures TableLine(p) == "|" + Join(p, "|") + "|"
  {
    JoinPrefix(p, "|", 4);
    JoinPrefix(p, "|", 3);
    JoinPrefix(p, "|", 2);
    JoinPrefix(p, "|", 1);
    assert p[..1] == [p[0]] && p[..5] == p;
  }

  /** Five cells that can stand in a table line: no bar, no newline, and spaces on the outside. */
  predicate Paddeds(p: seq<string>) {
    && |p| == COLUMN_COUNT && (forall i :: 0 <= i < |p| ==> Clean(p[i]))
    && " `" <= p[0] && p[4] != [] && p[4][|p[4]| - 1] == ' '
  }

  lemma CoreEnds(p: seq<string>)
    requires Paddeds(p)
    ensures Trimmed(Join(p, "|"), Only('|'))
  {
    var line := TableLine(p);
    TableLineIsJoined(p);
    var core := Join(p, "|");
    assert line == "|" + core + "|";
    assert core == line[1..|line| - 1];
    assert line[1] == p[0][0] == ' ' && line[|line| - 2] == ' ';
  }

  /** A table line is cut into the cells it was made of. */
  lemma TableLineCells(p: seq<string>)
    requires Paddeds(p)
    ensures |Cells(TableLine(p))| == COLUMN_COUNT && forall i :: 0 <= i < COLUMN_COUNT ==> Cells(TableLine(p))[i] == Trim(p[i])
  {
    TableLineIsJoined(p);
    CoreEnds(p);
    TrimPadded("|", Join(p, "|"), "|", Only('|'));
    SplitJoin(p, '|');
  }

  lemma TableLineShape(p: seq<string>)
    requires Paddeds(p)
    ensures Trim(TableLine(p)) == TableLine(p) && IsLine(TableLine(p))
    ensures "| `" <= TableLine(p) && "|" <= TableLine(p) && '`' in TableLine(p)
  {
    var line := TableLine(p);
    assert line[0] == '|' && line[1] == p[0][0] && line[2] == p[0][1] == '`' && line[|line| - 1] == '|';
    TrimKeepsExactly(line, Space);
    TableLineIsJoined(p);
    JoinedHolds(p, "|", '\n');
  }

  lemma PaddedRow(e: Entry)
    requires CleanRow(e)
    ensures Paddeds(PaddedCells(e))
  {
    assert CodeCell(e.entry)[0] == ' ' && CodeCell(e.entry)[1] == '`';
  }

  lemma RowLineCells(e: Entry)
    requires CleanRow(e)
    ensures Cells(RowLine(e)) == [CodeText(e.entry), CodeText(e.crateName), Trim(e.kind), Trim(e.stability), CodeText(e.source)]
  {
    PaddedRow(e);
    TableLineCells(PaddedCells(e));
    TrimmedRow(e);
  }

  lemma TrimmedRow(e: Entry)
    requires CleanRow(e)
    ensures
      var p := PaddedCells(e);
      && Trim(p[0]) == CodeText(e.entry) && Trim(p[1]) == CodeText(e.crateName) && Trim(p[2]) == Trim(e.kind)
      && Trim(p[3]) == Trim(e.stability) && Trim(p[4]) == CodeText(e.source)
  {
    TrimmedCode(e.entry);
    TrimmedCode(e.crateName);
    TrimmedCode(e.source);
    PlainReadsBack(e.kind);
    PlainReadsBack(e.stability);
  }

  /** Reading a printed row gives what the reader can make of it. */
  lemma RowLineReadsBack(reader: Reader, e: Entry)
    requires CleanRow(e)
    ensures ReadLine(reader, RowLine(e)) == Row(ReadBack(reader, e))
  {
    PaddedRow(e);
    TableLineShape(PaddedCells(e));
    RowLineCells(e);
    match reader
    case Sdk => PrintedRowIsSdkRow(RowLine(e), e);
    case Rail => PrintedRowIsRailRow(RowLine(e), e);
  }

  /** The line is one of the table, with the cells of a printed row. */
  predicate PrintsCells(line: string, e: Entry) {
    && Trim(line) == line && "| `" <= line && "|" <= line && '`' in line
    && Cells(line) == [CodeText(e.entry), CodeText(e.crateName), Trim(e.kind), Trim(e.stability), CodeText(e.source)]
  }

  lemma PrintedRowIsSdkRow(line: string, e: Entry)
    requires PrintsCells(line, e)
    ensures ReadSdkLine(line) == Row(ReadBack(Sdk, e))
  {
    CodeReadsBack(e.entry);
    CodeReadsBack(e.crateName);
    CodeReadsBack(e.source);
    PlainReadsBack(e.kind);
    PlainReadsBack(e.stability);
  }

  lemma PrintedRowIsRailRow(line: string, e: Entry)
    requires PrintsCells(line, e)
    ensures ReadRailLine(line) == Row(ReadBack(Rail, e))
  {
    CodeReadsBack(e.entry);
    CodeReadsBack(e.crateName);
    CodeReadsBack(e.source);
  }

  /** A line of running text: it does not begin with a bar or with white space. */
  predicate Prose(line: string) {
    IsLine(line) && (line == [] || (line[0] != '|' && !Matches(Space, line[0])))
  }

  lemma ProseIsSkipped(reader: Reader, line: string)
    requires Prose(line)
    ensures ReadLine(reader, line).Skip?
  {
    TrimStartShape(line, Space);
    TrimEndShape(TrimStart(line, Space), Space);
  }

  lemma LineWithoutCodeIsSkipped(reader: Reader, line: string)
    requires '`' !in line
    ensures ReadLine(reader, line).Skip?
  {
    TrimShape(line, Space);
    assert "| `"[2] == '`';
  }

  lemma HeaderHasNoCode()
    ensures IsLine(HEADER) && '`' !in HEADER
  {
  }

  lemma SeparatorHasNoCode()
    ensures IsLine(SEPARATOR) && '`' !in SEPARATOR
  {
  }

  lemma TableHeadHasNoCode()
    ensures IsLine(HEADER) && IsLine(SEPARATOR)
    ensures '`' !in HEADER && '`' !in SEPARATOR
  {
    HeaderHasNoCode();
    SeparatorHasNoCode();
  }

  function RowReadings(rows: seq<Entry>): seq<LineReading> {
    seq(|rows|, i requires 0 <= i < |rows| => Row(rows[i]))
  }

  lemma {:induction false} RowsOfRowReadings(rows: seq<Entry>)
    ensures Rows(RowReadings(rows)) == rows
  {
    if rows != [] {
      var n := |rows| - 1;
      assert RowReadings(rows)[..n] == RowReadings(rows[..n]);
      RowsOfRowReadings(rows[..n]);
    }
  }

  /** The lines of a printed inventory are the lines that were printed. */
  lemma RenderedLines(prose: seq<string>, rows: seq<Entry>)
    requires forall i :: 0 <= i < |prose| ==> Prose(prose[i])
    requires forall i :: 0 <= i < |rows| ==> CleanRow(rows[i])
    ensures Lines(Render(prose, rows)) == Head(prose) + RowLines(rows)
  {
    TableHeadHasNoCode();
    forall i | 0 <= i < |rows| ensures IsLine(RowLine(rows[i])) {
      PaddedRow(rows[i]);
      TableLineShape(PaddedCells(rows[i]));
    }
    UnlinesAppend(Head(prose), RowLines(rows));
    LinesUnlines(Head(prose) + RowLines(rows));
  }

  lemma ReadingsAppend(reader: Reader, a: seq<string>, b: seq<string>)
    ensures Readings(reader, a + b) == Readings(reader, a) + Readings(reader, b)
  {
    var all, left, right := Readings(reader, a + b), Readings(reader, a), Readings(reader, b);
    forall i | 0 <= i < |a| ensures all[i] == left[i] {
      assert (a + b)[i] == a[i];
    }
    forall i | 0 <= i < |b| ensures all[|a| + i] == right[i] {
      assert (a + b)[|a| + i] == b[i];
    }
  }

  lemma RenderedReadings(reader: Reader, prose: seq<string>, rows: seq<Entry>)
    requires forall i :: 0 <= i < |prose| ==> Prose(prose[i])
    requires forall i :: 0 <= i < |rows| ==> CleanRow(rows[i])
    ensures forall i :: 0 <= i < |Head(prose)| ==> Readings(reader, Head(prose))[i].Skip?
    ensures Readings(reader, RowLines(rows)) == RowReadings(ReadBackRows(reader, rows))
  {
    TableHeadHasNoCode();
    forall i | 0 <= i < |Head(prose)| ensures ReadLine(reader, Head(prose)[i]).Skip? {
      if i < |prose| {
        ProseIsSkipped(reader, prose[i]);
      } else {
        LineWithoutCodeIsSkipped(reader, Head(prose)[i]);
      }
    }
    forall i | 0 <= i < |rows| ensures ReadLine(reader, RowLines(rows)[i]) == Row(ReadBackRows(reader, rows)[i]) {
      RowLineReadsBack(reader, rows[i]);
    }
  }

  /** Printing rows without bar or newline and parsing the text gives what the reader can make of each row. */
  lemma ParseOfRender(reader: Reader, prose: seq<string>, rows: seq<Entry>)
    requires forall i :: 0 <= i < |prose| ==> Prose(prose[i])
    requires forall i :: 0 <= i < |rows| ==> CleanRow(rows[i])
    ensures Parse(reader, Render(prose, rows)) == if rows == [] then Err([NoRows]) else Ok(ReadBackRows(reader, rows))
  {
    RenderedLines(prose, rows);
    RenderedReadings(reader, prose, rows);
    ReadingsAppend(reader, Head(prose), RowLines(rows));
    HeadAndRows(Readings(reader, Head(prose)), ReadBackRows(reader, rows));
  }

  /** Printing and then parsing is the identity exactly on the non-empty lists of printable rows. */
  lemma RoundTripIsExact(reader: Reader, prose: seq<string>, rows: seq<Entry>)
    requires forall i :: 0 <= i < |prose| ==> Prose(prose[i])
    ensures Parse(reader, Render(prose, rows)) == Ok(rows)
      <==> rows != [] && forall i :: 0 <= i < |rows| ==> Printable(reader, rows[i])
  {
    if Parse(reader, Render(prose, rows)) == Ok(rows) {
      ParsedRowsAreClean(reader, Render(prose, rows));
    }
    if forall i :: 0 <= i < |rows| ==> CleanRow(rows[i]) {
      ParseOfRender(reader, prose, rows);
      forall i | 0 <= i < |rows| ensures ReadBackRows(reader, rows)[i] == rows[i] <==> Printable(reader, rows[i]) {
        ReadBackIsExact(reader, rows[i]);
      }
    }
  }

  lemma HeadAndRows(head: seq<LineReading>, rows: seq<Entry>)
    requires forall i :: 0 <= i < |head| ==> head[i].Skip?
    ensures Rows(head + RowReadings(rows)) == rows && ColumnErrors(head + RowReadings(rows)) == []
  {
    var body := RowReadings(rows);
    assert Rows(head + body) == rows by {
      RowsAppend(head, body);
      NoRowsIn(head);
      RowsOfRowReadings(rows);
    }
    assert ColumnErrors(head + body) == [] by {
      assert forall i :: 0 <= i < |head + body| ==> !(head + body)[i].Malformed?;
      NoColumnErrors(head + body);
    }
  }

  /** The readers of all three checkers see the printed rows exactly when there are some and all are printable. */
  lemma ReadersAgree(prose: seq<string>, rows: seq<Entry>)
    requires forall i :: 0 <= i < |prose| ==> Prose(prose[i])
    ensures Parse(Sdk, Render(prose, rows)) == Parse(Rail, Render(prose, rows)) == Ok(rows)
      <==> rows != [] && forall i :: 0 <= i < |rows| ==> Printable(Sdk, rows[i])
  {
    RoundTripIsExact(Sdk, prose, rows);
    RoundTripIsExact(Rail, prose, rows);
    forall i | 0 <= i < |rows| && Printable(Sdk, rows[i]) ensures Printable(Rail, rows[i]) {
      NoCodeToTrim(rows[i].entry);
      NoCodeToTrim(rows[i].crateName);
      NoCodeToTrim(rows[i].source);
    }
  }

  lemma NoCodeToTrim(s: string)
    requires '`' !in s
    ensures Trimmed(s, Only('`'))
  {
    assert s == [] || (s[0] in s && s[|s| - 1] in s);
  }

  // ------------------------------------------------------------------ which rows can be read

  /** No code span, and nothing around it: such a cell is read as it stands. It holds at most one backtick. */
  predicate SpanlessCell(s: string) {
    Trimmed(s, Space) && ExtractCodeSpan(s).None?
  }

  /** The rows that parsing can return. */
  predicate Readable(e: Entry) {
    && CleanRow(e) && '`' !in e.entry && Trimmed(e.kind, Space) && Trimmed(e.stability, Space)
    && ('`' !in e.crateName || SpanlessCell(e.crateName)) && ('`' !in e.source || SpanlessCell(e.source))
  }

  lemma CellIsClean(trimmed: string, k: nat)
    requires '\n' !in trimmed && k < |Cells(trimmed)|
    ensures Clean(Cells(trimmed)[k]) && Trim(Cells(trimmed)[k]) == Cells(trimmed)[k]
  {
    var bare := TrimBy(trimmed, Only('|'));
    TrimShape(trimmed, Only('|'));
    SplitChars(bare, '|', k);
    TrimShape(Split(bare, '|')[k], Space);
    TrimKeepsExactly(Cells(trimmed)[k], Space);
  }

  lemma StrippedIsClean(cell: string)
    requires Clean(cell)
    ensures Clean(StripCodeSpan(cell)) && Clean(StripCode(cell))
  {
    TrimShape(cell, Space);
    TrimShape(Trim(cell), Only('`'));
  }

  lemma ReadRowIsClean(reader: Reader, line: string)
    requires '\n' !in line && ReadLine(reader, line).Row?
    ensures CleanRow(ReadLine(reader, line).row)
    ensures reader == Sdk ==> Readable(ReadLine(reader, line).row)
  {
    TrimShape(line, Space);
    var cells := Cells(Trim(line));
    forall k | 0 <= k < |cells| ensures Clean(cells[k]) && Trim(cells[k]) == cells[k] && Trimmed(cells[k], Space) {
      CellIsClean(Trim(line), k);
      TrimKeepsExactly(cells[k], Space);
    }
    StrippedIsClean(cells[0]);
    StrippedIsClean(cells[1]);
    StrippedIsClean(cells[4]);
  }

  /** Rows read from any file hold no bar and no newline. */
  lemma ParsedRowsAreClean(reader: Reader, text: string)
    requires Parse(reader, text).Ok?
    ensures forall k :: 0 <= k < |Parse(reader, text).rows| ==> CleanRow(Parse(reader, text).rows[k])
    ensures reader == Sdk ==> forall k :: 0 <= k < |Parse(reader, text).rows| ==> Readable(Parse(reader, text).rows[k])
  {
    var lines := Lines(text);
    var readings := Readings(reader, lines);
    forall k | 0 <= k < |Rows(readings)|
      ensures CleanRow(Rows(readings)[k])
      ensures reader == Sdk ==> Readable(Rows(readings)[k])
    {
      var i := RowsComeFromReadings(readings, k);
      LinesHaveNoNewline(text, i);
      ReadRowIsClean(reader, lines[i]);
    }
  }

  /** A cell that is read as `s`: code between backticks, or the bare text when it holds a lone backtick. */
  function CellFor(s: string): string {
    if '`' in s then PlainCell(s) else CodeCell(s)
  }

  function CellsFor(e: Entry): seq<string> {
    [CodeCell(e.entry), CellFor(e.crateName), PlainCell(e.kind), PlainCell(e.stability), CellFor(e.source)]
  }

  lemma CellForReads(s: string)
    requires '`' !in s || SpanlessCell(s)
    ensures StripCodeSpan(Trim(CellFor(s))) == s
  {
    if '`' in s {
      PlainReadsBack(s);
      TrimKeepsExactly(s, Space);
    } else {
      TrimmedCode(s);
      CodeReadsBack(s);
      CodeReadIsExact(Sdk, s);
    }
  }

  lemma CellsForRead(e: Entry)
    requires Readable(e)
    ensures
      var p := CellsFor(e);
      && Trim(p[0]) == CodeText(e.entry) && ExtractCodeSpan(Trim(p[0])) == Some(e.entry)
      && StripCodeSpan(Trim(p[1])) == e.crateName && StripCodeSpan(Trim(p[4])) == e.source
      && Trim(Trim(p[2])) == e.kind && Trim(Trim(p[3])) == e.stability
  {
    assert StripCodeSpan(Trim(CellFor(e.crateName))) == e.crateName by { CellForReads(e.crateName); }
    assert StripCodeSpan(Trim(CellFor(e.source))) == e.source by { CellForReads(e.source); }
    assert Trim(Trim(PlainCell(e.kind))) == e.kind by { PlainIsKept(e.kind); }
    assert Trim(Trim(PlainCell(e.stability))) == e.stability by { PlainIsKept(e.stability); }
    EntryIsKept(e.entry);
  }

  lemma PlainIsKept(s: string)
    requires Trimmed(s, Space)
    ensures Trim(Trim(PlainCell(s))) == s
  {
    PlainReadsBack(s);
    TrimKeepsExactly(s, Space);
  }

  lemma EntryIsKept(s: string)
    requires '`' !in s
    ensures Trim(CodeCell(s)) == CodeText(s) && ExtractCodeSpan(CodeText(s)) == Some(s)
  {
    TrimmedCode(s);
    CodeReadsBack(s);
    CodeReadIsExact(Sdk, s);
  }

  lemma PaddedCellsFor(e: Entry)
    requires Readable(e)
    ensures Paddeds(CellsFor(e))
  {
    assert CodeCell(e.entry)[0] == ' ' && CodeCell(e.entry)[1] == '`';
  }

  lemma LineForReads(e: Entry)
    requires Readable(e)
    ensures IsLine(TableLine(CellsFor(e))) && ReadLine(Sdk, TableLine(CellsFor(e))) == Row(e)
  {
    var p := CellsFor(e);
    PaddedCellsFor(e);
    TableLineShape(p);
    TableLineCells(p);
    CellsForRead(e);
    assert !("---" <= CodeText(e.entry)) by { CodeReadsBack(e.entry); }
  }

  /** The text that spells out readable rows, one line for each. */
  function TextFor(rows: seq<Entry>): string {
    Unlines(Map((e: Entry) => TableLine(CellsFor(e)), rows))
  }

  lemma TextForReads(rows: seq<Entry>)
    requires rows != [] && forall i :: 0 <= i < |rows| ==> Readable(rows[i])
    ensures Parse(Sdk, TextFor(rows)) == Ok(rows)
  {
    var lines := Map((e: Entry) => TableLine(CellsFor(e)), rows);
    forall i | 0 <= i < |rows| ensures IsLine(lines[i]) && ReadLine(Sdk, lines[i]) == Row(rows[i]) {
      LineForReads(rows[i]);
    }
    LinesUnlines(lines);
    assert Readings(Sdk, lines) == [] + RowReadings(rows);
    HeadAndRows([], rows);
  }

  /** Some text is read as the given rows exactly when there are some and all are readable. */
  lemma ReadableIsExact(rows: seq<Entry>)
    ensures (exists text :: Parse(Sdk, text) == Ok(rows)) <==> rows != [] && forall i :: 0 <= i < |rows| ==> Readable(rows[i])
  {
    if text :| Parse(Sdk, text) == Ok(rows) {
      ParsedRowsAreClean(Sdk, text);
    }
    if rows != [] && forall i :: 0 <= i < |rows| ==> Readable(rows[i]) {
      TextForReads(rows);
    }
  }
}
