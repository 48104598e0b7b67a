/**
 What any text is read as by the inventory readers, in terms of its lines: which lines count
 as table lines, which of them show a row and which are reported as misshapen.
 */
module InventoryReading {
  import opened Text
  import opened Order
  import opened InventoryTable

  /** The lines a reader takes for lines of the table. */
  predicate TableRow(reader: Reader, line: string) {
    match reader
    case Sdk => Trim(line) != [] && Trim(line)[0] == '|' && '`' in Trim(line)
    case Rail => "| `" <= Trim(line)
  }

  /** Within its outer bars the line is these texts, separated by bars. */
  predicate Columns(line: string, texts: seq<string>) {
    && texts != [] && (forall i :: 0 <= i < |texts| ==> '|' !in texts[i])
    && TrimBy(Trim(line), Only('|')) == Join(texts, "|")
  }

  ghost predicate HasColumns(line: string, n: nat) {
    exists texts :: Columns(line, texts) && |texts| == n
  }

  lemma ColumnsAreCells(line: string, texts: seq<string>)
    requires Columns(line, texts)
    ensures Cells(Trim(line)) == Map(Trim, texts)
  {
    SplitJoin(texts, '|');
  }

  lemma LineHasColumns(line: string) returns (texts: seq<string>)
    ensures Columns(line, texts)
  {
    texts := Split(TrimBy(Trim(line), Only('|')), '|');
    JoinSplit(TrimBy(Trim(line), Only('|')), '|');
  }

  /** Cell text whose code is the text between its first two backticks, or without such a span the text itself. */
  ghost predicate CodeOrText(cell: string, s: string) {
    if exists span, i: nat :: SpanAt(cell, span, i) then exists i: nat :: SpanAt(cell, s, i) else s == cell
  }

  /** What a line of five texts shows as a row. */
  ghost predicate ShowsRow(reader: Reader, texts: seq<string>, e: Entry)
    requires |texts| == COLUMN_COUNT
  {
    && e.kind == Trim(texts[2]) && e.stability == Trim(texts[3])
    && match reader
       case Sdk =>
         && !("---" <= Trim(texts[0])) && (exists i: nat :: SpanAt(Trim(texts[0]), e.entry, i))
         && CodeOrText(Trim(texts[1]), e.crateName) && CodeOrText(Trim(texts[4]), e.source)
       case Rail =>
         && e.entry == TrimBy(Trim(texts[0]), Only('`')) && e.crateName == TrimBy(Trim(texts[1]), Only('`'))
         && e.source == TrimBy(Trim(texts[4]), Only('`'))
  }

  ghost predicate Shows(reader: Reader, line: string, e: Entry) {
    TableRow(reader, line) && exists texts :: Columns(line, texts) && |texts| == COLUMN_COUNT && ShowsRow(reader, texts, e)
  }

  /** A line of the table with another number of columns. */
  ghost predicate Misshapen(reader: Reader, line: string, n: nat) {
    TableRow(reader, line) && HasColumns(line, n) && n != COLUMN_COUNT
  }

  lemma CodeOrTextIsExact(cell: string, s: string)
    requires Trim(cell) == cell
    ensures StripCodeSpan(cell) == s <==> CodeOrText(cell, s)
  {
    CodeSpanIsExact(cell, s);
    if ExtractCodeSpan(cell).Some? {
      CodeSpanIsExact(cell, ExtractCodeSpan(cell).value);
    }
    if span, i: nat :| SpanAt(cell, span, i) {
      CodeSpanIsExact(cell, span);
    }
  }

  lemma TrimTwice(s: string)
    ensures Trim(Trim(s)) == Trim(s)
  {
    TrimShape(s, Space);
    TrimKeepsExactly(Trim(s), Space);
  }

  lemma OneWayToCut(line: string, a: seq<string>, b: seq<string>)
    requires Columns(line, a) && Columns(line, b)
    ensures a == b
  {
    SplitJoin(a, '|');
    SplitJoin(b, '|');
  }

  /** The cells that the SDK reader takes apart, each already trimmed. */
  predicate TrimmedFive(cells: seq<string>) {
    |cells| == COLUMN_COUNT && forall i :: 0 <= i < |cells| ==> Trim(cells[i]) == cells[i]
  }

  ghost predicate ShowsCells(cells: seq<string>, e: Entry)
    requires |cells| == COLUMN_COUNT
  {
    && !("---" <= cells[0]) && (exists i: nat :: SpanAt(cells[0], e.entry, i))
    && CodeOrText(cells[1], e.crateName) && e.kind == cells[2] && e.stability == cells[3] && CodeOrText(cells[4], e.source)
  }

  lemma SdkCellsAreRead(line: string, e: Entry)
    requires TableRow(Sdk, line) && TrimmedFive(Cells(Trim(line)))
    ensures ReadLine(Sdk, line) == Row(e) <==> ShowsCells(Cells(Trim(line)), e)
  {
    var cells := Cells(Trim(line));
    assert "|" <= Trim(line);
    CodeSpanIsExact(cells[0], e.entry);
    CodeOrTextIsExact(cells[1], e.crateName);
    CodeOrTextIsExact(cells[4], e.source);
  }

  lemma SdkTextsAreRead(line: string, texts: seq<string>, e: Entry)
    requires TableRow(Sdk, line) && Columns(line, texts) && |texts| == COLUMN_COUNT
    ensures ReadLine(Sdk, line) == Row(e) <==> ShowsRow(Sdk, texts, e)
  {
    ColumnsAreCells(line, texts);
    forall i | 0 <= i < |texts| ensures Trim(Trim(texts[i])) == Trim(texts[i]) {
      TrimTwice(texts[i]);
    }
    SdkCellsAreRead(line, e);
  }

  lemma RailTextsAreRead(line: string, texts: seq<string>, e: Entry)
    requires TableRow(Rail, line) && Columns(line, texts) && |texts| == COLUMN_COUNT
    ensures ReadLine(Rail, line) == Row(e) <==> ShowsRow(Rail, texts, e)
  {
    ColumnsAreCells(line, texts);
    TrimTwice(texts[0]);
    TrimTwice(texts[1]);
    TrimTwice(texts[4]);
  }

  lemma BarFirst(s: string)
    ensures "|" <= s <==> s != [] && s[0] == '|'
  {
  }

  /** A line is read as the row it shows, and as misshapen exactly when it is. */
  lemma LineIsRead(reader: Reader, line: string, e: Entry, n: nat)
    ensures ReadLine(reader, line) == Row(e) <==> Shows(reader, line, e)
    ensures ReadLine(reader, line) == Malformed(n) <==> Misshapen(reader, line, n)
  {
    var texts := LineHasColumns(line);
    ColumnsAreCells(line, texts);
    forall other | Columns(line, other) ensures other == texts {
      OneWayToCut(line, texts, other);
    }
    BarFirst(Trim(line));
    if TableRow(reader, line) && |texts| == COLUMN_COUNT {
      if reader == Sdk {
        SdkTextsAreRead(line, texts, e);
      } else {
        RailTextsAreRead(line, texts, e);
      }
    }
  }

  function ErrorsOf(p: Parsed): seq<ParseError> {
    match p
    case Ok(_) => []
    case Err(errors) => errors
  }

  lemma {:induction false} ColumnErrorIsListed(readings: seq<LineReading>, line: nat, n: nat)
    ensures WrongColumns(line, n) in ColumnErrors(readings) <==> 1 <= line <= |readings| && readings[line - 1] == Malformed(n)
  {
    if readings != [] {
      ColumnErrorIsListed(readings[..|readings| - 1], line, n);
    }
  }

  /** For any text a column error is reported for exactly the misshapen lines, under their number and their column count. */
  lemma ColumnErrorsAreExact(reader: Reader, text: string, i: nat, n: nat)
    ensures WrongColumns(i + 1, n) in ErrorsOf(Parse(reader, text)) <==> i < |Lines(text)| && Misshapen(reader, Lines(text)[i], n)
  {
    ColumnErrorIsListed(Readings(reader, Lines(text)), i + 1, n);
    if i < |Lines(text)| {
      LineIsRead(reader, Lines(text)[i], Entry("", "", "", "", ""), n);
    }
  }

  ghost predicate SomeRow(reader: Reader, lines: seq<string>) {
    exists i, e :: 0 <= i < |lines| && Shows(reader, lines[i], e)
  }

  ghost predicate SomeMisshapen(reader: Reader, lines: seq<string>) {
    exists i: nat, n: nat :: i < |lines| && Misshapen(reader, lines[i], n)
  }

  /** A text is refused for having no rows exactly when no line shows one. */
  lemma NoRowsIsExact(reader: Reader, text: string)
    ensures NoRows in ErrorsOf(Parse(reader, text)) <==> !SomeRow(reader, Lines(text))
  {
    RowsAreShown(reader, Lines(text));
    NoOtherErrors(Readings(reader, Lines(text)));
  }

  /** A text is read without error exactly when some line shows a row and no line is misshapen. */
  lemma AcceptedIsExact(reader: Reader, text: string)
    ensures Parse(reader, text).Ok? <==> SomeRow(reader, Lines(text)) && !SomeMisshapen(reader, Lines(text))
  {
    var errors := ErrorsOf(Parse(reader, text));
    NoRowsIsExact(reader, text);
    if i: nat, n: nat :| i < |Lines(text)| && Misshapen(reader, Lines(text)[i], n) {
      ColumnErrorsAreExact(reader, text, i, n);
    }
    if Parse(reader, text).Err? && NoRows !in errors {
      ErrorIsMisshapen(reader, text);
    }
  }

  lemma {:induction false} MalformedReading(readings: seq<LineReading>) returns (i: nat)
    requires ColumnErrors(readings) != []
    ensures i < |readings| && readings[i].Malformed?
  {
    var n := |readings| - 1;
    if readings[n].Malformed? {
      i := n;
    } else {
      i := MalformedReading(readings[..n]);
    }
  }

  lemma ErrorIsMisshapen(reader: Reader, text: string)
    requires Parse(reader, text).Err? && NoRows !in ErrorsOf(Parse(reader, text))
    ensures SomeMisshapen(reader, Lines(text))
  {
    var readings := Readings(reader, Lines(text));
    assert ColumnErrors(readings) != [];
    var i := MalformedReading(readings);
    LineIsRead(reader, Lines(text)[i], Entry("", "", "", "", ""), readings[i].found);
  }

  lemma RowsAreShown(reader: Reader, lines: seq<string>)
    ensures Rows(Readings(reader, lines)) != [] <==> SomeRow(reader, lines)
  {
    var readings := Readings(reader, lines);
    if Rows(readings) != [] {
      var i := RowsComeFromReadings(readings, 0);
      LineIsRead(reader, lines[i], Rows(readings)[0], 0);
    }
    if i, e :| 0 <= i < |lines| && Shows(reader, lines[i], e) {
      LineIsRead(reader, lines[i], e, 0);
      RowIsListed(readings, i);
    }
  }

  lemma {:induction false} RowIsListed(readings: seq<LineReading>, i: nat)
    requires i < |readings| && readings[i].Row?
    ensures Rows(readings) != []
  {
    if i < |readings| - 1 {
      RowIsListed(readings[..|readings| - 1], i);
    }
  }

  lemma {:induction false} NoOtherErrors(readings: seq<LineReading>)
    ensures forall x :: x in ColumnErrors(readings) ==> x.WrongColumns? && x.line >= 1
  {
    if readings != [] {
      NoOtherErrors(readings[..|readings| - 1]);
    }
  }

  /** Strictly increasing line numbers. */
  predicate Ascending(at: seq<nat>) {
    forall j, k :: 0 <= j < k < |at| ==> at[j] < at[k]
  }

  /** The rows are what these lines show, in order, and no other line shows a row. */
  ghost predicate RowsAt(reader: Reader, lines: seq<string>, rows: seq<Entry>, at: seq<nat>) {
    && |at| == |rows| && Ascending(at)
    && (forall k :: 0 <= k < |at| ==> at[k] < |lines| && Shows(reader, lines[at[k]], rows[k]))
    && forall i, e :: 0 <= i < |lines| && Shows(reader, lines[i], e) ==> i in at
  }

  /** The rows among the readings, by position. */
  predicate Stand(readings: seq<LineReading>, rows: seq<Entry>, at: seq<nat>) {
    && |at| == |rows| && Ascending(at)
    && (forall k :: 0 <= k < |at| ==> at[k] < |readings| && readings[at[k]] == Row(rows[k]))
    && forall i :: 0 <= i < |readings| && readings[i].Row? ==> i in at
  }

  lemma StandSnoc(readings: seq<LineReading>, last: LineReading, rows: seq<Entry>, at: seq<nat>) returns (more: seq<nat>)
    requires Stand(readings, rows, at)
    ensures Stand(readings + [last], rows + (if last.Row? then [last.row] else []), more)
  {
    var all := readings + [last];
    more := if last.Row? then at + [|readings|] else at;
    assert forall k :: 0 <= k < |at| ==> all[at[k]] == readings[at[k]];
    forall i | 0 <= i < |all| && all[i].Row? ensures i in more {
      if i < |readings| {
        assert readings[i].Row? && i in at;
      } else {
        assert more[|at|] == i;
      }
    }
  }

  lemma {:induction false} RowsStand(readings: seq<LineReading>) returns (at: seq<nat>)
    ensures Stand(readings, Rows(readings), at)
  {
    if readings == [] {
      at := [];
    } else {
      var n := |readings| - 1;
      at := RowsStand(readings[..n]);
      at := StandSnoc(readings[..n], readings[n], Rows(readings[..n]), at);
      assert readings == readings[..n] + [readings[n]];
    }
  }

  /** For any text that is read, the rows are exactly what its lines show, in the order of the lines. */
  lemma RowsAreExact(reader: Reader, text: string) returns (at: seq<nat>)
    requires Parse(reader, text).Ok?
    ensures RowsAt(reader, Lines(text), Parse(reader, text).rows, at)
  {
    var lines, rows := Lines(text), Parse(reader, text).rows;
    at := RowsStand(Readings(reader, lines));
    forall k | 0 <= k < |at| ensures Shows(reader, lines[at[k]], rows[k]) {
      LineIsRead(reader, lines[at[k]], rows[k], 0);
    }
    forall i, e | 0 <= i < |lines| && Shows(reader, lines[i], e) ensures i in at {
      LineIsRead(reader, lines[i], e, 0);
      assert Readings(reader, lines)[i].Row?;
    }
  }
}
