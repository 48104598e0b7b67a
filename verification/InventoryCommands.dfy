/**
 The two commands of check-embedded-sdk-api on the inventory text itself: what is written
 by `--write-inventory`, what a second write does, and what the plain check then reports.
 */
module InventoryCommands {
  import opened Text
  import opened Order
  import opened Paths
  import opened InventoryTable
  import opened Regeneration
  import opened InventoryCheck

  datatype WriteOutcome = Written(text: string, count: nat) | Rejected(errors: seq<ParseError>)

  datatype CheckOutcome = Report(findings: seq<Finding>) | Unreadable(errors: seq<ParseError>)

  function Write(prose: seq<string>, text: string, scanned: seq<PublicItem>): WriteOutcome {
    match Parse(Sdk, text)
    case Err(errors) => Rejected(errors)
    case Ok(existing) =>
      var generated := Generate(existing, scanned);
      Written(Render(prose, generated), |generated|)
  }

  method WriteInventory(prose: seq<string>, text: string, scanned: seq<PublicItem>) returns (r: WriteOutcome)
    ensures r == Write(prose, text, scanned)
  {
    var parsed := ParseInventory(Sdk, text);
    match parsed
    case Err(errors) => r := Rejected(errors);
    case Ok(existing) =>
      var generated := Generate(existing, scanned);
      var rendered := RenderInventory(prose, generated);
      r := Written(rendered, |generated|);
  }

  method CheckInventory(text: string, scanned: seq<PublicItem>, guide: string, sourceExists: string -> bool)
    returns (r: CheckOutcome)
    ensures Parse(Sdk, text).Err? ==> r == Unreadable(Parse(Sdk, text).errors)
    ensures Parse(Sdk, text).Ok? ==>
      r.Report? && forall f :: f in r.findings <==> Holds(f, Parse(Sdk, text).rows, scanned, guide, sourceExists)
  {
    var parsed := ParseInventory(Sdk, text);
    match parsed
    case Err(errors) => r := Unreadable(errors);
    case Ok(entries) =>
      var findings := ValidateInventory(entries, scanned, guide, sourceExists);
      r := Report(findings);
  }

  predicate PrintableItem(item: PublicItem) {
    CleanCode(item.entry) && CleanCode(item.crateName) && CleanCode(item.source)
    && Clean(item.kind) && Trimmed(item.kind, Space)
  }

  predicate PrintableItems(scanned: seq<PublicItem>) {
    forall i :: 0 <= i < |scanned| ==> PrintableItem(scanned[i])
  }

  /** The one thing parsing does not already guarantee about a row: no lone backtick outside the entry. */
  predicate NoLoneBacktick(e: Entry) {
    '`' !in e.crateName && '`' !in e.source
  }

  predicate NoLoneBackticks(rows: seq<Entry>) {
    forall i :: 0 <= i < |rows| ==> NoLoneBacktick(rows[i])
  }

  predicate PrintableLabel(s: string) {
    Clean(s) && Trimmed(s, Space)
  }

  lemma DerivedStabilityIsPrintable(existing: seq<Entry>, item: PublicItem)
    requires forall e :: e in existing ==> PrintableLabel(e.stability)
    ensures PrintableLabel(DerivedStability(item, OwnerStability(existing)))
  {
    var owners := OwnerStability(existing);
    forall key | key in owners ensures PrintableLabel(owners[key]) {
      var i := OwnerStabilityIsCopied(existing, key);
    }
    assert PrintableLabel(DEFAULT_STABILITY);
  }

  lemma GeneratedRowIsReadable(existing: seq<Entry>, item: PublicItem)
    requires (forall e :: e in existing ==> Readable(e)) && PrintableItem(item)
    ensures Readable(GeneratedRow(existing, item))
  {
    IndexedExactly(existing, RefOfItem(item));
    DerivedStabilityIsPrintable(existing, item);
  }

  lemma GeneratedIsReadable(existing: seq<Entry>, scanned: seq<PublicItem>)
    requires (forall e :: e in existing ==> Readable(e)) && PrintableItems(scanned)
    ensures forall e :: e in Generate(existing, scanned) ==> Readable(e)
  {
    forall e | e in Generate(existing, scanned) ensures Readable(e) {
      RowIsGenerated(existing, scanned, e);
      if !(e in existing) {
        var i :| 0 <= i < |scanned| && e == GeneratedRow(existing, scanned[i]);
        GeneratedRowIsReadable(existing, scanned[i]);
      }
    }
  }

  lemma ParsedRowsAreReadable(text: string)
    requires Parse(Sdk, text).Ok?
    ensures forall e :: e in Parse(Sdk, text).rows ==> Readable(e)
  {
    ParsedRowsAreClean(Sdk, text);
    forall e | e in Parse(Sdk, text).rows ensures Readable(e) {
      var k :| 0 <= k < |Parse(Sdk, text).rows| && Parse(Sdk, text).rows[k] == e;
    }
  }

  lemma GeneratedIsClean(text: string, scanned: seq<PublicItem>)
    requires Parse(Sdk, text).Ok? && PrintableItems(scanned)
    ensures
      var generated := Generate(Parse(Sdk, text).rows, scanned);
      forall i :: 0 <= i < |generated| ==> Readable(generated[i]) && CleanRow(generated[i])
  {
    var generated := Generate(Parse(Sdk, text).rows, scanned);
    ParsedRowsAreReadable(text);
    GeneratedIsReadable(Parse(Sdk, text).rows, scanned);
    forall i | 0 <= i < |generated| ensures Readable(generated[i]) && CleanRow(generated[i]) {
      assert generated[i] in generated;
    }
  }

  lemma GeneratedIsWritten(prose: seq<string>, text: string, scanned: seq<PublicItem>)
    requires forall i :: 0 <= i < |prose| ==> Prose(prose[i])
    requires Parse(Sdk, text).Ok? && PrintableItems(scanned)
    ensures
      var generated := Generate(Parse(Sdk, text).rows, scanned);
      && (forall i :: 0 <= i < |generated| ==> Readable(generated[i]) && CleanRow(generated[i]))
      && (forall i :: 0 <= i < |generated| ==> (Printable(Sdk, generated[i]) <==> NoLoneBacktick(generated[i])))
      && Write(prose, text, scanned) == Written(Render(prose, generated), |generated|)
      && Parse(Sdk, Render(prose, generated)) == (if generated == [] then Err([NoRows]) else Ok(ReadBackRows(Sdk, generated)))
  {
    var generated := Generate(Parse(Sdk, text).rows, scanned);
    GeneratedIsClean(text, scanned);
    ParseOfRender(Sdk, prose, generated);
  }

  /**
   Whatever text was read, the file that is written reads back as the regenerated rows, each
   cut at a lone backtick, so as exactly those rows if and only if none holds one.
   */
  lemma WrittenFileReadsBack(prose: seq<string>, text: string, scanned: seq<PublicItem>)
    requires forall i :: 0 <= i < |prose| ==> Prose(prose[i])
    requires Parse(Sdk, text).Ok? && PrintableItems(scanned)
    ensures
      var generated := Generate(Parse(Sdk, text).rows, scanned);
      var written := Parse(Sdk, Write(prose, text, scanned).text);
      && written == (if generated == [] then Err([NoRows]) else Ok(ReadBackRows(Sdk, generated)))
      && (written == Ok(generated) <==> generated != [] && NoLoneBackticks(generated))
  {
    var generated := Generate(Parse(Sdk, text).rows, scanned);
    GeneratedIsWritten(prose, text, scanned);
    RoundTripIsExact(Sdk, prose, generated);
  }

  // ------------------------------------------------------------------ writing twice

  lemma ReadBackShortens(e: Entry)
    requires '`' !in e.entry && Trimmed(e.kind, Space) && Trimmed(e.stability, Space)
    ensures RowLine(ReadBack(Sdk, e)) == RowLine(e) <==> NoLoneBacktick(e)
  {
    var r := ReadBack(Sdk, e);
    CodeReadIsExact(Sdk, e.entry);
    CodeReadIsExact(Sdk, e.crateName);
    CodeReadIsExact(Sdk, e.source);
    TrimKeepsExactly(e.kind, Space);
    TrimKeepsExactly(e.stability, Space);
    assert |RowLine(e)| == |RowLine(r)| + (|e.crateName| - |r.crateName|) + (|e.source| - |r.source|);
  }

  lemma ReadBackIsPrintable(e: Entry)
    requires Readable(e)
    ensures Printable(Sdk, ReadBack(Sdk, e)) && Readable(ReadBack(Sdk, e))
  {
    CodeReadIsExact(Sdk, e.entry);
    TrimKeepsExactly(e.kind, Space);
    TrimKeepsExactly(e.stability, Space);
  }

  /** The rows read back from a written file regenerate to rows that print and read without loss. */
  lemma SecondWriteIsPrintable(rows: seq<Entry>, scanned: seq<PublicItem>)
    requires (forall i :: 0 <= i < |rows| ==> Readable(rows[i])) && PrintableItems(scanned)
    ensures forall i :: 0 <= i < |Generate(ReadBackRows(Sdk, rows), scanned)| ==>
      Printable(Sdk, Generate(ReadBackRows(Sdk, rows), scanned)[i])
  {
    var read := ReadBackRows(Sdk, rows);
    var again := Generate(read, scanned);
    forall e | e in read ensures Readable(e) && NoLoneBacktick(e) {
      var i :| 0 <= i < |read| && read[i] == e;
      ReadBackIsPrintable(rows[i]);
    }
    GeneratedIsReadable(read, scanned);
    forall i | 0 <= i < |again| ensures Printable(Sdk, again[i]) {
      RowIsGenerated(read, scanned, again[i]);
      assert Readable(again[i]);
      if !(again[i] in read) {
        var k :| 0 <= k < |scanned| && again[i] == GeneratedRow(read, scanned[k]);
        IndexedExactly(read, RefOfItem(scanned[k]));
      }
    }
  }

  /** Rows that print like what is read back from them hold no lone backtick. */
  lemma SamePrintNoBacktick(prose: seq<string>, rows: seq<Entry>)
    requires forall i :: 0 <= i < |prose| ==> Prose(prose[i])
    requires forall i :: 0 <= i < |rows| ==> Readable(rows[i])
    requires Render(prose, rows) == Render(prose, ReadBackRows(Sdk, rows))
    ensures NoLoneBackticks(rows) && ReadBackRows(Sdk, rows) == rows
  {
    var read := ReadBackRows(Sdk, rows);
    forall i | 0 <= i < |rows| ensures CleanRow(read[i]) && CleanRow(rows[i]) {
      ReadBackIsPrintable(rows[i]);
    }
    RenderedLines(prose, rows);
    RenderedLines(prose, read);
    SameRest(Head(prose), RowLines(rows), RowLines(read));
    forall i | 0 <= i < |rows| ensures NoLoneBacktick(rows[i]) && read[i] == rows[i] {
      assert RowLines(read)[i] == RowLines(rows)[i];
      ReadBackShortens(rows[i]);
      ReadBackIsExact(Sdk, rows[i]);
    }
  }

  lemma SameRest<T>(head: seq<T>, a: seq<T>, b: seq<T>)
    requires head + a == head + b
    ensures a == b
  {
    assert a == (head + a)[|head|..] && b == (head + b)[|head|..];
  }

  /** When the second write repeats the text, the rows read from that text are the rows printed in it. */
  lemma RepeatedWriteIsLossless(prose: seq<string>, rows: seq<Entry>, scanned: seq<PublicItem>)
    requires forall i :: 0 <= i < |prose| ==> Prose(prose[i])
    requires rows != [] && (forall i :: 0 <= i < |rows| ==> Readable(rows[i])) && PrintableItems(scanned)
    requires Render(prose, Generate(ReadBackRows(Sdk, rows), scanned)) == Render(prose, rows)
    ensures NoLoneBackticks(rows) && Generate(rows, scanned) == rows
  {
    var read := ReadBackRows(Sdk, rows);
    var again := Generate(read, scanned);
    ParseOfRender(Sdk, prose, rows);
    SecondWriteIsPrintable(rows, scanned);
    ParseOfRender(Sdk, prose, again);
    RoundTripIsExact(Sdk, prose, again);
    assert again == read;
    SamePrintNoBacktick(prose, rows);
  }

  /**
   Writing the inventory file a second time writes the same text exactly when no scanned
   item has the kind of an example, new items of one reference are one item, and no
   regenerated row holds a lone backtick. A scan that leaves no row at all is the exception:
   the file written then cannot be read again.
   */
  lemma WritingTwice(prose: seq<string>, text: string, scanned: seq<PublicItem>)
    requires forall i :: 0 <= i < |prose| ==> Prose(prose[i])
    requires Parse(Sdk, text).Ok? && PrintableItems(scanned)
    ensures
      var existing := Parse(Sdk, text).rows;
      var once := Write(prose, text, scanned);
      if Generate(existing, scanned) == [] then Write(prose, once.text, scanned) == Rejected([NoRows])
      else (Write(prose, once.text, scanned) == once
            <==> NoScannedExample(scanned) && ConsistentScan(existing, scanned) && NoLoneBackticks(Generate(existing, scanned)))
  {
    var existing := Parse(Sdk, text).rows;
    var generated := Generate(existing, scanned);
    GeneratedIsWritten(prose, text, scanned);
    RegenerationFixpoint(existing, scanned);
    if generated != [] && Write(prose, Write(prose, text, scanned).text, scanned) == Write(prose, text, scanned) {
      RepeatedWriteIsLossless(prose, generated, scanned);
    } else if generated != [] && NoLoneBackticks(generated) {
      RoundTripIsExact(Sdk, prose, generated);
    }
  }

  lemma LoneBacktickCell() returns (cell: string)
    ensures Clean(cell) && '`' in cell && SpanlessCell(cell)
  {
    cell := "a`b";
    assert cell[0] == 'a' && cell[1] == '`' && IndexOf(cell, '`') == 1;
    assert cell[2..] == "b" && IndexOf("b", '`') == 1;
  }

  lemma LabelsArePrintable()
    ensures PrintableLabel(EXAMPLE_KIND) && PrintableLabel(DEFAULT_STABILITY)
  {
  }

  lemma LoneBacktickRow() returns (row: Entry)
    ensures Readable(row) && IsExample(row) && !NoLoneBacktick(row)
  {
    var cell := LoneBacktickCell();
    LabelsArePrintable();
    row := Entry("x", "c", EXAMPLE_KIND, DEFAULT_STABILITY, cell);
  }

  /**
   There is a readable text whose only row is an example with a lone backtick: nothing is
   scanned, and still the second write differs from the first.
   */
  lemma LoneBacktickIsLost(prose: seq<string>) returns (text: string)
    requires forall i :: 0 <= i < |prose| ==> Prose(prose[i])
    ensures Parse(Sdk, text).Ok?
    ensures Write(prose, text, []).Written? && Write(prose, Write(prose, text, []).text, []) != Write(prose, text, [])
  {
    var row := LoneBacktickRow();
    var rows := [row];
    text := TextFor(rows);
    TextForReads(rows);
    RowIsGenerated(rows, [], row);
    var k :| 0 <= k < |Generate(rows, [])| && Generate(rows, [])[k] == row;
    WritingTwice(prose, text, []);
  }

  // ------------------------------------------------------------------ the check after a write

  /** A row kept or made for an item has no backtick in its source, so it reads back under the same reference. */
  lemma ReadBackKeepsRef(existing: seq<Entry>, item: PublicItem)
    requires (forall e :: e in existing ==> Readable(e)) && PrintableItem(item)
    ensures RefOfEntry(ReadBack(Sdk, GeneratedRow(existing, item))) == RefOfItem(item)
  {
    var row := GeneratedRow(existing, item);
    GeneratedRowIsReadable(existing, item);
    PathCharIsInName(row.source, '`');
    PathCharIsInName(item.source, '`');
    CodeReadIsExact(Sdk, row.source);
    CodeReadIsExact(Sdk, row.entry);
    TrimKeepsExactly(row.kind, Space);
  }

  lemma ReadBackIsBarFree(e: Entry)
    requires Readable(e)
    ensures BarFree(ReadBack(Sdk, e)) && ReadBack(Sdk, e).kind == e.kind
  {
    ReadBackIsPrintable(e);
    TrimKeepsExactly(e.kind, Space);
  }

  /** The rows read from a written file are the kept rows and the example rows, each as it reads back. */
  lemma ReadBackIsAssembled(existing: seq<Entry>, scanned: seq<PublicItem>)
    requires (forall e :: e in existing ==> Readable(e)) && PrintableItems(scanned)
    ensures Assembled(ReadBackRows(Sdk, Generate(existing, scanned)), ReadBackRows(Sdk, ScannedRows(existing, scanned)),
                      ReadBackRows(Sdk, Examples(existing)), scanned)
  {
    var kept, examples := ScannedRows(existing, scanned), Examples(existing);
    forall i | 0 <= i < |kept|
      ensures BarFree(ReadBackRows(Sdk, kept)[i]) && RefOfEntry(ReadBackRows(Sdk, kept)[i]) == RefOfItem(scanned[i])
    {
      GeneratedRowIsReadable(existing, scanned[i]);
      ReadBackKeepsRef(existing, scanned[i]);
      ReadBackIsBarFree(kept[i]);
    }
    forall i | 0 <= i < |examples|
      ensures BarFree(ReadBackRows(Sdk, examples)[i]) && IsExample(ReadBackRows(Sdk, examples)[i])
    {
      FilterMember(IsExample, existing, examples[i]);
      ReadBackIsBarFree(examples[i]);
    }
    ReadBackPermutes(kept, examples);
  }

  lemma ReadBackPermutes(kept: seq<Entry>, examples: seq<Entry>)
    ensures multiset(ReadBackRows(Sdk, Sort(CompareEntries, kept + examples)))
      == multiset(ReadBackRows(Sdk, kept) + ReadBackRows(Sdk, examples))
  {
    SortPermutes(CompareEntries, kept + examples);
    MapPermutation((e: Entry) => ReadBack(Sdk, e), Sort(CompareEntries, kept + examples), kept + examples);
    MapAppend((e: Entry) => ReadBack(Sdk, e), kept, examples);
  }

  /**
   After a write, the plain check reads the regenerated rows as they were printed and reports
   nothing exactly when these are acceptable: the rows of the scanned items, sound and in
   their scanned crate, and the example rows, sound and distinct.
   */
  lemma WriteThenCheck(prose: seq<string>, text: string, scanned: seq<PublicItem>, guide: string, sourceExists: string -> bool)
    requires forall i :: 0 <= i < |prose| ==> Prose(prose[i])
    requires Parse(Sdk, text).Ok? && PrintableItems(scanned)
    requires DistinctBy(RefOfItem, scanned) && NoScannedExample(scanned)
    requires Generate(Parse(Sdk, text).rows, scanned) != []
    ensures
      var existing := Parse(Sdk, text).rows;
      var written := Parse(Sdk, Write(prose, text, scanned).text);
      var kept, examples := ReadBackRows(Sdk, ScannedRows(existing, scanned)), ReadBackRows(Sdk, Examples(existing));
      && written == Ok(ReadBackRows(Sdk, Generate(existing, scanned)))
      && ((forall f :: !Holds(f, written.rows, scanned, guide, sourceExists))
          <==> AcceptableParts(kept, examples, scanned, guide, sourceExists))
  {
    var existing := Parse(Sdk, text).rows;
    WrittenFileReadsBack(prose, text, scanned);
    ParsedRowsAreReadable(text);
    ReadBackIsAssembled(existing, scanned);
    AssembledPasses(ReadBackRows(Sdk, Generate(existing, scanned)), ReadBackRows(Sdk, ScannedRows(existing, scanned)),
                    ReadBackRows(Sdk, Examples(existing)), scanned, guide, sourceExists);
  }
}
