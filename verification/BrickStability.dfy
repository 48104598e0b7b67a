/**
 The stable-contract fingerprint of check-brick-inventory-stability: the rows with a stable
 label are sorted and printed one per line, and the text is hashed. The hash is left out;
 what is proved is that the hashed text changes exactly when the stable rows change.
 */
module BrickStability {
  import opened Text
  import opened Order
  import opened InventoryTable

  function Fields(e: Entry): seq<string> {
    [e.entry, e.crateName, e.kind, e.stability, e.source]
  }

  function CompareRows(a: Entry, b: Entry): Ordering {
    CompareFields(Fields(a), Fields(b))
  }

  lemma RowOrder()
    ensures TotalOrder(CompareRows)
  {
    FieldsOrder();
    KeyPreorder(CompareFields, Fields, CompareRows);
    forall a, b | CompareRows(a, b) == Equal ensures a == b {
      FieldsDetermineRow(a, b);
    }
  }

  lemma FieldsDetermineRow(a: Entry, b: Entry)
    requires Fields(a) == Fields(b)
    ensures a == b
  {
    var f, g := Fields(a), Fields(b);
    assert f[0] == g[0] && f[1] == g[1] && f[2] == g[2] && f[3] == g[3] && f[4] == g[4];
  }

  predicate IsStable(labels: set<string>, e: Entry) {
    e.stability in labels
  }

  function StableSubset(labels: set<string>, rows: seq<Entry>): seq<Entry> {
    Filter(e => IsStable(labels, e), rows)
  }

  function StableRows(labels: set<string>, rows: seq<Entry>): seq<Entry> {
    Sort(CompareRows, StableSubset(labels, rows))
  }

  function PrintedRow(e: Entry): string {
    Join(Fields(e), "|")
  }

  function PrintedRows(rows: seq<Entry>): seq<string> {
    seq(|rows|, i requires 0 <= i < |rows| => PrintedRow(rows[i]))
  }

  function NormalizedStableInventory(labels: set<string>, rows: seq<Entry>): string {
    Join(PrintedRows(StableRows(labels, rows)), "\n") + "\n"
  }

  predicate AllClean(rows: seq<Entry>) {
    forall i :: 0 <= i < |rows| ==> CleanRow(rows[i])
  }

  lemma PrintedRowInjective(a: Entry, b: Entry)
    requires CleanRow(a) && CleanRow(b) && PrintedRow(a) == PrintedRow(b)
    ensures a == b
  {
    SplitJoin(Fields(a), '|');
    SplitJoin(Fields(b), '|');
    FieldsDetermineRow(a, b);
  }

  /** A printed row is its five cells in the order of the hashed contract. */
  lemma PrintedCells(e: Entry)
    requires CleanRow(e)
    ensures Split(PrintedRow(e), '|') == [e.entry, e.crateName, e.kind, e.stability, e.source]
  {
    SplitJoin(Fields(e), '|');
  }

  /** Rows go by entry, then crate, kind, stability and source. */
  ghost predicate RowBefore(a: Entry, b: Entry) {
    || Before(a.entry, b.entry)
    || (a.entry == b.entry && Before(a.crateName, b.crateName))
    || (a.entry == b.entry && a.crateName == b.crateName && RestBefore(a, b))
  }

  ghost predicate RestBefore(a: Entry, b: Entry) {
    || Before(a.kind, b.kind)
    || (a.kind == b.kind && Before(a.stability, b.stability))
    || (a.kind == b.kind && a.stability == b.stability && Before(a.source, b.source))
  }

  lemma RestOrder(a: Entry, b: Entry)
    ensures CompareFields(Fields(a)[2..], Fields(b)[2..]) == Less <==> RestBefore(a, b)
  {
    var p, q := Fields(a), Fields(b);
    FirstFieldDecides(a.source, b.source, [], []);
    FirstFieldDecides(a.stability, b.stability, p[4..], q[4..]);
    FirstFieldDecides(a.kind, b.kind, p[3..], q[3..]);
    assert p[4..] == [a.source] + [] && q[4..] == [b.source] + [];
    assert p[3..] == [a.stability] + p[4..] && q[3..] == [b.stability] + q[4..];
    assert p[2..] == [a.kind] + p[3..] && q[2..] == [b.kind] + q[3..];
  }

  lemma RowOrderIsByField(a: Entry, b: Entry)
    ensures CompareRows(a, b) == Less <==> RowBefore(a, b)
  {
    var p, q := Fields(a), Fields(b);
    RestOrder(a, b);
    FirstFieldDecides(a.crateName, b.crateName, p[2..], q[2..]);
    FirstFieldDecides(a.entry, b.entry, p[1..], q[1..]);
    assert p[1..] == [a.crateName] + p[2..] && q[1..] == [b.crateName] + q[2..];
    assert p == [a.entry] + p[1..] && q == [b.entry] + q[1..];
  }

  /** The rows of a list that have a stable label, as often as they occur, none after one that it belongs before. */
  ghost predicate StableInOrder(labels: set<string>, rows: seq<Entry>, stable: seq<Entry>) {
    && (forall e :: multiset(stable)[e] == if e.stability in labels then multiset(rows)[e] else 0)
    && forall i, j :: 0 <= i < j < |stable| ==> !RowBefore(stable[j], stable[i])
  }

  /** The hashed text is the printed stable rows in order, a newline between them and one after the last. */
  lemma NormalizedTextIsExact(labels: set<string>, rows: seq<Entry>) returns (stable: seq<Entry>)
    ensures StableInOrder(labels, rows, stable)
    ensures NormalizedStableInventory(labels, rows) == Join(PrintedRows(stable), "\n") + "\n"
  {
    stable := StableRows(labels, rows);
    RowOrder();
    SortSorts(CompareRows, StableSubset(labels, rows));
    SortPermutes(CompareRows, StableSubset(labels, rows));
    forall i, j | 0 <= i < j < |stable| ensures !RowBefore(stable[j], stable[i]) {
      RowOrderIsByField(stable[j], stable[i]);
      assert CompareRows(stable[i], stable[j]) != Greater;
      assert CompareRows(stable[j], stable[i]) == CompareRows(stable[i], stable[j]).Flip();
    }
    forall e ensures multiset(stable)[e] == if e.stability in labels then multiset(rows)[e] else 0 {
      StableOccurrences(labels, rows, e);
    }
  }

  lemma {:induction false} StableOccurrences(labels: set<string>, rows: seq<Entry>, e: Entry)
    ensures multiset(StableSubset(labels, rows))[e] == if e.stability in labels then multiset(rows)[e] else 0
  {
    if rows != [] {
      StableOccurrences(labels, rows[1..], e);
      assert rows == [rows[0]] + rows[1..];
    }
  }

  lemma PrintedRowIsOneLine(e: Entry)
    requires CleanRow(e)
    ensures '\n' !in PrintedRow(e) && PrintedRow(e) != []
  {
    JoinedHolds(Fields(e), "|", '\n');
    SplitJoin(Fields(e), '|');
  }

  lemma PrintedRowsInjective(a: seq<Entry>, b: seq<Entry>)
    requires AllClean(a) && AllClean(b)
    requires Join(PrintedRows(a), "\n") == Join(PrintedRows(b), "\n")
    ensures a == b
  {
    forall i | 0 <= i < |a| ensures '\n' !in PrintedRows(a)[i] && PrintedRows(a)[i] != [] {
      PrintedRowIsOneLine(a[i]);
    }
    forall i | 0 <= i < |b| ensures '\n' !in PrintedRows(b)[i] && PrintedRows(b)[i] != [] {
      PrintedRowIsOneLine(b[i]);
    }
    if a != [] {
      SplitJoin(PrintedRows(a), '\n');
    }
    if b != [] {
      SplitJoin(PrintedRows(b), '\n');
    }
    assert a == [] <==> Join(PrintedRows(a), "\n") == [] by { JoinOfNonempty(PrintedRows(a)); }
    assert b == [] <==> Join(PrintedRows(b), "\n") == [] by { JoinOfNonempty(PrintedRows(b)); }
    assert PrintedRows(a) == PrintedRows(b);
    forall i | 0 <= i < |a| ensures a[i] == b[i] {
      assert PrintedRows(a)[i] == PrintedRows(b)[i];
      PrintedRowInjective(a[i], b[i]);
    }
  }

  lemma JoinOfNonempty(lines: seq<string>)
    requires forall i :: 0 <= i < |lines| ==> lines[i] != []
    ensures Join(lines, "\n") == [] <==> lines == []
  {
  }

  lemma StableRowsAreClean(labels: set<string>, rows: seq<Entry>)
    requires AllClean(rows)
    ensures AllClean(StableRows(labels, rows))
  {
    var stable := StableRows(labels, rows);
    forall i | 0 <= i < |stable| ensures CleanRow(stable[i]) {
      SortMember(CompareRows, StableSubset(labels, rows), stable[i]);
      FilterMember(e => IsStable(labels, e), rows, stable[i]);
    }
  }

  /**
   For any two inventory files that can be read, the normalised text under one policy is the
   same exactly when the same stable rows occur the same number of times: row order and rows
   without a stable label never matter, and every change to a stable row shows.
   */
  lemma NormalizedIsCompleteInvariant(labels: set<string>, first: string, second: string)
    requires Parse(Rail, first).Ok? && Parse(Rail, second).Ok?
    ensures
      var a, b := Parse(Rail, first).rows, Parse(Rail, second).rows;
      NormalizedStableInventory(labels, a) == NormalizedStableInventory(labels, b)
      <==> multiset(StableSubset(labels, a)) == multiset(StableSubset(labels, b))
  {
    var a, b := Parse(Rail, first).rows, Parse(Rail, second).rows;
    ParsedRowsAreClean(Rail, first);
    ParsedRowsAreClean(Rail, second);
    StableRowsAreClean(labels, a);
    StableRowsAreClean(labels, b);
    RowOrder();
    if multiset(StableSubset(labels, a)) == multiset(StableSubset(labels, b)) {
      SortOfPermutation(CompareRows, StableSubset(labels, a), StableSubset(labels, b));
    }
    var x, y := Join(PrintedRows(StableRows(labels, a)), "\n"), Join(PrintedRows(StableRows(labels, b)), "\n");
    if x + "\n" == y + "\n" {
      assert x == (x + "\n")[..|x + "\n"| - 1] && y == (y + "\n")[..|y + "\n"| - 1];
      PrintedRowsInjective(StableRows(labels, a), StableRows(labels, b));
      SortPermutes(CompareRows, StableSubset(labels, a));
      SortPermutes(CompareRows, StableSubset(labels, b));
    }
  }
}
