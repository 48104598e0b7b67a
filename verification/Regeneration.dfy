/**
 Regenerating the SDK inventory from a scan of the public items: old rows are kept for
 items that are still there, new items get a derived stability, example rows are carried
 over, and the result is stably sorted under a comparator that leaves many ties.
 */
module Regeneration {
  import opened Text
  import opened Order
  import opened Paths
  import opened InventoryTable

  datatype PublicItem = PublicItem(entry: string, kind: string, crateName: string, source: string)

  /** Two paths with the same components give the same reference. */
  datatype ItemRef = ItemRef(entry: string, kind: string, path: seq<Component>)

  const EXAMPLE_KIND := "example"
  const FIELD_KIND := "field"
  const METHOD_KIND := "method"
  const REEXPORT_KIND := "reexport"
  const DEFAULT_STABILITY := "experimental"

  const CRATE_ORDER := ["clankers-engine", "example", "clankers-adapters", "clankers-engine-host", "clankers-tool-host", "clanker-message"]
  const KIND_ORDER := ["constant", "module", REEXPORT_KIND, "type", "struct", "enum", "trait", "function", FIELD_KIND, METHOD_KIND, EXAMPLE_KIND]
  const OWNER_KINDS := ["constant", "enum", "function", "module", "struct", "trait", "type"]

  function RefOfItem(item: PublicItem): ItemRef {
    ItemRef(item.entry, item.kind, Components(item.source))
  }

  function RefOfEntry(e: Entry): ItemRef {
    ItemRef(e.entry, e.kind, Components(e.source))
  }

  /** An old row and an item have one reference exactly when they name one thing of one kind in one file. */
  lemma SameReference(e: Entry, item: PublicItem)
    ensures RefOfEntry(e) == RefOfItem(item) <==>
      e.entry == item.entry && e.kind == item.kind && !PathBefore(e.source, item.source) && !PathBefore(item.source, e.source)
  {
    PathOrder();
    ComparePathIsLexicographic(e.source, item.source);
    assert ComparePath(e.source, item.source) == Equal <==> Components(e.source) == Components(item.source);
  }

  predicate IsExample(e: Entry) {
    e.kind == EXAMPLE_KIND
  }

  // ------------------------------------------------------------------ the comparator

  /** The position of `x` in `order`, or its length when `x` is not listed. */
  function Rank(order: seq<string>, x: string): (k: nat)
    ensures k <= |order|
    ensures k < |order| ==> order[k] == x
    ensures x !in order[..k]
  {
    if order == [] || order[0] == x then 0 else 1 + Rank(order[1..], x)
  }

  function CompareCrates(a: Entry, b: Entry): Ordering {
    CompareInt(Rank(CRATE_ORDER, a.crateName), Rank(CRATE_ORDER, b.crateName))
  }

  function CompareSources(a: Entry, b: Entry): Ordering {
    ComparePath(a.source, b.source)
  }

  function CompareKinds(a: Entry, b: Entry): Ordering {
    CompareInt(Rank(KIND_ORDER, a.kind), Rank(KIND_ORDER, b.kind))
  }

  function CompareNames(a: Entry, b: Entry): Ordering {
    CompareStr(a.entry, b.entry)
  }

  function CompareKindsThenNames(a: Entry, b: Entry): Ordering {
    CompareKinds(a, b).Then(CompareNames(a, b))
  }

  function CompareSourcesAndBelow(a: Entry, b: Entry): Ordering {
    CompareSources(a, b).Then(CompareKindsThenNames(a, b))
  }

  function CompareEntries(a: Entry, b: Entry): Ordering {
    CompareCrates(a, b).Then(CompareSourcesAndBelow(a, b))
  }

  lemma EntryOrder()
    ensures Preorder(CompareEntries)
  {
    assert Preorder(CompareInt);
    StrOrder();
    PathOrder();
    KeyPreorder(CompareStr, (e: Entry) => e.entry, CompareNames);
    KeyPreorder(ComparePath, (e: Entry) => e.source, CompareSources);
    KeyPreorder(CompareInt, (e: Entry) => Rank(KIND_ORDER, e.kind) as int, CompareKinds);
    KeyPreorder(CompareInt, (e: Entry) => Rank(CRATE_ORDER, e.crateName) as int, CompareCrates);
    ThenPreorder(CompareKinds, CompareNames, CompareKindsThenNames);
    ThenPreorder(CompareSources, CompareKindsThenNames, CompareSourcesAndBelow);
    ThenPreorder(CompareCrates, CompareSourcesAndBelow, CompareEntries);
  }

  // ------------------------------------------------------------------ the indexes

  /** The existing rows by reference; of several rows with one reference the last is kept. */
  function IndexByRef(existing: seq<Entry>): map<ItemRef, Entry> {
    if existing == [] then map[]
    else
      var n := |existing| - 1;
      IndexByRef(existing[..n])[RefOfEntry(existing[n]) := existing[n]]
  }

  predicate HasRef(existing: seq<Entry>, r: ItemRef) {
    exists k :: 0 <= k < |existing| && RefOfEntry(existing[k]) == r
  }

  lemma {:induction false} IndexedExactly(existing: seq<Entry>, r: ItemRef)
    ensures r in IndexByRef(existing) <==> HasRef(existing, r)
    ensures r in IndexByRef(existing) ==>
      IndexByRef(existing)[r] in existing && RefOfEntry(IndexByRef(existing)[r]) == r
  {
    if existing != [] {
      var n := |existing| - 1;
      var last := existing[n];
      IndexedExactly(existing[..n], r);
      assert existing == existing[..n] + [last];
      if HasRef(existing[..n], r) {
        var k :| 0 <= k < n && RefOfEntry(existing[..n][k]) == r;
        assert RefOfEntry(existing[k]) == r;
      }
    }
  }

  lemma {:induction false} IndexKeepsLast(existing: seq<Entry>, i: nat)
    requires i < |existing|
    requires forall j :: i < j < |existing| ==> RefOfEntry(existing[j]) != RefOfEntry(existing[i])
    ensures RefOfEntry(existing[i]) in IndexByRef(existing)
    ensures IndexByRef(existing)[RefOfEntry(existing[i])] == existing[i]
  {
    if i < |existing| - 1 {
      IndexKeepsLast(existing[..|existing| - 1], i);
    }
  }

  predicate OwnsKey(e: Entry, key: (string, string)) {
    e.kind in OWNER_KINDS && (e.crateName, e.entry) == key
  }

  predicate IsFirstOwner(existing: seq<Entry>, i: nat, key: (string, string))
    requires i < |existing|
  {
    OwnsKey(existing[i], key) && forall j :: 0 <= j < i ==> !OwnsKey(existing[j], key)
  }

  /** The stability of each declared item; of several declarations the first is kept. */
  function OwnerStability(existing: seq<Entry>): (index: map<(string, string), string>) {
    if existing == [] then map[]
    else
      var e := existing[|existing| - 1];
      var before := OwnerStability(existing[..|existing| - 1]);
      var key := (e.crateName, e.entry);
      if e.kind in OWNER_KINDS && key !in before then before[key := e.stability] else before
  }

  lemma {:induction false} OwnerStabilityIsFirst(existing: seq<Entry>, key: (string, string))
    ensures key in OwnerStability(existing) <==> exists i :: 0 <= i < |existing| && OwnsKey(existing[i], key)
    ensures forall i :: 0 <= i < |existing| && IsFirstOwner(existing, i, key) ==>
      OwnerStability(existing)[key] == existing[i].stability
  {
    if existing != [] {
      var n := |existing| - 1;
      OwnerStabilityIsFirst(existing[..n], key);
      assert existing == existing[..n] + [existing[n]];
    }
  }

  lemma {:induction false} OwnerStabilityIsCopied(existing: seq<Entry>, key: (string, string)) returns (i: nat)
    requires key in OwnerStability(existing)
    ensures i < |existing| && OwnerStability(existing)[key] == existing[i].stability
  {
    var n := |existing| - 1;
    if key in OwnerStability(existing[..n]) {
      i := OwnerStabilityIsCopied(existing[..n], key);
    } else {
      i := n;
    }
  }

  method OwnerStabilityIndex(existing: seq<Entry>) returns (index: map<(string, string), string>)
    ensures index == OwnerStability(existing)
  {
    index := map[];
    for i := 0 to |existing|
      invariant index == OwnerStability(existing[..i])
    {
      assert existing[..i + 1][..i] == existing[..i];
      var e := existing[i];
      if e.kind in OWNER_KINDS {
        if (e.crateName, e.entry) !in index {
          index := index[(e.crateName, e.entry) := e.stability];
        }
      }
    }
    assert existing[..|existing|] == existing;
  }

  /** The text before the first `::`. */
  function BeforePathSeparator(s: string): string {
    if s == [] || "::" <= s then [] else [s[0]] + BeforePathSeparator(s[1..])
  }

  /** The owner of a name ends where the first `::` stands, or is the whole name if there is none. */
  lemma {:induction false} OwnerIsExact(s: string)
    ensures
      var owner := BeforePathSeparator(s);
      && owner <= s && (owner == s || StandsAt(s, "::", |owner|))
      && forall i :: 0 <= i < |owner| ==> !StandsAt(s, "::", i)
  {
    assert "::" <= s <==> StandsAt(s, "::", 0);
    if s != [] && !("::" <= s) {
      OwnerIsExact(s[1..]);
      var owner := BeforePathSeparator(s);
      forall i: nat ensures StandsAt(s[1..], "::", i) <==> StandsAt(s, "::", i + 1) {
        StandsInRest(s, "::", i);
      }
      forall i | 0 <= i < |owner| ensures !StandsAt(s, "::", i) {
        assert i > 0 ==> !StandsAt(s[1..], "::", i - 1);
      }
    }
  }

  function DerivedStability(item: PublicItem, owners: map<(string, string), string>): string {
    var owner := (item.crateName, BeforePathSeparator(item.entry));
    if (item.kind == FIELD_KIND || item.kind == METHOD_KIND) && owner in owners then owners[owner]
    else if item.kind == REEXPORT_KIND && (item.crateName, item.entry) in owners then owners[(item.crateName, item.entry)]
    else DEFAULT_STABILITY
  }

  // ------------------------------------------------------------------ generation

  function GeneratedRow(existing: seq<Entry>, item: PublicItem): (row: Entry)
    ensures RefOfEntry(row) == RefOfItem(item)
  {
    var index := IndexByRef(existing);
    IndexedExactly(existing, RefOfItem(item));
    if RefOfItem(item) in index then index[RefOfItem(item)]
    else Entry(item.entry, item.crateName, item.kind, DerivedStability(item, OwnerStability(existing)), item.source)
  }

  function ScannedRows(existing: seq<Entry>, scanned: seq<PublicItem>): seq<Entry> {
    seq(|scanned|, i requires 0 <= i < |scanned| => GeneratedRow(existing, scanned[i]))
  }

  function Examples(existing: seq<Entry>): seq<Entry> {
    Filter(IsExample, existing)
  }

  function Generate(existing: seq<Entry>, scanned: seq<PublicItem>): seq<Entry> {
    Sort(CompareEntries, ScannedRows(existing, scanned) + Examples(existing))
  }

  /** The row of an item is the last old row with its reference, or a new row that names the item itself. */
  lemma RowIsKeptOrNew(existing: seq<Entry>, item: PublicItem)
    ensures HasRef(existing, RefOfItem(item)) ==>
      exists k :: 0 <= k < |existing| && IsLastWithRef(existing, k, RefOfItem(item)) && GeneratedRow(existing, item) == existing[k]
    ensures !HasRef(existing, RefOfItem(item)) ==>
      var row := GeneratedRow(existing, item);
      row.entry == item.entry && row.kind == item.kind && row.crateName == item.crateName && row.source == item.source
  {
    IndexedExactly(existing, RefOfItem(item));
    if HasRef(existing, RefOfItem(item)) {
      var some :| 0 <= some < |existing| && RefOfEntry(existing[some]) == RefOfItem(item);
      var k := LastWhere((e: Entry) => RefOfEntry(e) == RefOfItem(item), existing, some);
      IndexKeepsLast(existing, k);
    }
  }

  predicate IsLastWithRef(existing: seq<Entry>, k: nat, r: ItemRef)
    requires k < |existing|
  {
    RefOfEntry(existing[k]) == r && forall j :: k < j < |existing| ==> RefOfEntry(existing[j]) != r
  }

  // ------------------------------------------------------------------ what new rows look like

  lemma {:induction false} OwnerOfMember(owner: string, rest: string)
    requires ':' !in owner
    ensures BeforePathSeparator(owner + "::" + rest) == owner
  {
    var s := owner + "::" + rest;
    if owner == [] {
      assert s == "::" + rest;
      assert "::" <= s;
    } else {
      assert s[0] == owner[0] && owner[0] in owner;
      assert s[1..] == owner[1..] + "::" + rest;
      OwnerOfMember(owner[1..], rest);
      assert owner == [owner[0]] + owner[1..];
    }
  }

  /** A new field or method gets the stability of the first declaration of its owner in the same crate. */
  lemma NewMemberInherits(existing: seq<Entry>, item: PublicItem, owner: string, name: string, i: nat)
    requires !HasRef(existing, RefOfItem(item)) && (item.kind == FIELD_KIND || item.kind == METHOD_KIND)
    requires item.entry == owner + "::" + name && ':' !in owner
    requires i < |existing| && IsFirstOwner(existing, i, (item.crateName, owner))
    ensures GeneratedRow(existing, item).stability == existing[i].stability
  {
    IndexedExactly(existing, RefOfItem(item));
    OwnerOfMember(owner, name);
    OwnerStabilityIsFirst(existing, (item.crateName, owner));
  }

  /** A new re-export gets the stability of the first declaration of its own name in the same crate. */
  lemma NewReexportInherits(existing: seq<Entry>, item: PublicItem, i: nat)
    requires !HasRef(existing, RefOfItem(item)) && item.kind == REEXPORT_KIND
    requires i < |existing| && IsFirstOwner(existing, i, (item.crateName, item.entry))
    ensures GeneratedRow(existing, item).stability == existing[i].stability
  {
    IndexedExactly(existing, RefOfItem(item));
    OwnerStabilityIsFirst(existing, (item.crateName, item.entry));
  }

  /** Any other new item is experimental. */
  lemma NewItemIsExperimental(existing: seq<Entry>, item: PublicItem)
    requires !HasRef(existing, RefOfItem(item))
    requires item.kind == FIELD_KIND || item.kind == METHOD_KIND ==>
      forall e :: e in existing ==> !OwnsKey(e, (item.crateName, BeforePathSeparator(item.entry)))
    requires item.kind == REEXPORT_KIND ==> forall e :: e in existing ==> !OwnsKey(e, (item.crateName, item.entry))
    ensures GeneratedRow(existing, item) == Entry(item.entry, item.crateName, item.kind, DEFAULT_STABILITY, item.source)
  {
    IndexedExactly(existing, RefOfItem(item));
    OwnerStabilityIsFirst(existing, (item.crateName, BeforePathSeparator(item.entry)));
    OwnerStabilityIsFirst(existing, (item.crateName, item.entry));
  }

  /** Generated rows go by crate rank, then by path, then by kind rank, then by name. */
  lemma GeneratedIsOrdered(existing: seq<Entry>, scanned: seq<PublicItem>, i: nat, j: nat)
    requires i < j < |Generate(existing, scanned)|
    ensures
      var a, b := Generate(existing, scanned)[i], Generate(existing, scanned)[j];
      var ca, cb, ka, kb := Rank(CRATE_ORDER, a.crateName), Rank(CRATE_ORDER, b.crateName), Rank(KIND_ORDER, a.kind), Rank(KIND_ORDER, b.kind);
      && ca <= cb
      && (ca == cb ==> !PathBefore(b.source, a.source))
      && (ca == cb && Components(a.source) == Components(b.source) ==> ka <= kb)
      && (ca == cb && Components(a.source) == Components(b.source) && ka == kb ==> !Before(b.entry, a.entry))
  {
    EntryOrder();
    PathOrder();
    SortSorts(CompareEntries, ScannedRows(existing, scanned) + Examples(existing));
    var a, b := Generate(existing, scanned)[i], Generate(existing, scanned)[j];
    assert CompareEntries(a, b) != Greater;
    assert ComparePath(a.source, b.source) == Equal <==> Components(a.source) == Components(b.source);
    ComparePathIsLexicographic(a.source, b.source);
    CompareStrIsLexicographic(a.entry, b.entry);
  }

  predicate NoScannedExample(scanned: seq<PublicItem>) {
    forall i :: 0 <= i < |scanned| ==> scanned[i].kind != EXAMPLE_KIND
  }

  /** Items that are new to the inventory and share a reference are the same item. */
  predicate ConsistentScan(existing: seq<Entry>, scanned: seq<PublicItem>) {
    forall i, j :: (0 <= i < j < |scanned| && RefOfItem(scanned[i]) == RefOfItem(scanned[j])
                    && !HasRef(existing, RefOfItem(scanned[i]))) ==> scanned[i] == scanned[j]
  }

  lemma RowIsGenerated(existing: seq<Entry>, scanned: seq<PublicItem>, e: Entry)
    ensures e in Generate(existing, scanned) <==>
      (exists i :: 0 <= i < |scanned| && e == GeneratedRow(existing, scanned[i])) || (e in existing && IsExample(e))
  {
    var rows := ScannedRows(existing, scanned);
    SortMember(CompareEntries, rows + Examples(existing), e);
    FilterMember(IsExample, existing, e);
    forall i | 0 <= i < |scanned| ensures rows[i] == GeneratedRow(existing, scanned[i]) {}
    assert e in rows <==> exists i :: 0 <= i < |scanned| && e == GeneratedRow(existing, scanned[i]);
  }

  /** Regenerating keeps the row of every item, given the two conditions. */
  lemma RowIsKept(existing: seq<Entry>, scanned: seq<PublicItem>, i: nat)
    requires i < |scanned| && NoScannedExample(scanned) && ConsistentScan(existing, scanned)
    ensures GeneratedRow(Generate(existing, scanned), scanned[i]) == GeneratedRow(existing, scanned[i])
  {
    var once := Generate(existing, scanned);
    var row := GeneratedRow(existing, scanned[i]);
    RowIsGenerated(existing, scanned, row);
    var k :| 0 <= k < |once| && once[k] == row;
    IndexedExactly(once, RefOfItem(scanned[i]));
    var found := IndexByRef(once)[RefOfItem(scanned[i])];
    RowIsGenerated(existing, scanned, found);
    assert found.kind == scanned[i].kind;
    var j :| 0 <= j < |scanned| && found == GeneratedRow(existing, scanned[j]);
    SameRefSameRow(existing, scanned, i, j);
  }

  lemma SameRefSameRow(existing: seq<Entry>, scanned: seq<PublicItem>, i: nat, j: nat)
    requires i < |scanned| && j < |scanned| && RefOfItem(scanned[i]) == RefOfItem(scanned[j])
    requires ConsistentScan(existing, scanned)
    ensures GeneratedRow(existing, scanned[i]) == GeneratedRow(existing, scanned[j])
  {
    IndexedExactly(existing, RefOfItem(scanned[i]));
  }

  /** The second run carries over the sorted example rows of the first. */
  lemma ExamplesOfGenerated(existing: seq<Entry>, scanned: seq<PublicItem>)
    ensures Examples(Generate(existing, scanned))
      == Sort(CompareEntries, Filter(IsExample, ScannedRows(existing, scanned)) + Examples(existing))
  {
    EntryOrder();
    var rows := ScannedRows(existing, scanned);
    FilterSort(CompareEntries, IsExample, rows + Examples(existing));
    FilterAppend(IsExample, rows, Examples(existing));
    forall e | e in Examples(existing) ensures IsExample(e) {
      FilterMember(IsExample, existing, e);
    }
    FilterAll(IsExample, Examples(existing));
  }

  lemma FixpointSuffices(existing: seq<Entry>, scanned: seq<PublicItem>)
    requires NoScannedExample(scanned) && ConsistentScan(existing, scanned)
    ensures Generate(Generate(existing, scanned), scanned) == Generate(existing, scanned)
  {
    var once := Generate(existing, scanned);
    var rows := ScannedRows(existing, scanned);
    forall i | 0 <= i < |scanned| ensures ScannedRows(once, scanned)[i] == rows[i] {
      RowIsKept(existing, scanned, i);
    }
    assert ScannedRows(once, scanned) == rows;
    forall e | e in rows ensures !IsExample(e) {
      var i :| 0 <= i < |rows| && rows[i] == e;
      assert RefOfEntry(e) == RefOfItem(scanned[i]);
    }
    FilterNone(IsExample, rows);
    ExamplesOfGenerated(existing, scanned);
    assert [] + Examples(existing) == Examples(existing);
    EntryOrder();
    SortAppend(CompareEntries, rows, Examples(existing));
  }

  lemma ScannedExampleGrows(existing: seq<Entry>, scanned: seq<PublicItem>, i: nat)
    requires i < |scanned| && scanned[i].kind == EXAMPLE_KIND
    ensures |Generate(Generate(existing, scanned), scanned)| > |Generate(existing, scanned)|
  {
    var once := Generate(existing, scanned);
    var rows := ScannedRows(existing, scanned);
    SortPermutes(CompareEntries, rows + Examples(existing));
    SortPermutes(CompareEntries, ScannedRows(once, scanned) + Examples(once));
    ExamplesOfGenerated(existing, scanned);
    SortPermutes(CompareEntries, Filter(IsExample, rows) + Examples(existing));
    assert RefOfEntry(rows[i]) == RefOfItem(scanned[i]);
    FilterMember(IsExample, rows, rows[i]);
  }

  lemma FixpointIsConsistent(existing: seq<Entry>, scanned: seq<PublicItem>, i: nat, j: nat)
    requires NoScannedExample(scanned)
    requires Generate(Generate(existing, scanned), scanned) == Generate(existing, scanned)
    requires i < |scanned| && j < |scanned| && RefOfItem(scanned[i]) == RefOfItem(scanned[j])
    ensures GeneratedRow(existing, scanned[i]) == GeneratedRow(existing, scanned[j])
  {
    FixpointKeepsRow(existing, scanned, i);
    FixpointKeepsRow(existing, scanned, j);
  }

  lemma FixpointKeepsRow(existing: seq<Entry>, scanned: seq<PublicItem>, i: nat)
    requires NoScannedExample(scanned)
    requires Generate(Generate(existing, scanned), scanned) == Generate(existing, scanned)
    requires i < |scanned|
    ensures RefOfItem(scanned[i]) in IndexByRef(Generate(existing, scanned))
    ensures GeneratedRow(existing, scanned[i]) == IndexByRef(Generate(existing, scanned))[RefOfItem(scanned[i])]
  {
    var once := Generate(existing, scanned);
    var row := GeneratedRow(existing, scanned[i]);
    RowIsGenerated(existing, scanned, row);
    var k :| 0 <= k < |once| && once[k] == row;
    IndexedExactly(once, RefOfItem(scanned[i]));
    RowIsGenerated(once, scanned, row);
    assert row.kind == scanned[i].kind;
    var m :| 0 <= m < |scanned| && row == GeneratedRow(once, scanned[m]);
    assert RefOfItem(scanned[m]) == RefOfItem(scanned[i]);
  }

  /**
   Regenerating twice is the same as regenerating once exactly when no scanned item has the
   kind of an example and the new items of one reference are one item.
   */
  lemma RegenerationFixpoint(existing: seq<Entry>, scanned: seq<PublicItem>)
    ensures Generate(Generate(existing, scanned), scanned) == Generate(existing, scanned)
      <==> NoScannedExample(scanned) && ConsistentScan(existing, scanned)
  {
    if NoScannedExample(scanned) && ConsistentScan(existing, scanned) {
      FixpointSuffices(existing, scanned);
    } else if !NoScannedExample(scanned) {
      var i :| 0 <= i < |scanned| && scanned[i].kind == EXAMPLE_KIND;
      ScannedExampleGrows(existing, scanned, i);
    } else {
      var i, j :| 0 <= i < j < |scanned| && RefOfItem(scanned[i]) == RefOfItem(scanned[j])
        && !HasRef(existing, RefOfItem(scanned[i])) && scanned[i] != scanned[j];
      IndexedExactly(existing, RefOfItem(scanned[i]));
      if Generate(Generate(existing, scanned), scanned) == Generate(existing, scanned) {
        FixpointIsConsistent(existing, scanned, i, j);
      }
    }
  }
}
