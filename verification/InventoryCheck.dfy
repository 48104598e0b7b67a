/**
 Checking the SDK inventory against the scan: which findings the checker reports, when rows
 count as duplicates, and when a regenerated inventory passes.
 */
module InventoryCheck {
  import opened Text
  import opened Order
  import opened InventoryTable
  import opened Regeneration

  datatype Finding =
    | MissingGuideLink
    | DuplicateRow(row: nat)
    | InvalidStability(row: nat)
    | MissingSource(row: nat)
    | NotScanned(row: nat)
    | WrongCrate(row: nat)
    | NotInventoried(item: nat)

  const GUIDE_LINK := "../generated/embedded-sdk-api.md"
  const VALID_STABILITIES := ["supported", "optional-support", "compatibility-alias", "experimental", "unsupported-internal"]

  function RowKey(e: Entry): string {
    e.entry + "|" + e.kind + "|" + e.crateName + "|" + e.source
  }

  /** The scanned crate of each reference; of several items the last is kept. */
  function CrateByRef(scanned: seq<PublicItem>): map<ItemRef, string> {
    if scanned == [] then map[]
    else
      var n := |scanned| - 1;
      CrateByRef(scanned[..n])[RefOfItem(scanned[n]) := scanned[n].crateName]
  }

  predicate IsScanned(scanned: seq<PublicItem>, r: ItemRef) {
    exists k :: 0 <= k < |scanned| && RefOfItem(scanned[k]) == r
  }

  predicate IsLastOf(scanned: seq<PublicItem>, k: nat, r: ItemRef)
    requires k < |scanned|
  {
    RefOfItem(scanned[k]) == r && forall j :: k < j < |scanned| ==> RefOfItem(scanned[j]) != r
  }

  /** A reference is scanned exactly when some item has it, and the last such item gives its crate. */
  lemma CrateIsOfLast(scanned: seq<PublicItem>, r: ItemRef)
    ensures r in CrateByRef(scanned) <==> IsScanned(scanned, r)
    ensures forall k :: 0 <= k < |scanned| && IsLastOf(scanned, k, r) ==> CrateByRef(scanned)[r] == scanned[k].crateName
  {
    ScannedExactly(scanned, r);
    forall k | 0 <= k < |scanned| && IsLastOf(scanned, k, r) ensures CrateByRef(scanned)[r] == scanned[k].crateName {
      CrateKept(scanned, k);
    }
  }

  lemma {:induction false} ScannedExactly(scanned: seq<PublicItem>, r: ItemRef)
    ensures r in CrateByRef(scanned) <==> IsScanned(scanned, r)
  {
    if scanned != [] {
      var n := |scanned| - 1;
      ScannedExactly(scanned[..n], r);
      ScannedSnoc(scanned[..n], scanned[n], r);
      assert scanned == scanned[..n] + [scanned[n]];
    }
  }

  lemma ScannedSnoc(scanned: seq<PublicItem>, item: PublicItem, r: ItemRef)
    ensures IsScanned(scanned + [item], r) <==> IsScanned(scanned, r) || RefOfItem(item) == r
  {
    var all := scanned + [item];
    if IsScanned(scanned, r) {
      var k :| 0 <= k < |scanned| && RefOfItem(scanned[k]) == r;
      assert all[k] == scanned[k];
    }
    if RefOfItem(item) == r {
      assert all[|scanned|] == item;
    }
  }

  lemma {:induction false} CrateKept(scanned: seq<PublicItem>, k: nat)
    requires k < |scanned| && IsLastOf(scanned, k, RefOfItem(scanned[k]))
    ensures RefOfItem(scanned[k]) in CrateByRef(scanned) && CrateByRef(scanned)[RefOfItem(scanned[k])] == scanned[k].crateName
  {
    var n := |scanned| - 1;
    if k < n {
      CrateKept(scanned[..n], k);
    }
  }

  predicate IsDuplicate(entries: seq<Entry>, i: nat)
    requires i < |entries|
  {
    exists j :: 0 <= j < i && RowKey(entries[j]) == RowKey(entries[i])
  }

  /** What each finding says about the inventory. */
  predicate Holds(f: Finding, entries: seq<Entry>, scanned: seq<PublicItem>, guide: string, sourceExists: string -> bool) {
    match f
    case MissingGuideLink => !Contains(guide, GUIDE_LINK)
    case DuplicateRow(i) => i < |entries| && IsDuplicate(entries, i)
    case InvalidStability(i) => i < |entries| && entries[i].stability !in VALID_STABILITIES
    case MissingSource(i) => i < |entries| && !sourceExists(entries[i].source)
    case NotScanned(i) =>
      && i < |entries| && sourceExists(entries[i].source) && !IsExample(entries[i])
      && RefOfEntry(entries[i]) !in CrateByRef(scanned)
    case WrongCrate(i) =>
      && i < |entries| && sourceExists(entries[i].source) && !IsExample(entries[i])
      && RefOfEntry(entries[i]) in CrateByRef(scanned)
      && CrateByRef(scanned)[RefOfEntry(entries[i])] != entries[i].crateName
    case NotInventoried(k) => k < |scanned| && !HasRef(entries, RefOfItem(scanned[k]))
  }

  /** Findings about the first `i` rows, or about the guide. */
  predicate AboutRowsBefore(f: Finding, i: nat) {
    match f
    case MissingGuideLink => true
    case NotInventoried(_) => false
    case _ => f.row < i
  }

  predicate AboutRow(f: Finding, i: nat) {
    !f.MissingGuideLink? && !f.NotInventoried? && f.row == i
  }

  method ValidateRow(entries: seq<Entry>, i: nat, scanned: seq<PublicItem>, crates: map<ItemRef, string>,
                     isNew: bool, guide: string, sourceExists: string -> bool) returns (findings: seq<Finding>)
    requires i < |entries| && crates == CrateByRef(scanned) && isNew == !IsDuplicate(entries, i)
    ensures forall f :: f in findings <==> AboutRow(f, i) && Holds(f, entries, scanned, guide, sourceExists)
  {
    findings := [];
    var entry := entries[i];
    if !isNew {
      findings := findings + [DuplicateRow(i)];
    }
    if entry.stability !in VALID_STABILITIES {
      findings := findings + [InvalidStability(i)];
    }
    if !sourceExists(entry.source) {
      findings := findings + [MissingSource(i)];
      return;
    }
    if entry.kind == EXAMPLE_KIND {
      return;
    }
    var reference := RefOfEntry(entry);
    if reference !in crates {
      findings := findings + [NotScanned(i)];
      return;
    }
    if crates[reference] != entry.crateName {
      findings := findings + [WrongCrate(i)];
    }
  }

  method ValidateRows(entries: seq<Entry>, scanned: seq<PublicItem>, guide: string, sourceExists: string -> bool)
    returns (findings: seq<Finding>)
    ensures forall f :: f in findings <==>
      AboutRowsBefore(f, |entries|) && !f.MissingGuideLink? && Holds(f, entries, scanned, guide, sourceExists)
  {
    findings := [];
    var crates := CrateByRef(scanned);
    var seen: set<string> := {};
    for i := 0 to |entries|
      invariant seen == set j | 0 <= j < i :: RowKey(entries[j])
      invariant forall f :: f in findings <==>
        AboutRowsBefore(f, i) && !f.MissingGuideLink? && Holds(f, entries, scanned, guide, sourceExists)
    {
      var key := RowKey(entries[i]);
      assert key !in seen <==> !IsDuplicate(entries, i);
      var found := ValidateRow(entries, i, scanned, crates, key !in seen, guide, sourceExists);
      seen := seen + {key};
      forall f ensures f in findings + found <==>
          AboutRowsBefore(f, i + 1) && !f.MissingGuideLink? && Holds(f, entries, scanned, guide, sourceExists)
      {
        assert AboutRowsBefore(f, i + 1) && !f.MissingGuideLink? <==>
          (AboutRowsBefore(f, i) && !f.MissingGuideLink?) || AboutRow(f, i);
      }
      findings := findings + found;
    }
  }

  /** The report holds exactly the findings that are true of the inventory. */
  method ValidateInventory(entries: seq<Entry>, scanned: seq<PublicItem>, guide: string, sourceExists: string -> bool)
    returns (findings: seq<Finding>)
    ensures forall f :: f in findings <==> Holds(f, entries, scanned, guide, sourceExists)
  {
    findings := if Contains(guide, GUIDE_LINK) then [] else [MissingGuideLink];
    var rows := ValidateRows(entries, scanned, guide, sourceExists);
    findings := findings + rows;
    for k := 0 to |scanned|
      invariant forall f :: f in findings <==>
        Holds(f, entries, scanned, guide, sourceExists) && (f.NotInventoried? ==> f.item < k)
    {
      if !HasRef(entries, RefOfItem(scanned[k])) {
        findings := findings + [NotInventoried(k)];
      }
    }
  }

  // ------------------------------------------------------------------ regeneration passes the check

  predicate BarFree(e: Entry) {
    '|' !in e.entry && '|' !in e.kind && '|' !in e.crateName && '|' !in e.source
  }

  predicate BarFreeItem(item: PublicItem) {
    '|' !in item.entry && '|' !in item.kind && '|' !in item.crateName && '|' !in item.source
  }

  function Identity(e: Entry): seq<string> {
    [e.entry, e.kind, e.crateName, e.source]
  }

  lemma RowKeyIsJoin(e: Entry)
    ensures RowKey(e) == Join(Identity(e), "|")
  {
    var p := Identity(e);
    assert Join(p[3..], "|") == p[3];
    assert Join(p[2..], "|") == p[2] + "|" + p[3] by { assert p[2..][1..] == p[3..]; }
    assert Join(p[1..], "|") == p[1] + "|" + (p[2] + "|" + p[3]) by { assert p[1..][1..] == p[2..]; }
  }

  lemma BarFreeIsFree(e: Entry)
    ensures BarFree(e) <==> Free(Identity(e), '|')
  {
    var p := Identity(e);
    if Free(p, '|') {
      assert '|' !in p[0] && '|' !in p[1] && '|' !in p[2] && '|' !in p[3];
    }
  }

  /** The key of a bar-free row is the key of no row with another identity. */
  lemma RowKeyInjective(a: Entry, b: Entry)
    requires BarFree(a)
    ensures RowKey(a) == RowKey(b) <==> Identity(a) == Identity(b)
  {
    RowKeyIsJoin(a);
    RowKeyIsJoin(b);
    BarFreeIsFree(a);
    if RowKey(a) == RowKey(b) {
      JoinDetermines(Identity(a), Identity(b), '|');
    }
  }

  lemma RowWithIdentity(p: seq<string>) returns (e: Entry)
    requires |p| == 4
    ensures Identity(e) == p && RowKey(e) == Join(p, "|")
  {
    e := Entry(p[0], p[2], p[1], "", p[3]);
    assert Identity(e) == p;
    RowKeyIsJoin(e);
  }

  /** The key identifies a row exactly when no identifying field of the row holds a bar. */
  lemma RowKeyIsExact(a: Entry)
    ensures (forall b :: RowKey(b) == RowKey(a) ==> Identity(b) == Identity(a)) <==> BarFree(a)
  {
    BarFreeIsFree(a);
    RowKeyIsJoin(a);
    if BarFree(a) {
      forall b | RowKey(b) == RowKey(a) ensures Identity(b) == Identity(a) {
        RowKeyInjective(a, b);
      }
    } else {
      var i :| 0 <= i < 4 && '|' in Identity(a)[i];
      var p := ShiftedParts(Identity(a), '|', i);
      var b := RowWithIdentity(p);
    }
  }

  /** In every inventory that can be read, a row is a duplicate exactly when an earlier row has its identity. */
  lemma ParsedDuplicatesAreReal(reader: Reader, text: string, i: nat)
    requires Parse(reader, text).Ok? && i < |Parse(reader, text).rows|
    ensures
      var rows := Parse(reader, text).rows;
      IsDuplicate(rows, i) <==> exists j :: 0 <= j < i && Identity(rows[j]) == Identity(rows[i])
  {
    var rows := Parse(reader, text).rows;
    ParsedRowsAreClean(reader, text);
    assert CleanRow(rows[i]);
    forall j | 0 <= j < i ensures RowKey(rows[j]) == RowKey(rows[i]) <==> Identity(rows[j]) == Identity(rows[i]) {
      RowKeyInjective(rows[i], rows[j]);
    }
  }

  lemma IdentityGivesRef(a: Entry, b: Entry)
    ensures Identity(a) == Identity(b) ==> RefOfEntry(a) == RefOfEntry(b)
  {
    if Identity(a) == Identity(b) {
      assert Identity(a)[0] == Identity(b)[0] && Identity(a)[1] == Identity(b)[1] && Identity(a)[3] == Identity(b)[3];
    }
  }

  /** The rows hold one row for each scanned item and some example rows, in any order. */
  ghost predicate Assembled(rows: seq<Entry>, kept: seq<Entry>, examples: seq<Entry>, scanned: seq<PublicItem>) {
    && |kept| == |scanned| && multiset(rows) == multiset(kept + examples)
    && (forall i :: 0 <= i < |kept| ==> BarFree(kept[i]) && RefOfEntry(kept[i]) == RefOfItem(scanned[i]))
    && (forall i :: 0 <= i < |examples| ==> BarFree(examples[i]) && IsExample(examples[i]))
  }

  lemma AssembledMember(rows: seq<Entry>, kept: seq<Entry>, examples: seq<Entry>, scanned: seq<PublicItem>, e: Entry)
    requires Assembled(rows, kept, examples, scanned)
    ensures e in rows <==> e in kept || e in examples
  {
    assert e in rows <==> e in multiset(rows);
    assert e in kept + examples <==> e in multiset(kept + examples);
  }

  lemma KeptRowIsDistinct(kept: seq<Entry>, examples: seq<Entry>, scanned: seq<PublicItem>, i: nat, j: nat)
    requires DistinctBy(RefOfItem, scanned) && NoScannedExample(scanned) && Assembled(kept + examples, kept, examples, scanned)
    requires i < j < |kept + examples| && i < |kept|
    ensures Identity((kept + examples)[i]) != Identity((kept + examples)[j])
  {
    IdentityGivesRef((kept + examples)[i], (kept + examples)[j]);
    if j < |kept| {
      assert RefOfItem(scanned[i]) != RefOfItem(scanned[j]);
    } else {
      assert IsExample(examples[j - |kept|]) && RefOfEntry(kept[i]).kind == scanned[i].kind;
    }
  }

  lemma DistinctParts(kept: seq<Entry>, examples: seq<Entry>, scanned: seq<PublicItem>)
    requires DistinctBy(RefOfItem, scanned) && NoScannedExample(scanned) && Assembled(kept + examples, kept, examples, scanned)
    ensures DistinctBy(RowKey, kept + examples) <==> DistinctBy(Identity, examples)
  {
    var all, n := kept + examples, |kept|;
    forall i, j | 0 <= i < j < |all|
      ensures RowKey(all[i]) == RowKey(all[j]) <==> Identity(all[i]) == Identity(all[j])
      ensures i < n ==> Identity(all[i]) != Identity(all[j])
    {
      assert all[i] == if i < n then kept[i] else examples[i - n];
      RowKeyInjective(all[i], all[j]);
      if i < n {
        KeptRowIsDistinct(kept, examples, scanned, i, j);
      }
    }
    if DistinctBy(RowKey, all) {
      forall i, j | 0 <= i < j < |examples| ensures Identity(examples[i]) != Identity(examples[j]) {
        assert all[n + i] == examples[i] && all[n + j] == examples[j];
      }
    }
  }

  lemma DistinctRows(rows: seq<Entry>, kept: seq<Entry>, examples: seq<Entry>, scanned: seq<PublicItem>)
    requires DistinctBy(RefOfItem, scanned) && NoScannedExample(scanned) && Assembled(rows, kept, examples, scanned)
    ensures DistinctBy(RowKey, rows) <==> DistinctBy(Identity, examples)
  {
    DistinctParts(kept, examples, scanned);
    if DistinctBy(RowKey, kept + examples) {
      DistinctPermutation(RowKey, kept + examples, rows);
    }
    if DistinctBy(RowKey, rows) {
      DistinctPermutation(RowKey, rows, kept + examples);
    }
  }

  predicate Sound(e: Entry, sourceExists: string -> bool) {
    e.stability in VALID_STABILITIES && sourceExists(e.source)
  }

  /** The link is there, every row is sound, kept rows name the scanned crate, and example rows are distinct. */
  ghost predicate AcceptableParts(kept: seq<Entry>, examples: seq<Entry>,
                                  scanned: seq<PublicItem>, guide: string, sourceExists: string -> bool)
    requires |kept| == |scanned|
  {
    && Contains(guide, GUIDE_LINK)
    && (forall i :: 0 <= i < |kept| ==> Sound(kept[i], sourceExists) && kept[i].crateName == scanned[i].crateName)
    && (forall i :: 0 <= i < |examples| ==> Sound(examples[i], sourceExists))
    && DistinctBy(Identity, examples)
  }

  lemma KeptRowIsListed(rows: seq<Entry>, kept: seq<Entry>, examples: seq<Entry>,
                        scanned: seq<PublicItem>, i: nat) returns (k: nat)
    requires Assembled(rows, kept, examples, scanned) && i < |scanned|
    ensures k < |rows| && rows[k] == kept[i] && HasRef(rows, RefOfItem(scanned[i]))
  {
    AssembledMember(rows, kept, examples, scanned, kept[i]);
    k :| 0 <= k < |rows| && rows[k] == kept[i];
  }

  lemma AcceptableRowPasses(rows: seq<Entry>, kept: seq<Entry>, examples: seq<Entry>,
                            scanned: seq<PublicItem>, guide: string, sourceExists: string -> bool, f: Finding)
    requires DistinctBy(RefOfItem, scanned) && NoScannedExample(scanned) && Assembled(rows, kept, examples, scanned)
    requires AcceptableParts(kept, examples, scanned, guide, sourceExists)
    ensures !Holds(f, rows, scanned, guide, sourceExists)
  {
    match f
    case MissingGuideLink =>
    case DuplicateRow(k) => DistinctRows(rows, kept, examples, scanned);
    case NotInventoried(i) =>
      if i < |scanned| {
        var _ := KeptRowIsListed(rows, kept, examples, scanned, i);
      }
    case _ =>
      if f.row < |rows| {
        var e := rows[f.row];
        AssembledMember(rows, kept, examples, scanned, e);
        if !IsExample(e) {
          var i :| 0 <= i < |kept| && e == kept[i];
          CrateKept(scanned, i);
        }
      }
  }

  /** Rows put together from kept and example rows pass the checker exactly when the parts are acceptable. */
  lemma AssembledPasses(rows: seq<Entry>, kept: seq<Entry>, examples: seq<Entry>,
                        scanned: seq<PublicItem>, guide: string, sourceExists: string -> bool)
    requires DistinctBy(RefOfItem, scanned) && NoScannedExample(scanned) && Assembled(rows, kept, examples, scanned)
    ensures (forall f :: !Holds(f, rows, scanned, guide, sourceExists))
      <==> AcceptableParts(kept, examples, scanned, guide, sourceExists)
  {
    if AcceptableParts(kept, examples, scanned, guide, sourceExists) {
      forall f ensures !Holds(f, rows, scanned, guide, sourceExists) {
        AcceptableRowPasses(rows, kept, examples, scanned, guide, sourceExists, f);
      }
    }
    if forall f :: !Holds(f, rows, scanned, guide, sourceExists) {
      assert !Holds(MissingGuideLink, rows, scanned, guide, sourceExists);
      forall i | 0 <= i < |kept|
        ensures Sound(kept[i], sourceExists) && kept[i].crateName == scanned[i].crateName
      {
        PassingKeptRow(rows, kept, examples, scanned, guide, sourceExists, i);
      }
      forall i | 0 <= i < |examples| ensures Sound(examples[i], sourceExists) {
        AssembledMember(rows, kept, examples, scanned, examples[i]);
        var k :| 0 <= k < |rows| && rows[k] == examples[i];
        NoFindingAtRow(rows, scanned, guide, sourceExists, k);
      }
      NoDuplicateRow(rows, scanned, guide, sourceExists);
      DistinctRows(rows, kept, examples, scanned);
    }
  }

  lemma PassingKeptRow(rows: seq<Entry>, kept: seq<Entry>, examples: seq<Entry>,
                       scanned: seq<PublicItem>, guide: string, sourceExists: string -> bool, i: nat)
    requires DistinctBy(RefOfItem, scanned) && NoScannedExample(scanned) && Assembled(rows, kept, examples, scanned)
    requires i < |kept| && forall f :: !Holds(f, rows, scanned, guide, sourceExists)
    ensures Sound(kept[i], sourceExists) && kept[i].crateName == scanned[i].crateName
  {
    var k := KeptRowIsListed(rows, kept, examples, scanned, i);
    NoFindingAtRow(rows, scanned, guide, sourceExists, k);
    CrateKept(scanned, i);
  }

  lemma NoDuplicateRow(entries: seq<Entry>, scanned: seq<PublicItem>, guide: string, sourceExists: string -> bool)
    requires forall f :: !Holds(f, entries, scanned, guide, sourceExists)
    ensures DistinctBy(RowKey, entries)
  {
    forall i, j | 0 <= i < j < |entries| ensures RowKey(entries[i]) != RowKey(entries[j]) {
      assert !Holds(DuplicateRow(j), entries, scanned, guide, sourceExists);
    }
  }

  lemma NoFindingAtRow(entries: seq<Entry>, scanned: seq<PublicItem>, guide: string, sourceExists: string -> bool, k: nat)
    requires k < |entries| && forall f :: !Holds(f, entries, scanned, guide, sourceExists)
    ensures Sound(entries[k], sourceExists)
    ensures !IsExample(entries[k]) && RefOfEntry(entries[k]) in CrateByRef(scanned) ==>
      CrateByRef(scanned)[RefOfEntry(entries[k])] == entries[k].crateName
  {
    var e := entries[k];
    assert e.stability in VALID_STABILITIES by {
      assert !Holds(InvalidStability(k), entries, scanned, guide, sourceExists);
    }
    assert sourceExists(e.source) by {
      assert !Holds(MissingSource(k), entries, scanned, guide, sourceExists);
    }
    assert !Holds(WrongCrate(k), entries, scanned, guide, sourceExists);
  }

  predicate BarFreeInputs(existing: seq<Entry>, scanned: seq<PublicItem>) {
    (forall e :: e in existing ==> BarFree(e)) && forall i :: 0 <= i < |scanned| ==> BarFreeItem(scanned[i])
  }

  /** What the old rows and the scan must bring for the regenerated inventory to be accepted. */
  ghost predicate Acceptable(existing: seq<Entry>, scanned: seq<PublicItem>, guide: string, sourceExists: string -> bool) {
    AcceptableParts(ScannedRows(existing, scanned), Examples(existing), scanned, guide, sourceExists)
  }

  lemma GeneratedIsAssembled(existing: seq<Entry>, scanned: seq<PublicItem>)
    requires BarFreeInputs(existing, scanned)
    ensures Assembled(Generate(existing, scanned), ScannedRows(existing, scanned), Examples(existing), scanned)
  {
    SortPermutes(CompareEntries, ScannedRows(existing, scanned) + Examples(existing));
    forall i | 0 <= i < |scanned| ensures BarFree(ScannedRows(existing, scanned)[i]) {
      IndexedExactly(existing, RefOfItem(scanned[i]));
    }
    forall e | e in Examples(existing) ensures BarFree(e) && IsExample(e) {
      FilterMember(IsExample, existing, e);
    }
  }

  /**
   The regenerated inventory passes its own checker exactly when the guide has the link,
   each row kept or made for a scanned item is sound and names the scanned crate, and the
   carried-over example rows are sound and distinct.
   */
  lemma RegenerationPasses(existing: seq<Entry>, scanned: seq<PublicItem>, guide: string, sourceExists: string -> bool)
    requires DistinctBy(RefOfItem, scanned) && NoScannedExample(scanned) && BarFreeInputs(existing, scanned)
    ensures (forall f :: !Holds(f, Generate(existing, scanned), scanned, guide, sourceExists))
      <==> Acceptable(existing, scanned, guide, sourceExists)
  {
    GeneratedIsAssembled(existing, scanned);
    AssembledPasses(Generate(existing, scanned), ScannedRows(existing, scanned), Examples(existing), scanned, guide, sourceExists);
  }

  /**
   Conditions on the inputs alone: every old row is sound and agrees with the scan on its
   crate, every scanned source exists, and the example rows are distinct.
   */
  ghost predicate SoundInputs(existing: seq<Entry>, scanned: seq<PublicItem>, guide: string, sourceExists: string -> bool) {
    && Contains(guide, GUIDE_LINK)
    && (forall e :: e in existing ==> Sound(e, sourceExists))
    && (forall i :: 0 <= i < |scanned| ==> sourceExists(scanned[i].source))
    && (forall e, i :: e in existing && 0 <= i < |scanned| && RefOfEntry(e) == RefOfItem(scanned[i]) ==> e.crateName == scanned[i].crateName)
    && DistinctBy(Identity, Examples(existing))
  }

  lemma DerivedStabilityIsValid(existing: seq<Entry>, item: PublicItem)
    requires forall e :: e in existing ==> e.stability in VALID_STABILITIES
    ensures DerivedStability(item, OwnerStability(existing)) in VALID_STABILITIES
  {
    var owners := OwnerStability(existing);
    forall key | key in owners ensures owners[key] in VALID_STABILITIES {
      var i := OwnerStabilityIsCopied(existing, key);
      assert existing[i] in existing;
    }
    assert VALID_STABILITIES[3] == DEFAULT_STABILITY;
  }

  /** From sound inputs regeneration always passes its own checker. */
  lemma SoundInputsPass(existing: seq<Entry>, scanned: seq<PublicItem>, guide: string, sourceExists: string -> bool)
    requires DistinctBy(RefOfItem, scanned) && NoScannedExample(scanned) && BarFreeInputs(existing, scanned)
    requires SoundInputs(existing, scanned, guide, sourceExists)
    ensures forall f :: !Holds(f, Generate(existing, scanned), scanned, guide, sourceExists)
  {
    forall i | 0 <= i < |scanned|
      ensures Sound(GeneratedRow(existing, scanned[i]), sourceExists)
      ensures GeneratedRow(existing, scanned[i]).crateName == scanned[i].crateName
    {
      IndexedExactly(existing, RefOfItem(scanned[i]));
      DerivedStabilityIsValid(existing, scanned[i]);
    }
    forall e | e in Examples(existing) ensures Sound(e, sourceExists) {
      FilterMember(IsExample, existing, e);
    }
    RegenerationPasses(existing, scanned, guide, sourceExists);
  }
}
