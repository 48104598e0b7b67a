/**
 The runtime facade inventory of check-runtime-facade-boundary: source files are assigned to
 API groups, public items inherit the group of their file, and the rows are framed and hashed.
 The hash itself is left out; the framing of its input is what is proved injective.
 */
module RuntimeFacade {
  import opened Text
  import opened Order
  import opened Counting

  datatype ApiGroup = ApiGroup(id: string, owner: string, classification: string, stability: string, sourcePaths: seq<string>)

  datatype Item = Item(entry: string, kind: string, source: string)

  datatype Row = Row(entry: string, kind: string, source: string, groupId: string, owner: string, classification: string, stability: string)

  datatype Finding =
    | DuplicateGroup(group: nat)
    | EmptyLabel(group: nat)
    | MissingFile(group: nat, path: nat)
    | SharedSource(group: nat, path: nat)

  // ------------------------------------------------------------------ the policy groups

  predicate LacksLabel(g: ApiGroup) {
    Trim(g.owner) == "" || Trim(g.classification) == "" || Trim(g.stability) == ""
  }

  /** The path occurs in an earlier group, or earlier in the same one. */
  predicate ListedBefore(groups: seq<ApiGroup>, g: nat, k: nat, path: string)
    requires g <= |groups|
  {
    || (exists h :: 0 <= h < g && path in groups[h].sourcePaths)
    || (g < |groups| && k <= |groups[g].sourcePaths| && path in groups[g].sourcePaths[..k])
  }

  predicate Holds(f: Finding, groups: seq<ApiGroup>, isFile: string -> bool) {
    match f
    case DuplicateGroup(g) => g < |groups| && IsTaken(groups, g, groups[g].id)
    case EmptyLabel(g) =>
      && g < |groups|
      && (Trim(groups[g].owner) == "" || Trim(groups[g].classification) == "" || Trim(groups[g].stability) == "")
    case MissingFile(g, k) => g < |groups| && k < |groups[g].sourcePaths| && !isFile(groups[g].sourcePaths[k])
    case SharedSource(g, k) =>
      g < |groups| && k < |groups[g].sourcePaths| && ListedBefore(groups, g, k, groups[g].sourcePaths[k])
  }

  /** The index maps each listed path to the last group that lists it. */
  ghost predicate IndexOk(m: map<string, ApiGroup>, groups: seq<ApiGroup>) {
    && (forall path :: path in m <==> ListedBefore(groups, |groups|, 0, path))
    && (forall path :: path in m ==> exists g :: 0 <= g < |groups| && LastListing(groups, g, path) && m[path] == groups[g])
  }

  predicate LastListing(groups: seq<ApiGroup>, g: nat, path: string)
    requires g < |groups|
  {
    path in groups[g].sourcePaths && forall h :: g < h < |groups| ==> path !in groups[h].sourcePaths
  }

  method IndexGroup(m: map<string, ApiGroup>, groups: seq<ApiGroup>, g: nat, isFile: string -> bool)
    returns (next: map<string, ApiGroup>, findings: seq<Finding>)
    requires g < |groups| && forall path :: path in m <==> ListedBefore(groups, g, 0, path)
    ensures forall path :: path in next <==> path in m || path in groups[g].sourcePaths
    ensures forall path :: path in next ==> next[path] == if path in groups[g].sourcePaths then groups[g] else m[path]
    ensures forall f :: f in findings <==> (f.MissingFile? || f.SharedSource?) && f.group == g && Holds(f, groups, isFile)
  {
    next, findings := m, [];
    var paths := groups[g].sourcePaths;
    for k := 0 to |paths|
      invariant forall path :: path in next <==> path in m || path in paths[..k]
      invariant forall path :: path in next ==> next[path] == if path in paths[..k] then groups[g] else m[path]
      invariant forall f :: f in findings <==>
        (f.MissingFile? || f.SharedSource?) && f.group == g && f.path < k && Holds(f, groups, isFile)
    {
      var source := paths[k];
      assert paths[..k + 1] == paths[..k] + [source];
      if !isFile(source) {
        findings := findings + [MissingFile(g, k)];
      }
      assert source in next <==> ListedBefore(groups, g, k, source);
      if source in next {
        findings := findings + [SharedSource(g, k)];
      }
      next := next[source := groups[g]];
    }
    assert paths[..|paths|] == paths;
  }

  predicate IsTaken(groups: seq<ApiGroup>, g: nat, id: string) {
    exists h :: 0 <= h < g && h < |groups| && groups[h].id == id
  }

  method CheckLabels(groups: seq<ApiGroup>, isFile: string -> bool, g: nat, taken: bool) returns (findings: seq<Finding>)
    requires g < |groups| && (taken <==> IsTaken(groups, g, groups[g].id))
    ensures forall f :: f in findings <==> (f.DuplicateGroup? || f.EmptyLabel?) && f.group == g && Holds(f, groups, isFile)
  {
    findings := [];
    if taken {
      findings := findings + [DuplicateGroup(g)];
    }
    if LacksLabel(groups[g]) {
      findings := findings + [EmptyLabel(g)];
    }
  }

  /** One group: its labels are checked and its paths enter the index. */
  method AddGroup(m: map<string, ApiGroup>, groups: seq<ApiGroup>, g: nat, isFile: string -> bool, taken: bool)
    returns (next: map<string, ApiGroup>, findings: seq<Finding>)
    requires g < |groups| && IndexOk(m, groups[..g]) && (taken <==> IsTaken(groups, g, groups[g].id))
    ensures IndexOk(next, groups[..g + 1])
    ensures forall f :: f in findings <==> f.group == g && Holds(f, groups, isFile)
  {
    var labels := CheckLabels(groups, isFile, g, taken);
    IndexedSoFar(m, groups, g);
    var sources;
    next, sources := IndexGroup(m, groups, g, isFile);
    IndexNext(m, next, groups, g);
    findings := labels + sources;
  }

  method GroupsBySourcePath(groups: seq<ApiGroup>, isFile: string -> bool)
    returns (m: map<string, ApiGroup>, findings: seq<Finding>)
    ensures IndexOk(m, groups)
    ensures forall f :: f in findings <==> Holds(f, groups, isFile)
  {
    m, findings := map[], [];
    var ids: set<string> := {};
    for g := 0 to |groups|
      invariant forall id :: id in ids <==> IsTaken(groups, g, id)
      invariant IndexOk(m, groups[..g])
      invariant forall f :: f in findings <==> f.group < g && Holds(f, groups, isFile)
    {
      var found;
      m, found := AddGroup(m, groups, g, isFile, groups[g].id in ids);
      ids := ids + {groups[g].id};
      findings := findings + found;
    }
    assert groups[..|groups|] == groups;
  }

  lemma IndexedSoFar(m: map<string, ApiGroup>, groups: seq<ApiGroup>, g: nat)
    requires g < |groups| && IndexOk(m, groups[..g])
    ensures forall path :: path in m <==> ListedBefore(groups, g, 0, path)
  {
    forall path ensures path in m <==> ListedBefore(groups, g, 0, path) {
      assert path in m <==> ListedBefore(groups[..g], g, 0, path);
      assert forall h :: 0 <= h < g ==> groups[..g][h] == groups[h];
    }
  }

  lemma IndexNext(m: map<string, ApiGroup>, next: map<string, ApiGroup>, groups: seq<ApiGroup>, g: nat)
    requires g < |groups| && IndexOk(m, groups[..g])
    requires forall path :: path in next <==> path in m || path in groups[g].sourcePaths
    requires forall path :: path in next ==> next[path] == if path in groups[g].sourcePaths then groups[g] else m[path]
    ensures IndexOk(next, groups[..g + 1])
  {
    ExtendIndex(m, next, groups[..g], groups[g]);
    assert groups[..g + 1] == groups[..g] + [groups[g]];
  }

  lemma ExtendIndex(m: map<string, ApiGroup>, next: map<string, ApiGroup>, groups: seq<ApiGroup>, last: ApiGroup)
    requires IndexOk(m, groups)
    requires forall path :: path in next <==> path in m || path in last.sourcePaths
    requires forall path :: path in next ==> next[path] == if path in last.sourcePaths then last else m[path]
    ensures IndexOk(next, groups + [last])
  {
    var all := groups + [last];
    forall path ensures path in next <==> ListedBefore(all, |all|, 0, path) {
      ListedInLonger(groups, last, path);
    }
    forall path | path in next ensures exists g :: 0 <= g < |all| && LastListing(all, g, path) && next[path] == all[g] {
      if path in last.sourcePaths {
        assert LastListing(all, |groups|, path);
      } else {
        var g :| 0 <= g < |groups| && LastListing(groups, g, path) && m[path] == groups[g];
        assert LastListing(all, g, path);
      }
    }
  }

  lemma ListedInLonger(groups: seq<ApiGroup>, last: ApiGroup, path: string)
    ensures
      var all := groups + [last];
      ListedBefore(all, |all|, 0, path) <==> ListedBefore(groups, |groups|, 0, path) || path in last.sourcePaths
  {
    var all, n := groups + [last], |groups|;
    if path in last.sourcePaths {
      assert path in all[n].sourcePaths;
    }
    if ListedBefore(groups, n, 0, path) {
      var h :| 0 <= h < n && path in groups[h].sourcePaths;
      assert path in all[h].sourcePaths;
    }
  }

  // ------------------------------------------------------------------ classification

  function NormalizePath(path: string): string {
    seq(|path|, i requires 0 <= i < |path| => if path[i] == '\\' then '/' else path[i])
  }

  predicate HasGroup(m: map<string, ApiGroup>, item: Item) {
    NormalizePath(item.source) in m
  }

  const NO_GROUP := ApiGroup("", "", "", "", [])

  function GroupOf(m: map<string, ApiGroup>, item: Item): ApiGroup {
    if HasGroup(m, item) then m[NormalizePath(item.source)] else NO_GROUP
  }

  function RowOf(m: map<string, ApiGroup>, item: Item): Row {
    var g := GroupOf(m, item);
    Row(item.entry, item.kind, NormalizePath(item.source), g.id, g.owner, g.classification, g.stability)
  }

  function Fields(r: Row): seq<string> {
    [r.entry, r.kind, r.source, r.groupId, r.owner, r.classification, r.stability]
  }

  function CompareRows(a: Row, b: Row): Ordering {
    CompareFields(Fields(a), Fields(b))
  }

  function Classified(m: map<string, ApiGroup>, items: seq<Item>): seq<Row> {
    Map(item => RowOf(m, item), Filter(item => HasGroup(m, item), items))
  }

  method ClassifyItems(items: seq<Item>, m: map<string, ApiGroup>) returns (rows: seq<Row>, ungrouped: seq<nat>)
    ensures rows == Sort(CompareRows, Classified(m, items))
    ensures forall k :: k in ungrouped <==> 0 <= k < |items| && !HasGroup(m, items[k])
  {
    rows, ungrouped := [], [];
    for k := 0 to |items|
      invariant rows == Classified(m, items[..k])
      invariant forall j :: j in ungrouped <==> 0 <= j < k && !HasGroup(m, items[j])
    {
      assert items[..k + 1] == items[..k] + [items[k]];
      ClassifiedSnoc(m, items[..k], items[k]);
      if HasGroup(m, items[k]) {
        rows := rows + [RowOf(m, items[k])];
      } else {
        ungrouped := ungrouped + [k];
      }
    }
    assert items[..|items|] == items;
    rows := Sort(CompareRows, rows);
  }

  lemma ClassifiedSnoc(m: map<string, ApiGroup>, items: seq<Item>, item: Item)
    ensures Classified(m, items + [item]) == Classified(m, items) + if HasGroup(m, item) then [RowOf(m, item)] else []
  {
    FilterAppend(i => HasGroup(m, i), items, [item]);
    MapAppend(i => RowOf(m, i), Filter(i => HasGroup(m, i), items), Filter(i => HasGroup(m, i), [item]));
  }

  /** The path with every backslash turned into a slash. */
  predicate Slashed(path: string, slashed: string) {
    |slashed| == |path| && forall i :: 0 <= i < |path| ==> slashed[i] == if path[i] == '\\' then '/' else path[i]
  }

  /** The row tells about the item and carries the labels of the group. */
  predicate Labels(row: Row, item: Item, g: ApiGroup) {
    && row.entry == item.entry && row.kind == item.kind && Slashed(item.source, row.source)
    && row.groupId == g.id && row.owner == g.owner && row.classification == g.classification && row.stability == g.stability
  }

  /** The row of an item in the last group that lists its file. */
  ghost predicate IsRowOf(row: Row, groups: seq<ApiGroup>, items: seq<Item>) {
    exists k, g ::
      0 <= k < |items| && 0 <= g < |groups| && Labels(row, items[k], groups[g]) && LastListing(groups, g, row.source)
  }

  lemma SlashedIsNormalized(path: string, slashed: string)
    ensures Slashed(path, slashed) <==> slashed == NormalizePath(path)
  {
  }

  lemma GroupIsLastListing(m: map<string, ApiGroup>, groups: seq<ApiGroup>, path: string, g: nat)
    requires IndexOk(m, groups) && g < |groups| && LastListing(groups, g, path)
    ensures path in m && m[path] == groups[g]
  {
    assert ListedBefore(groups, |groups|, 0, path);
    var h :| 0 <= h < |groups| && LastListing(groups, h, path) && m[path] == groups[h];
    assert h == g;
  }

  /** The rows are exactly those of the items whose file is listed, each with the labels of the last group that lists it. */
  lemma RowsAreExact(groups: seq<ApiGroup>, m: map<string, ApiGroup>, items: seq<Item>, row: Row)
    requires IndexOk(m, groups)
    ensures row in Sort(CompareRows, Classified(m, items)) <==> IsRowOf(row, groups, items)
  {
    SortMember(CompareRows, Classified(m, items), row);
    if row in Sort(CompareRows, Classified(m, items)) {
      var rows := Sort(CompareRows, Classified(m, items));
      var i :| 0 <= i < |rows| && rows[i] == row;
      RowIsOfGroupedItem(groups, m, items, row);
    }
    if IsRowOf(row, groups, items) {
      var k, g :| 0 <= k < |items| && 0 <= g < |groups| && Labels(row, items[k], groups[g]) && LastListing(groups, g, row.source);
      SlashedIsNormalized(items[k].source, row.source);
      GroupIsLastListing(m, groups, row.source, g);
      GroupedItemHasRow(m, items, items[k]);
    }
  }

  lemma GroupedItemHasRow(m: map<string, ApiGroup>, items: seq<Item>, item: Item)
    requires item in items && HasGroup(m, item)
    ensures RowOf(m, item) in Classified(m, items)
  {
    var grouped := Filter(i => HasGroup(m, i), items);
    FilterMember(i => HasGroup(m, i), items, item);
    var j :| 0 <= j < |grouped| && grouped[j] == item;
    assert Classified(m, items)[j] == RowOf(m, item);
  }

  lemma RowIsOfGroupedItem(groups: seq<ApiGroup>, m: map<string, ApiGroup>, items: seq<Item>, row: Row)
    requires IndexOk(m, groups) && row in Classified(m, items)
    ensures IsRowOf(row, groups, items)
  {
    var grouped := Filter(i => HasGroup(m, i), items);
    var j :| 0 <= j < |grouped| && Classified(m, items)[j] == row;
    FilterMember(i => HasGroup(m, i), items, grouped[j]);
    var k :| 0 <= k < |items| && items[k] == grouped[j];
    SlashedIsNormalized(items[k].source, row.source);
    var g :| 0 <= g < |groups| && LastListing(groups, g, row.source) && m[row.source] == groups[g];
    assert Labels(row, items[k], groups[g]);
  }

  /** Rows go by entry, then kind, source, group, owner, classification and stability. */
  ghost predicate RowBefore(a: Row, b: Row) {
    || Before(a.entry, b.entry)
    || (a.entry == b.entry && Before(a.kind, b.kind))
    || (a.entry == b.entry && a.kind == b.kind && Before(a.source, b.source))
    || (a.entry == b.entry && a.kind == b.kind && a.source == b.source && LabelsBefore(a, b))
  }

  ghost predicate LabelsBefore(a: Row, b: Row) {
    || Before(a.groupId, b.groupId)
    || (a.groupId == b.groupId && Before(a.owner, b.owner))
    || (a.groupId == b.groupId && a.owner == b.owner && Before(a.classification, b.classification))
    || (a.groupId == b.groupId && a.owner == b.owner && a.classification == b.classification && Before(a.stability, b.stability))
  }

  lemma LabelsOrder(a: Row, b: Row)
    ensures CompareFields(Fields(a)[3..], Fields(b)[3..]) == Less <==> LabelsBefore(a, b)
  {
    FirstFieldDecides(a.stability, b.stability, [], []);
    FirstFieldDecides(a.classification, b.classification, [a.stability], [b.stability]);
    FirstFieldDecides(a.owner, b.owner, [a.classification, a.stability], [b.classification, b.stability]);
    FirstFieldDecides(a.groupId, b.groupId, [a.owner, a.classification, a.stability], [b.owner, b.classification, b.stability]);
    assert Fields(a)[3..] == [a.groupId] + [a.owner, a.classification, a.stability];
    assert Fields(b)[3..] == [b.groupId] + [b.owner, b.classification, b.stability];
    assert [a.owner] + [a.classification, a.stability] == [a.owner, a.classification, a.stability];
    assert [b.owner] + [b.classification, b.stability] == [b.owner, b.classification, b.stability];
    assert [a.classification] + [a.stability] == [a.classification, a.stability];
    assert [b.classification] + [b.stability] == [b.classification, b.stability];
    assert [a.stability] + [] == [a.stability] && [b.stability] + [] == [b.stability];
  }

  lemma RowOrderIsByField(a: Row, b: Row)
    ensures CompareRows(a, b) == Less <==> RowBefore(a, b)
  {
    LabelsOrder(a, b);
    var p, q := Fields(a), Fields(b);
    FirstFieldDecides(a.source, b.source, p[3..], q[3..]);
    FirstFieldDecides(a.kind, b.kind, p[2..], q[2..]);
    FirstFieldDecides(a.entry, b.entry, p[1..], q[1..]);
    assert p[2..] == [a.source] + p[3..] && q[2..] == [b.source] + q[3..];
    assert p[1..] == [a.kind] + p[2..] && q[1..] == [b.kind] + q[2..];
    assert p == [a.entry] + p[1..] && q == [b.entry] + q[1..];
  }

  /** No row stands after one that it belongs before. */
  lemma RowsAreOrdered(rows: seq<Row>, i: nat, j: nat)
    requires i < j < |Sort(CompareRows, rows)|
    ensures !RowBefore(Sort(CompareRows, rows)[j], Sort(CompareRows, rows)[i])
  {
    var sorted := Sort(CompareRows, rows);
    FieldsOrder();
    KeyPreorder(CompareFields, Fields, CompareRows);
    SortSorts(CompareRows, rows);
    assert CompareRows(sorted[i], sorted[j]) != Greater;
    assert CompareRows(sorted[j], sorted[i]) == CompareRows(sorted[i], sorted[j]).Flip();
    RowOrderIsByField(sorted[j], sorted[i]);
  }

  predicate InGroup(g: ApiGroup, row: Row) {
    row.groupId == g.id
  }

  /** Nothing is wrong with the policy, and every item has a group. */
  ghost predicate Clean(groups: seq<ApiGroup>, isFile: string -> bool, m: map<string, ApiGroup>, items: seq<Item>) {
    && IndexOk(m, groups)
    && (forall f :: !Holds(f, groups, isFile))
    && forall k :: 0 <= k < |items| ==> HasGroup(m, items[k])
  }

  /** The group of an item is the one group that lists its file. */
  lemma ItemHasOneGroup(groups: seq<ApiGroup>, isFile: string -> bool, m: map<string, ApiGroup>, items: seq<Item>, k: nat) returns (g: nat)
    requires Clean(groups, isFile, m, items) && k < |items|
    ensures g < |groups| && NormalizePath(items[k].source) in groups[g].sourcePaths && GroupOf(m, items[k]) == groups[g]
    ensures forall h :: 0 <= h < |groups| && NormalizePath(items[k].source) in groups[h].sourcePaths ==> h == g
  {
    var path := NormalizePath(items[k].source);
    assert HasGroup(m, items[k]);
    g :| 0 <= g < |groups| && LastListing(groups, g, path) && m[path] == groups[g];
    forall h | 0 <= h < |groups| && path in groups[h].sourcePaths ensures h == g {
      if h < g {
        var j :| 0 <= j < |groups[g].sourcePaths| && groups[g].sourcePaths[j] == path;
        assert Holds(SharedSource(g, j), groups, isFile);
      }
    }
  }

  /**
   When nothing is reported, every public item has exactly one row, and the row counts shown
   per group add up to the number of rows.
   */
  lemma ClassificationIsExactCover(groups: seq<ApiGroup>, isFile: string -> bool, m: map<string, ApiGroup>, items: seq<Item>, rows: seq<Row>)
    requires Clean(groups, isFile, m, items) && rows == Sort(CompareRows, Classified(m, items))
    ensures multiset(rows) == multiset(Map(item => RowOf(m, item), items)) && |rows| == |items|
    ensures SumOfCounts(InGroup, groups, rows) == |rows|
  {
    RowsArePermuted(m, items, rows);
    GroupIdsDiffer(groups, isFile);
    forall i | 0 <= i < |rows| ensures Claimed(InGroup, groups, rows[i]) {
      var k := RowComesFromItem(m, items, rows, i);
      ItemRowIsClaimed(groups, isFile, m, items, k);
    }
    ClaimedOnceAddsUp(groups, rows);
  }

  lemma RowsArePermuted(m: map<string, ApiGroup>, items: seq<Item>, rows: seq<Row>)
    requires (forall k :: 0 <= k < |items| ==> HasGroup(m, items[k])) && rows == Sort(CompareRows, Classified(m, items))
    ensures multiset(rows) == multiset(Map(item => RowOf(m, item), items)) && |rows| == |items|
  {
    SortPermutes(CompareRows, Classified(m, items));
    FilterAll(item => HasGroup(m, item), items);
  }

  lemma RowComesFromItem(m: map<string, ApiGroup>, items: seq<Item>, rows: seq<Row>, i: nat) returns (k: nat)
    requires i < |rows| && rows == Sort(CompareRows, Classified(m, items))
    ensures k < |items| && rows[i] == RowOf(m, items[k])
  {
    var grouped := Filter(item => HasGroup(m, item), items);
    SortMember(CompareRows, Classified(m, items), rows[i]);
    var j :| 0 <= j < |grouped| && rows[i] == RowOf(m, grouped[j]);
    FilterMember(item => HasGroup(m, item), items, grouped[j]);
    k :| 0 <= k < |items| && items[k] == grouped[j];
  }

  lemma GroupIdsDiffer(groups: seq<ApiGroup>, isFile: string -> bool)
    requires forall f :: !Holds(f, groups, isFile)
    ensures forall i, j :: 0 <= i < j < |groups| ==> groups[i].id != groups[j].id
  {
    forall i, j | 0 <= i < j < |groups| ensures groups[i].id != groups[j].id {
      assert !Holds(DuplicateGroup(j), groups, isFile);
    }
  }

  lemma ItemRowIsClaimed(groups: seq<ApiGroup>, isFile: string -> bool, m: map<string, ApiGroup>, items: seq<Item>, k: nat)
    requires Clean(groups, isFile, m, items) && k < |items|
    ensures Claimed(InGroup, groups, RowOf(m, items[k]))
  {
    var g := ItemHasOneGroup(groups, isFile, m, items, k);
    assert InGroup(groups[g], RowOf(m, items[k]));
  }

  lemma ClaimedOnceAddsUp(groups: seq<ApiGroup>, rows: seq<Row>)
    requires forall i, j :: 0 <= i < j < |groups| ==> groups[i].id != groups[j].id
    requires forall i :: 0 <= i < |rows| ==> Claimed(InGroup, groups, rows[i])
    ensures SumOfCounts(InGroup, groups, rows) == |rows|
  {
    DisjointGroupsAddUp(InGroup, groups, rows);
    ClaimedRowsCount(InGroup, groups, _ => true, rows);
    CountAll(_ => true, rows);
  }

  // ------------------------------------------------------------------ the input of the hash

  const FIELD_END := "\0"

  function FramedRow(r: Row): string {
    Join(Fields(r), FIELD_END)
  }

  function FramedRows(rows: seq<Row>): seq<string> {
    seq(|rows|, i requires 0 <= i < |rows| => FramedRow(rows[i]))
  }

  /** The characters fed to the hasher: fields separated by NUL, rows ended by a newline. */
  function HashInput(rows: seq<Row>): string {
    Unlines(FramedRows(rows))
  }

  method FeedHasher(rows: seq<Row>) returns (fed: string)
    ensures fed == HashInput(rows)
  {
    fed := [];
    for i := 0 to |rows|
      invariant fed == HashInput(rows[..i])
    {
      var r := rows[i];
      assert FramedRows(rows[..i + 1]) == FramedRows(rows[..i]) + [FramedRow(r)];
      UnlinesAppend(FramedRows(rows[..i]), [FramedRow(r)]);
      FramedRowIsFed(r);
      var update := r.entry + FIELD_END;
      update := update + r.kind + FIELD_END;
      update := update + r.source + FIELD_END;
      update := update + r.groupId + FIELD_END;
      update := update + r.owner + FIELD_END;
      update := update + r.classification + FIELD_END;
      update := update + r.stability + "\n";
      fed := fed + update;
    }
    assert rows[..|rows|] == rows;
  }

  lemma FramedRowIsFed(r: Row)
    ensures FramedRow(r) == r.entry + FIELD_END + r.kind + FIELD_END + r.source + FIELD_END + r.groupId + FIELD_END
      + r.owner + FIELD_END + r.classification + FIELD_END + r.stability
  {
    var p := Fields(r);
    FirstFieldsAreFed(r);
    JoinPrefix(p, FIELD_END, 6);
    JoinPrefix(p, FIELD_END, 5);
    JoinPrefix(p, FIELD_END, 4);
    assert p[..7] == p;
  }

  lemma FirstFieldsAreFed(r: Row)
    ensures Join(Fields(r)[..4], FIELD_END) == r.entry + FIELD_END + r.kind + FIELD_END + r.source + FIELD_END + r.groupId
  {
    var p := Fields(r);
    JoinPrefix(p, FIELD_END, 3);
    JoinPrefix(p, FIELD_END, 2);
    JoinPrefix(p, FIELD_END, 1);
    assert p[..1] == [r.entry];
  }

  lemma FieldsDetermineRow(a: Row, b: Row)
    requires Fields(a) == Fields(b)
    ensures a == b
  {
    var f, g := Fields(a), Fields(b);
    assert f[0] == g[0] && f[1] == g[1] && f[2] == g[2] && f[3] == g[3] && f[4] == g[4] && f[5] == g[5] && f[6] == g[6];
  }

  // ------------------------------------------------------------------ the input cut at its NULs

  predicate NulFree(rows: seq<Row>) {
    forall i :: 0 <= i < |rows| ==> Free(Fields(rows[i]), '\0')
  }

  function Glued(prefix: string, parts: seq<string>): seq<string>
    requires parts != []
  {
    [prefix + parts[0]] + parts[1..]
  }

  /** The hash input cut at the separators: the last field of a row shares a piece with the first field of the next. */
  function Pieces(rows: seq<Row>): (pieces: seq<string>)
    ensures |pieces| == 6 * |rows| + 1
  {
    if rows == [] then [""]
    else Fields(rows[0])[..6] + Glued(rows[0].stability + "\n", Pieces(rows[1..]))
  }

  lemma JoinGlued(prefix: string, parts: seq<string>)
    requires parts != []
    ensures Join(Glued(prefix, parts), FIELD_END) == prefix + Join(parts, FIELD_END)
  {
    var glued := Glued(prefix, parts);
    assert glued[1..] == parts[1..];
    if |parts| > 1 {
      var rest := Join(parts[1..], FIELD_END);
      assert (prefix + parts[0]) + FIELD_END + rest == prefix + (parts[0] + FIELD_END + rest);
    }
  }

  lemma FramedRowEndsInStability(r: Row)
    ensures FramedRow(r) == Join(Fields(r)[..6], FIELD_END) + FIELD_END + r.stability
  {
    JoinPrefix(Fields(r), FIELD_END, 6);
    assert Fields(r)[..7] == Fields(r);
  }

  lemma HashInputCons(rows: seq<Row>)
    requires rows != []
    ensures HashInput(rows) == FramedRow(rows[0]) + "\n" + HashInput(rows[1..])
  {
    assert FramedRows(rows)[1..] == FramedRows(rows[1..]);
  }

  lemma {:induction false} HashInputIsJoined(rows: seq<Row>)
    ensures HashInput(rows) == Join(Pieces(rows), FIELD_END)
  {
    if rows != [] {
      var r, rest := rows[0], Pieces(rows[1..]);
      HashInputIsJoined(rows[1..]);
      HashInputCons(rows);
      FramedRowEndsInStability(r);
      JoinGlued(r.stability + "\n", rest);
      JoinAppend(Fields(r)[..6], Glued(r.stability + "\n", rest), FIELD_END);
      Reassociate(Join(Fields(r)[..6], FIELD_END) + FIELD_END, r.stability, "\n", Join(rest, FIELD_END));
    }
  }

  lemma {:induction false} PiecesAreFree(rows: seq<Row>)
    requires NulFree(rows)
    ensures Free(Pieces(rows), '\0')
  {
    if rows != [] {
      PiecesAreFree(rows[1..]);
      var r := rows[0];
      forall i | 0 <= i < 7 ensures '\0' !in Fields(r)[i] {
      }
      assert Fields(r)[6] == r.stability;
    }
  }

  lemma SameInputSamePieces(a: seq<Row>, b: seq<Row>)
    requires NulFree(a) && NulFree(b) && HashInput(a) == HashInput(b)
    ensures Pieces(a) == Pieces(b)
  {
    HashInputIsJoined(a);
    HashInputIsJoined(b);
    PiecesAreFree(a);
    PiecesAreFree(b);
    SplitJoin(Pieces(a), '\0');
    SplitJoin(Pieces(b), '\0');
  }

  // ------------------------------------------------------------------ the boundary between two rows

  /** Two readings of the text around the end of a row cannot differ. */
  predicate OneCut(x: string, y: string, z: string, w: string) {
    || ('\n' !in x && '\n' !in y)
    || ('\n' !in x && '\n' !in z)
    || ('\n' !in y && '\n' !in w)
  }

  lemma EarlierCut(x: string, y: string, z: string, w: string)
    requires x + "\n" + y == z + "\n" + w && |z| < |x|
    ensures '\n' in x && '\n' in w
  {
    var s := x + "\n" + y;
    assert s[|z|] == '\n' && s[|z| + 1..] == w by {
      assert s == z + "\n" + w;
    }
    assert x[|z|] == s[|z|];
    assert w[|x| - |z| - 1] == s[|x|] == '\n';
  }

  lemma CutAtNewline(x: string, y: string, z: string, w: string)
    requires x + "\n" + y == z + "\n" + w && OneCut(x, y, z, w)
    ensures x == z && y == w
  {
    if |z| < |x| {
      EarlierCut(x, y, z, w);
    } else if |x| < |z| {
      EarlierCut(z, w, x, y);
    }
    var s := x + "\n" + y;
    assert x == s[..|x|] && y == s[|x| + 1..];
    assert z == s[..|z|] && w == s[|z| + 1..] by {
      assert s == z + "\n" + w;
    }
  }

  predicate OneReading(a: seq<Row>, b: seq<Row>)
    requires |a| == |b|
  {
    forall i :: 0 <= i < |a| - 1 ==> OneCut(a[i].stability, a[i + 1].entry, b[i].stability, b[i + 1].entry)
  }

  function FirstEntry(rows: seq<Row>): string {
    if rows == [] then "" else rows[0].entry
  }

  lemma FirstPiece(rows: seq<Row>)
    ensures Pieces(rows)[0] == FirstEntry(rows)
  {
    if rows != [] {
      assert Pieces(rows)[0] == Fields(rows[0])[..6][0];
    }
  }

  lemma PiecesOfRow(rows: seq<Row>)
    requires rows != []
    ensures Pieces(rows)[..6] == Fields(rows[0])[..6]
    ensures Pieces(rows)[6] == rows[0].stability + "\n" + FirstEntry(rows[1..])
    ensures Pieces(rows)[7..] == Pieces(rows[1..])[1..]
    ensures Pieces(rows)[0] == FirstEntry(rows)
  {
    var front, rest := Fields(rows[0])[..6], Pieces(rows[1..]);
    var tail := Glued(rows[0].stability + "\n", rest);
    FirstPiece(rows);
    FirstPiece(rows[1..]);
    assert Pieces(rows) == front + tail;
    assert tail[1..] == rest[1..];
  }

  lemma {:induction false} PiecesDetermineRows(a: seq<Row>, b: seq<Row>)
    requires Pieces(a) == Pieces(b) && |a| == |b| && OneReading(a, b)
    ensures a == b
  {
    if a != [] {
      PiecesOfRow(a);
      PiecesOfRow(b);
      var x, y, a', b' := a[0], b[0], a[1..], b[1..];
      if a' != [] {
        assert OneCut(a[0].stability, a[1].entry, b[0].stability, b[1].entry);
      }
      CutAtNewline(x.stability, FirstEntry(a'), y.stability, FirstEntry(b'));
      assert Fields(x) == Fields(x)[..6] + [x.stability] && Fields(y) == Fields(y)[..6] + [y.stability];
      FieldsDetermineRow(x, y);
      SamePiecesAfter(a', b');
      forall i | 0 <= i < |a'| - 1 ensures OneCut(a'[i].stability, a'[i + 1].entry, b'[i].stability, b'[i + 1].entry) {
        assert OneCut(a[i + 1].stability, a[i + 2].entry, b[i + 1].stability, b[i + 2].entry);
      }
      PiecesDetermineRows(a', b');
      assert a == [x] + a' && b == [y] + b';
    }
  }

  lemma SamePiecesAfter(a: seq<Row>, b: seq<Row>)
    requires |a| == |b| && FirstEntry(a) == FirstEntry(b) && Pieces(a)[1..] == Pieces(b)[1..]
    ensures Pieces(a) == Pieces(b)
  {
    if a != [] {
      PiecesOfRow(a);
      PiecesOfRow(b);
    }
    assert Pieces(a) == [Pieces(a)[0]] + Pieces(a)[1..] && Pieces(b) == [Pieces(b)[0]] + Pieces(b)[1..];
  }

  predicate EntriesOnOneLine(rows: seq<Row>) {
    forall i :: 0 < i < |rows| ==> '\n' !in rows[i].entry
  }

  predicate StabilitiesOnOneLine(rows: seq<Row>) {
    forall i :: 0 <= i < |rows| - 1 ==> '\n' !in rows[i].stability
  }

  /**
   Row sequences without NUL that feed the same characters are the same, if entries hold no
   newline, as scanned names never do, or if stabilities hold none; newlines elsewhere are harmless.
   */
  lemma HashInputInjective(a: seq<Row>, b: seq<Row>)
    requires NulFree(a) && NulFree(b) && HashInput(a) == HashInput(b)
    requires (EntriesOnOneLine(a) && EntriesOnOneLine(b)) || (StabilitiesOnOneLine(a) && StabilitiesOnOneLine(b))
    ensures a == b
  {
    SameInputSamePieces(a, b);
    PiecesDetermineRows(a, b);
  }

  /** Moves the boundary between rows `i` and `i + 1` to another newline of the text around it. */
  lemma {:induction false} MovedBoundary(a: seq<Row>, i: nat, stability: string, entry: string)
    requires i + 1 < |a| && a[i].stability + "\n" + a[i + 1].entry == stability + "\n" + entry
    ensures Pieces(a[i := a[i].(stability := stability)][i + 1 := a[i + 1].(entry := entry)]) == Pieces(a)
  {
    var b := a[i := a[i].(stability := stability)][i + 1 := a[i + 1].(entry := entry)];
    PiecesOfRow(a);
    PiecesOfRow(b);
    if i == 0 {
      assert b[1..] == [b[1]] + a[2..] && a[1..] == [a[1]] + a[2..];
      MovedEntry(a[1..], entry);
      assert b[1..] == a[1..][0 := a[1].(entry := entry)];
      assert Fields(b[0])[..6] == Fields(a[0])[..6];
    } else {
      MovedBoundary(a[1..], i - 1, stability, entry);
      assert b[1..] == a[1..][i - 1 := a[i].(stability := stability)][i := a[i + 1].(entry := entry)];
      assert b[0] == a[0] && FirstEntry(b[1..]) == Pieces(b[1..])[0] by { PiecesOfRow(b[1..]); }
      assert FirstEntry(a[1..]) == Pieces(a[1..])[0] by { PiecesOfRow(a[1..]); }
    }
    PiecesFromParts(a);
    PiecesFromParts(b);
  }

  lemma PiecesFromParts(rows: seq<Row>)
    requires rows != []
    ensures Pieces(rows) == Pieces(rows)[..6] + [Pieces(rows)[6]] + Pieces(rows)[7..]
  {
  }

  lemma MovedEntry(rows: seq<Row>, entry: string)
    requires rows != []
    ensures Pieces(rows[0 := rows[0].(entry := entry)])[1..] == Pieces(rows)[1..]
  {
    var other := rows[0 := rows[0].(entry := entry)];
    assert other[1..] == rows[1..];
    assert Fields(other[0])[..6][1..] == Fields(rows[0])[..6][1..];
    var tail := Glued(rows[0].stability + "\n", Pieces(rows[1..]));
    assert Pieces(rows)[1..] == Fields(rows[0])[..6][1..] + tail;
    assert Pieces(other)[1..] == Fields(other[0])[..6][1..] + tail;
  }

  lemma OtherReading(a: seq<Row>, i: nat) returns (b: seq<Row>)
    requires NulFree(a) && i + 1 < |a| && ('\n' in a[i].stability || '\n' in a[i + 1].entry)
    ensures NulFree(b) && b != a && HashInput(b) == HashInput(a)
  {
    var x, y := a[i].stability, a[i + 1].entry;
    var z: string, w: string;
    if '\n' in x {
      var k :| 0 <= k < |x| && x[k] == '\n';
      z, w := x[..k], x[k + 1..] + "\n" + y;
      assert x == z + "\n" + x[k + 1..];
      assert x + "\n" + y == z + "\n" + w;
    } else {
      var k :| 0 <= k < |y| && y[k] == '\n';
      z, w := x + "\n" + y[..k], y[k + 1..];
      assert y == y[..k] + "\n" + w;
      assert x + "\n" + y == z + "\n" + w;
    }
    b := a[i := a[i].(stability := z)][i + 1 := a[i + 1].(entry := w)];
    assert b[i].stability == z && z != x;
    MovedBoundary(a, i, z, w);
    HashInputIsJoined(a);
    HashInputIsJoined(b);
    assert '\0' !in x && '\0' !in y by {
      assert Fields(a[i])[6] == x && Fields(a[i + 1])[0] == y;
    }
    StillNulFree(a, i, z, w);
  }

  lemma StillNulFree(a: seq<Row>, i: nat, stability: string, entry: string)
    requires NulFree(a) && i + 1 < |a| && '\0' !in stability && '\0' !in entry
    ensures NulFree(a[i := a[i].(stability := stability)][i + 1 := a[i + 1].(entry := entry)])
  {
    var b := a[i := a[i].(stability := stability)][i + 1 := a[i + 1].(entry := entry)];
    forall k | 0 <= k < |b| ensures Free(Fields(b[k]), '\0') {
      assert Free(Fields(a[k]), '\0');
      forall j | 0 <= j < 7 ensures '\0' !in Fields(b[k])[j] {
        assert '\0' !in Fields(a[k])[j];
      }
    }
  }

  /** Every sequence without NUL that feeds the same characters is this one. */
  ghost predicate DeterminedWithoutNul(a: seq<Row>) {
    forall b :: NulFree(b) && HashInput(b) == HashInput(a) ==> b == a
  }

  /**
   Among sequences without NUL the input determines the rows exactly when no row before the last
   has a newline in its stability and no row after the first has one in its entry.
   */
  lemma HashInputIsExact(a: seq<Row>)
    requires NulFree(a)
    ensures DeterminedWithoutNul(a) <==> StabilitiesOnOneLine(a) && EntriesOnOneLine(a)
  {
    if StabilitiesOnOneLine(a) && EntriesOnOneLine(a) {
      forall b | NulFree(b) && HashInput(b) == HashInput(a) ensures b == a {
        SameInputSamePieces(a, b);
        PiecesDetermineRows(a, b);
      }
    } else if !StabilitiesOnOneLine(a) {
      var i :| 0 <= i < |a| - 1 && '\n' in a[i].stability;
      var b := OtherReading(a, i);
    } else {
      var i :| 0 < i < |a| && '\n' in a[i].entry;
      var b := OtherReading(a, i - 1);
    }
  }

  // ------------------------------------------------------------------ NUL inside a field

  function RowFrom(fields: seq<string>): Row
    requires |fields| == 7
  {
    Row(fields[0], fields[1], fields[2], fields[3], fields[4], fields[5], fields[6])
  }

  /** The frame of a row determines it exactly when no field holds a NUL. */
  lemma FramedRowIsExact(x: Row)
    ensures (forall y :: FramedRow(y) == FramedRow(x) ==> y == x) <==> Free(Fields(x), '\0')
  {
    if Free(Fields(x), '\0') {
      forall y | FramedRow(y) == FramedRow(x) ensures y == x {
        JoinDetermines(Fields(x), Fields(y), '\0');
        FieldsDetermineRow(x, y);
      }
    } else {
      var i :| 0 <= i < 7 && '\0' in Fields(x)[i];
      var fields := ShiftedParts(Fields(x), '\0', i);
      var y := RowFrom(fields);
      assert Fields(y) == fields;
      assert FramedRow(y) == FramedRow(x) && y != x;
    }
  }

  /**
   Over all sequences, NULs allowed, only the empty one and a single row without NUL are
   determined by their input: a NUL in the text of a field can stand for any number of rows.
   */
  lemma DeterminedAmongAll(a: seq<Row>)
    ensures (forall b :: HashInput(b) == HashInput(a) ==> b == a) <==> a == [] || (|a| == 1 && Free(Fields(a[0]), '\0'))
  {
    if a == [] {
      forall b | HashInput(b) == HashInput(a) ensures b == a {
        NoInputWithoutRows(b);
      }
    } else if |a| > 1 {
      var b := OneRowForMany(a);
    } else if Free(Fields(a[0]), '\0') {
      forall b | HashInput(b) == HashInput(a) ensures b == a {
        OnlyRow(a, b);
      }
    } else {
      FramedRowIsExact(a[0]);
      var y :| FramedRow(y) == FramedRow(a[0]) && y != a[0];
      assert FramedRows([y]) == FramedRows(a) && [y][0] != a[0];
      assert HashInput([y]) == HashInput(a) && [y] != a;
    }
  }

  /** The input holds six NULs for each row, and more exactly when a piece holds one. */
  lemma NulsInInput(rows: seq<Row>)
    ensures multiset(HashInput(rows))['\0'] >= 6 * |rows|
    ensures multiset(HashInput(rows))['\0'] == 6 * |rows| <==> Free(Pieces(rows), '\0')
  {
    HashInputIsJoined(rows);
    SeparatorCount(Pieces(rows), '\0');
  }

  lemma SameLengthSamePieces(a: seq<Row>, b: seq<Row>)
    requires NulFree(a) && |a| == |b| && HashInput(b) == HashInput(a)
    ensures Pieces(a) == Pieces(b)
  {
    PiecesAreFree(a);
    HashInputIsJoined(a);
    HashInputIsJoined(b);
    JoinDetermines(Pieces(a), Pieces(b), '\0');
  }

  lemma OnlyRow(a: seq<Row>, b: seq<Row>)
    requires |a| == 1 && Free(Fields(a[0]), '\0') && HashInput(b) == HashInput(a)
    ensures b == a
  {
    assert NulFree(a);
    PiecesAreFree(a);
    NulsInInput(a);
    NulsInInput(b);
    NoInputWithoutRows(a);
    NoInputWithoutRows(b);
    SameLengthSamePieces(a, b);
    PiecesDetermineRows(a, b);
  }

  lemma NoInputWithoutRows(rows: seq<Row>)
    ensures HashInput(rows) == [] <==> rows == []
  {
    if rows != [] {
      HashInputCons(rows);
    }
  }

  lemma OneRowForMany(a: seq<Row>) returns (b: seq<Row>)
    requires |a| > 1
    ensures |b| == 1 && HashInput(b) == HashInput(a)
  {
    var rest := HashInput(a[1..]);
    HashInputCons(a);
    HashInputCons(a[1..]);
    var text := InputEndsInNewline(a[1..]);
    var r := a[0].(stability := a[0].stability + "\n" + text);
    b := [r];
    HashInputCons(b);
    FramedRowEndsInStability(a[0]);
    FramedRowEndsInStability(r);
    var front := Join(Fields(r)[..6], FIELD_END) + FIELD_END;
    assert Fields(r)[..6] == Fields(a[0])[..6];
    assert FramedRow(r) == front + (a[0].stability + "\n" + text);
    assert HashInput(b) == front + (a[0].stability + "\n" + text) + "\n" + [];
    assert HashInput(a) == front + a[0].stability + "\n" + (text + "\n");
  }

  lemma {:induction false} InputEndsInNewline(rows: seq<Row>) returns (text: string)
    requires rows != []
    ensures HashInput(rows) == text + "\n"
  {
    HashInputCons(rows);
    if |rows| == 1 {
      text := FramedRow(rows[0]);
    } else {
      var rest := InputEndsInNewline(rows[1..]);
      text := FramedRow(rows[0]) + "\n" + rest;
    }
  }

  /** Owner and classification are free policy text: a NUL there moves the boundary between them unseen. */
  lemma PolicyTextCollides(r: Row, u: string, v: string, w: string)
    ensures
      var x, y := r.(owner := u + FIELD_END + v, classification := w), r.(owner := u, classification := v + FIELD_END + w);
      x != y && HashInput([x]) == HashInput([y])
  {
    var x, y := r.(owner := u + FIELD_END + v, classification := w), r.(owner := u, classification := v + FIELD_END + w);
    assert |x.owner| != |y.owner|;
    var before := r.entry + FIELD_END + r.kind + FIELD_END + r.source + FIELD_END + r.groupId + FIELD_END;
    FramedRowIsFed(x);
    FramedRowIsFed(y);
    assert before + (u + FIELD_END + v) + FIELD_END + w == before + u + FIELD_END + (v + FIELD_END + w);
    assert FramedRows([x]) == FramedRows([y]);
  }

  /** A newline in the stability of the first of two rows reads as a longer entry of the second. */
  lemma StabilityTextCollides(r: Row, q: Row, u: string, v: string)
    ensures
      var a := [r.(stability := u + "\n" + v), q];
      var b := [r.(stability := u), q.(entry := v + "\n" + q.entry)];
      a != b && HashInput(a) == HashInput(b)
  {
    var a := [r.(stability := u + "\n" + v), q];
    var b := [r.(stability := u), q.(entry := v + "\n" + q.entry)];
    assert |a[0].stability| != |b[0].stability|;
    assert (u + "\n" + v) + "\n" + q.entry == u + "\n" + (v + "\n" + q.entry);
    MovedBoundary(a, 0, u, v + "\n" + q.entry);
    assert b == a[0 := a[0].(stability := u)][1 := a[1].(entry := v + "\n" + q.entry)];
    HashInputIsJoined(a);
    HashInputIsJoined(b);
  }
}
