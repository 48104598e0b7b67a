/**
 The experimental-port budget of check-experimental-sdk-port-budget: every experimental row
 of the inventory must fall into one budget group, and each group states how many rows it
 expects. The theorems at the end say that an accepted budget accounts for every row once.
 */
module PortBudget {
  import opened Text
  import opened Order
  import opened Counting
  import opened InventoryTable
  import UsePaths

  datatype BudgetGroup = BudgetGroup(
    id: string, crateName: string, ownerModule: string, disposition: string, expectedStability: string,
    useSiteStatus: string, validation: string, rationale: string, expectedRows: nat, entryPrefixes: seq<string>)

  const EXPERIMENTAL := "experimental"
  const ABSENT := "absent"
  const PROMOTE := "promote-with-evidence"
  const MAKE_PRIVATE := "make-private"
  const DISPOSITIONS := [PROMOTE, "keep-experimental-with-rationale", MAKE_PRIVATE]
  const PRESENT_STABILITIES := ["supported", "optional-support", "compatibility-alias", EXPERIMENTAL]
  const MIN_EXPLANATION: nat := 8

  datatype Finding =
    | DuplicateId(group: nat)
    | InvalidDisposition(group: nat)
    | InvalidStability(group: nat)
    | NotActionable(group: nat, field: nat)
    | PrivateButExpected(group: nat)
    | ExperimentalDrift
    | Unbudgeted(row: nat)
    | ManyGroups(row: nat)
    | CountDrift(group: nat)
    | WrongStability(group: nat, position: nat)
    | NotAbsent(group: nat)

  // ------------------------------------------------------------------ the groups

  function Explanations(g: BudgetGroup): seq<string> {
    [g.ownerModule, g.useSiteStatus, g.validation, g.rationale]
  }

  function BytesAfterFirst(s: string): nat {
    Count(c => c >= '\U{80}', s) + Count(c => c >= '\U{800}', s) + Count(c => c >= '\U{10000}', s)
  }

  lemma BytesOfCons(c: char, rest: string)
    ensures BytesAfterFirst([c] + rest)
      == (if c >= '\U{10000}' then 3 else if c >= '\U{800}' then 2 else if c >= '\U{80}' then 1 else 0) + BytesAfterFirst(rest)
  {
    CountAppend(x => x >= '\U{80}', [c], rest);
    CountAppend(x => x >= '\U{800}', [c], rest);
    CountAppend(x => x >= '\U{10000}', [c], rest);
  }

  /** A character takes one byte, and one more from each of three code points on. */
  lemma {:induction false} Utf8LenCountsBytes(s: string)
    ensures Utf8Len(s) == |s| + BytesAfterFirst(s)
  {
    if s != [] {
      Utf8LenCountsBytes(s[1..]);
      BytesOfCons(s[0], s[1..]);
      assert s == [s[0]] + s[1..];
    }
  }

  predicate AboutGroup(f: Finding) {
    f.DuplicateId? || f.InvalidDisposition? || f.InvalidStability? || f.NotActionable? || f.PrivateButExpected?
  }

  /** What is wrong with one group, given whether its identifier was taken before. */
  predicate OneGroupHolds(f: Finding, g: BudgetGroup, taken: bool)
    requires AboutGroup(f)
  {
    match f
    case DuplicateId(_) => taken
    case InvalidDisposition(_) => g.disposition !in DISPOSITIONS
    case InvalidStability(_) => g.expectedStability !in PRESENT_STABILITIES && g.expectedStability != ABSENT
    case NotActionable(_, k) =>
      || (k == 0 && Utf8Len(Trim(g.ownerModule)) < MIN_EXPLANATION)
      || (k == 1 && Utf8Len(Trim(g.useSiteStatus)) < MIN_EXPLANATION)
      || (k == 2 && Utf8Len(Trim(g.validation)) < MIN_EXPLANATION)
      || (k == 3 && Utf8Len(Trim(g.rationale)) < MIN_EXPLANATION)
    case PrivateButExpected(_) => g.disposition == MAKE_PRIVATE && g.expectedRows != 0
  }

  predicate GroupHolds(f: Finding, groups: seq<BudgetGroup>) {
    && AboutGroup(f) && f.group < |groups|
    && OneGroupHolds(f, groups[f.group], TakenBefore(groups, f.group, groups[f.group].id))
  }

  method CheckGroup(group: BudgetGroup, i: nat, taken: bool) returns (findings: seq<Finding>)
    ensures forall f :: f in findings <==> AboutGroup(f) && f.group == i && OneGroupHolds(f, group, taken)
  {
    findings := if taken then [DuplicateId(i)] else [];
    if group.disposition !in DISPOSITIONS {
      findings := findings + [InvalidDisposition(i)];
    }
    if group.expectedStability !in PRESENT_STABILITIES && group.expectedStability != ABSENT {
      findings := findings + [InvalidStability(i)];
    }
    var explanations := Explanations(group);
    for k := 0 to 4
      invariant forall f :: f in findings <==>
        && AboutGroup(f) && f.group == i && OneGroupHolds(f, group, taken)
        && !f.PrivateButExpected? && (f.NotActionable? ==> f.field < k)
    {
      if Utf8Len(Trim(explanations[k])) < MIN_EXPLANATION {
        findings := findings + [NotActionable(i, k)];
      }
    }
    if group.disposition == MAKE_PRIVATE && group.expectedRows != 0 {
      findings := findings + [PrivateButExpected(i)];
    }
  }

  /** The findings about the groups are exactly those that are true of them. */
  method ValidateGroups(groups: seq<BudgetGroup>) returns (findings: seq<Finding>)
    ensures forall f :: f in findings <==> GroupHolds(f, groups)
  {
    findings := [];
    var ids: set<string> := {};
    for i := 0 to |groups|
      invariant ids == set j | 0 <= j < i :: groups[j].id
      invariant forall f :: f in findings <==> GroupHolds(f, groups) && f.group < i
    {
      var id := groups[i].id;
      assert id in ids <==> TakenBefore(groups, i, id);
      var found := CheckGroup(groups[i], i, id in ids);
      findings := findings + found;
      ids := ids + {id};
    }
  }

  // ------------------------------------------------------------------ the rows

  predicate Matches(g: BudgetGroup, row: Entry) {
    && row.crateName == g.crateName
    && exists k :: 0 <= k < |g.entryPrefixes| && (row.entry == g.entryPrefixes[k] || g.entryPrefixes[k] + "::" <= row.entry)
  }

  /** A row of the group's crate matches exactly when the segments of its entry begin with those of a prefix. */
  lemma MatchesIsSegmentPrefix(g: BudgetGroup, row: Entry, path: seq<string>, prefixes: seq<seq<string>>)
    requires UsePaths.Segments(path) && row.entry == UsePaths.PathToString(path)
    requires |prefixes| == |g.entryPrefixes|
    requires forall k :: 0 <= k < |prefixes| ==>
      UsePaths.Segments(prefixes[k]) && g.entryPrefixes[k] == UsePaths.PathToString(prefixes[k])
    ensures Matches(g, row) <==> row.crateName == g.crateName && exists k :: 0 <= k < |prefixes| && prefixes[k] <= path
  {
    forall k | 0 <= k < |prefixes|
      ensures row.entry == g.entryPrefixes[k] || g.entryPrefixes[k] + "::" <= row.entry <==> prefixes[k] <= path
    {
      UsePaths.TextPrefixIsSegmentPrefix(prefixes[k], path);
    }
  }

  function MatchingGroups(groups: seq<BudgetGroup>, row: Entry): seq<BudgetGroup> {
    Filter(g => Matches(g, row), groups)
  }

  predicate AssignedTo(groups: seq<BudgetGroup>, id: string, row: Entry) {
    var matching := MatchingGroups(groups, row);
    matching != [] && matching[0].id == id
  }

  /** The rows whose first matching group has this identifier. */
  function Assigned(rows: seq<Entry>, groups: seq<BudgetGroup>, id: string): seq<Entry> {
    if rows == [] then []
    else
      var row := rows[|rows| - 1];
      Assigned(rows[..|rows| - 1], groups, id) + if AssignedTo(groups, id, row) then [row] else []
  }

  predicate TakenBefore(groups: seq<BudgetGroup>, i: nat, id: string) {
    exists j :: 0 <= j < i && j < |groups| && groups[j].id == id
  }

  /** The rows counted for group `i`: a repeated identifier finds its rows already taken. */
  function Bucket(rows: seq<Entry>, groups: seq<BudgetGroup>, i: nat): seq<Entry>
    requires i < |groups|
  {
    if TakenBefore(groups, i, groups[i].id) then [] else Assigned(rows, groups, groups[i].id)
  }

  predicate IsExperimental(row: Entry) {
    row.stability == EXPERIMENTAL
  }

  /** What is wrong with the group of row `i`. */
  predicate MatchHolds(f: Finding, rows: seq<Entry>, groups: seq<BudgetGroup>) {
    match f
    case Unbudgeted(i) => i < |rows| && IsExperimental(rows[i]) && MatchingGroups(groups, rows[i]) == []
    case ManyGroups(i) => i < |rows| && |MatchingGroups(groups, rows[i])| > 1
    case _ => false
  }

  predicate AboutBucket(f: Finding) {
    f.CountDrift? || f.WrongStability? || f.NotAbsent?
  }

  /** What is wrong with the rows counted for one group. */
  predicate BucketHolds(f: Finding, group: BudgetGroup, bucket: seq<Entry>)
    requires AboutBucket(f)
  {
    match f
    case CountDrift(_) => |bucket| != group.expectedRows
    case WrongStability(_, k) =>
      group.expectedStability in PRESENT_STABILITIES && k < |bucket| && bucket[k].stability != group.expectedStability
    case NotAbsent(_) => group.expectedStability == ABSENT && bucket != []
  }

  predicate RowHolds(f: Finding, rows: seq<Entry>, groups: seq<BudgetGroup>, expectedExperimental: Option<nat>) {
    if f.ExperimentalDrift? then expectedExperimental != Some(Count(IsExperimental, rows))
    else if AboutBucket(f) then f.group < |groups| && BucketHolds(f, groups[f.group], Bucket(rows, groups, f.group))
    else MatchHolds(f, rows, groups)
  }

  function Lookup(buckets: map<string, seq<Entry>>, id: string): seq<Entry> {
    if id in buckets then buckets[id] else []
  }

  /** The row joins the bucket of its first matching group, if it has one. */
  function Assign(buckets: map<string, seq<Entry>>, matching: seq<BudgetGroup>, row: Entry): map<string, seq<Entry>> {
    if matching == [] then buckets
    else buckets[matching[0].id := Lookup(buckets, matching[0].id) + [row]]
  }

  function BucketsOf(rows: seq<Entry>, groups: seq<BudgetGroup>): map<string, seq<Entry>> {
    if rows == [] then map[]
    else
      var row := rows[|rows| - 1];
      Assign(BucketsOf(rows[..|rows| - 1], groups), MatchingGroups(groups, row), row)
  }

  lemma {:induction false} BucketsHoldAssigned(rows: seq<Entry>, groups: seq<BudgetGroup>, id: string)
    ensures Lookup(BucketsOf(rows, groups), id) == Assigned(rows, groups, id)
  {
    if rows != [] {
      BucketsHoldAssigned(rows[..|rows| - 1], groups, id);
    }
  }

  method AssignRows(rows: seq<Entry>, groups: seq<BudgetGroup>) returns (buckets: map<string, seq<Entry>>, findings: seq<Finding>)
    ensures buckets == BucketsOf(rows, groups)
    ensures forall f :: f in findings <==> MatchHolds(f, rows, groups)
  {
    buckets, findings := map[], [];
    for i := 0 to |rows|
      invariant buckets == BucketsOf(rows[..i], groups)
      invariant forall f :: f in findings <==> MatchHolds(f, rows, groups) && f.row < i
    {
      var row := rows[i];
      var matching := MatchingGroups(groups, row);
      if row.stability == EXPERIMENTAL && matching == [] {
        findings := findings + [Unbudgeted(i)];
      }
      if |matching| > 1 {
        findings := findings + [ManyGroups(i)];
      }
      assert rows[..i + 1][..i] == rows[..i];
      buckets := Assign(buckets, matching, row);
    }
    assert rows[..|rows|] == rows;
  }

  method RequireStability(group: BudgetGroup, i: nat, bucket: seq<Entry>) returns (findings: seq<Finding>)
    ensures forall f :: f in findings <==>
      f.WrongStability? && f.group == i && f.position < |bucket| && bucket[f.position].stability != group.expectedStability
  {
    findings := [];
    for k := 0 to |bucket|
      invariant forall f :: f in findings <==>
        f.WrongStability? && f.group == i && f.position < k && bucket[f.position].stability != group.expectedStability
    {
      if bucket[k].stability != group.expectedStability {
        findings := findings + [WrongStability(i, k)];
      }
    }
  }

  method CheckBucket(group: BudgetGroup, i: nat, bucket: seq<Entry>) returns (findings: seq<Finding>)
    ensures forall f :: f in findings <==> AboutBucket(f) && f.group == i && BucketHolds(f, group, bucket)
  {
    findings := [];
    if |bucket| != group.expectedRows {
      findings := findings + [CountDrift(i)];
    }
    if group.expectedStability in PRESENT_STABILITIES {
      var wrong := RequireStability(group, i, bucket);
      findings := findings + wrong;
    } else if group.expectedStability == ABSENT {
      if bucket != [] {
        findings := findings + [NotAbsent(i)];
      }
    }
  }

  lemma TakenBeforeNext(groups: seq<BudgetGroup>, i: nat, id: string)
    requires i < |groups|
    ensures TakenBefore(groups, i + 1, id) <==> TakenBefore(groups, i, id) || groups[i].id == id
  {
  }

  /** Takes the bucket of each group out of the map, in the order of the groups. */
  method TakeBuckets(groups: seq<BudgetGroup>, byId: map<string, seq<Entry>>) returns (taken: seq<seq<Entry>>)
    ensures |taken| == |groups|
    ensures forall i :: 0 <= i < |groups| ==>
      taken[i] == if TakenBefore(groups, i, groups[i].id) then [] else Lookup(byId, groups[i].id)
  {
    taken := [];
    var buckets := byId;
    for i := 0 to |groups|
      invariant |taken| == i
      invariant forall id :: Lookup(buckets, id) == if TakenBefore(groups, i, id) then [] else Lookup(byId, id)
      invariant forall k :: 0 <= k < i ==>
        taken[k] == if TakenBefore(groups, k, groups[k].id) then [] else Lookup(byId, groups[k].id)
    {
      var id := groups[i].id;
      taken := taken + [Lookup(buckets, id)];
      ghost var before := buckets;
      buckets := buckets - {id};
      forall other ensures Lookup(buckets, other) == if TakenBefore(groups, i + 1, other) then [] else Lookup(byId, other) {
        TakenBeforeNext(groups, i, other);
        assert Lookup(buckets, other) == if other == id then [] else Lookup(before, other);
      }
    }
  }

  method CheckBuckets(groups: seq<BudgetGroup>, buckets: seq<seq<Entry>>) returns (findings: seq<Finding>)
    requires |buckets| == |groups|
    ensures forall f :: f in findings <==>
      AboutBucket(f) && f.group < |groups| && BucketHolds(f, groups[f.group], buckets[f.group])
  {
    findings := [];
    for i := 0 to |groups|
      invariant forall f :: f in findings <==>
        AboutBucket(f) && f.group < i && BucketHolds(f, groups[f.group], buckets[f.group])
    {
      var found := CheckBucket(groups[i], i, buckets[i]);
      findings := findings + found;
    }
  }

  /** The findings about the rows are exactly those that are true of them. */
  method ValidateRows(rows: seq<Entry>, groups: seq<BudgetGroup>, expectedExperimental: Option<nat>)
    returns (findings: seq<Finding>)
    ensures forall f :: f in findings <==> RowHolds(f, rows, groups, expectedExperimental)
  {
    findings := if expectedExperimental != Some(Count(IsExperimental, rows)) then [ExperimentalDrift] else [];
    var buckets, assignment := AssignRows(rows, groups);
    var taken := TakeBuckets(groups, buckets);
    forall i | 0 <= i < |groups| ensures taken[i] == Bucket(rows, groups, i) {
      BucketsHoldAssigned(rows, groups, groups[i].id);
    }
    var counts := CheckBuckets(groups, taken);
    findings := findings + assignment + counts;
  }

  // ------------------------------------------------------------------ what acceptance means

  function Total(groups: seq<BudgetGroup>): nat {
    if groups == [] then 0 else groups[0].expectedRows + Total(groups[1..])
  }

  predicate Promotes(g: BudgetGroup) {
    g.disposition == PROMOTE
  }

  predicate ExpectsExperimental(g: BudgetGroup) {
    g.expectedStability == EXPERIMENTAL
  }

  /** The number `run` reports as promoted. */
  function PromotedTotal(groups: seq<BudgetGroup>): nat {
    Total(Filter(Promotes, groups))
  }

  /** Neither validation reports anything. */
  ghost predicate Accepted(rows: seq<Entry>, groups: seq<BudgetGroup>, expectedExperimental: Option<nat>) {
    forall f :: !GroupHolds(f, groups) && !RowHolds(f, rows, groups, expectedExperimental)
  }

  lemma {:induction false} UniqueMatch(groups: seq<BudgetGroup>, row: Entry, i: nat, j: nat)
    requires |MatchingGroups(groups, row)| <= 1 && i < j < |groups|
    ensures !(Matches(groups[i], row) && Matches(groups[j], row))
  {
    assert groups == groups[..j] + groups[j..];
    FilterAppend(g => Matches(g, row), groups[..j], groups[j..]);
    FilterMember(g => Matches(g, row), groups[..j], groups[..j][i]);
    FilterMember(g => Matches(g, row), groups[j..], groups[j..][0]);
  }

  /** In an accepted budget the first matching group is the only one, and its identifier names no other group. */
  lemma AssignedIsMatching(rows: seq<Entry>, groups: seq<BudgetGroup>, expectedExperimental: Option<nat>, i: nat, row: Entry)
    requires Accepted(rows, groups, expectedExperimental) && i < |groups| && row in rows
    ensures AssignedTo(groups, groups[i].id, row) <==> Matches(groups[i], row)
  {
    var p := g => Matches(g, row);
    var k :| 0 <= k < |rows| && rows[k] == row;
    assert !RowHolds(ManyGroups(k), rows, groups, expectedExperimental);
    var matching := MatchingGroups(groups, row);
    if matching != [] {
      FilterMember(p, groups, matching[0]);
      var j :| 0 <= j < |groups| && groups[j] == matching[0];
      if j != i {
        DistinctIds(rows, groups, expectedExperimental, i, j);
        UniqueMatch(groups, row, if i < j then i else j, if i < j then j else i);
      }
    }
    FilterMember(p, groups, groups[i]);
  }

  lemma DistinctIds(rows: seq<Entry>, groups: seq<BudgetGroup>, expectedExperimental: Option<nat>, i: nat, j: nat)
    requires Accepted(rows, groups, expectedExperimental) && i < |groups| && j < |groups| && i != j
    ensures groups[i].id != groups[j].id
  {
    assert !GroupHolds(DuplicateId(i), groups) && !GroupHolds(DuplicateId(j), groups);
  }

  lemma {:induction false} AssignedCount(rows: seq<Entry>, groups: seq<BudgetGroup>, id: string, p: Entry -> bool)
    requires forall k :: 0 <= k < |rows| ==> AssignedTo(groups, id, rows[k]) == p(rows[k])
    ensures |Assigned(rows, groups, id)| == Count(p, rows)
    ensures forall row :: row in Assigned(rows, groups, id) <==> row in rows && p(row)
  {
    if rows != [] {
      var n := |rows| - 1;
      AssignedCount(rows[..n], groups, id, p);
      assert rows == rows[..n] + [rows[n]];
    }
  }

  /** Each group of an accepted budget expects exactly the rows that match it, all with the stability it names. */
  lemma GroupCountsItsRows(rows: seq<Entry>, groups: seq<BudgetGroup>, expectedExperimental: Option<nat>, i: nat)
    requires Accepted(rows, groups, expectedExperimental) && i < |groups|
    ensures groups[i].expectedRows == Claims(Matches, groups[i], rows)
    ensures forall row :: row in rows && Matches(groups[i], row) ==> row.stability == groups[i].expectedStability
  {
    var p := row => Matches(groups[i], row);
    forall k | 0 <= k < |rows| ensures AssignedTo(groups, groups[i].id, rows[k]) == p(rows[k]) {
      AssignedIsMatching(rows, groups, expectedExperimental, i, rows[k]);
    }
    AssignedCount(rows, groups, groups[i].id, p);
    ClaimsCount(Matches, groups[i], p, rows);
    assert !GroupHolds(DuplicateId(i), groups) && !GroupHolds(InvalidStability(i), groups);
    var bucket := Bucket(rows, groups, i);
    assert !RowHolds(CountDrift(i), rows, groups, expectedExperimental);
    assert !RowHolds(NotAbsent(i), rows, groups, expectedExperimental);
    forall row | row in rows && Matches(groups[i], row) ensures row.stability == groups[i].expectedStability {
      var k :| 0 <= k < |bucket| && bucket[k] == row;
      assert !RowHolds(WrongStability(i, k), rows, groups, expectedExperimental);
    }
  }

  lemma {:induction false} TotalCountsRows(rows: seq<Entry>, groups: seq<BudgetGroup>)
    requires forall g :: g in groups ==> g.expectedRows == Claims(Matches, g, rows)
    ensures Total(groups) == SumOfCounts(Matches, groups, rows)
  {
    if groups != [] {
      TotalCountsRows(rows, groups[1..]);
      assert groups[0] in groups;
    }
  }

  lemma {:induction false} FilterIndices<T>(p: T -> bool, s: seq<T>, a: nat, b: nat) returns (i: nat, j: nat)
    requires a < b < |Filter(p, s)|
    ensures i < j < |s| && s[i] == Filter(p, s)[a] && s[j] == Filter(p, s)[b]
  {
    if p(s[0]) && a == 0 {
      FilterMember(p, s[1..], Filter(p, s[1..])[b - 1]);
      j :| 1 <= j < |s| && s[j] == Filter(p, s[1..])[b - 1];
      i := 0;
    } else {
      var shift := if p(s[0]) then 1 else 0;
      i, j := FilterIndices(p, s[1..], a - shift, b - shift);
      i, j := i + 1, j + 1;
    }
  }

  /** For any selection of groups, the expected rows add up to the rows the selection matches. */
  lemma SelectionAddsUp(rows: seq<Entry>, groups: seq<BudgetGroup>, expectedExperimental: Option<nat>, select: BudgetGroup -> bool)
    requires Accepted(rows, groups, expectedExperimental)
    ensures Total(Filter(select, groups)) == ClaimedRows(Matches, Filter(select, groups), rows)
  {
    var chosen := Filter(select, groups);
    forall g | g in chosen ensures g.expectedRows == Claims(Matches, g, rows) {
      FilterMember(select, groups, g);
      var i :| 0 <= i < |groups| && groups[i] == g;
      GroupCountsItsRows(rows, groups, expectedExperimental, i);
    }
    TotalCountsRows(rows, chosen);
    forall a, b, row | 0 <= a < b < |chosen| && row in rows ensures !(Matches(chosen[a], row) && Matches(chosen[b], row)) {
      var i, j := FilterIndices(select, groups, a, b);
      var k :| 0 <= k < |rows| && rows[k] == row;
      assert !RowHolds(ManyGroups(k), rows, groups, expectedExperimental);
      UniqueMatch(groups, row, i, j);
    }
    DisjointGroupsAddUp(Matches, chosen, rows);
  }

  /** Every experimental row of an accepted budget lies in exactly one group, and that group expects experimental rows. */
  lemma ExperimentalRowHasOneGroup(rows: seq<Entry>, groups: seq<BudgetGroup>, expectedExperimental: Option<nat>, k: nat) returns (i: nat)
    requires Accepted(rows, groups, expectedExperimental) && k < |rows| && IsExperimental(rows[k])
    ensures i < |groups| && Matches(groups[i], rows[k]) && ExpectsExperimental(groups[i])
    ensures forall j :: 0 <= j < |groups| && Matches(groups[j], rows[k]) ==> j == i
  {
    var row := rows[k];
    assert !RowHolds(Unbudgeted(k), rows, groups, expectedExperimental);
    assert !RowHolds(ManyGroups(k), rows, groups, expectedExperimental);
    var matching := MatchingGroups(groups, row);
    FilterMember(g => Matches(g, row), groups, matching[0]);
    i :| 0 <= i < |groups| && groups[i] == matching[0];
    GroupCountsItsRows(rows, groups, expectedExperimental, i);
    forall j | 0 <= j < |groups| && Matches(groups[j], row) ensures j == i {
      if j != i {
        UniqueMatch(groups, row, if i < j then i else j, if i < j then j else i);
      }
    }
  }

  /**
   Conservation: in an accepted budget the rows expected by the experimental groups, the
   budgeted number and the experimental rows of the inventory are the same number, and the
   promoted total is the number of rows that match a promoting group.
   */
  lemma BudgetConservation(rows: seq<Entry>, groups: seq<BudgetGroup>, expectedExperimental: Option<nat>)
    requires Accepted(rows, groups, expectedExperimental)
    ensures expectedExperimental == Some(Count(IsExperimental, rows))
    ensures Total(Filter(ExpectsExperimental, groups)) == Count(IsExperimental, rows)
    ensures PromotedTotal(groups) == ClaimedRows(Matches, Filter(Promotes, groups), rows)
  {
    assert !RowHolds(ExperimentalDrift, rows, groups, expectedExperimental);
    var chosen := Filter(ExpectsExperimental, groups);
    SelectionAddsUp(rows, groups, expectedExperimental, ExpectsExperimental);
    SelectionAddsUp(rows, groups, expectedExperimental, Promotes);
    forall k | 0 <= k < |rows| ensures Claimed(Matches, chosen, rows[k]) == IsExperimental(rows[k]) {
      if IsExperimental(rows[k]) {
        var i := ExperimentalRowHasOneGroup(rows, groups, expectedExperimental, k);
        FilterMember(ExpectsExperimental, groups, groups[i]);
      }
      if Claimed(Matches, chosen, rows[k]) {
        var c :| 0 <= c < |chosen| && Matches(chosen[c], rows[k]);
        FilterMember(ExpectsExperimental, groups, chosen[c]);
        var i :| 0 <= i < |groups| && groups[i] == chosen[c];
        GroupCountsItsRows(rows, groups, expectedExperimental, i);
      }
    }
    ClaimedRowsCount(Matches, chosen, IsExperimental, rows);
  }
}
