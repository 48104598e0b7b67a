/**
 Choosing release evidence, as check-current-head-release-evidence does: of all accepted
 receipts of a mode the latest one is kept while the directory is listed in any order.
 Parsing a receipt file is a parameter: each directory entry comes with its outcome.
 */
module ReleaseEvidence {
  import opened Text
  import opened Order

  /** `payload` stands for the counts, artifacts and notes that are carried along. */
  datatype Receipt = Receipt(mode: string, runId: string, finishedAt: string, payload: string)

  datatype Refusal = Refusal(path: string, reason: string)

  datatype DirEntry = NoResults | Accepted(receipt: Receipt) | Refused(refusal: Refusal)

  datatype Scan = Scan(selected: map<string, Receipt>, rejected: seq<Refusal>)

  const REQUIRED_MODES := ["quick", "full", "deterministic", "e2e", "live", "vm", "ci"]

  function Recency(r: Receipt): seq<string> {
    [r.finishedAt, r.runId]
  }

  function CompareReceipts(a: Receipt, b: Receipt): Ordering {
    CompareFields(Recency(a), Recency(b))
  }

  function RefusalFields(r: Refusal): seq<string> {
    [r.path, r.reason]
  }

  function CompareRefusals(a: Refusal, b: Refusal): Ordering {
    CompareFields(RefusalFields(a), RefusalFields(b))
  }

  lemma ReceiptOrder()
    ensures Preorder(CompareReceipts)
    ensures forall a, b :: CompareReceipts(a, b) == Equal ==> Recency(a) == Recency(b)
  {
    FieldsOrder();
    KeyPreorder(CompareFields, Recency, CompareReceipts);
  }

  lemma RefusalOrder()
    ensures TotalOrder(CompareRefusals)
  {
    FieldsOrder();
    KeyPreorder(CompareFields, RefusalFields, CompareRefusals);
    forall a, b | CompareRefusals(a, b) == Equal ensures a == b {
      assert RefusalFields(a)[0] == RefusalFields(b)[0] && RefusalFields(a)[1] == RefusalFields(b)[1];
    }
  }

  /** `a` finished later than `b`, or at the same time with a greater run id. */
  ghost predicate MoreRecent(a: Receipt, b: Receipt) {
    Before(b.finishedAt, a.finishedAt) || (a.finishedAt == b.finishedAt && Before(b.runId, a.runId))
  }

  predicate SameMoment(a: Receipt, b: Receipt) {
    a.finishedAt == b.finishedAt && a.runId == b.runId
  }

  /** The comparison of receipts is by time first and then by run id. */
  lemma RecencyIsTimeThenRun(a: Receipt, b: Receipt)
    ensures CompareReceipts(a, b) == Greater <==> MoreRecent(a, b)
    ensures Recency(a) == Recency(b) <==> SameMoment(a, b)
  {
    CompareStrIsLexicographic(a.finishedAt, b.finishedAt);
    CompareStrIsLexicographic(a.runId, b.runId);
    TwoFields(a.finishedAt, a.runId, b.finishedAt, b.runId);
    assert Recency(a)[0] == a.finishedAt && Recency(a)[1] == a.runId && Recency(b)[0] == b.finishedAt && Recency(b)[1] == b.runId;
  }

  lemma TwoFields(x: string, y: string, u: string, v: string)
    ensures CompareFields([x, y], [u, v]) == CompareStr(x, u).Then(CompareStr(y, v))
  {
    assert [x, y][1..] == [y] && [u, v][1..] == [v] && [y][1..] == [] && [v][1..] == [];
    assert CompareFields([y], [v]) == CompareStr(y, v).Then(CompareFields([], []));
  }

  /** Rejections are listed by path, and those of one path by reason. */
  lemma RejectionsAreOrdered(entries: seq<DirEntry>, scan: Scan, i: nat, j: nat)
    requires IsScanOf(scan, entries) && i < j < |scan.rejected|
    ensures
      var a, b := scan.rejected[i], scan.rejected[j];
      Before(a.path, b.path) || (a.path == b.path && (a.reason == b.reason || Before(a.reason, b.reason)))
  {
    RefusalOrder();
    SortSorts(CompareRefusals, Refusals(entries));
    var a, b := scan.rejected[i], scan.rejected[j];
    assert CompareRefusals(a, b) != Greater;
    CompareStrIsLexicographic(a.path, b.path);
    CompareStrIsLexicographic(a.reason, b.reason);
    TwoFields(a.path, a.reason, b.path, b.reason);
  }

  predicate IsRefused(e: DirEntry) {
    e.Refused?
  }

  function RefusalOf(e: DirEntry): Refusal {
    if e.Refused? then e.refusal else Refusal("", "")
  }

  function Refusals(entries: seq<DirEntry>): seq<Refusal> {
    Map(RefusalOf, Filter(IsRefused, entries))
  }

  predicate IsOf(e: DirEntry, mode: string) {
    e.Accepted? && e.receipt.mode == mode
  }

  /** The receipt kept for a mode after the entries so far: a later one replaces only if it is more recent. */
  function Best(entries: seq<DirEntry>, mode: string): Option<Receipt> {
    if entries == [] then None
    else
      var last := entries[|entries| - 1];
      var kept := Best(entries[..|entries| - 1], mode);
      if IsOf(last, mode) && (kept.None? || CompareReceipts(last.receipt, kept.value) == Greater) then Some(last.receipt) else kept
  }

  function Lookup(m: map<string, Receipt>, mode: string): Option<Receipt> {
    if mode in m then Some(m[mode]) else None
  }

  method ScanReceipts(entries: seq<DirEntry>) returns (scan: Scan)
    ensures forall mode :: Lookup(scan.selected, mode) == Best(entries, mode)
    ensures scan.rejected == Sort(CompareRefusals, Refusals(entries))
  {
    var candidates: map<string, Receipt> := map[];
    var rejected: seq<Refusal> := [];
    for i := 0 to |entries|
      invariant forall mode :: Lookup(candidates, mode) == Best(entries[..i], mode)
      invariant rejected == Refusals(entries[..i])
    {
      assert entries[..i + 1][..i] == entries[..i];
      RefusalsSnoc(entries[..i], entries[i]);
      assert entries[..i + 1] == entries[..i] + [entries[i]];
      match entries[i]
      case NoResults =>
      case Accepted(receipt) =>
        var kept := Lookup(candidates, receipt.mode);
        var replace := kept.None? || CompareReceipts(receipt, kept.value) == Greater;
        if replace {
          candidates := candidates[receipt.mode := receipt];
        }
      case Refused(refusal) =>
        rejected := rejected + [refusal];
    }
    assert entries[..|entries|] == entries;
    scan := Scan(candidates, Sort(CompareRefusals, rejected));
  }

  lemma RefusalsSnoc(entries: seq<DirEntry>, e: DirEntry)
    ensures Refusals(entries + [e]) == Refusals(entries) + if e.Refused? then [e.refusal] else []
  {
    FilterAppend(IsRefused, entries, [e]);
    MapAppend(RefusalOf, Filter(IsRefused, entries), Filter(IsRefused, [e]));
  }

  // ------------------------------------------------------------------ the selection is a maximum

  predicate HasMode(entries: seq<DirEntry>, mode: string) {
    exists i :: 0 <= i < |entries| && IsOf(entries[i], mode)
  }

  /**
   The kept receipt was accepted for the mode; no accepted receipt of the mode finished later,
   and none that finished at the same time has a greater run id.
   */
  lemma BestIsMaximum(entries: seq<DirEntry>, mode: string)
    ensures Best(entries, mode).Some? <==> HasMode(entries, mode)
    ensures Best(entries, mode).Some? ==> Accepted(Best(entries, mode).value) in entries && Best(entries, mode).value.mode == mode
    ensures Best(entries, mode).Some? ==>
      forall i :: 0 <= i < |entries| && IsOf(entries[i], mode) ==>
        var r, kept := entries[i].receipt, Best(entries, mode).value;
        && !Before(kept.finishedAt, r.finishedAt)
        && (r.finishedAt == kept.finishedAt ==> !Before(kept.runId, r.runId))
  {
    BestIsGreatest(entries, mode);
    if Best(entries, mode).Some? {
      var kept := Best(entries, mode).value;
      forall i | 0 <= i < |entries| && IsOf(entries[i], mode)
        ensures !Before(kept.finishedAt, entries[i].receipt.finishedAt)
        ensures entries[i].receipt.finishedAt == kept.finishedAt ==> !Before(kept.runId, entries[i].receipt.runId)
      {
        RecencyIsTimeThenRun(entries[i].receipt, kept);
      }
    }
  }

  lemma {:induction false} BestIsGreatest(entries: seq<DirEntry>, mode: string)
    ensures Best(entries, mode).Some? <==> HasMode(entries, mode)
    ensures Best(entries, mode).Some? ==> Accepted(Best(entries, mode).value) in entries && Best(entries, mode).value.mode == mode
    ensures Best(entries, mode).Some? ==>
      forall i :: 0 <= i < |entries| && IsOf(entries[i], mode) ==> CompareReceipts(entries[i].receipt, Best(entries, mode).value) != Greater
  {
    if entries != [] {
      var n := |entries| - 1;
      var last, before := entries[n], entries[..n];
      BestIsGreatest(before, mode);
      ReceiptOrder();
      assert forall i :: 0 <= i < n ==> before[i] == entries[i];
      if IsOf(last, mode) {
        assert HasMode(entries, mode);
      } else if HasMode(entries, mode) {
        var i :| 0 <= i < |entries| && IsOf(entries[i], mode);
        assert IsOf(before[i], mode);
      }
      if Best(before, mode).Some? {
        var kept := Best(before, mode).value;
        assert Accepted(kept) in entries by {
          var i :| 0 <= i < n && before[i] == Accepted(kept);
          assert entries[i] == Accepted(kept);
        }
        assert HasMode(entries, mode) by {
          var i :| 0 <= i < n && IsOf(before[i], mode);
          assert IsOf(entries[i], mode);
        }
        if IsOf(last, mode) {
          assert CompareReceipts(kept, last.receipt) == CompareReceipts(last.receipt, kept).Flip();
        }
      }
    }
  }

  /** A receipt of the mode that no other receipt of the mode exceeds. */
  ghost predicate IsLatest(entries: seq<DirEntry>, mode: string, r: Receipt) {
    && Accepted(r) in entries && r.mode == mode
    && forall i :: 0 <= i < |entries| && IsOf(entries[i], mode) ==> !MoreRecent(entries[i].receipt, r)
  }

  /** Receipts of the mode that tie for the latest place are the same receipt. */
  ghost predicate OneLatest(entries: seq<DirEntry>, mode: string) {
    forall x, y :: IsLatest(entries, mode, x) && IsLatest(entries, mode, y) ==> x == y
  }

  lemma LatestIgnoresOrder(a: seq<DirEntry>, b: seq<DirEntry>, mode: string, r: Receipt)
    requires multiset(a) == multiset(b) && IsLatest(a, mode, r)
    ensures IsLatest(b, mode, r)
  {
    assert Accepted(r) in multiset(b);
    forall i | 0 <= i < |b| && IsOf(b[i], mode) ensures !MoreRecent(b[i].receipt, r) {
      assert b[i] in multiset(a);
      var j :| 0 <= j < |a| && a[j] == b[i];
    }
  }

  lemma BestIsLatest(entries: seq<DirEntry>, mode: string)
    requires Best(entries, mode).Some?
    ensures IsLatest(entries, mode, Best(entries, mode).value)
  {
    BestIsMaximum(entries, mode);
    forall i | 0 <= i < |entries| && IsOf(entries[i], mode)
      ensures !MoreRecent(entries[i].receipt, Best(entries, mode).value)
    {
    }
  }

  /** For every directory order the kept receipt is a latest one, with the same time and run id. */
  lemma BestIgnoresOrder(a: seq<DirEntry>, b: seq<DirEntry>, mode: string)
    requires multiset(a) == multiset(b)
    ensures Best(a, mode).Some? == Best(b, mode).Some?
    ensures Best(a, mode).Some? ==> IsLatest(a, mode, Best(a, mode).value) && IsLatest(a, mode, Best(b, mode).value)
    ensures Best(a, mode).Some? ==> SameMoment(Best(a, mode).value, Best(b, mode).value)
  {
    BestIsMaximum(a, mode);
    BestIsMaximum(b, mode);
    HasModeIgnoresOrder(a, b, mode);
    HasModeIgnoresOrder(b, a, mode);
    if Best(a, mode).Some? {
      BestIsLatest(a, mode);
      BestIsLatest(b, mode);
      LatestIgnoresOrder(b, a, mode, Best(b, mode).value);
      LatestTie(a, mode, Best(a, mode).value, Best(b, mode).value);
    }
  }

  lemma LatestTie(entries: seq<DirEntry>, mode: string, x: Receipt, y: Receipt)
    requires IsLatest(entries, mode, x) && IsLatest(entries, mode, y)
    ensures SameMoment(x, y)
  {
    ReceiptOrder();
    RecencyIsTimeThenRun(x, y);
    RecencyIsTimeThenRun(y, x);
    var i :| 0 <= i < |entries| && entries[i] == Accepted(x);
    var j :| 0 <= j < |entries| && entries[j] == Accepted(y);
    assert IsOf(entries[i], mode) && IsOf(entries[j], mode);
    assert CompareReceipts(y, x) == CompareReceipts(x, y).Flip();
  }

  /** A latest receipt that is listed first is never replaced. */
  lemma {:induction false} FirstLatestStays(entries: seq<DirEntry>, mode: string, r: Receipt)
    requires entries != [] && entries[0] == Accepted(r) && IsLatest(entries, mode, r)
    ensures Best(entries, mode) == Some(r)
  {
    var n := |entries| - 1;
    var before := entries[..n];
    if n == 0 {
      assert Best(before, mode) == None;
    } else {
      assert before[0] == Accepted(r);
      forall i | 0 <= i < n && IsOf(before[i], mode) ensures !MoreRecent(before[i].receipt, r) {
        assert IsOf(entries[i], mode);
      }
      FirstLatestStays(before, mode, r);
      if IsOf(entries[n], mode) {
        RecencyIsTimeThenRun(entries[n].receipt, r);
      }
    }
  }

  lemma ListedFirst(entries: seq<DirEntry>, mode: string, r: Receipt) returns (other: seq<DirEntry>)
    requires IsLatest(entries, mode, r)
    ensures multiset(other) == multiset(entries) && Best(other, mode) == Some(r)
  {
    var k :| 0 <= k < |entries| && entries[k] == Accepted(r);
    other := [entries[k]] + Without(entries, k);
    WithoutOne(entries, k);
    LatestIgnoresOrder(entries, other, mode, r);
    FirstLatestStays(other, mode, r);
  }

  /** Every listing of the same directory keeps the same receipt for the mode. */
  ghost predicate OrderFree(entries: seq<DirEntry>, mode: string) {
    forall other: seq<DirEntry> :: multiset(other) == multiset(entries) ==> Best(other, mode) == Best(entries, mode)
  }

  /** The listing order cannot change the receipt kept for a mode exactly when only one receipt is the latest. */
  lemma SelectionIgnoresOrderExactly(entries: seq<DirEntry>, mode: string)
    ensures OrderFree(entries, mode) <==> OneLatest(entries, mode)
  {
    if OneLatest(entries, mode) {
      forall other | multiset(other) == multiset(entries) ensures Best(other, mode) == Best(entries, mode) {
        BestIgnoresOrder(entries, other, mode);
      }
    }
    if OrderFree(entries, mode) {
      forall x, y | IsLatest(entries, mode, x) && IsLatest(entries, mode, y) ensures x == y {
        var xFirst := ListedFirst(entries, mode, x);
        var yFirst := ListedFirst(entries, mode, y);
      }
    }
  }

  /** No two receipts of a mode have the same time and run id. */
  predicate DistinctPerMode(entries: seq<DirEntry>) {
    forall i, j :: 0 <= i < j < |entries| && entries[i].Accepted? && entries[j].Accepted?
      && entries[i].receipt.mode == entries[j].receipt.mode
      ==> !SameMoment(entries[i].receipt, entries[j].receipt)
  }

  lemma DistinctHasOneLatest(entries: seq<DirEntry>, mode: string)
    requires DistinctPerMode(entries)
    ensures OneLatest(entries, mode)
  {
    forall x, y | IsLatest(entries, mode, x) && IsLatest(entries, mode, y) ensures x == y {
      LatestTie(entries, mode, x, y);
      var i :| 0 <= i < |entries| && entries[i] == Accepted(x);
      var j :| 0 <= j < |entries| && entries[j] == Accepted(y);
    }
  }

  lemma HasModeIgnoresOrder(a: seq<DirEntry>, b: seq<DirEntry>, mode: string)
    requires multiset(a) == multiset(b)
    ensures HasMode(a, mode) ==> HasMode(b, mode)
  {
    if HasMode(a, mode) {
      var i :| 0 <= i < |a| && IsOf(a[i], mode);
      assert a[i] in multiset(b);
      var j :| 0 <= j < |b| && b[j] == a[i];
    }
  }

  // ------------------------------------------------------------------ the whole index

  function MissingModes(selected: map<string, Receipt>): seq<string> {
    Filter(mode => mode !in selected, REQUIRED_MODES)
  }

  /** The modes reported missing are exactly the required modes without an accepted receipt. */
  lemma MissingModesAreUnproved(entries: seq<DirEntry>, scan: Scan, mode: string)
    requires forall m :: Lookup(scan.selected, m) == Best(entries, m)
    ensures mode in MissingModes(scan.selected) <==> mode in REQUIRED_MODES && !HasMode(entries, mode)
  {
    FilterMember(m => m !in scan.selected, REQUIRED_MODES, mode);
    BestIsMaximum(entries, mode);
    assert Lookup(scan.selected, mode) == Best(entries, mode);
  }

  /** What `scan_receipts` returns for a listing. */
  ghost predicate IsScanOf(scan: Scan, entries: seq<DirEntry>) {
    && (forall mode :: Lookup(scan.selected, mode) == Best(entries, mode))
    && scan.rejected == Sort(CompareRefusals, Refusals(entries))
  }

  /** When each mode has one latest receipt, the whole result is the same for every listing order. */
  lemma ScanIgnoresOrder(a: seq<DirEntry>, b: seq<DirEntry>, x: Scan, y: Scan)
    requires multiset(a) == multiset(b) && (forall mode :: OneLatest(a, mode)) && IsScanOf(x, a) && IsScanOf(y, b)
    ensures x == y
  {
    forall mode ensures Lookup(x.selected, mode) == Lookup(y.selected, mode) {
      assert OneLatest(a, mode);
      BestIgnoresOrder(a, b, mode);
    }
    forall mode ensures (mode in x.selected <==> mode in y.selected) && (mode in x.selected ==> x.selected[mode] == y.selected[mode]) {
      assert Lookup(x.selected, mode) == Lookup(y.selected, mode);
    }
    assert x.selected == y.selected;
    FilterPermutation(IsRefused, a, b);
    MapPermutation(RefusalOf, Filter(IsRefused, a), Filter(IsRefused, b));
    RefusalOrder();
    SortOfPermutation(CompareRefusals, Refusals(a), Refusals(b));
  }

  lemma NeverBeforeItself(s: string)
    ensures !Before(s, s)
  {
    CompareStrIsLexicographic(s, s);
  }

  /** Two runs of a mode that finish at the same time under one run id: the one listed first is kept. */
  lemma TieDependsOnListing(r: Receipt, payload: string)
    requires payload != r.payload
    ensures
      var other := r.(payload := payload);
      && Best([Accepted(r), Accepted(other)], r.mode) == Some(r)
      && Best([Accepted(other), Accepted(r)], r.mode) == Some(other)
      && !OneLatest([Accepted(r), Accepted(other)], r.mode)
  {
    var other := r.(payload := payload);
    NeverBeforeItself(r.finishedAt);
    NeverBeforeItself(r.runId);
    var x, y := [Accepted(r), Accepted(other)], [Accepted(other), Accepted(r)];
    assert IsLatest(x, r.mode, r) && IsLatest(x, r.mode, other);
    assert IsLatest(y, r.mode, other);
    FirstLatestStays(x, r.mode, r);
    FirstLatestStays(y, r.mode, other);
  }
}
