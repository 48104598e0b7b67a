/**
 Comparators and the stable sort of the Rust standard library. `Sort` stands for
 `slice::sort_by`; `StableSortIsUnique` shows that being sorted and keeping ties in their
 original order leaves no other result.
 */
module Order {

  datatype Ordering = Less | Equal | Greater {
    function Flip(): Ordering {
      match this
      case Less => Greater
      case Equal => Equal
      case Greater => Less
    }

    /** `Ordering::then_with`. */
    function Then(next: Ordering): Ordering {
      if this == Equal then next else this
    }
  }

  ghost predicate Preorder<T(!new)>(cmp: (T, T) -> Ordering) {
    && (forall a, b :: cmp(b, a) == cmp(a, b).Flip())
    && (forall a, b, c :: cmp(a, b) != Greater && cmp(b, c) != Greater ==> cmp(a, c) != Greater)
  }

  /** Only equal values compare as equal. */
  ghost predicate TotalOrder<T(!new)>(cmp: (T, T) -> Ordering) {
    Preorder(cmp) && forall a, b :: cmp(a, b) == Equal ==> a == b
  }

  function CompareInt(a: int, b: int): Ordering {
    if a < b then Less else if a == b then Equal else Greater
  }

  function CompareChar(a: char, b: char): Ordering {
    if a < b then Less else if a == b then Equal else Greater
  }

  lemma CharOrder()
    ensures TotalOrder(CompareChar)
  {}

  /** Lexicographic comparison of sequences, as derived by Rust for slices and strings. */
  function CompareSeq<T>(cmp: (T, T) -> Ordering, a: seq<T>, b: seq<T>): Ordering {
    if a == [] && b == [] then Equal
    else if a == [] then Less
    else if b == [] then Greater
    else cmp(a[0], b[0]).Then(CompareSeq(cmp, a[1..], b[1..]))
  }

  lemma {:induction false} CompareSeqFlip<T(!new)>(cmp: (T, T) -> Ordering, a: seq<T>, b: seq<T>)
    requires Preorder(cmp)
    ensures CompareSeq(cmp, b, a) == CompareSeq(cmp, a, b).Flip()
  {
    if a != [] && b != [] {
      CompareSeqFlip(cmp, a[1..], b[1..]);
    }
  }

  lemma {:induction false} CompareSeqTransitive<T(!new)>(cmp: (T, T) -> Ordering, a: seq<T>, b: seq<T>, c: seq<T>)
    requires Preorder(cmp)
    requires CompareSeq(cmp, a, b) != Greater && CompareSeq(cmp, b, c) != Greater
    ensures CompareSeq(cmp, a, c) != Greater
  {
    if a != [] && b != [] && c != [] {
      assert cmp(a[0], c[0]) != Greater;
      if cmp(a[0], c[0]) == Equal {
        assert cmp(c[0], a[0]) != Greater;
        assert cmp(b[0], a[0]) != Greater && cmp(c[0], b[0]) != Greater;
        CompareSeqTransitive(cmp, a[1..], b[1..], c[1..]);
      }
    }
  }

  lemma {:induction false} CompareSeqEqual<T(!new)>(cmp: (T, T) -> Ordering, a: seq<T>, b: seq<T>)
    requires TotalOrder(cmp) && CompareSeq(cmp, a, b) == Equal
    ensures a == b
  {
    if a != [] && b != [] {
      CompareSeqEqual(cmp, a[1..], b[1..]);
      assert a == [a[0]] + a[1..] && b == [b[0]] + b[1..];
    }
  }

  lemma {:induction false} CompareSeqReflexive<T(!new)>(cmp: (T, T) -> Ordering, a: seq<T>)
    requires Preorder(cmp)
    ensures CompareSeq(cmp, a, a) == Equal
  {
    if a != [] {
      assert cmp(a[0], a[0]) == Equal;
      CompareSeqReflexive(cmp, a[1..]);
    }
  }

  function CompareStr(a: string, b: string): Ordering {
    CompareSeq(CompareChar, a, b)
  }

  lemma StrOrder()
    ensures TotalOrder(CompareStr)
  {
    CharOrder();
    forall a: string, b: string ensures CompareStr(b, a) == CompareStr(a, b).Flip() {
      CompareSeqFlip(CompareChar, a, b);
    }
    forall a: string, b: string, c: string | CompareStr(a, b) != Greater && CompareStr(b, c) != Greater
      ensures CompareStr(a, c) != Greater
    {
      CompareSeqTransitive(CompareChar, a, b, c);
    }
    forall a: string, b: string | CompareStr(a, b) == Equal ensures a == b {
      CompareSeqEqual(CompareChar, a, b);
    }
  }

  /** Up to `k` the sequences tie; there the first one ends, or has the smaller element. */
  ghost predicate LessAt<T>(cmp: (T, T) -> Ordering, a: seq<T>, b: seq<T>, k: nat) {
    && k <= |a| && k < |b| && (forall i :: 0 <= i < k ==> cmp(a[i], b[i]) == Equal)
    && (k == |a| || cmp(a[k], b[k]) == Less)
  }

  /** The comparison is decided at the first position without a tie, and a proper prefix is less. */
  lemma {:induction false} CompareSeqIsLexicographic<T(!new)>(cmp: (T, T) -> Ordering, a: seq<T>, b: seq<T>)
    requires Preorder(cmp)
    ensures CompareSeq(cmp, a, b) == Less <==> exists k: nat :: LessAt(cmp, a, b, k)
  {
    if a == [] || b == [] {
      assert b != [] ==> LessAt(cmp, [], b, 0);
    } else {
      assert cmp(b[0], a[0]) == cmp(a[0], b[0]).Flip();
      CompareSeqIsLexicographic(cmp, a[1..], b[1..]);
      if k: nat :| LessAt(cmp, a[1..], b[1..], k) {
        if cmp(a[0], b[0]) == Equal {
          assert LessAt(cmp, a, b, k + 1);
        }
      }
      if k: nat :| LessAt(cmp, a, b, k) {
        if k > 0 {
          assert forall i :: 0 <= i < k - 1 ==> a[1..][i] == a[i + 1] && b[1..][i] == b[i + 1];
          assert LessAt(cmp, a[1..], b[1..], k - 1);
        }
      }
      if cmp(a[0], b[0]) == Less {
        assert LessAt(cmp, a, b, 0);
      }
    }
  }

  /** At position `k`, the first where they differ, `a` ends or has the smaller character. */
  predicate BeforeAt(a: string, b: string, k: nat) {
    k <= |a| && k < |b| && a[..k] == b[..k] && (k == |a| || a[k] < b[k])
  }

  /** The order of strings, in terms of their characters. */
  ghost predicate Before(a: string, b: string) {
    exists k: nat :: BeforeAt(a, b, k)
  }

  lemma CompareStrIsLexicographic(a: string, b: string)
    ensures CompareStr(a, b) == Less <==> Before(a, b)
    ensures CompareStr(a, b) == Greater <==> Before(b, a)
    ensures CompareStr(a, b) == Equal <==> a == b
  {
    CharOrder();
    StrOrder();
    BeforeIsLess(a, b);
    BeforeIsLess(b, a);
    assert CompareStr(b, a) == CompareStr(a, b).Flip();
    CompareSeqReflexive(CompareChar, a);
  }

  lemma BeforeIsLess(a: string, b: string)
    ensures CompareStr(a, b) == Less <==> Before(a, b)
  {
    CharOrder();
    CompareSeqIsLexicographic(CompareChar, a, b);
    if k: nat :| LessAt(CompareChar, a, b, k) {
      assert BeforeAt(a, b, k);
    }
    if k: nat :| BeforeAt(a, b, k) {
      assert forall i :: 0 <= i < k ==> a[i] == a[..k][i] == b[..k][i] == b[i];
      assert LessAt(CompareChar, a, b, k);
    }
  }

  /** Field-by-field comparison of records given as their list of fields. */
  function CompareFields(a: seq<string>, b: seq<string>): Ordering {
    CompareSeq(CompareStr, a, b)
  }

  /** The first field decides unless it is shared. */
  lemma FirstFieldDecides(x: string, y: string, a: seq<string>, b: seq<string>)
    ensures CompareFields([x] + a, [y] + b) == Less <==> Before(x, y) || (x == y && CompareFields(a, b) == Less)
  {
    CompareStrIsLexicographic(x, y);
    assert ([x] + a)[1..] == a && ([y] + b)[1..] == b;
  }

  lemma FieldsOrder()
    ensures TotalOrder(CompareFields)
  {
    StrOrder();
    forall a: seq<string>, b: seq<string> ensures CompareFields(b, a) == CompareFields(a, b).Flip() {
      CompareSeqFlip(CompareStr, a, b);
    }
    forall a: seq<string>, b: seq<string>, c: seq<string>
      | CompareFields(a, b) != Greater && CompareFields(b, c) != Greater
      ensures CompareFields(a, c) != Greater
    {
      CompareSeqTransitive(CompareStr, a, b, c);
    }
    forall a: seq<string>, b: seq<string> | CompareFields(a, b) == Equal ensures a == b {
      CompareSeqEqual(CompareStr, a, b);
    }
  }

  /** Comparing by a key keeps a preorder. */
  lemma KeyPreorder<T(!new), K(!new)>(cmp: (K, K) -> Ordering, key: T -> K, keyed: (T, T) -> Ordering)
    requires Preorder(cmp)
    requires forall a, b :: keyed(a, b) == cmp(key(a), key(b))
    ensures Preorder(keyed)
  {
  }

  /** Breaking ties with a second preorder gives a preorder. */
  lemma ThenPreorder<T(!new)>(first: (T, T) -> Ordering, second: (T, T) -> Ordering, both: (T, T) -> Ordering)
    requires Preorder(first) && Preorder(second)
    requires forall a, b :: both(a, b) == first(a, b).Then(second(a, b))
    ensures Preorder(both)
  {
    forall a, b, c | both(a, b) != Greater && both(b, c) != Greater ensures both(a, c) != Greater {
      assert first(a, c) != Greater;
      assert first(c, a) == first(a, c).Flip() && first(b, a) == first(a, b).Flip() && first(c, b) == first(b, c).Flip();
      assert first(c, a) != Greater && first(a, b) != Greater ==> first(c, b) != Greater;
      assert first(b, c) != Greater && first(c, a) != Greater ==> first(b, a) != Greater;
    }
  }

  // ---------------------------------------------------------------- filtering and sorting

  function Filter<T>(p: T -> bool, s: seq<T>): seq<T> {
    if s == [] then []
    else if p(s[0]) then [s[0]] + Filter(p, s[1..])
    else Filter(p, s[1..])
  }

  lemma {:induction false} FilterAppend<T>(p: T -> bool, a: seq<T>, b: seq<T>)
    ensures Filter(p, a + b) == Filter(p, a) + Filter(p, b)
  {
    if a == [] {
      assert a + b == b;
    } else {
      assert (a + b)[1..] == a[1..] + b;
      FilterAppend(p, a[1..], b);
    }
  }

  lemma {:induction false} FilterMember<T>(p: T -> bool, s: seq<T>, x: T)
    ensures x in Filter(p, s) <==> x in s && p(x)
  {
    if s != [] {
      FilterMember(p, s[1..], x);
      assert s == [s[0]] + s[1..];
    }
  }

  lemma {:induction false} FilterAll<T>(p: T -> bool, s: seq<T>)
    requires forall x :: x in s ==> p(x)
    ensures Filter(p, s) == s
  {
    if s != [] {
      FilterAll(p, s[1..]);
      assert s == [s[0]] + s[1..];
    }
  }

  lemma {:induction false} FilterNone<T>(p: T -> bool, s: seq<T>)
    requires forall x :: x in s ==> !p(x)
    ensures Filter(p, s) == []
  {
    if s != [] {
      FilterNone(p, s[1..]);
    }
  }

  function Insert<T>(cmp: (T, T) -> Ordering, x: T, s: seq<T>): seq<T> {
    if s == [] || cmp(x, s[0]) != Greater then [x] + s else [s[0]] + Insert(cmp, x, s[1..])
  }

  function Sort<T>(cmp: (T, T) -> Ordering, s: seq<T>): seq<T> {
    if s == [] then [] else Insert(cmp, s[0], Sort(cmp, s[1..]))
  }

  ghost predicate Sorted<T>(cmp: (T, T) -> Ordering, s: seq<T>) {
    forall i, j :: 0 <= i < j < |s| ==> cmp(s[i], s[j]) != Greater
  }

  lemma {:induction false} InsertPermutes<T>(cmp: (T, T) -> Ordering, x: T, s: seq<T>)
    ensures multiset(Insert(cmp, x, s)) == multiset{x} + multiset(s)
  {
    if !(s == [] || cmp(x, s[0]) != Greater) {
      InsertPermutes(cmp, x, s[1..]);
      assert s == [s[0]] + s[1..];
    }
  }

  lemma {:induction false} SortPermutes<T>(cmp: (T, T) -> Ordering, s: seq<T>)
    ensures multiset(Sort(cmp, s)) == multiset(s)
    ensures |Sort(cmp, s)| == |s|
  {
    if s != [] {
      SortPermutes(cmp, s[1..]);
      InsertPermutes(cmp, s[0], Sort(cmp, s[1..]));
      assert s == [s[0]] + s[1..];
    }
    assert |multiset(Sort(cmp, s))| == |Sort(cmp, s)|;
  }

  lemma SortMember<T>(cmp: (T, T) -> Ordering, s: seq<T>, x: T)
    ensures x in Sort(cmp, s) <==> x in s
  {
    SortPermutes(cmp, s);
    assert x in multiset(Sort(cmp, s)) <==> x in multiset(s);
  }

  lemma {:induction false} InsertSorts<T(!new)>(cmp: (T, T) -> Ordering, x: T, s: seq<T>)
    requires Preorder(cmp) && Sorted(cmp, s)
    ensures Sorted(cmp, Insert(cmp, x, s))
  {
    if !(s == [] || cmp(x, s[0]) != Greater) {
      InsertSorts(cmp, x, s[1..]);
      InsertPermutes(cmp, x, s[1..]);
      var rest := Insert(cmp, x, s[1..]);
      forall k | 0 <= k < |rest| ensures cmp(s[0], rest[k]) != Greater {
        assert rest[k] in multiset(rest);
        assert cmp(s[0], x) == cmp(x, s[0]).Flip();
      }
    }
  }

  lemma {:induction false} SortSorts<T(!new)>(cmp: (T, T) -> Ordering, s: seq<T>)
    requires Preorder(cmp)
    ensures Sorted(cmp, Sort(cmp, s))
  {
    if s != [] {
      SortSorts(cmp, s[1..]);
      InsertSorts(cmp, s[0], Sort(cmp, s[1..]));
    }
  }

  /** A sorted sequence is left as it is, ties included. */
  lemma {:induction false} SortOfSorted<T>(cmp: (T, T) -> Ordering, s: seq<T>)
    requires Sorted(cmp, s)
    ensures Sort(cmp, s) == s
  {
    if s != [] {
      SortOfSorted(cmp, s[1..]);
      assert s == [s[0]] + s[1..];
    }
  }

  /** Sorting a tail first does not change the whole sort. */
  lemma {:induction false} SortAppend<T(!new)>(cmp: (T, T) -> Ordering, a: seq<T>, b: seq<T>)
    requires Preorder(cmp)
    ensures Sort(cmp, a + Sort(cmp, b)) == Sort(cmp, a + b)
  {
    if a == [] {
      assert a + b == b && a + Sort(cmp, b) == Sort(cmp, b);
      SortSorts(cmp, b);
      SortOfSorted(cmp, Sort(cmp, b));
    } else {
      SortAppend(cmp, a[1..], b);
      assert (a + b)[1..] == a[1..] + b;
      assert (a + Sort(cmp, b))[1..] == a[1..] + Sort(cmp, b);
    }
  }

  lemma {:induction false} FilterInsert<T(!new)>(cmp: (T, T) -> Ordering, p: T -> bool, x: T, s: seq<T>)
    requires Preorder(cmp) && Sorted(cmp, s)
    ensures Filter(p, Insert(cmp, x, s)) == if p(x) then Insert(cmp, x, Filter(p, s)) else Filter(p, s)
  {
    if s == [] {
    } else if cmp(x, s[0]) != Greater {
      assert ([x] + s)[1..] == s;
      if Filter(p, s) != [] {
        FilterMember(p, s, Filter(p, s)[0]);
        assert cmp(x, Filter(p, s)[0]) != Greater;
      }
    } else {
      FilterInsert(cmp, p, x, s[1..]);
      assert Insert(cmp, x, s)[1..] == Insert(cmp, x, s[1..]);
    }
  }

  /** Selecting rows and sorting them commute. */
  lemma {:induction false} FilterSort<T(!new)>(cmp: (T, T) -> Ordering, p: T -> bool, s: seq<T>)
    requires Preorder(cmp)
    ensures Filter(p, Sort(cmp, s)) == Sort(cmp, Filter(p, s))
  {
    if s != [] {
      FilterSort(cmp, p, s[1..]);
      SortSorts(cmp, s[1..]);
      FilterInsert(cmp, p, s[0], Sort(cmp, s[1..]));
    }
  }

  lemma TailElements<T>(s: seq<T>)
    requires s != []
    ensures multiset(s[1..]) == multiset(s) - multiset{s[0]}
  {
    assert s == [s[0]] + s[1..];
  }

  lemma SortedHeads<T(!new)>(cmp: (T, T) -> Ordering, a: seq<T>, b: seq<T>)
    requires TotalOrder(cmp) && Sorted(cmp, a) && Sorted(cmp, b) && multiset(a) == multiset(b) && a != []
    ensures b != [] && a[0] == b[0]
  {
    assert a[0] in multiset(b);
    assert b[0] in multiset(a);
    assert cmp(a[0], b[0]) == cmp(b[0], a[0]).Flip();
  }

  lemma SortedTail<T>(cmp: (T, T) -> Ordering, s: seq<T>)
    requires Sorted(cmp, s) && s != []
    ensures Sorted(cmp, s[1..])
  {
  }

  /** Two sorted arrangements of the same elements agree when only equal values tie. */
  lemma {:induction false} SortedUnique<T(!new)>(cmp: (T, T) -> Ordering, a: seq<T>, b: seq<T>)
    requires TotalOrder(cmp) && Sorted(cmp, a) && Sorted(cmp, b) && multiset(a) == multiset(b)
    ensures a == b
  {
    if a == [] {
      assert |multiset(b)| == 0;
    } else {
      SortedHeads(cmp, a, b);
      SameTails(a, b);
      SortedTail(cmp, a);
      SortedTail(cmp, b);
      SortedUnique(cmp, a[1..], b[1..]);
      assert a == [a[0]] + a[1..] && b == [b[0]] + b[1..];
    }
  }

  lemma SameTails<T>(a: seq<T>, b: seq<T>)
    requires a != [] && b != [] && a[0] == b[0] && multiset(a) == multiset(b)
    ensures multiset(a[1..]) == multiset(b[1..])
  {
    TailElements(a);
    TailElements(b);
  }

  /** Under a total order the sorted form depends on the elements only. */
  lemma SortOfPermutation<T(!new)>(cmp: (T, T) -> Ordering, a: seq<T>, b: seq<T>)
    requires TotalOrder(cmp) && multiset(a) == multiset(b)
    ensures Sort(cmp, a) == Sort(cmp, b)
  {
    SortSorts(cmp, a);
    SortSorts(cmp, b);
    SortPermutes(cmp, a);
    SortPermutes(cmp, b);
    SortedUnique(cmp, Sort(cmp, a), Sort(cmp, b));
  }

  /** The elements that tie with `x`, in order. */
  function Ties<T>(cmp: (T, T) -> Ordering, x: T, s: seq<T>): seq<T> {
    if s == [] then []
    else if cmp(x, s[0]) == Equal then [s[0]] + Ties(cmp, x, s[1..])
    else Ties(cmp, x, s[1..])
  }

  lemma {:induction false} TiesOfInsert<T(!new)>(cmp: (T, T) -> Ordering, x: T, y: T, s: seq<T>)
    requires Preorder(cmp)
    ensures Ties(cmp, x, Insert(cmp, y, s)) == Ties(cmp, x, [y] + s)
  {
    if s == [] || cmp(y, s[0]) != Greater {
    } else {
      TiesOfInsert(cmp, x, y, s[1..]);
      assert Insert(cmp, y, s)[1..] == Insert(cmp, y, s[1..]);
      assert ([y] + s)[1..] == s && ([y] + s[1..])[1..] == s[1..];
      // y moves behind s[0] only when the two do not tie
      var head := s[0];
      assert cmp(y, x) == cmp(x, y).Flip();
      assert cmp(y, x) != Greater && cmp(x, head) != Greater ==> cmp(y, head) != Greater;
    }
  }

  lemma {:induction false} SortIsStable<T(!new)>(cmp: (T, T) -> Ordering, x: T, s: seq<T>)
    requires Preorder(cmp)
    ensures Ties(cmp, x, Sort(cmp, s)) == Ties(cmp, x, s)
  {
    if s != [] {
      SortIsStable(cmp, x, s[1..]);
      TiesOfInsert(cmp, x, s[0], Sort(cmp, s[1..]));
      assert ([s[0]] + Sort(cmp, s[1..]))[1..] == Sort(cmp, s[1..]);
    }
  }

  lemma TiesOfHead<T(!new)>(cmp: (T, T) -> Ordering, s: seq<T>)
    requires Preorder(cmp) && s != []
    ensures Ties(cmp, s[0], s) != [] && Ties(cmp, s[0], s)[0] == s[0]
  {
    assert cmp(s[0], s[0]) == Equal;
  }

  lemma {:induction false} SortedWithSameTies<T(!new)>(cmp: (T, T) -> Ordering, a: seq<T>, b: seq<T>)
    requires Preorder(cmp) && Sorted(cmp, a) && Sorted(cmp, b)
    requires forall x :: Ties(cmp, x, a) == Ties(cmp, x, b)
    ensures a == b
  {
    if a == [] {
      if b != [] {
        TiesOfHead(cmp, b);
      }
    } else {
      TiesOfHead(cmp, a);
      TiesMember(cmp, a[0], b, a[0]);
      TiesOfHead(cmp, b);
      TiesMember(cmp, b[0], a, b[0]);
      assert cmp(a[0], b[0]) == cmp(b[0], a[0]).Flip();
      assert a[0] == b[0];
      forall x ensures Ties(cmp, x, a[1..]) == Ties(cmp, x, b[1..]) {
        assert Ties(cmp, x, a) == Ties(cmp, x, b);
        if cmp(x, a[0]) == Equal {
          assert Ties(cmp, x, a)[1..] == Ties(cmp, x, a[1..]);
        }
      }
      SortedWithSameTies(cmp, a[1..], b[1..]);
      assert a == [a[0]] + a[1..] && b == [b[0]] + b[1..];
    }
  }

  lemma {:induction false} TiesMember<T(!new)>(cmp: (T, T) -> Ordering, x: T, s: seq<T>, y: T)
    requires y in Ties(cmp, x, s)
    ensures y in s
  {
    if s != [] && !(cmp(x, s[0]) == Equal && y == s[0]) {
      TiesMember(cmp, x, s[1..], y);
    }
  }

  /** A sorted arrangement that keeps every group of ties in its original order is `Sort`. */
  lemma StableSortIsUnique<T(!new)>(cmp: (T, T) -> Ordering, s: seq<T>, r: seq<T>)
    requires Preorder(cmp) && Sorted(cmp, r)
    requires forall x :: Ties(cmp, x, r) == Ties(cmp, x, s)
    ensures r == Sort(cmp, s)
  {
    SortSorts(cmp, s);
    forall x ensures Ties(cmp, x, Sort(cmp, s)) == Ties(cmp, x, r) {
      SortIsStable(cmp, x, s);
    }
    SortedWithSameTies(cmp, r, Sort(cmp, s));
  }

  // ---------------------------------------------------------------- distinct keys

  predicate Distinct<T(==)>(s: seq<T>) {
    forall i, j :: 0 <= i < j < |s| ==> s[i] != s[j]
  }

  ghost predicate DistinctBy<T, K>(key: T -> K, s: seq<T>) {
    forall i, j :: 0 <= i < j < |s| ==> key(s[i]) != key(s[j])
  }

  lemma CountTwo<T>(s: seq<T>, i: nat, j: nat)
    requires i < j < |s| && s[i] == s[j]
    ensures multiset(s)[s[i]] >= 2
  {
    assert s == s[..j] + s[j..];
    assert s[i] in s[..j] && s[i] in s[j..] by {
      assert s[..j][i] == s[i] && s[j..][0] == s[j];
    }
    assert s[i] in multiset(s[..j]) && s[i] in multiset(s[j..]);
  }

  lemma {:induction false} OccursOnce<T>(s: seq<T>, x: T)
    requires forall i, j :: 0 <= i < j < |s| ==> s[i] != x || s[j] != x
    ensures multiset(s)[x] <= 1
  {
    if s != [] {
      var n := |s| - 1;
      assert s == s[..n] + [s[n]];
      OccursOnce(s[..n], x);
      if s[n] == x {
        assert forall i :: 0 <= i < n ==> s[..n][i] == s[i] != x;
        assert x !in multiset(s[..n]);
      }
    }
  }

  /** Distinct keys stay distinct under reordering. */
  lemma DistinctPermutation<T, K>(key: T -> K, a: seq<T>, b: seq<T>)
    requires DistinctBy(key, a) && multiset(a) == multiset(b)
    ensures DistinctBy(key, b)
  {
    forall i, j | 0 <= i < j < |b| ensures key(b[i]) != key(b[j]) {
      var x, y := b[i], b[j];
      assert x in multiset(b) && y in multiset(b);
      assert x in a && y in a;
      if x == y {
        CountTwo(b, i, j);
        forall m, n | 0 <= m < n < |a| ensures a[m] != x || a[n] != x {
          assert key(a[m]) != key(a[n]);
        }
        OccursOnce(a, x);
      } else {
        var m :| 0 <= m < |a| && a[m] == x;
        var n :| 0 <= n < |a| && a[n] == y;
        assert m < n || n < m;
      }
    }
  }

  /** The last element that satisfies a predicate some element satisfies. */
  lemma {:induction false} LastWhere<T>(p: T -> bool, s: seq<T>, some: nat) returns (k: nat)
    requires some < |s| && p(s[some])
    ensures k < |s| && p(s[k]) && forall j :: k < j < |s| ==> !p(s[j])
  {
    var n := |s| - 1;
    if p(s[n]) {
      k := n;
    } else {
      k := LastWhere(p, s[..n], some);
    }
  }

  // ---------------------------------------------------------------- mapping

  function Map<T, U>(f: T -> U, s: seq<T>): (r: seq<U>)
    ensures |r| == |s|
    ensures forall i :: 0 <= i < |s| ==> r[i] == f(s[i])
  {
    seq(|s|, i requires 0 <= i < |s| => f(s[i]))
  }

  lemma MapSnoc<T, U>(f: T -> U, s: seq<T>, i: nat)
    requires i < |s|
    ensures Map(f, s[..i + 1]) == Map(f, s[..i]) + [f(s[i])]
  {
  }

  lemma MapAppend<T, U>(f: T -> U, a: seq<T>, b: seq<T>)
    ensures Map(f, a + b) == Map(f, a) + Map(f, b)
  {
    forall i | 0 <= i < |a + b| ensures Map(f, a + b)[i] == (Map(f, a) + Map(f, b))[i] {}
  }

  lemma WithoutOne<T>(s: seq<T>, k: nat)
    requires k < |s|
    ensures multiset(s) == multiset(Without(s, k)) + multiset{s[k]}
  {
    assert s == s[..k] + [s[k]] + s[k + 1..];
  }

  lemma CancelElement<T>(p: multiset<T>, q: multiset<T>, x: T)
    requires p + multiset{x} == q + multiset{x}
    ensures p == q
  {
    assert p == (p + multiset{x}) - multiset{x};
    assert q == (q + multiset{x}) - multiset{x};
  }

  lemma MapWithoutOne<T, U>(f: T -> U, s: seq<T>, k: nat)
    requires k < |s|
    ensures multiset(Map(f, s)) == multiset(Map(f, Without(s, k))) + multiset{f(s[k])}
  {
    WithoutOne(Map(f, s), k);
    assert Without(Map(f, s), k) == Map(f, Without(s, k));
  }

  function Without<T>(s: seq<T>, k: nat): seq<T>
    requires k < |s|
  {
    s[..k] + s[k + 1..]
  }

  lemma PermutedRest<T>(a: seq<T>, b: seq<T>, k: nat)
    requires multiset(a) == multiset(b) && a != [] && k < |b| && b[k] == a[0]
    ensures multiset(Without(a, 0)) == multiset(Without(b, k))
  {
    WithoutOne(a, 0);
    WithoutOne(b, k);
    CancelElement(multiset(Without(a, 0)), multiset(Without(b, k)), a[0]);
  }

  lemma {:induction false} MapPermutation<T, U>(f: T -> U, a: seq<T>, b: seq<T>)
    requires multiset(a) == multiset(b)
    ensures multiset(Map(f, a)) == multiset(Map(f, b))
  {
    if a == [] {
      assert |multiset(b)| == 0;
    } else {
      assert a[0] in multiset(b);
      var k :| 0 <= k < |b| && b[k] == a[0];
      PermutedRest(a, b, k);
      MapPermutation(f, Without(a, 0), Without(b, k));
      MapWithoutOne(f, a, 0);
      MapWithoutOne(f, b, k);
    }
  }

  /** A selected element occurs as often as before, any other not at all. */
  lemma {:induction false} FilterCount<T>(p: T -> bool, s: seq<T>, x: T)
    ensures multiset(Filter(p, s))[x] == if p(x) then multiset(s)[x] else 0
  {
    if s != [] {
      var head, rest := s[0], s[1..];
      FilterCount(p, rest, x);
      assert s == [head] + rest;
      assert multiset(s)[x] == multiset([head])[x] + multiset(rest)[x];
      if p(head) {
        assert Filter(p, s) == [head] + Filter(p, rest);
        assert multiset(Filter(p, s))[x] == multiset([head])[x] + multiset(Filter(p, rest))[x];
      }
    }
  }

  lemma SameCounts<T>(a: multiset<T>, b: multiset<T>)
    requires forall x :: a[x] == b[x]
    ensures a == b
  {
    assert forall x :: x in a ==> a[x] == b[x];
    assert forall x :: x in b ==> a[x] == b[x];
  }

  /** Selecting from a reordered list selects the same elements as often. */
  lemma FilterPermutation<T>(p: T -> bool, a: seq<T>, b: seq<T>)
    requires multiset(a) == multiset(b)
    ensures multiset(Filter(p, a)) == multiset(Filter(p, b))
  {
    var ma, mb := multiset(Filter(p, a)), multiset(Filter(p, b));
    forall x: T ensures ma[x] == mb[x] {
      FilterCount(p, a, x);
      FilterCount(p, b, x);
    }
    SameCounts(ma, mb);
  }
}
