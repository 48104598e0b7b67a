/**
 Rust's `BTreeMap` and `BTreeSet` seen as what they are iterated as: lists in strictly
 increasing order of their keys. `Put` is `insert`, `Collect` is `collect`.
 */
module SortedMap {
  import opened Order

  function Put<T>(key: T -> string, s: seq<T>, x: T): seq<T> {
    if s == [] then [x]
    else
      match CompareStr(key(x), key(s[0]))
      case Less => [x] + s
      case Equal => [x] + s[1..]
      case Greater => [s[0]] + Put(key, s[1..], x)
  }

  function Collect<T>(key: T -> string, xs: seq<T>): seq<T> {
    if xs == [] then [] else Put(key, Collect(key, xs[..|xs| - 1]), xs[|xs| - 1])
  }

  ghost predicate Strict<T>(key: T -> string, s: seq<T>) {
    forall i, j :: 0 <= i < j < |s| ==> CompareStr(key(s[i]), key(s[j])) == Less
  }

  lemma StrFacts(a: string, b: string, c: string)
    ensures CompareStr(b, a) == CompareStr(a, b).Flip()
    ensures CompareStr(a, b) == Equal <==> a == b
    ensures CompareStr(a, b) == Less && CompareStr(b, c) == Less ==> CompareStr(a, c) == Less
  {
    StrOrder();
    assert CompareStr(a, a) == CompareStr(a, a).Flip();
    assert CompareStr(c, b) == CompareStr(b, c).Flip();
  }

  lemma {:induction false} PutMembers<T>(key: T -> string, s: seq<T>, x: T, y: T)
    requires Strict(key, s)
    ensures y in Put(key, s, x) <==> y == x || (y in s && key(y) != key(x))
  {
    if s != [] {
      StrFacts(key(x), key(s[0]), key(y));
      assert s == [s[0]] + s[1..];
      if y in s[1..] {
        var k :| 1 <= k < |s| && s[k] == y;
        assert CompareStr(key(s[0]), key(s[k])) == Less;
        StrFacts(key(s[0]), key(y), key(y));
      }
      if CompareStr(key(x), key(s[0])) == Greater {
        PutMembers(key, s[1..], x, y);
      }
    }
  }

  lemma {:induction false} PutStrict<T>(key: T -> string, s: seq<T>, x: T)
    requires Strict(key, s)
    ensures Strict(key, Put(key, s, x))
  {
    if s != [] {
      StrFacts(key(x), key(s[0]), key(x));
      match CompareStr(key(x), key(s[0]))
      case Less =>
        forall k | 0 <= k < |s| ensures CompareStr(key(x), key(s[k])) == Less {
          StrFacts(key(x), key(s[0]), key(s[k]));
        }
      case Equal =>
      case Greater =>
        var rest := Put(key, s[1..], x);
        PutStrict(key, s[1..], x);
        forall k | 0 <= k < |rest| ensures CompareStr(key(s[0]), key(rest[k])) == Less {
          PutMembers(key, s[1..], x, rest[k]);
        }
    }
  }

  lemma {:induction false} CollectStrict<T>(key: T -> string, xs: seq<T>)
    ensures Strict(key, Collect(key, xs))
  {
    if xs != [] {
      CollectStrict(key, xs[..|xs| - 1]);
      PutStrict(key, Collect(key, xs[..|xs| - 1]), xs[|xs| - 1]);
    }
  }

  /** Collecting invents nothing, and with distinct keys it overwrites nothing. */
  lemma {:induction false} CollectMembers<T>(key: T -> string, xs: seq<T>, y: T)
    ensures y in Collect(key, xs) ==> y in xs
    ensures DistinctBy(key, xs) && y in xs ==> y in Collect(key, xs)
  {
    if xs != [] {
      var n := |xs| - 1;
      CollectMembers(key, xs[..n], y);
      CollectStrict(key, xs[..n]);
      PutMembers(key, Collect(key, xs[..n]), xs[n], y);
      assert xs == xs[..n] + [xs[n]];
      if DistinctBy(key, xs) && y in xs[..n] {
        NotLastKey(key, xs, y);
      }
    }
  }

  lemma NotLastKey<T>(key: T -> string, xs: seq<T>, y: T)
    requires xs != [] && DistinctBy(key, xs) && y in xs[..|xs| - 1]
    ensures key(y) != key(xs[|xs| - 1]) && DistinctBy(key, xs[..|xs| - 1])
  {
    var i :| 0 <= i < |xs| - 1 && xs[i] == y;
    assert key(xs[i]) != key(xs[|xs| - 1]);
  }

  lemma {:induction false} CollectOfStrict<T>(key: T -> string, s: seq<T>)
    requires Strict(key, s)
    ensures Collect(key, s) == s
  {
    if s != [] {
      var n := |s| - 1;
      CollectOfStrict(key, s[..n]);
      PutAtEnd(key, s[..n], s[n]);
      assert s == s[..n] + [s[n]];
    }
  }

  lemma {:induction false} PutAtEnd<T>(key: T -> string, s: seq<T>, x: T)
    requires forall i :: 0 <= i < |s| ==> CompareStr(key(s[i]), key(x)) == Less
    ensures Put(key, s, x) == s + [x]
  {
    if s != [] {
      StrFacts(key(s[0]), key(x), key(x));
      PutAtEnd(key, s[1..], x);
      assert s == [s[0]] + s[1..];
    }
  }

  /** Strictly increasing lists with the same elements are equal. */
  lemma {:induction false} StrictUnique<T>(key: T -> string, a: seq<T>, b: seq<T>)
    requires Strict(key, a) && Strict(key, b)
    requires forall y :: y in a <==> y in b
    ensures a == b
  {
    if a == [] {
      assert forall i :: 0 <= i < |b| ==> b[i] in b;
    } else {
      assert a[0] in b && b[0] in a;
      var i :| 0 <= i < |b| && b[i] == a[0];
      var j :| 0 <= j < |a| && a[j] == b[0];
      StrFacts(key(a[0]), key(b[0]), key(a[0]));
      assert a[0] == b[0];
      forall y ensures y in a[1..] <==> y in b[1..] {
        StrictTail(key, a, y);
        StrictTail(key, b, y);
      }
      StrictUnique(key, a[1..], b[1..]);
      assert a == [a[0]] + a[1..] && b == [b[0]] + b[1..];
    }
  }

  lemma StrictTail<T>(key: T -> string, s: seq<T>, y: T)
    requires Strict(key, s) && s != []
    ensures y in s[1..] <==> y in s && y != s[0]
  {
    if y in s[1..] {
      var k :| 1 <= k < |s| && s[k] == y;
      StrFacts(key(s[0]), key(s[k]), key(y));
    }
  }

  /** A strictly increasing list has distinct keys. */
  lemma StrictIsDistinct<T>(key: T -> string, s: seq<T>)
    requires Strict(key, s)
    ensures DistinctBy(key, s)
  {
    forall i, j | 0 <= i < j < |s| ensures key(s[i]) != key(s[j]) {
      StrFacts(key(s[i]), key(s[j]), key(s[j]));
    }
  }

  /** `BTreeSet<String>` built from a list of strings. */
  function SortedSet(items: seq<string>): seq<string> {
    Collect((s: string) => s, items)
  }

  /** The sorted form of a list of strings forgets order and repetition, and nothing else. */
  lemma SortedSetExact(a: seq<string>, b: seq<string>)
    ensures SortedSet(a) == SortedSet(b) <==> (forall s :: s in a <==> s in b)
  {
    var key := (s: string) => s;
    CollectStrict(key, a);
    CollectStrict(key, b);
    forall s ensures s in SortedSet(a) <==> s in a {
      SortedSetMember(a, s);
    }
    forall s ensures s in SortedSet(b) <==> s in b {
      SortedSetMember(b, s);
    }
    if forall s :: s in a <==> s in b {
      StrictUnique(key, SortedSet(a), SortedSet(b));
    }
  }

  lemma {:induction false} SortedSetMember(items: seq<string>, s: string)
    ensures s in SortedSet(items) <==> s in items
  {
    var key := (s: string) => s;
    if items != [] {
      var n := |items| - 1;
      SortedSetMember(items[..n], s);
      CollectStrict(key, items[..n]);
      PutMembers(key, Collect(key, items[..n]), items[n], s);
      assert items == items[..n] + [items[n]];
    }
  }

  ghost predicate Ascending(texts: seq<string>) {
    forall i, j :: 0 <= i < j < |texts| ==> Before(texts[i], texts[j])
  }

  /** Every string of one list is in the other. */
  predicate SameElements(a: seq<string>, b: seq<string>) {
    (forall s :: s in a ==> s in b) && forall s :: s in b ==> s in a
  }

  /** The sorted form is the one ascending list of the same strings. */
  lemma SortedSetIsAscending(a: seq<string>, b: seq<string>)
    ensures SortedSet(a) == b <==> Ascending(b) && SameElements(a, b)
  {
    var key := (s: string) => s;
    CollectStrict(key, a);
    forall s ensures s in SortedSet(a) <==> s in a {
      SortedSetMember(a, s);
    }
    StrictIsAscending(SortedSet(a));
    StrictIsAscending(b);
    if Ascending(b) && SameElements(a, b) {
      StrictUnique(key, SortedSet(a), b);
    }
  }

  lemma StrictIsAscending(texts: seq<string>)
    ensures Strict((s: string) => s, texts) <==> Ascending(texts)
  {
    var key := (s: string) => s;
    forall i, j | 0 <= i < j < |texts|
      ensures CompareStr(key(texts[i]), key(texts[j])) == Less <==> Before(texts[i], texts[j])
    {
      CompareStrIsLexicographic(texts[i], texts[j]);
    }
  }
}
