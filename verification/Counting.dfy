/** Counting rows by group: how counts over disjoint groups add up. */
module Counting {

  /** How many elements of `s` satisfy `p`. */
  function Count<T>(p: T -> bool, s: seq<T>): nat {
    if s == [] then 0 else Count(p, s[..|s| - 1]) + if p(s[|s| - 1]) then 1 else 0
  }

  lemma {:induction false} CountSame<T>(p: T -> bool, q: T -> bool, s: seq<T>)
    requires forall i :: 0 <= i < |s| ==> p(s[i]) == q(s[i])
    ensures Count(p, s) == Count(q, s)
  {
    if s != [] {
      CountSame(p, q, s[..|s| - 1]);
    }
  }

  lemma {:induction false} CountAll<T>(p: T -> bool, s: seq<T>)
    requires forall i :: 0 <= i < |s| ==> p(s[i])
    ensures Count(p, s) == |s|
  {
    if s != [] {
      CountAll(p, s[..|s| - 1]);
    }
  }

  lemma {:induction false} CountNone<T>(p: T -> bool, s: seq<T>)
    requires forall i :: 0 <= i < |s| ==> !p(s[i])
    ensures Count(p, s) == 0
  {
    if s != [] {
      CountNone(p, s[..|s| - 1]);
    }
  }

  function Bit(b: bool): nat {
    if b then 1 else 0
  }

  lemma {:induction false} CountAppend<T>(p: T -> bool, a: seq<T>, b: seq<T>)
    ensures Count(p, a + b) == Count(p, a) + Count(p, b)
  {
    if b == [] {
      assert a + b == a;
    } else {
      assert (a + b)[..|a + b| - 1] == a + b[..|b| - 1];
      CountAppend(p, a, b[..|b| - 1]);
    }
  }

  lemma {:induction false} CountDisjoint<T>(p: T -> bool, q: T -> bool, either: T -> bool, s: seq<T>)
    requires forall i :: 0 <= i < |s| ==> !(p(s[i]) && q(s[i])) && either(s[i]) == (p(s[i]) || q(s[i]))
    ensures Count(either, s) == Count(p, s) + Count(q, s)
  {
    if s != [] {
      CountDisjoint(p, q, either, s[..|s| - 1]);
    }
  }

  /** How many rows one group claims. */
  function Claims<G, T>(claims: (G, T) -> bool, group: G, rows: seq<T>): nat {
    Count(r => claims(group, r), rows)
  }

  lemma ClaimsCount<G, T>(claims: (G, T) -> bool, group: G, p: T -> bool, rows: seq<T>)
    requires forall i :: 0 <= i < |rows| ==> p(rows[i]) == claims(group, rows[i])
    ensures Claims(claims, group, rows) == Count(p, rows)
  {
    CountSame(r => claims(group, r), p, rows);
  }

  lemma ClaimsSnoc<G, T>(claims: (G, T) -> bool, group: G, rows: seq<T>, row: T)
    ensures Claims(claims, group, rows + [row]) == Claims(claims, group, rows) + Bit(claims(group, row))
  {
    assert (rows + [row])[..|rows|] == rows;
  }

  lemma ClaimsPositive<G, T>(claims: (G, T) -> bool, group: G, rows: seq<T>)
    ensures Claims(claims, group, rows) > 0 <==> exists i :: 0 <= i < |rows| && claims(group, rows[i])
  {
    if i :| 0 <= i < |rows| && claims(group, rows[i]) {
      var p := r => claims(group, r);
      assert rows == rows[..i + 1] + rows[i + 1..];
      CountAppend(p, rows[..i + 1], rows[i + 1..]);
      assert rows[..i + 1][i] == rows[i];
      assert Claims(claims, group, rows) == Count(p, rows) by {
        ClaimsCount(claims, group, p, rows);
      }
    } else {
      CountNone(r => claims(group, r), rows);
      ClaimsCount(claims, group, _ => false, rows);
      CountNone(_ => false, rows);
    }
  }

  /** The sum over `groups` of the number of rows each group claims. */
  function SumOfCounts<G, T>(claims: (G, T) -> bool, groups: seq<G>, rows: seq<T>): nat {
    if groups == [] then 0
    else Claims(claims, groups[0], rows) + SumOfCounts(claims, groups[1..], rows)
  }

  /** How many rows at least one group claims. */
  function ClaimedRows<G, T>(claims: (G, T) -> bool, groups: seq<G>, rows: seq<T>): nat {
    Count(r => Claimed(claims, groups, r), rows)
  }

  predicate Claimed<G, T>(claims: (G, T) -> bool, groups: seq<G>, row: T) {
    exists k :: 0 <= k < |groups| && claims(groups[k], row)
  }

  lemma ClaimedRowsCount<G, T>(claims: (G, T) -> bool, groups: seq<G>, p: T -> bool, rows: seq<T>)
    requires forall i :: 0 <= i < |rows| ==> p(rows[i]) == Claimed(claims, groups, rows[i])
    ensures ClaimedRows(claims, groups, rows) == Count(p, rows)
  {
    CountSame(r => Claimed(claims, groups, r), p, rows);
  }

  /** When no row is claimed twice, the group counts add up to the number of claimed rows. */
  lemma {:induction false} DisjointGroupsAddUp<G, T>(claims: (G, T) -> bool, groups: seq<G>, rows: seq<T>)
    requires forall i, j, r :: 0 <= i < j < |groups| && r in rows ==> !(claims(groups[i], r) && claims(groups[j], r))
    ensures SumOfCounts(claims, groups, rows) == ClaimedRows(claims, groups, rows)
  {
    if groups == [] {
      CountNone(r => Claimed(claims, groups, r), rows);
    } else {
      var rest := groups[1..];
      DisjointGroupsAddUp(claims, rest, rows);
      forall k | 0 <= k < |rows|
        ensures !(claims(groups[0], rows[k]) && Claimed(claims, rest, rows[k]))
        ensures Claimed(claims, groups, rows[k]) == (claims(groups[0], rows[k]) || Claimed(claims, rest, rows[k]))
      {
        if Claimed(claims, rest, rows[k]) {
          var m :| 0 <= m < |rest| && claims(rest[m], rows[k]);
          assert claims(groups[m + 1], rows[k]) && rows[k] in rows;
        }
        if Claimed(claims, groups, rows[k]) && !claims(groups[0], rows[k]) {
          var m :| 0 <= m < |groups| && claims(groups[m], rows[k]);
          assert claims(rest[m - 1], rows[k]);
        }
      }
      CountDisjoint(r => claims(groups[0], r), r => Claimed(claims, rest, r), r => Claimed(claims, groups, r), rows);
    }
  }
}
