/**
 JSON values with their members in written order, the accessors the checkers use on them,
 and the recursive canonical form of check-tool-catalog-manifest.
 */
module Json {
  import opened Text
  import opened Order
  import opened SortedMap

  datatype Value =
    | Null
    | Bool(b: bool)
    | Int(i: int)
    | Float(digits: string)
    | Str(s: string)
    | Arr(items: seq<Value>)
    | Obj(members: seq<Member>)

  datatype Member = Member(key: string, value: Value)

  function KeyOf(m: Member): string {
    m.key
  }

  /** Object keys are distinct at every depth, as they are in any parsed `serde_json::Value`. */
  ghost predicate WellFormed(v: Value) {
    match v
    case Arr(items) => forall i :: 0 <= i < |items| ==> WellFormed(items[i])
    case Obj(members) =>
      && DistinctBy(KeyOf, members)
      && forall i :: 0 <= i < |members| ==> WellFormed(members[i].value)
    case _ => true
  }

  // ------------------------------------------------------------------ accessors

  function Find(members: seq<Member>, key: string): (r: Option<Value>)
    ensures r.Some? ==> exists i :: 0 <= i < |members| && members[i].key == key && members[i].value == r.value
    ensures r.None? ==> forall i :: 0 <= i < |members| ==> members[i].key != key
  {
    if members == [] then None
    else if members[0].key == key then Some(members[0].value)
    else Find(members[1..], key)
  }

  /** `Value::get`: nothing for a value that is no object. */
  function Get(v: Value, key: string): Option<Value> {
    if v.Obj? then Find(v.members, key) else None
  }

  function AsStr(v: Option<Value>): Option<string> {
    if v.Some? && v.value.Str? then Some(v.value.s) else None
  }

  function AsArray(v: Option<Value>): Option<seq<Value>> {
    if v.Some? && v.value.Arr? then Some(v.value.items) else None
  }

  function AsBoolOrFalse(v: Option<Value>): bool {
    v.Some? && v.value.Bool? && v.value.b
  }

  /** A string member that is present and not empty. */
  function RequiredStr(v: Value, key: string): Option<string> {
    var text := AsStr(Get(v, key));
    if text.Some? && text.value != "" then text else None
  }

  /** All strings of an array member, or nothing if it is missing, no array, or holds anything else. */
  function Strings(v: Value, key: string): Option<seq<string>> {
    match AsArray(Get(v, key))
    case None => None
    case Some(items) => Texts(items)
  }

  function Texts(items: seq<Value>): Option<seq<string>> {
    if forall i :: 0 <= i < |items| ==> items[i].Str?
    then Some(seq(|items|, i requires 0 <= i < |items| && items[i].Str? => items[i].s))
    else None
  }

  /** The value is an object with this member. */
  predicate HasMember(v: Value, key: string, x: Value) {
    v.Obj? && Member(key, x) in v.members
  }

  function TextList(texts: seq<string>): Value {
    Arr(seq(|texts|, i requires 0 <= i < |texts| => Str(texts[i])))
  }

  /** What each accessor returns, in terms of the members that are there. */
  lemma AccessorsAreExact(v: Value, key: string)
    requires WellFormed(v)
    ensures forall x :: Get(v, key) == Some(x) <==> HasMember(v, key, x)
    ensures forall text :: RequiredStr(v, key) == Some(text) <==> text != "" && HasMember(v, key, Str(text))
    ensures AsBoolOrFalse(Get(v, key)) <==> HasMember(v, key, Bool(true))
    ensures forall texts :: Strings(v, key) == Some(texts) <==> HasMember(v, key, TextList(texts))
  {
    forall x ensures Get(v, key) == Some(x) <==> HasMember(v, key, x) {
      if HasMember(v, key, x) {
        var i :| 0 <= i < |v.members| && v.members[i] == Member(key, x);
        FindAt(v.members, i);
      }
      if Get(v, key) == Some(x) {
        var i :| 0 <= i < |v.members| && v.members[i].key == key && v.members[i].value == x;
        assert v.members[i] == Member(key, x);
      }
    }
    forall texts ensures Strings(v, key) == Some(texts) <==> HasMember(v, key, TextList(texts)) {
      TextListIsRead(texts);
      if Strings(v, key) == Some(texts) {
        ReadListIsTexts(Get(v, key).value.items);
      }
    }
  }

  lemma TextListIsRead(texts: seq<string>)
    ensures Texts(TextList(texts).items) == Some(texts)
  {
    var items := TextList(texts).items;
    assert forall i :: 0 <= i < |items| ==> items[i].Str? && items[i].s == texts[i];
    assert Texts(items).value == texts;
  }

  lemma ReadListIsTexts(items: seq<Value>)
    requires Texts(items).Some?
    ensures TextList(Texts(items).value) == Arr(items)
  {
  }

  // ------------------------------------------------------------------ the canonical form

  function Canonicalize(v: Value): Value {
    match v
    case Arr(items) => Arr(seq(|items|, i requires 0 <= i < |items| => Canonicalize(items[i])))
    case Obj(members) => Obj(Collect(KeyOf, CanonicalMembers(members)))
    case _ => v
  }

  function CanonicalMembers(members: seq<Member>): seq<Member> {
    seq(|members|, i requires 0 <= i < |members| => Member(members[i].key, Canonicalize(members[i].value)))
  }

  /** The reference relation: equal up to the order of object members, at every depth. */
  ghost predicate SameUpToOrder(a: Value, b: Value)
    decreases a
  {
    match a
    case Arr(xs) => b.Arr? && |xs| == |b.items| && forall i :: 0 <= i < |xs| ==> SameUpToOrder(xs[i], b.items[i])
    case Obj(ms) =>
      && b.Obj? && |ms| == |b.members|
      && forall i :: 0 <= i < |ms| ==>
           exists j :: 0 <= j < |b.members| && ms[i].key == b.members[j].key && SameUpToOrder(ms[i].value, b.members[j].value)
    case _ => a == b
  }

  lemma CanonicalMembersDistinct(members: seq<Member>)
    requires DistinctBy(KeyOf, members)
    ensures DistinctBy(KeyOf, CanonicalMembers(members))
  {
    var ms := CanonicalMembers(members);
    forall i, j | 0 <= i < j < |ms| ensures KeyOf(ms[i]) != KeyOf(ms[j]) {
      assert KeyOf(members[i]) != KeyOf(members[j]);
    }
  }

  /** A list with distinct keys that is contained in another of the same length is all of it. */
  lemma SameLengthSubset(a: seq<Member>, b: seq<Member>)
    requires DistinctBy(KeyOf, a) && DistinctBy(KeyOf, b) && |a| == |b|
    requires forall m :: m in a ==> m in b
    ensures forall m :: m in b ==> m in a
  {
    var sa, sb := set m | m in a, set m | m in b;
    DistinctSize(a);
    DistinctSize(b);
    assert sa <= sb;
    assert |sb - sa| == |sb| - |sa|;
    assert sb == sa + (sb - sa);
    forall m | m in b ensures m in a {
      assert m in sb;
    }
  }

  lemma {:induction false} DistinctSize(a: seq<Member>)
    requires DistinctBy(KeyOf, a)
    ensures |set m | m in a| == |a|
  {
    if a != [] {
      var n := |a| - 1;
      DistinctSize(a[..n]);
      assert (set m | m in a) == (set m | m in a[..n]) + {a[n]};
      assert forall i :: 0 <= i < n ==> KeyOf(a[i]) != KeyOf(a[n]);
      assert a[n] !in a[..n];
    }
  }

  lemma SameMembersSameCollection(a: seq<Member>, b: seq<Member>)
    requires DistinctBy(KeyOf, a) && DistinctBy(KeyOf, b)
    ensures Collect(KeyOf, a) == Collect(KeyOf, b) <==> (forall m :: m in a <==> m in b)
  {
    CollectStrict(KeyOf, a);
    CollectStrict(KeyOf, b);
    forall m ensures (m in Collect(KeyOf, a) <==> m in a) && (m in Collect(KeyOf, b) <==> m in b) {
      CollectMembers(KeyOf, a, m);
      CollectMembers(KeyOf, b, m);
    }
    if forall m :: m in a <==> m in b {
      StrictUnique(KeyOf, Collect(KeyOf, a), Collect(KeyOf, b));
    }
  }

  lemma {:induction false} SameGivesEqualForms(a: Value, b: Value)
    requires WellFormed(a) && WellFormed(b) && SameUpToOrder(a, b)
    ensures Canonicalize(a) == Canonicalize(b)
    decreases a
  {
    match a
    case Arr(xs) =>
      forall i | 0 <= i < |xs| ensures Canonicalize(xs[i]) == Canonicalize(b.items[i]) {
        SameGivesEqualForms(xs[i], b.items[i]);
      }
      assert Canonicalize(a).items == Canonicalize(b).items;
    case Obj(ms) =>
      var ns := b.members;
      var cm, cn := CanonicalMembers(ms), CanonicalMembers(ns);
      forall m | m in cm ensures m in cn {
        var i :| 0 <= i < |cm| && cm[i] == m;
        var j :| 0 <= j < |ns| && ms[i].key == ns[j].key && SameUpToOrder(ms[i].value, ns[j].value);
        SameGivesEqualForms(ms[i].value, ns[j].value);
        assert cn[j] == m;
      }
      CanonicalMembersDistinct(ms);
      CanonicalMembersDistinct(ns);
      SameLengthSubset(cm, cn);
      SameMembersSameCollection(cm, cn);
    case _ =>
  }

  lemma EqualFormsHaveSameShape(a: Value, b: Value)
    requires Canonicalize(a) == Canonicalize(b)
    ensures a.Arr? <==> b.Arr?
    ensures a.Arr? ==> |a.items| == |b.items| && forall i :: 0 <= i < |a.items| ==> Canonicalize(a.items[i]) == Canonicalize(b.items[i])
    ensures a.Obj? <==> b.Obj?
    ensures a.Obj? ==> Collect(KeyOf, CanonicalMembers(a.members)) == Collect(KeyOf, CanonicalMembers(b.members))
    ensures !a.Arr? && !a.Obj? ==> a == b
  {
    if a.Arr? {
      assert |Canonicalize(a).items| == |a.items| && |Canonicalize(b).items| == |b.items|;
      forall i | 0 <= i < |a.items| ensures Canonicalize(a.items[i]) == Canonicalize(b.items[i]) {
        assert Canonicalize(a).items[i] == Canonicalize(b).items[i];
      }
    }
  }

  /** Every member of an object has its canonical counterpart in another object of the same form. */
  lemma MatchingMember(ms: seq<Member>, ns: seq<Member>, i: nat) returns (j: nat)
    requires DistinctBy(KeyOf, ms) && DistinctBy(KeyOf, ns) && i < |ms|
    requires Collect(KeyOf, CanonicalMembers(ms)) == Collect(KeyOf, CanonicalMembers(ns))
    ensures j < |ns| && ms[i].key == ns[j].key && Canonicalize(ms[i].value) == Canonicalize(ns[j].value)
  {
    var cm, cn := CanonicalMembers(ms), CanonicalMembers(ns);
    CanonicalMembersDistinct(ms);
    CanonicalMembersDistinct(ns);
    SameMembersSameCollection(cm, cn);
    assert cm[i] in cn;
    j :| 0 <= j < |cn| && cn[j] == cm[i];
  }

  lemma {:induction false} EqualFormsGiveSame(a: Value, b: Value)
    requires WellFormed(a) && WellFormed(b) && Canonicalize(a) == Canonicalize(b)
    ensures SameUpToOrder(a, b)
    decreases a
  {
    EqualFormsHaveSameShape(a, b);
    match a
    case Arr(xs) =>
      forall i | 0 <= i < |xs| ensures SameUpToOrder(xs[i], b.items[i]) {
        EqualFormsGiveSame(xs[i], b.items[i]);
      }
    case Obj(ms) =>
      var ns := b.members;
      SameFormSameLength(ms, ns);
      forall i | 0 <= i < |ms|
        ensures exists j :: 0 <= j < |ns| && ms[i].key == ns[j].key && SameUpToOrder(ms[i].value, ns[j].value)
      {
        var j := MatchingMember(ms, ns, i);
        EqualFormsGiveSame(ms[i].value, ns[j].value);
      }
    case _ =>
  }

  lemma SameFormSameLength(ms: seq<Member>, ns: seq<Member>)
    requires DistinctBy(KeyOf, ms) && DistinctBy(KeyOf, ns)
    requires Collect(KeyOf, CanonicalMembers(ms)) == Collect(KeyOf, CanonicalMembers(ns))
    ensures |ms| == |ns|
  {
    var cm, cn := CanonicalMembers(ms), CanonicalMembers(ns);
    CanonicalMembersDistinct(ms);
    CanonicalMembersDistinct(ns);
    SameMembersSameCollection(cm, cn);
    SameMembersSameLength(cm, cn);
  }

  lemma SameMembersSameLength(a: seq<Member>, b: seq<Member>)
    requires DistinctBy(KeyOf, a) && DistinctBy(KeyOf, b) && forall m :: m in a <==> m in b
    ensures |a| == |b|
  {
    DistinctSize(a);
    DistinctSize(b);
    assert (set m | m in a) == (set m | m in b);
  }

  /** Two values have one canonical form exactly when they differ in member order only. */
  lemma CanonicalFormIsExact(a: Value, b: Value)
    requires WellFormed(a) && WellFormed(b)
    ensures Canonicalize(a) == Canonicalize(b) <==> SameUpToOrder(a, b)
  {
    if Canonicalize(a) == Canonicalize(b) {
      EqualFormsGiveSame(a, b);
    }
    if SameUpToOrder(a, b) {
      SameGivesEqualForms(a, b);
    }
  }

  lemma CanonicalObject(members: seq<Member>)
    ensures Strict(KeyOf, Collect(KeyOf, CanonicalMembers(members)))
    ensures forall m :: m in Collect(KeyOf, CanonicalMembers(members)) ==>
      exists i :: 0 <= i < |members| && m == Member(members[i].key, Canonicalize(members[i].value))
  {
    var cm := CanonicalMembers(members);
    CollectStrict(KeyOf, cm);
    forall m | m in Collect(KeyOf, cm)
      ensures exists i :: 0 <= i < |members| && m == Member(members[i].key, Canonicalize(members[i].value))
    {
      CollectMembers(KeyOf, cm, m);
      var i :| 0 <= i < |cm| && cm[i] == m;
    }
  }

  /** Canonicalising is idempotent and makes the keys of any value distinct. */
  lemma {:induction false} CanonicalizeIdempotent(v: Value)
    ensures Canonicalize(Canonicalize(v)) == Canonicalize(v)
    ensures WellFormed(Canonicalize(v))
    decreases v
  {
    match v
    case Arr(items) =>
      forall i | 0 <= i < |items|
        ensures Canonicalize(Canonicalize(items[i])) == Canonicalize(items[i]) && WellFormed(Canonicalize(items[i]))
      {
        CanonicalizeIdempotent(items[i]);
      }
      assert Canonicalize(Canonicalize(v)).items == Canonicalize(v).items;
    case Obj(members) =>
      var sorted := Collect(KeyOf, CanonicalMembers(members));
      CanonicalObject(members);
      forall k | 0 <= k < |sorted|
        ensures Canonicalize(sorted[k].value) == sorted[k].value && WellFormed(sorted[k].value)
      {
        assert sorted[k] in sorted;
        var i :| 0 <= i < |members| && sorted[k] == Member(members[i].key, Canonicalize(members[i].value));
        CanonicalizeIdempotent(members[i].value);
      }
      StrictIsDistinct(KeyOf, sorted);
      assert CanonicalMembers(sorted) == sorted;
      CollectOfStrict(KeyOf, sorted);
    case _ =>
  }

  /** At every depth the members of an object go by key. */
  ghost predicate Ordered(v: Value) {
    match v
    case Arr(items) => forall i :: 0 <= i < |items| ==> Ordered(items[i])
    case Obj(members) =>
      && (forall i, j :: 0 <= i < j < |members| ==> Before(members[i].key, members[j].key))
      && forall i :: 0 <= i < |members| ==> Ordered(members[i].value)
    case _ => true
  }

  lemma {:induction false} CanonicalFormIsOrdered(v: Value)
    ensures Ordered(Canonicalize(v))
    decreases v
  {
    match v
    case Arr(items) =>
      forall i | 0 <= i < |items| ensures Ordered(Canonicalize(items[i])) {
        CanonicalFormIsOrdered(items[i]);
      }
    case Obj(members) =>
      var sorted := Collect(KeyOf, CanonicalMembers(members));
      CanonicalObject(members);
      forall k | 0 <= k < |sorted| ensures Ordered(sorted[k].value) {
        assert sorted[k] in sorted;
        var i :| 0 <= i < |members| && sorted[k] == Member(members[i].key, Canonicalize(members[i].value));
        CanonicalFormIsOrdered(members[i].value);
      }
      forall i, j | 0 <= i < j < |sorted| ensures Before(sorted[i].key, sorted[j].key) {
        CompareStrIsLexicographic(KeyOf(sorted[i]), KeyOf(sorted[j]));
      }
    case _ =>
  }

  /** The canonical form says the same thing as the value itself. */
  lemma CanonicalFormKeepsMeaning(v: Value)
    requires WellFormed(v)
    ensures SameUpToOrder(v, Canonicalize(v))
  {
    CanonicalizeIdempotent(v);
    CanonicalFormIsExact(v, Canonicalize(v));
  }

  lemma {:induction false} OrderedIsCanonical(v: Value)
    requires Ordered(v)
    ensures Canonicalize(v) == v
    decreases v
  {
    match v
    case Arr(items) =>
      forall i | 0 <= i < |items| ensures Canonicalize(items[i]) == items[i] {
        OrderedIsCanonical(items[i]);
      }
      assert Canonicalize(v).items == items;
    case Obj(members) =>
      forall i | 0 <= i < |members| ensures Canonicalize(members[i].value) == members[i].value {
        OrderedIsCanonical(members[i].value);
      }
      assert CanonicalMembers(members) == members;
      forall i, j | 0 <= i < j < |members| ensures CompareStr(KeyOf(members[i]), KeyOf(members[j])) == Less {
        CompareStrIsLexicographic(members[i].key, members[j].key);
      }
      CollectOfStrict(KeyOf, members);
    case _ =>
  }

  /** The canonical form is the one value in key order that differs from the given one in member order only. */
  lemma CanonicalFormIsOrderedTwin(v: Value, w: Value)
    requires WellFormed(v)
    ensures Canonicalize(v) == w <==> Ordered(w) && SameUpToOrder(v, w)
  {
    CanonicalFormIsOrdered(v);
    CanonicalFormKeepsMeaning(v);
    if Ordered(w) && SameUpToOrder(v, w) {
      OrderedIsCanonical(w);
      CanonicalizeIdempotent(w);
      CanonicalFormIsExact(v, w);
    }
  }

  // ------------------------------------------------------------------ reading up to member order

  lemma GetIsWellFormed(v: Value, key: string)
    requires WellFormed(v) && Get(v, key).Some?
    ensures WellFormed(Get(v, key).value)
  {
  }

  lemma FindAt(members: seq<Member>, i: nat)
    requires DistinctBy(KeyOf, members) && i < |members|
    ensures Find(members, members[i].key) == Some(members[i].value)
  {
    var found := Find(members, members[i].key);
    var k :| 0 <= k < |members| && members[k].key == members[i].key && members[k].value == found.value;
    assert KeyOf(members[k]) == KeyOf(members[i]);
  }

  lemma FindUpToOrder(ms: seq<Member>, ns: seq<Member>, key: string)
    requires DistinctBy(KeyOf, ms) && DistinctBy(KeyOf, ns) && SameUpToOrder(Obj(ms), Obj(ns))
    ensures Find(ms, key).Some? <==> Find(ns, key).Some?
    ensures Find(ms, key).Some? ==> SameUpToOrder(Find(ms, key).value, Find(ns, key).value)
  {
    if Find(ms, key).Some? {
      var i :| 0 <= i < |ms| && ms[i].key == key && ms[i].value == Find(ms, key).value;
      var j :| 0 <= j < |ns| && ms[i].key == ns[j].key && SameUpToOrder(ms[i].value, ns[j].value);
      FindAt(ns, j);
    }
    if Find(ns, key).Some? {
      var k :| 0 <= k < |ns| && ns[k].key == key;
      KeysCovered(ms, ns, k);
      var i :| 0 <= i < |ms| && ms[i].key == ns[k].key;
      FindAt(ms, i);
    }
  }

  /** Member lookup does not see the order of the members. */
  lemma GetUpToOrder(a: Value, b: Value, key: string)
    requires WellFormed(a) && WellFormed(b) && SameUpToOrder(a, b)
    ensures Get(a, key).Some? <==> Get(b, key).Some?
    ensures Get(a, key).Some? ==> SameUpToOrder(Get(a, key).value, Get(b, key).value)
  {
    if a.Obj? {
      assert a == Obj(a.members) && b == Obj(b.members);
      FindUpToOrder(a.members, b.members, key);
    }
  }

  /** When every key of `ms` occurs in `ns` and the lists are equally long, every key of `ns` occurs in `ms`. */
  lemma KeysCovered(ms: seq<Member>, ns: seq<Member>, k: nat)
    requires DistinctBy(KeyOf, ms) && DistinctBy(KeyOf, ns) && |ms| == |ns| && k < |ns|
    requires forall i :: 0 <= i < |ms| ==> exists j :: 0 <= j < |ns| && ms[i].key == ns[j].key
    ensures exists i :: 0 <= i < |ms| && ms[i].key == ns[k].key
  {
    var a, b := BareKeys(ms), BareKeys(ns);
    forall m | m in a ensures m in b {
      var i :| 0 <= i < |a| && a[i] == m;
      var j :| 0 <= j < |ns| && ms[i].key == ns[j].key;
      assert b[j] == m;
    }
    BareKeysDistinct(ms);
    BareKeysDistinct(ns);
    SameLengthSubset(a, b);
    assert b[k] in a;
    var i :| 0 <= i < |a| && a[i] == b[k];
  }

  function BareKeys(ms: seq<Member>): seq<Member> {
    seq(|ms|, i requires 0 <= i < |ms| => Member(ms[i].key, Null))
  }

  lemma BareKeysDistinct(ms: seq<Member>)
    requires DistinctBy(KeyOf, ms)
    ensures DistinctBy(KeyOf, BareKeys(ms))
  {
    forall i, j | 0 <= i < j < |ms| ensures KeyOf(BareKeys(ms)[i]) != KeyOf(BareKeys(ms)[j]) {
      assert KeyOf(ms[i]) != KeyOf(ms[j]);
    }
  }

  lemma SameTexts(xs: seq<Value>, ys: seq<Value>)
    requires |xs| == |ys| && forall i :: 0 <= i < |xs| ==> SameUpToOrder(xs[i], ys[i])
    ensures Texts(xs) == Texts(ys)
  {
    assert forall i :: 0 <= i < |xs| ==> xs[i].Str? == ys[i].Str? && (xs[i].Str? ==> xs[i] == ys[i]);
    if Texts(xs).Some? || Texts(ys).Some? {
      assert forall i :: 0 <= i < |xs| ==> xs[i].Str? && ys[i].Str?;
      assert Texts(xs).value == Texts(ys).value;
    }
  }

  lemma AccessorsUpToOrder(a: Value, b: Value, key: string)
    requires WellFormed(a) && WellFormed(b) && SameUpToOrder(a, b)
    ensures RequiredStr(a, key) == RequiredStr(b, key)
    ensures Strings(a, key) == Strings(b, key)
  {
    GetUpToOrder(a, b, key);
    if Get(a, key).Some? {
      SameReadings(Get(a, key).value, Get(b, key).value);
    }
  }

  lemma SameReadings(x: Value, y: Value)
    requires SameUpToOrder(x, y)
    ensures AsStr(Some(x)) == AsStr(Some(y))
    ensures x.Arr? == y.Arr? && (x.Arr? ==> Texts(x.items) == Texts(y.items))
  {
    if x.Arr? {
      SameTexts(x.items, y.items);
    }
  }
}
