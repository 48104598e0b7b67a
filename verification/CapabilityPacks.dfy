/**
 Capability packs of check-capability-pack-composition: validating the declared packs and
 merging a selection of them into one capability list under an approval policy.
 */
module CapabilityPacks {
  import opened Text
  import opened Order
  import opened Json

  const DANGEROUS := ["mutate_project", "shell", "network", "raw-log", "secret-adjacent"]
  const SAFE_PACKS := ["embedding_safe", "read_only", "networkless_coding"]
  const ALLOW_DANGEROUS := "allow-dangerous-with-human-approval"

  type Packs = map<string, Value>

  // ------------------------------------------------------------------ one pack

  predicate HoldsDangerous(capabilities: seq<string>) {
    exists i :: 0 <= i < |capabilities| && capabilities[i] in DANGEROUS
  }

  predicate Subset(capabilities: seq<string>, order: seq<string>) {
    forall i :: 0 <= i < |capabilities| ==> capabilities[i] in order
  }

  function CapabilitiesOf(pack: Value): Option<seq<string>> {
    Strings(pack, "capabilities")
  }

  predicate MarkedDangerous(pack: Value) {
    AsBoolOrFalse(Get(pack, "dangerous"))
  }

  predicate NeedsApproval(pack: Value) {
    AsBoolOrFalse(Get(pack, "requires_human_approval"))
  }

  predicate IsDangerous(pack: Value) {
    (CapabilitiesOf(pack).Some? && HoldsDangerous(CapabilitiesOf(pack).value)) || MarkedDangerous(pack)
  }

  /** `merge_priority` must be an integer that fits 64 bits. */
  predicate HasPriority(pack: Value) {
    var p := Get(pack, "merge_priority");
    p.Some? && p.value.Int? && -0x8000_0000_0000_0000 <= p.value.i < 0x8000_0000_0000_0000
  }

  // ------------------------------------------------------------------ merging

  /** The pack is known, its capabilities are readable and listed, and its danger is covered by the policy. */
  predicate Selectable(policy: string, packs: Packs, order: seq<string>, name: string) {
    && name in packs
    && CapabilitiesOf(packs[name]).Some?
    && Subset(CapabilitiesOf(packs[name]).value, order)
    && (IsDangerous(packs[name]) ==> policy == ALLOW_DANGEROUS && NeedsApproval(packs[name]))
  }

  predicate AllSelectable(policy: string, names: seq<string>, packs: Packs, order: seq<string>) {
    forall i :: 0 <= i < |names| ==> Selectable(policy, packs, order, names[i])
  }

  /** Some selected pack has this capability. */
  predicate Contributed(names: seq<string>, packs: Packs, capability: string) {
    exists i :: 0 <= i < |names| && names[i] in packs
      && CapabilitiesOf(packs[names[i]]).Some? && capability in CapabilitiesOf(packs[names[i]]).value
  }

  /** The merged capabilities in capability order; nothing when any selected pack is refused. */
  function Merge(policy: string, names: seq<string>, packs: Packs, order: seq<string>): Option<seq<string>> {
    if AllSelectable(policy, names, packs, order) then Some(Filter(c => Contributed(names, packs, c), order)) else None
  }

  method MergePacks(policy: string, names: seq<string>, packs: Packs, order: seq<string>) returns (r: Option<seq<string>>)
    ensures r == Merge(policy, names, packs, order)
  {
    var selected: set<string> := {};
    for i := 0 to |names|
      invariant AllSelectable(policy, names[..i], packs, order)
      invariant forall c :: c in selected <==> Contributed(names[..i], packs, c)
    {
      var name := names[i];
      assert names[..i + 1] == names[..i] + [name];
      if name !in packs {
        return None;
      }
      var pack := packs[name];
      var capabilities := CapabilitiesOf(pack);
      if capabilities.None? {
        return None;
      }
      if IsDangerous(pack) && (policy != ALLOW_DANGEROUS || !NeedsApproval(pack)) {
        return None;
      }
      ghost var before := selected;
      for k := 0 to |capabilities.value|
        invariant Subset(capabilities.value[..k], order)
        invariant forall c :: c in selected <==> c in before || c in capabilities.value[..k]
      {
        var capability := capabilities.value[k];
        assert capabilities.value[..k + 1] == capabilities.value[..k] + [capability];
        if capability !in order {
          return None;
        }
        selected := selected + {capability};
      }
      assert capabilities.value[..|capabilities.value|] == capabilities.value;
      ContributedSnoc(names[..i], name, packs);
    }
    assert names[..|names|] == names;
    var merged := [];
    for j := 0 to |order|
      invariant merged == Filter(c => Contributed(names, packs, c), order[..j])
    {
      FilterAppend(c => Contributed(names, packs, c), order[..j], [order[j]]);
      assert order[..j + 1] == order[..j] + [order[j]];
      if order[j] in selected {
        merged := merged + [order[j]];
      }
    }
    assert order[..|order|] == order;
    return Some(merged);
  }

  lemma ContributedSnoc(names: seq<string>, name: string, packs: Packs)
    requires name in packs && CapabilitiesOf(packs[name]).Some?
    ensures forall c :: Contributed(names + [name], packs, c) <==>
      Contributed(names, packs, c) || c in CapabilitiesOf(packs[name]).value
  {
    forall c ensures Contributed(names + [name], packs, c) <==> Contributed(names, packs, c) || c in CapabilitiesOf(packs[name]).value {
      ContributedAppend(names, [name], packs, c);
      assert [name][0] == name;
    }
  }

  lemma ContributedAppend(a: seq<string>, b: seq<string>, packs: Packs, c: string)
    ensures Contributed(a + b, packs, c) <==> Contributed(a, packs, c) || Contributed(b, packs, c)
  {
    if Contributed(a, packs, c) {
      var i :| 0 <= i < |a| && a[i] in packs && CapabilitiesOf(packs[a[i]]).Some? && c in CapabilitiesOf(packs[a[i]]).value;
      assert (a + b)[i] == a[i];
    }
    if Contributed(b, packs, c) {
      var i :| 0 <= i < |b| && b[i] in packs && CapabilitiesOf(packs[b[i]]).Some? && c in CapabilitiesOf(packs[b[i]]).value;
      assert (a + b)[|a| + i] == b[i];
    }
  }

  // ------------------------------------------------------------------ algebra of merging

  lemma MergedMember(policy: string, names: seq<string>, packs: Packs, order: seq<string>, c: string)
    requires Merge(policy, names, packs, order).Some?
    ensures c in Merge(policy, names, packs, order).value <==> c in order && Contributed(names, packs, c)
  {
    FilterMember(c => Contributed(names, packs, c), order, c);
  }

  function PolicyOf(composition: Value): Option<string> {
    RequiredStr(composition, "approval_policy")
  }

  function NamesOf(composition: Value): Option<seq<string>> {
    Strings(composition, "packs")
  }

  /** `merge` on a composition: its policy and its pack names must be readable as well. */
  method MergeComposition(composition: Value, packs: Packs, order: seq<string>) returns (r: Option<seq<string>>)
    ensures PolicyOf(composition).None? || NamesOf(composition).None? ==> r == None
    ensures PolicyOf(composition).Some? && NamesOf(composition).Some? ==>
      r == Merge(PolicyOf(composition).value, NamesOf(composition).value, packs, order)
    ensures r.Some? ==> forall c :: c in r.value <==> c in order && Contributed(NamesOf(composition).value, packs, c)
  {
    var policy, names := PolicyOf(composition), NamesOf(composition);
    if policy.None? || names.None? {
      return None;
    }
    r := MergePacks(policy.value, names.value, packs, order);
    if r.Some? {
      forall c ensures c in r.value <==> c in order && Contributed(names.value, packs, c) {
        MergedMember(policy.value, names.value, packs, order, c);
      }
    }
  }

  /**
   Merging is a homomorphism: two selections merge together exactly when each merges alone,
   and the result is the capability-order listing of the union.
   */
  lemma MergeIsHomomorphism(policy: string, a: seq<string>, b: seq<string>, packs: Packs, order: seq<string>)
    ensures Merge(policy, a + b, packs, order).Some? <==> Merge(policy, a, packs, order).Some? && Merge(policy, b, packs, order).Some?
    ensures Merge(policy, a + b, packs, order).Some? ==>
      var x, y := Merge(policy, a, packs, order).value, Merge(policy, b, packs, order).value;
      Merge(policy, a + b, packs, order).value == Filter(c => c in x || c in y, order)
  {
    if AllSelectable(policy, a + b, packs, order) {
      forall i | 0 <= i < |a| ensures Selectable(policy, packs, order, a[i]) {
        assert (a + b)[i] == a[i];
      }
      forall i | 0 <= i < |b| ensures Selectable(policy, packs, order, b[i]) {
        assert (a + b)[|a| + i] == b[i];
      }
      var x, y := Merge(policy, a, packs, order).value, Merge(policy, b, packs, order).value;
      forall c | c in order ensures Contributed(a + b, packs, c) <==> c in x || c in y {
        ContributedAppend(a, b, packs, c);
        MergedMember(policy, a, packs, order, c);
        MergedMember(policy, b, packs, order, c);
      }
      FilterAgree(c => Contributed(a + b, packs, c), c => c in x || c in y, order);
    }
  }

  lemma {:induction false} FilterAgree(p: string -> bool, q: string -> bool, s: seq<string>)
    requires forall c :: c in s ==> p(c) == q(c)
    ensures Filter(p, s) == Filter(q, s)
  {
    if s != [] {
      assert s[0] in s;
      FilterAgree(p, q, s[1..]);
    }
  }

  /** Neither the order nor the repetition of pack names changes the result. */
  lemma MergeIgnoresOrderAndRepetition(policy: string, a: seq<string>, b: seq<string>, packs: Packs, order: seq<string>)
    requires forall name :: name in a <==> name in b
    ensures Merge(policy, a, packs, order) == Merge(policy, b, packs, order)
  {
    forall c ensures Contributed(a, packs, c) <==> Contributed(b, packs, c) {
      ContributedWithin(a, b, packs, c);
      ContributedWithin(b, a, packs, c);
    }
    SelectableWithin(policy, a, b, packs, order);
    SelectableWithin(policy, b, a, packs, order);
    FilterAgree(c => Contributed(a, packs, c), c => Contributed(b, packs, c), order);
  }

  lemma ContributedWithin(a: seq<string>, b: seq<string>, packs: Packs, c: string)
    requires forall name :: name in a ==> name in b
    ensures Contributed(a, packs, c) ==> Contributed(b, packs, c)
  {
    if Contributed(a, packs, c) {
      var i :| 0 <= i < |a| && a[i] in packs && CapabilitiesOf(packs[a[i]]).Some? && c in CapabilitiesOf(packs[a[i]]).value;
      assert a[i] in b;
      var j :| 0 <= j < |b| && b[j] == a[i];
    }
  }

  lemma SelectableWithin(policy: string, a: seq<string>, b: seq<string>, packs: Packs, order: seq<string>)
    requires forall name :: name in b ==> name in a
    ensures AllSelectable(policy, a, packs, order) ==> AllSelectable(policy, b, packs, order)
  {
    if AllSelectable(policy, a, packs, order) {
      forall j | 0 <= j < |b| ensures Selectable(policy, packs, order, b[j]) {
        assert b[j] in a;
        var i :| 0 <= i < |a| && a[i] == b[j];
      }
    }
  }

  /** Selecting more packs never removes a capability. */
  lemma MergeIsMonotone(policy: string, a: seq<string>, b: seq<string>, packs: Packs, order: seq<string>, c: string)
    requires Merge(policy, a + b, packs, order).Some?
    ensures Merge(policy, a, packs, order).Some?
    ensures c in Merge(policy, a, packs, order).value ==> c in Merge(policy, a + b, packs, order).value
  {
    MergeIsHomomorphism(policy, a, b, packs, order);
    MergedMember(policy, a, packs, order, c);
    MergedMember(policy, a + b, packs, order, c);
    ContributedAppend(a, b, packs, c);
  }

  /**
   Merging fails closed, for any pack map: every merged capability belongs to a selected pack,
   and a dangerous one only under the approving policy and from a pack that asks for approval.
   */
  lemma MergeFailsClosed(policy: string, names: seq<string>, packs: Packs, order: seq<string>, c: string)
    requires Merge(policy, names, packs, order).Some? && c in Merge(policy, names, packs, order).value
    ensures Contributed(names, packs, c)
    ensures c in DANGEROUS ==> policy == ALLOW_DANGEROUS
    ensures c in DANGEROUS ==>
      forall i :: 0 <= i < |names| && c in CapabilitiesOf(packs[names[i]]).value ==> NeedsApproval(packs[names[i]])
  {
    MergedMember(policy, names, packs, order, c);
    if c in DANGEROUS {
      forall i | 0 <= i < |names| && c in CapabilitiesOf(packs[names[i]]).value
        ensures policy == ALLOW_DANGEROUS && NeedsApproval(packs[names[i]])
      {
        assert Selectable(policy, packs, order, names[i]);
        var capabilities := CapabilitiesOf(packs[names[i]]).value;
        var k :| 0 <= k < |capabilities| && capabilities[k] == c;
        assert HoldsDangerous(capabilities);
      }
    }
  }

  // ------------------------------------------------------------------ packs, member by member

  /** Some capability of the list is one of the dangerous ones. */
  predicate AnyDangerous(capabilities: seq<string>) {
    exists c :: c in capabilities && c in DANGEROUS
  }

  /** The flags of a pack count only as the literal `true`, and its capabilities only as a list of strings. */
  lemma PackIsReadExactly(pack: Value)
    requires WellFormed(pack)
    ensures forall cs :: CapabilitiesOf(pack) == Some(cs) <==> HasMember(pack, "capabilities", TextList(cs))
    ensures MarkedDangerous(pack) <==> HasMember(pack, "dangerous", Bool(true))
    ensures NeedsApproval(pack) <==> HasMember(pack, "requires_human_approval", Bool(true))
    ensures HasPriority(pack) <==> exists i :: -0x8000_0000_0000_0000 <= i < 0x8000_0000_0000_0000 && HasMember(pack, "merge_priority", Int(i))
  {
    AccessorsAreExact(pack, "capabilities");
    AccessorsAreExact(pack, "dangerous");
    AccessorsAreExact(pack, "requires_human_approval");
    AccessorsAreExact(pack, "merge_priority");
  }

  /** The pack may be merged: its capabilities are listed, and any danger is covered by the policy and by the pack's own flag. */
  ghost predicate MayBeMerged(policy: string, pack: Value, order: seq<string>, capabilities: seq<string>) {
    && HasMember(pack, "capabilities", TextList(capabilities))
    && (forall c :: c in capabilities ==> c in order)
    && (AnyDangerous(capabilities) || HasMember(pack, "dangerous", Bool(true)) ==>
          policy == "allow-dangerous-with-human-approval" && HasMember(pack, "requires_human_approval", Bool(true)))
  }

  lemma SelectableIsExact(policy: string, packs: Packs, order: seq<string>, name: string)
    requires name in packs ==> WellFormed(packs[name])
    ensures Selectable(policy, packs, order, name) <==>
      name in packs && exists capabilities :: MayBeMerged(policy, packs[name], order, capabilities)
  {
    if name in packs {
      var pack := packs[name];
      PackIsReadExactly(pack);
      if CapabilitiesOf(pack).Some? {
        var capabilities := CapabilitiesOf(pack).value;
        DangerIsExact(capabilities);
        assert Selectable(policy, packs, order, name) ==> MayBeMerged(policy, pack, order, capabilities);
      }
    }
  }

  lemma DangerIsExact(capabilities: seq<string>)
    ensures HoldsDangerous(capabilities) <==> AnyDangerous(capabilities)
  {
    if AnyDangerous(capabilities) {
      var c :| c in capabilities && c in DANGEROUS;
      var i :| 0 <= i < |capabilities| && capabilities[i] == c;
    }
  }

  /** A named pack has this capability in its list. */
  ghost predicate Offers(names: seq<string>, packs: Packs, c: string) {
    exists name, capabilities ::
      name in names && name in packs && HasMember(packs[name], "capabilities", TextList(capabilities)) && c in capabilities
  }

  /** A merge succeeds exactly when every named pack may be merged, and then holds the offered capabilities in listed order. */
  lemma MergeIsExact(policy: string, names: seq<string>, packs: Packs, order: seq<string>)
    requires forall name :: name in packs ==> WellFormed(packs[name])
    ensures Merge(policy, names, packs, order).Some? <==>
      forall name :: name in names ==> name in packs && exists capabilities :: MayBeMerged(policy, packs[name], order, capabilities)
    ensures Merge(policy, names, packs, order).Some? ==>
      forall c :: c in Merge(policy, names, packs, order).value <==> c in order && Offers(names, packs, c)
  {
    forall name ensures Selectable(policy, packs, order, name) <==>
      name in packs && exists capabilities :: MayBeMerged(policy, packs[name], order, capabilities)
    {
      SelectableIsExact(policy, packs, order, name);
    }
    if Merge(policy, names, packs, order).Some? {
      forall c ensures c in Merge(policy, names, packs, order).value <==> c in order && Offers(names, packs, c) {
        MergedMember(policy, names, packs, order, c);
        OffersIsExact(names, packs, c);
      }
    }
  }

  lemma OffersIsExact(names: seq<string>, packs: Packs, c: string)
    requires forall name :: name in packs ==> WellFormed(packs[name])
    ensures Contributed(names, packs, c) <==> Offers(names, packs, c)
  {
    if Contributed(names, packs, c) {
      var i :| 0 <= i < |names| && names[i] in packs && CapabilitiesOf(packs[names[i]]).Some? && c in CapabilitiesOf(packs[names[i]]).value;
      PackIsReadExactly(packs[names[i]]);
      assert names[i] in names;
    }
    if Offers(names, packs, c) {
      var name, capabilities :|
        name in names && name in packs && HasMember(packs[name], "capabilities", TextList(capabilities)) && c in capabilities;
      PackIsReadExactly(packs[name]);
      var i :| 0 <= i < |names| && names[i] == name;
    }
  }

  // ------------------------------------------------------------------ validated packs

  datatype Named = Named(name: string, pack: Value)

  predicate PackAccepted(pack: Value, order: seq<string>) {
    var name, capabilities := RequiredStr(pack, "name"), CapabilitiesOf(pack);
    && name.Some? && capabilities.Some? && Subset(capabilities.value, order)
    && !(name.value in SAFE_PACKS && HoldsDangerous(capabilities.value))
    && (HoldsDangerous(capabilities.value) ==> MarkedDangerous(pack) && NeedsApproval(pack))
    && HasPriority(pack)
  }

  /** A pack that passes its own checks, with its name. */
  function Check(pack: Value, order: seq<string>): Option<Named> {
    if PackAccepted(pack, order) then Some(Named(RequiredStr(pack, "name").value, pack)) else None
  }

  /** The pack names itself, lists known capabilities only, and is marked and guarded if it is dangerous. */
  ghost predicate WellDeclared(pack: Value, order: seq<string>, name: string, capabilities: seq<string>) {
    && name != "" && HasMember(pack, "name", Str(name)) && HasMember(pack, "capabilities", TextList(capabilities))
    && (forall c :: c in capabilities ==> c in order)
    && (AnyDangerous(capabilities) ==>
          && name !in ["embedding_safe", "read_only", "networkless_coding"]
          && HasMember(pack, "dangerous", Bool(true)) && HasMember(pack, "requires_human_approval", Bool(true)))
    && exists i :: -0x8000_0000_0000_0000 <= i < 0x8000_0000_0000_0000 && HasMember(pack, "merge_priority", Int(i))
  }

  /** A pack is accepted under a name exactly when its members declare it well. */
  lemma CheckIsExact(pack: Value, order: seq<string>, r: Named)
    requires WellFormed(pack)
    ensures Check(pack, order) == Some(r) <==> r.pack == pack && exists capabilities :: WellDeclared(pack, order, r.name, capabilities)
  {
    if Check(pack, order) == Some(r) {
      DeclarationIsExact(pack, order, r.name, CapabilitiesOf(pack).value);
    }
    if r.pack == pack && exists capabilities :: WellDeclared(pack, order, r.name, capabilities) {
      var capabilities :| WellDeclared(pack, order, r.name, capabilities);
      DeclarationIsExact(pack, order, r.name, capabilities);
    }
  }

  lemma DeclarationIsExact(pack: Value, order: seq<string>, name: string, capabilities: seq<string>)
    requires WellFormed(pack)
    ensures WellDeclared(pack, order, name, capabilities) <==>
      PackAccepted(pack, order) && RequiredStr(pack, "name") == Some(name) && CapabilitiesOf(pack) == Some(capabilities)
  {
    PackIsReadExactly(pack);
    AccessorsAreExact(pack, "name");
    DangerIsExact(capabilities);
  }

  function Checks(packs: seq<Value>, order: seq<string>): seq<Option<Named>> {
    seq(|packs|, i requires 0 <= i < |packs| => Check(packs[i], order))
  }

  predicate AllSome(items: seq<Option<Named>>) {
    forall i :: 0 <= i < |items| ==> items[i].Some?
  }

  predicate NewName(items: seq<Option<Named>>, i: nat)
    requires AllSome(items) && i < |items|
  {
    forall j :: 0 <= j < i ==> items[j].value.name != items[i].value.name
  }

  /** Every pack is accepted and no name is used twice. */
  predicate Accepted(items: seq<Option<Named>>) {
    AllSome(items) && forall i :: 0 <= i < |items| ==> NewName(items, i)
  }

  /** The map holds every pack under its own name and nothing else. */
  predicate Indexes(m: Packs, items: seq<Option<Named>>)
    requires AllSome(items)
  {
    && (forall i :: 0 <= i < |items| ==> items[i].value.name in m && m[items[i].value.name] == items[i].value.pack)
    && (forall name :: name in m ==> exists i :: 0 <= i < |items| && items[i].value.name == name)
  }

  method CollectPacks(items: seq<Option<Named>>) returns (r: Option<Packs>)
    ensures r.Some? <==> Accepted(items)
    ensures r.Some? ==> Indexes(r.value, items)
  {
    var m: Packs := map[];
    for i := 0 to |items|
      invariant AllSome(items[..i]) && Accepted(items[..i]) && Indexes(m, items[..i])
    {
      assert items[..i + 1] == items[..i] + [items[i]];
      if items[i].None? {
        return None;
      }
      var name := items[i].value.name;
      if name in m {
        ghost var j :| 0 <= j < i && items[..i][j].value.name == name;
        assert AllSome(items) ==> !NewName(items, i);
        return None;
      }
      ExtendIndex(m, items[..i], items[i].value);
      m := m[name := items[i].value.pack];
    }
    assert items[..|items|] == items;
    return Some(m);
  }

  lemma ExtendIndex(m: Packs, items: seq<Option<Named>>, next: Named)
    requires Accepted(items) && Indexes(m, items) && next.name !in m
    ensures Accepted(items + [Some(next)]) && Indexes(m[next.name := next.pack], items + [Some(next)])
  {
    var all := items + [Some(next)];
    var m' := m[next.name := next.pack];
    forall i | 0 <= i < |all| ensures NewName(all, i) {
      if i < |items| {
        assert NewName(items, i);
      }
    }
    forall name | name in m' ensures exists i :: 0 <= i < |all| && all[i].value.name == name {
      if name == next.name {
        assert all[|items|].value.name == name;
      } else {
        var i :| 0 <= i < |items| && items[i].value.name == name;
        assert all[i] == items[i];
      }
    }
  }

  method CheckPack(pack: Value, order: seq<string>) returns (r: Option<Named>)
    ensures r == Check(pack, order)
  {
    var name := RequiredStr(pack, "name");
    var capabilities := CapabilitiesOf(pack);
    if name.None? || capabilities.None? {
      return None;
    }
    for k := 0 to |capabilities.value|
      invariant forall j :: 0 <= j < k ==> capabilities.value[j] in order
    {
      if capabilities.value[k] !in order {
        return None;
      }
    }
    if name.value in SAFE_PACKS && HoldsDangerous(capabilities.value) {
      return None;
    }
    if HoldsDangerous(capabilities.value) && (!MarkedDangerous(pack) || !NeedsApproval(pack)) {
      return None;
    }
    return if HasPriority(pack) then Some(Named(name.value, pack)) else None;
  }

  /** The packs are accepted exactly when each is and no two share a name; the result then indexes them by name. */
  method ValidatePacks(packs: seq<Value>, order: seq<string>) returns (r: Option<Packs>)
    ensures r.Some? <==> Accepted(Checks(packs, order))
    ensures r.Some? ==> Indexes(r.value, Checks(packs, order))
  {
    var items: seq<Option<Named>> := [];
    ghost var all := Checks(packs, order);
    for i := 0 to |packs|
      invariant items == all[..i]
    {
      var next := CheckPack(packs[i], order);
      assert all[i] == next;
      items := items + [next];
    }
    assert items == all;
    r := CollectPacks(items);
  }

  /**
   Over validated packs a merge can fail only for an unknown name or for danger that the policy
   does not cover: an unreadable or unlisted capability is never the reason.
   */
  lemma MergeOverValidatedPacks(packs: seq<Value>, m: Packs, order: seq<string>, policy: string, names: seq<string>)
    requires Accepted(Checks(packs, order)) && Indexes(m, Checks(packs, order))
    ensures Merge(policy, names, m, order).Some? <==>
      forall i :: 0 <= i < |names| ==>
        names[i] in m && (MarkedDangerous(m[names[i]]) ==> policy == ALLOW_DANGEROUS && NeedsApproval(m[names[i]]))
  {
    forall name | name in m
      ensures Selectable(policy, m, order, name) <==> (MarkedDangerous(m[name]) ==> policy == ALLOW_DANGEROUS && NeedsApproval(m[name]))
    {
      IndexedPackAccepted(packs, m, order, name);
      AcceptedIsSelectable(policy, m, order, name);
    }
  }

  lemma IndexedPackAccepted(packs: seq<Value>, m: Packs, order: seq<string>, name: string)
    requires Accepted(Checks(packs, order)) && Indexes(m, Checks(packs, order)) && name in m
    ensures PackAccepted(m[name], order)
  {
    var items := Checks(packs, order);
    var i :| 0 <= i < |items| && items[i].value.name == name;
    assert items[i] == Check(packs[i], order);
  }

  lemma AcceptedIsSelectable(policy: string, m: Packs, order: seq<string>, name: string)
    requires name in m && PackAccepted(m[name], order)
    ensures Selectable(policy, m, order, name) <==> (MarkedDangerous(m[name]) ==> policy == ALLOW_DANGEROUS && NeedsApproval(m[name]))
  {
  }
}
