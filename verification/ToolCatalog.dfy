/**
 Tool manifests of check-tool-catalog-manifest: each tool is validated and normalised, and
 the normalised list is what gets hashed. The theorems say what the normal form forgets
 (tool order, capability order and repetition, member order) and that it forgets nothing else.
 */
module ToolCatalog {
  import opened Text
  import opened Order
  import opened SortedMap
  import opened Json

  datatype NormalTool = NormalTool(
    name: string, description: string, runtime: string, capabilities: seq<string>,
    approval: string, redaction: string, inputSchema: Value)

  const SAFE_CAPABILITIES := ["observe", "read_project"]
  const DANGEROUS_CAPABILITIES := ["mutate", "shell", "network", "raw-log", "secret-adjacent"]
  const RUNTIMES := ["product-owned", "stdio", "extism", "built-in"]

  // ------------------------------------------------------------------ one tool

  /** The members of a tool that are read, each as the accessor returns it. */
  datatype ToolView = ToolView(
    name: Option<string>, description: Option<string>, runtime: Option<string>,
    approval: Option<string>, redaction: Option<string>, schema: Option<Value>,
    capabilities: Option<seq<string>>, declaration: Option<Value>, declared: Option<seq<string>>)

  function View(tool: Value): ToolView {
    ToolView(
      RequiredStr(tool, "name"), RequiredStr(tool, "description"), RequiredStr(tool, "runtime"),
      RequiredStr(tool, "approval"), RequiredStr(tool, "redaction"), Get(tool, "input_schema"),
      Strings(tool, "capabilities"), Get(tool, "declared_dangerous_capabilities"),
      Strings(tool, "declared_dangerous_capabilities"))
  }

  predicate SchemaAccepted(schema: Value) {
    schema.Obj? &&
    var properties := Get(schema, "properties");
    properties.Some? ==> properties.value.Obj?
  }

  predicate CapabilityAccepted(v: ToolView, capability: string) {
    && (capability in SAFE_CAPABILITIES || capability in DANGEROUS_CAPABILITIES)
    && (capability in DANGEROUS_CAPABILITIES ==>
          v.approval == Some("always") && (v.declared.Some? ==> capability in v.declared.value))
  }

  /** What `validate_tool` demands of a tool. A declaration, where there is one, must be a list of strings. */
  predicate ViewAccepted(v: ToolView) {
    && v.name.Some? && v.description.Some? && Trim(v.description.value) != ""
    && v.runtime.Some? && v.runtime.value in RUNTIMES
    && v.schema.Some? && SchemaAccepted(v.schema.value)
    && v.capabilities.Some? && v.approval.Some? && v.redaction.Some?
    && (v.declaration.Some? ==> v.declared.Some?)
    && (forall c :: c in v.capabilities.value ==> CapabilityAccepted(v, c))
    && ("secret-adjacent" in v.capabilities.value ==> v.redaction != Some("none"))
  }

  method ValidateView(v: ToolView) returns (ok: bool)
    ensures ok <==> ViewAccepted(v)
  {
    if v.name.None? || v.description.None? || Trim(v.description.value) == "" {
      return false;
    }
    if v.runtime.None? || v.runtime.value !in RUNTIMES {
      return false;
    }
    if v.schema.None? || !SchemaAccepted(v.schema.value) {
      return false;
    }
    if v.capabilities.None? || v.approval.None? || v.redaction.None? || (v.declaration.Some? && v.declared.None?) {
      return false;
    }
    var capabilities := SortedSet(v.capabilities.value);
    forall c ensures c in capabilities <==> c in v.capabilities.value {
      SortedSetMember(v.capabilities.value, c);
    }
    for i := 0 to |capabilities|
      invariant forall j :: 0 <= j < i ==> CapabilityAccepted(v, capabilities[j])
    {
      var capability := capabilities[i];
      assert capability in v.capabilities.value;
      if capability !in SAFE_CAPABILITIES && capability !in DANGEROUS_CAPABILITIES {
        return false;
      }
      if capability in DANGEROUS_CAPABILITIES {
        if v.approval.value != "always" {
          return false;
        }
        if v.declared.Some? && capability !in v.declared.value {
          return false;
        }
      }
    }
    return !("secret-adjacent" in capabilities && v.redaction.value == "none");
  }

  function NormalView(v: ToolView): NormalTool
    requires ViewAccepted(v)
  {
    NormalTool(
      v.name.value, v.description.value, v.runtime.value, SortedSet(v.capabilities.value),
      v.approval.value, v.redaction.value, Canonicalize(v.schema.value))
  }

  /** A valid tool in normal form; nothing for a tool that is rejected. */
  function Normalize(tool: Value): Option<NormalTool> {
    if ViewAccepted(View(tool)) then Some(NormalView(View(tool))) else None
  }

  method NormalizeTool(tool: Value) returns (r: Option<NormalTool>)
    ensures r == Normalize(tool)
  {
    var ok := ValidateView(View(tool));
    if !ok {
      return None;
    }
    return Some(NormalView(View(tool)));
  }

  // ------------------------------------------------------------------ one tool, member by member

  /** The declared dangerous capabilities, where there are any, are a list of strings with all of these. */
  ghost predicate Declares(tool: Value, capabilities: seq<string>) {
    forall x :: HasMember(tool, "declared_dangerous_capabilities", x) ==>
      exists declared :: x == TextList(declared) && forall c :: c in capabilities && c in DANGEROUS_CAPABILITIES ==> c in declared
  }

  /** The fields come from the members of their names. */
  ghost predicate TakenFrom(tool: Value, r: NormalTool) {
    && HasMember(tool, "name", Str(r.name)) && HasMember(tool, "description", Str(r.description))
    && HasMember(tool, "runtime", Str(r.runtime)) && HasMember(tool, "approval", Str(r.approval))
    && HasMember(tool, "redaction", Str(r.redaction))
    && exists schema, capabilities ::
      && HasMember(tool, "input_schema", schema) && HasMember(tool, "capabilities", TextList(capabilities))
      && SameUpToOrder(schema, r.inputSchema) && SameElements(capabilities, r.capabilities)
  }

  /** The values are ones the policy allows. */
  ghost predicate Permitted(r: NormalTool) {
    && r.name != "" && Trim(r.description) != "" && r.approval != "" && r.redaction != ""
    && r.runtime in ["product-owned", "stdio", "extism", "built-in"]
    && r.inputSchema.Obj? && (forall x :: HasMember(r.inputSchema, "properties", x) ==> x.Obj?)
    && (forall c :: c in r.capabilities ==> c in SAFE_CAPABILITIES || c in DANGEROUS_CAPABILITIES)
    && ((exists c :: c in r.capabilities && c in DANGEROUS_CAPABILITIES) ==> r.approval == "always")
    && ("secret-adjacent" in r.capabilities ==> r.redaction != "none")
  }

  /** A tool has this normal form exactly when the form holds the tool's own members, in order, and they are permitted. */
  lemma NormalToolIsTakenFromMembers(tool: Value, r: NormalTool)
    requires WellFormed(tool)
    ensures Normalize(tool) == Some(r) <==>
      TakenFrom(tool, r) && Permitted(r) && Declares(tool, r.capabilities) && Ordered(r.inputSchema) && Ascending(r.capabilities)
  {
    if Normalize(tool) == Some(r) {
      NormalFieldsAreMembers(tool, r);
    }
    if TakenFrom(tool, r) && Permitted(r) && Declares(tool, r.capabilities) && Ordered(r.inputSchema) && Ascending(r.capabilities) {
      MembersAreNormalized(tool, r);
    }
  }

  /** The texts read from a tool, as members. */
  lemma ViewIsExact(tool: Value)
    requires WellFormed(tool)
    ensures
      var v := View(tool);
      && (forall s :: v.name == Some(s) <==> s != "" && HasMember(tool, "name", Str(s)))
      && (forall s :: v.description == Some(s) <==> s != "" && HasMember(tool, "description", Str(s)))
      && (forall s :: v.runtime == Some(s) <==> s != "" && HasMember(tool, "runtime", Str(s)))
      && (forall s :: v.approval == Some(s) <==> s != "" && HasMember(tool, "approval", Str(s)))
      && (forall s :: v.redaction == Some(s) <==> s != "" && HasMember(tool, "redaction", Str(s)))
      && (forall x :: v.schema == Some(x) <==> HasMember(tool, "input_schema", x))
      && (forall s :: v.capabilities == Some(s) <==> HasMember(tool, "capabilities", TextList(s)))
      && (forall x :: v.declaration == Some(x) <==> HasMember(tool, "declared_dangerous_capabilities", x))
      && (forall s :: v.declared == Some(s) <==> HasMember(tool, "declared_dangerous_capabilities", TextList(s)))
  {
    AccessorsAreExact(tool, "name");
    AccessorsAreExact(tool, "description");
    AccessorsAreExact(tool, "runtime");
    AccessorsAreExact(tool, "approval");
    AccessorsAreExact(tool, "redaction");
    AccessorsAreExact(tool, "input_schema");
    AccessorsAreExact(tool, "capabilities");
    AccessorsAreExact(tool, "declared_dangerous_capabilities");
  }

  lemma NormalFieldsAreMembers(tool: Value, r: NormalTool)
    requires WellFormed(tool) && Normalize(tool) == Some(r)
    ensures TakenFrom(tool, r) && Permitted(r) && Declares(tool, r.capabilities) && Ordered(r.inputSchema) && Ascending(r.capabilities)
  {
    var v := View(tool);
    ViewIsExact(tool);
    GetIsWellFormed(tool, "input_schema");
    CanonicalFormIsOrderedTwin(v.schema.value, r.inputSchema);
    SortedSetIsAscending(v.capabilities.value, r.capabilities);
    AcceptedIsPermitted(v);
    assert HasMember(tool, "input_schema", v.schema.value) && HasMember(tool, "capabilities", TextList(v.capabilities.value));
    forall x | HasMember(tool, "declared_dangerous_capabilities", x)
      ensures exists declared :: x == TextList(declared) && forall c :: c in r.capabilities && c in DANGEROUS_CAPABILITIES ==> c in declared
    {
      var declared := v.declared.value;
      assert v.declaration == Some(x);
      assert HasMember(tool, "declared_dangerous_capabilities", TextList(declared));
      assert forall c :: c in r.capabilities ==> CapabilityAccepted(v, c);
    }
  }

  lemma AcceptedIsPermitted(v: ToolView)
    requires ViewAccepted(v) && v.name != Some("") && v.approval != Some("") && v.redaction != Some("") && WellFormed(v.schema.value)
    ensures Permitted(NormalView(v))
  {
    var schema := Canonicalize(v.schema.value);
    SortedSetIsAscending(v.capabilities.value, SortedSet(v.capabilities.value));
    CanonicalFormKeepsMeaning(v.schema.value);
    CanonicalizeIdempotent(v.schema.value);
    SchemaUpToOrder(v.schema.value, schema);
    AccessorsAreExact(schema, "properties");
    assert forall c :: c in v.capabilities.value ==> CapabilityAccepted(v, c);
  }

  lemma MembersAreNormalized(tool: Value, r: NormalTool)
    requires WellFormed(tool)
    requires TakenFrom(tool, r) && Permitted(r) && Declares(tool, r.capabilities) && Ordered(r.inputSchema) && Ascending(r.capabilities)
    ensures Normalize(tool) == Some(r)
  {
    PermittedIsPresent(r);
    var schema, capabilities := TakenIsViewed(tool, r);
    SchemaIsCanonical(tool, schema, r.inputSchema);
    SortedSetIsAscending(capabilities, r.capabilities);
    DeclarationIsRead(tool, r.capabilities);
    PermittedIsAccepted(View(tool), r);
  }

  lemma TakenIsViewed(tool: Value, r: NormalTool) returns (schema: Value, capabilities: seq<string>)
    requires WellFormed(tool) && TakenFrom(tool, r)
    requires r.name != "" && r.description != "" && r.runtime != "" && r.approval != "" && r.redaction != ""
    ensures
      var v := View(tool);
      && v.name == Some(r.name) && v.description == Some(r.description) && v.runtime == Some(r.runtime)
      && v.approval == Some(r.approval) && v.redaction == Some(r.redaction)
      && v.schema == Some(schema) && v.capabilities == Some(capabilities)
    ensures HasMember(tool, "input_schema", schema) && SameUpToOrder(schema, r.inputSchema) && SameElements(capabilities, r.capabilities)
  {
    ViewIsExact(tool);
    schema, capabilities :|
      && HasMember(tool, "input_schema", schema) && HasMember(tool, "capabilities", TextList(capabilities))
      && SameUpToOrder(schema, r.inputSchema) && SameElements(capabilities, r.capabilities);
  }

  lemma PermittedIsPresent(r: NormalTool)
    requires Permitted(r)
    ensures r.name != "" && r.description != "" && r.runtime != "" && r.approval != "" && r.redaction != ""
  {
    assert Trim("") == "";
  }

  lemma SchemaIsCanonical(tool: Value, schema: Value, canonical: Value)
    requires WellFormed(tool) && HasMember(tool, "input_schema", schema) && SameUpToOrder(schema, canonical) && Ordered(canonical)
    ensures WellFormed(schema) && Canonicalize(schema) == canonical
  {
    CanonicalFormIsOrderedTwin(schema, canonical);
  }

  lemma DeclarationIsRead(tool: Value, capabilities: seq<string>)
    requires WellFormed(tool) && Declares(tool, capabilities)
    ensures DeclaredIn(View(tool), capabilities)
  {
    ViewIsExact(tool);
    var v := View(tool);
    if v.declaration.Some? {
      assert HasMember(tool, "declared_dangerous_capabilities", v.declaration.value);
      var declared :| v.declaration.value == TextList(declared)
        && forall c :: c in capabilities && c in DANGEROUS_CAPABILITIES ==> c in declared;
      assert v.declared == Some(declared);
    }
  }

  predicate DeclaredIn(v: ToolView, capabilities: seq<string>) {
    && v.declaration.Some? == v.declared.Some?
    && (v.declared.Some? ==> forall c :: c in capabilities && c in DANGEROUS_CAPABILITIES ==> c in v.declared.value)
  }

  lemma PermittedIsAccepted(v: ToolView, r: NormalTool)
    requires v.name == Some(r.name) && v.description == Some(r.description) && v.runtime == Some(r.runtime)
    requires v.approval == Some(r.approval) && v.redaction == Some(r.redaction)
    requires v.schema.Some? && WellFormed(v.schema.value) && Canonicalize(v.schema.value) == r.inputSchema
    requires v.capabilities.Some? && SameElements(v.capabilities.value, r.capabilities) && DeclaredIn(v, r.capabilities)
    requires Permitted(r)
    ensures ViewAccepted(v)
  {
    var schema := v.schema.value;
    CanonicalFormKeepsMeaning(schema);
    CanonicalizeIdempotent(schema);
    SchemaUpToOrder(schema, r.inputSchema);
    AccessorsAreExact(r.inputSchema, "properties");
    forall c | c in v.capabilities.value ensures CapabilityAccepted(v, c) {
    }
  }

  // ------------------------------------------------------------------ the whole list

  function NameOf(t: NormalTool): string {
    t.name
  }

  function CompareTools(a: NormalTool, b: NormalTool): Ordering {
    CompareStr(a.name, b.name)
  }

  function NormalizeEach(tools: seq<Value>): seq<Option<NormalTool>> {
    Map(Normalize, tools)
  }

  predicate AllSome(items: seq<Option<NormalTool>>) {
    forall i :: 0 <= i < |items| ==> items[i].Some?
  }

  function Values(items: seq<Option<NormalTool>>): seq<NormalTool>
    requires AllSome(items)
  {
    seq(|items|, i requires 0 <= i < |items| => items[i].value)
  }

  /** Every tool is valid and no two tools share a name. */
  ghost predicate Accepted(items: seq<Option<NormalTool>>) {
    AllSome(items) && DistinctBy(NameOf, Values(items))
  }

  ghost function SortedForm(items: seq<Option<NormalTool>>): Option<seq<NormalTool>> {
    if Accepted(items) then Some(Sort(CompareTools, Values(items))) else None
  }

  /** What `normalize_tools` returns; a rejected list has no normal form. */
  ghost function NormalForm(tools: seq<Value>): Option<seq<NormalTool>> {
    SortedForm(NormalizeEach(tools))
  }

  /** The loop of `normalize_tools`: stop at an invalid tool or at a name seen before. */
  method CollectTools(items: seq<Option<NormalTool>>) returns (r: Option<seq<NormalTool>>)
    ensures r == SortedForm(items)
  {
    var names: set<string> := {};
    var normalized: seq<NormalTool> := [];
    for i := 0 to |items|
      invariant AllSome(items[..i]) && normalized == Values(items[..i])
      invariant names == set j | 0 <= j < i && items[j].Some? :: NameOf(items[j].value)
      invariant DistinctBy(NameOf, normalized)
    {
      var next := items[i];
      if next.None? {
        return None;
      }
      var name := NameOf(next.value);
      if name in names {
        ghost var j :| 0 <= j < i && items[j].Some? && NameOf(items[j].value) == name;
        SharedNameIsRejected(items, j, i);
        return None;
      }
      forall j | 0 <= j < i ensures NameOf(normalized[j]) != name {
        assert items[..i][j] == items[j] && NameOf(items[j].value) in names;
      }
      ExtendValues(items, i);
      names := names + {name};
      normalized := normalized + [next.value];
    }
    assert items[..|items|] == items;
    return Some(Sort(CompareTools, normalized));
  }

  method NormalizeAll(tools: seq<Value>) returns (items: seq<Option<NormalTool>>)
    ensures items == Map(Normalize, tools)
  {
    items := [];
    for i := 0 to |tools|
      invariant items == Map(Normalize, tools[..i])
    {
      var next := NormalizeTool(tools[i]);
      MapSnoc(Normalize, tools, i);
      items := items + [next];
    }
    assert tools[..|tools|] == tools;
  }

  method NormalizeTools(tools: seq<Value>) returns (r: Option<seq<NormalTool>>)
    ensures r == NormalForm(tools)
  {
    var items := NormalizeAll(tools);
    r := CollectTools(items);
  }

  lemma ExtendValues(items: seq<Option<NormalTool>>, i: nat)
    requires i < |items| && AllSome(items[..i]) && items[i].Some?
    ensures AllSome(items[..i + 1]) && Values(items[..i + 1]) == Values(items[..i]) + [items[i].value]
  {
    assert items[..i + 1] == items[..i] + [items[i]];
  }

  lemma SharedNameIsRejected(items: seq<Option<NormalTool>>, j: nat, i: nat)
    requires j < i < |items| && items[j].Some? && items[i].Some? && NameOf(items[j].value) == NameOf(items[i].value)
    ensures !Accepted(items)
  {
    if AllSome(items) {
      assert NameOf(Values(items)[j]) == NameOf(Values(items)[i]);
    }
  }

  // ------------------------------------------------------------------ what the normal form forgets

  ghost predicate SameStrings(a: Option<seq<string>>, b: Option<seq<string>>) {
    a.Some? == b.Some? && (a.Some? ==> forall s :: s in a.value <==> s in b.value)
  }

  ghost predicate SameSchema(a: Option<Value>, b: Option<Value>) {
    a.Some? == b.Some? && (a.Some? ==> SameUpToOrder(a.value, b.value))
  }

  /** The tools differ at most in capability order and repetition and in the member order of the schema. */
  ghost predicate Rearranged(t: Value, u: Value) {
    var a, b := View(t), View(u);
    && a.name == b.name && a.description == b.description && a.runtime == b.runtime
    && a.approval == b.approval && a.redaction == b.redaction
    && SameSchema(a.schema, b.schema) && SameStrings(a.capabilities, b.capabilities)
    && a.declaration.Some? == b.declaration.Some? && SameStrings(a.declared, b.declared)
  }

  lemma SchemaUpToOrder(a: Value, b: Value)
    requires WellFormed(a) && WellFormed(b) && SameUpToOrder(a, b)
    ensures SchemaAccepted(a) == SchemaAccepted(b)
  {
    GetUpToOrder(a, b, "properties");
  }

  /** Rearranging a tool changes neither whether it is accepted nor its normal form. */
  lemma RearrangedNormalizesAlike(t: Value, u: Value)
    requires WellFormed(t) && WellFormed(u) && Rearranged(t, u)
    ensures Normalize(t) == Normalize(u)
  {
    var a, b := View(t), View(u);
    if a.schema.Some? {
      GetIsWellFormed(t, "input_schema");
      GetIsWellFormed(u, "input_schema");
      SchemaUpToOrder(a.schema.value, b.schema.value);
      CanonicalFormIsExact(a.schema.value, b.schema.value);
    }
    if a.capabilities.Some? {
      SortedSetExact(a.capabilities.value, b.capabilities.value);
    }
    AcceptedAlike(a, b);
  }

  lemma AcceptedAlike(a: ToolView, b: ToolView)
    requires a.name == b.name && a.description == b.description && a.runtime == b.runtime
    requires a.approval == b.approval && a.redaction == b.redaction && a.declaration.Some? == b.declaration.Some?
    requires a.schema.Some? == b.schema.Some? && (a.schema.Some? ==> SchemaAccepted(a.schema.value) == SchemaAccepted(b.schema.value))
    requires SameStrings(a.capabilities, b.capabilities) && SameStrings(a.declared, b.declared)
    ensures ViewAccepted(a) == ViewAccepted(b)
  {
    if a.capabilities.Some? {
      forall c ensures CapabilityAccepted(a, c) == CapabilityAccepted(b, c) {}
    }
  }

  /** Reordering the members of a tool, at any depth, is one way of rearranging it. */
  lemma MemberOrderIsRearrangement(t: Value, u: Value)
    requires WellFormed(t) && WellFormed(u) && SameUpToOrder(t, u)
    ensures Rearranged(t, u)
  {
    AccessorsUpToOrder(t, u, "name");
    AccessorsUpToOrder(t, u, "description");
    AccessorsUpToOrder(t, u, "runtime");
    AccessorsUpToOrder(t, u, "approval");
    AccessorsUpToOrder(t, u, "redaction");
    AccessorsUpToOrder(t, u, "capabilities");
    AccessorsUpToOrder(t, u, "declared_dangerous_capabilities");
    GetUpToOrder(t, u, "input_schema");
    GetUpToOrder(t, u, "declared_dangerous_capabilities");
  }

  /** What two accepted tools must share to get the same normal form. */
  ghost predicate SameView(a: ToolView, b: ToolView) {
    && a.name == b.name && a.description == b.description && a.runtime == b.runtime
    && a.approval == b.approval && a.redaction == b.redaction
    && SameSchema(a.schema, b.schema) && SameStrings(a.capabilities, b.capabilities)
  }

  ghost predicate SameTool(t: Value, u: Value) {
    SameView(View(t), View(u))
  }

  lemma NormalViewIsExact(a: ToolView, b: ToolView)
    requires ViewAccepted(a) && ViewAccepted(b) && WellFormed(a.schema.value) && WellFormed(b.schema.value)
    ensures NormalView(a) == NormalView(b) <==> SameView(a, b)
  {
    CanonicalFormIsExact(a.schema.value, b.schema.value);
    SortedSetExact(a.capabilities.value, b.capabilities.value);
  }

  /** One tool's normal form determines everything read from it except arrangement. */
  lemma NormalToolIsExact(t: Value, u: Value)
    requires WellFormed(t) && WellFormed(u) && Normalize(t).Some? && Normalize(u).Some?
    ensures Normalize(t) == Normalize(u) <==> SameTool(t, u)
  {
    GetIsWellFormed(t, "input_schema");
    GetIsWellFormed(u, "input_schema");
    NormalViewIsExact(View(t), View(u));
  }

  lemma SortedToolsAreStrict(tools: seq<NormalTool>)
    requires DistinctBy(NameOf, tools)
    ensures Strict(NameOf, Sort(CompareTools, tools))
  {
    var sorted := Sort(CompareTools, tools);
    StrOrder();
    KeyPreorder(CompareStr, NameOf, CompareTools);
    SortSorts(CompareTools, tools);
    SortPermutes(CompareTools, tools);
    DistinctPermutation(NameOf, tools, sorted);
    forall i, j | 0 <= i < j < |sorted| ensures CompareStr(NameOf(sorted[i]), NameOf(sorted[j])) == Less {
      assert CompareTools(sorted[i], sorted[j]) != Greater && NameOf(sorted[i]) != NameOf(sorted[j]);
      StrFacts(NameOf(sorted[i]), NameOf(sorted[j]), NameOf(sorted[j]));
    }
  }

  /** Accepted lists have one sorted form exactly when they hold the same normal tools. */
  lemma SortedFormIsExact(a: seq<Option<NormalTool>>, b: seq<Option<NormalTool>>)
    requires Accepted(a) && Accepted(b)
    ensures SortedForm(a) == SortedForm(b) <==> (forall x :: x in a <==> x in b)
  {
    var va, vb := Values(a), Values(b);
    SortedToolsAreStrict(va);
    SortedToolsAreStrict(vb);
    forall t: NormalTool
      ensures (t in va <==> Some(t) in a) && (t in vb <==> Some(t) in b)
      ensures (t in Sort(CompareTools, va) <==> t in va) && (t in Sort(CompareTools, vb) <==> t in vb)
    {
      ValuesMember(a, t);
      ValuesMember(b, t);
      SortMember(CompareTools, va, t);
      SortMember(CompareTools, vb, t);
    }
    if forall x :: x in a <==> x in b {
      StrictUnique(NameOf, Sort(CompareTools, va), Sort(CompareTools, vb));
    }
    if SortedForm(a) == SortedForm(b) {
      forall x ensures x in a <==> x in b {
        if x.Some? {
          assert x.value in va <==> x.value in vb;
        } else {
          assert x !in a && x !in b;
        }
      }
    }
  }

  /** Some tool of the list has this normal form under `normal`. */
  predicate IsToolOf(normal: Value -> Option<NormalTool>, tools: seq<Value>, r: NormalTool) {
    exists i :: 0 <= i < |tools| && normal(tools[i]) == Some(r)
  }

  /** Every tool has a normal form and no two have one name. */
  predicate AllNamedApart(normal: Value -> Option<NormalTool>, tools: seq<Value>) {
    && (forall i :: 0 <= i < |tools| ==> normal(tools[i]).Some?)
    && forall i, j :: 0 <= i < j < |tools| ==> normal(tools[i]).value.name != normal(tools[j]).value.name
  }

  /** A list has this normal form exactly when its tools are valid, named apart, and these, by name. */
  lemma NormalFormListsTools(tools: seq<Value>, list: seq<NormalTool>)
    ensures NormalForm(tools) == Some(list) <==>
      && AllNamedApart(Normalize, tools)
      && (forall i, j :: 0 <= i < j < |list| ==> Before(list[i].name, list[j].name))
      && forall r :: r in list <==> IsToolOf(Normalize, tools, r)
  {
    SortedFormLists(Normalize, tools, list);
  }

  lemma SortedFormLists(normal: Value -> Option<NormalTool>, tools: seq<Value>, list: seq<NormalTool>)
    ensures SortedForm(Map(normal, tools)) == Some(list) <==>
      && AllNamedApart(normal, tools)
      && (forall i, j :: 0 <= i < j < |list| ==> Before(list[i].name, list[j].name))
      && forall r :: r in list <==> IsToolOf(normal, tools, r)
  {
    var items := Map(normal, tools);
    AcceptedIsNamedApart(normal, tools);
    if Accepted(items) {
      var sorted := Sort(CompareTools, Values(items));
      SortedToolsAreStrict(Values(items));
      forall r: NormalTool ensures r in sorted <==> IsToolOf(normal, tools, r) {
        SortMember(CompareTools, Values(items), r);
        ValuesMember(items, r);
        NormalizedMember(normal, tools, r);
      }
      StrictByName(sorted);
      StrictByName(list);
      if Strict(NameOf, list) && forall r :: r in list <==> IsToolOf(normal, tools, r) {
        StrictUnique(NameOf, list, sorted);
      }
    }
  }

  lemma AcceptedIsNamedApart(normal: Value -> Option<NormalTool>, tools: seq<Value>)
    ensures Accepted(Map(normal, tools)) <==> AllNamedApart(normal, tools)
  {
    var items := Map(normal, tools);
    if AllSome(items) {
      assert forall i :: 0 <= i < |tools| ==> NameOf(Values(items)[i]) == normal(tools[i]).value.name;
    }
  }

  lemma NormalizedMember(normal: Value -> Option<NormalTool>, tools: seq<Value>, r: NormalTool)
    ensures Some(r) in Map(normal, tools) <==> IsToolOf(normal, tools, r)
  {
    var items := Map(normal, tools);
    if IsToolOf(normal, tools, r) {
      var i :| 0 <= i < |tools| && normal(tools[i]) == Some(r);
      assert items[i] == Some(r);
    }
  }

  lemma StrictByName(list: seq<NormalTool>)
    ensures Strict(NameOf, list) <==> forall i, j :: 0 <= i < j < |list| ==> Before(list[i].name, list[j].name)
  {
    forall i, j | 0 <= i < j < |list|
      ensures CompareStr(NameOf(list[i]), NameOf(list[j])) == Less <==> Before(list[i].name, list[j].name)
    {
      CompareStrIsLexicographic(list[i].name, list[j].name);
    }
  }

  lemma ValuesMember(items: seq<Option<NormalTool>>, t: NormalTool)
    requires AllSome(items)
    ensures t in Values(items) <==> Some(t) in items
  {
    if Some(t) in items {
      var i :| 0 <= i < |items| && items[i] == Some(t);
      assert Values(items)[i] == t;
    }
    if t in Values(items) {
      var i :| 0 <= i < |items| && Values(items)[i] == t;
      assert items[i] == Some(t);
    }
  }

  lemma AcceptedPermutation(a: seq<Option<NormalTool>>, b: seq<Option<NormalTool>>)
    requires multiset(a) == multiset(b) && Accepted(a)
    ensures Accepted(b)
  {
    forall i | 0 <= i < |b| ensures b[i].Some? {
      assert b[i] in multiset(b);
      assert b[i] in a;
    }
    var value := (x: Option<NormalTool>) => if x.Some? then x.value.name else "";
    assert DistinctBy(value, a) by {
      forall i, j | 0 <= i < j < |a| ensures value(a[i]) != value(a[j]) {
        assert NameOf(Values(a)[i]) != NameOf(Values(a)[j]);
      }
    }
    DistinctPermutation(value, a, b);
    forall i, j | 0 <= i < j < |b| ensures NameOf(Values(b)[i]) != NameOf(Values(b)[j]) {
      assert value(b[i]) != value(b[j]);
    }
  }

  /** The order of the tools never matters, neither for acceptance nor for the result. */
  lemma NormalFormIgnoresToolOrder(tools: seq<Value>, others: seq<Value>)
    requires multiset(tools) == multiset(others)
    ensures NormalForm(tools) == NormalForm(others)
  {
    var a, b := NormalizeEach(tools), NormalizeEach(others);
    MapPermutation(Normalize, tools, others);
    if Accepted(a) || Accepted(b) {
      if Accepted(a) {
        AcceptedPermutation(a, b);
      } else {
        AcceptedPermutation(b, a);
      }
      forall x ensures x in a <==> x in b {
        assert x in multiset(a) <==> x in multiset(b);
      }
      SortedFormIsExact(a, b);
    }
  }

  /**
   Acceptance and the normal form are unchanged by any mix of reordering the tools,
   reordering or repeating capabilities, and reordering object members.
   */
  lemma NormalFormIgnoresArrangement(tools: seq<Value>, reordered: seq<Value>, others: seq<Value>)
    requires multiset(tools) == multiset(reordered) && |reordered| == |others|
    requires forall i :: 0 <= i < |others| ==>
      WellFormed(reordered[i]) && WellFormed(others[i]) && Rearranged(reordered[i], others[i])
    ensures NormalForm(tools) == NormalForm(others)
  {
    NormalFormIgnoresToolOrder(tools, reordered);
    forall i | 0 <= i < |others| ensures NormalizeEach(reordered)[i] == NormalizeEach(others)[i] {
      RearrangedNormalizesAlike(reordered[i], others[i]);
    }
    assert NormalizeEach(reordered) == NormalizeEach(others);
  }

  /** Every tool of the first list has its counterpart in the second. */
  ghost predicate Covered(tools: seq<Value>, others: seq<Value>) {
    forall t :: t in tools ==> exists u :: u in others && SameTool(t, u)
  }

  /** Nothing else is forgotten: accepted lists share a normal form exactly when their tools correspond. */
  lemma NormalFormIsExact(tools: seq<Value>, others: seq<Value>)
    requires NormalForm(tools).Some? && NormalForm(others).Some?
    requires forall t :: t in tools || t in others ==> WellFormed(t)
    ensures NormalForm(tools) == NormalForm(others) <==> Covered(tools, others) && Covered(others, tools)
  {
    SortedFormIsExact(NormalizeEach(tools), NormalizeEach(others));
    CoveredIsContained(tools, others);
    CoveredIsContained(others, tools);
  }

  lemma CoveredIsContained(tools: seq<Value>, others: seq<Value>)
    requires NormalForm(tools).Some? && NormalForm(others).Some?
    requires forall t :: t in tools || t in others ==> WellFormed(t)
    ensures Covered(tools, others) <==> (forall x :: x in NormalizeEach(tools) ==> x in NormalizeEach(others))
  {
    if Covered(tools, others) {
      forall x | x in NormalizeEach(tools) ensures x in NormalizeEach(others) {
        var t := ComesFromTool(tools, x);
        CoveredMember(tools, others, t);
      }
    }
    if forall x :: x in NormalizeEach(tools) ==> x in NormalizeEach(others) {
      forall t | t in tools ensures exists u :: u in others && SameTool(t, u) {
        CorrespondingMember(tools, t);
        ContainedMember(tools, others, t);
      }
    }
  }

  lemma ComesFromTool(tools: seq<Value>, x: Option<NormalTool>) returns (t: Value)
    requires x in NormalizeEach(tools)
    ensures t in tools && Normalize(t) == x
  {
    var i :| 0 <= i < |tools| && NormalizeEach(tools)[i] == x;
    t := tools[i];
  }

  lemma CoveredMember(tools: seq<Value>, others: seq<Value>, t: Value)
    requires NormalForm(tools).Some? && NormalForm(others).Some? && t in tools && Covered(tools, others)
    requires forall v :: v in tools || v in others ==> WellFormed(v)
    ensures Normalize(t) in NormalizeEach(others)
  {
    var u :| u in others && SameTool(t, u);
    CorrespondingMember(tools, t);
    CorrespondingMember(others, u);
    NormalToolIsExact(t, u);
  }

  lemma ContainedMember(tools: seq<Value>, others: seq<Value>, t: Value)
    requires t in tools && Normalize(t).Some? && Normalize(t) in NormalizeEach(others)
    requires forall v :: v in tools || v in others ==> WellFormed(v)
    ensures exists u :: u in others && SameTool(t, u)
  {
    var j :| 0 <= j < |others| && NormalizeEach(others)[j] == Normalize(t);
    NormalToolIsExact(t, others[j]);
  }

  lemma CorrespondingMember(tools: seq<Value>, t: Value)
    requires t in tools && NormalForm(tools).Some?
    ensures Normalize(t).Some? && Normalize(t) in NormalizeEach(tools)
  {
    var i :| 0 <= i < |tools| && tools[i] == t;
    assert NormalizeEach(tools)[i] == Normalize(t);
  }
}
