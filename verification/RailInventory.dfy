/**
 The rail inventory check of check-behavioral-lego-rails: a policy lists one rail per acceptance
 script, each with a class, and a validator decides whether the list covers the scripts exactly.
 */
module RailInventory {
  import opened Text
  import opened Order
  import opened Counting
  import opened Json

  const TEMPORARY := "temporary_string_presence_check"

  const ALLOWED_CLASSES := ["executable_fixture", "receipt_verifier", "ast_cargo_rail", TEMPORARY]

  /** What the file system answers about a path. */
  datatype Disk = Disk(isFile: string -> bool, present: string -> bool)

  datatype Field = Script | Class | Owner | RequirementIds | SourceArtifacts | FailureMode | ReplacementPath

  function Name(field: Field): string {
    match field
    case Script => "script"
    case Class => "class"
    case Owner => "owner"
    case RequirementIds => "requirement_ids"
    case SourceArtifacts => "source_artifacts"
    case FailureMode => "failure_mode"
    case ReplacementPath => "replacement_path"
  }

  datatype RailFinding =
    | MissingText(field: Field)
    | MissingArray(field: Field)
    | BadItem(field: Field, item: nat)
    | EmptyArray(field: Field)
    | NoScriptFile
    | MissingArtifact(path: string)
    | NoReplacement

  datatype Finding =
    | InRail(rail: nat, finding: RailFinding)
    | DuplicateScript(rail: nat)
    | NotWired(rail: nat)
    | InvalidClass(rail: nat)
    | ScriptMissing(script: string)
    | ClassUnused(class_: string)

  // ------------------------------------------------------------------ one rail

  /** A string that is not blank, or the empty string in its place. */
  function TextAt(rail: Value, field: Field): string {
    var text := AsStr(Get(rail, Name(field)));
    if text.Some? && Trim(text.value) != "" then text.value else ""
  }

  function ScriptOf(rail: Value): string {
    TextAt(rail, Script)
  }

  function ClassOf(rail: Value): string {
    TextAt(rail, Class)
  }

  predicate Blank(item: Value) {
    !item.Str? || Trim(item.s) == ""
  }

  function ItemsAt(rail: Value, field: Field): Option<seq<Value>> {
    AsArray(Get(rail, Name(field)))
  }

  /** A field holds the text of the member of its name, if that is a string and not blank. */
  lemma TextsAreExact(rail: Value, text: string)
    requires WellFormed(rail) && text != ""
    ensures TextAt(rail, Script) == text <==> Trim(text) != "" && HasMember(rail, "script", Str(text))
    ensures TextAt(rail, Class) == text <==> Trim(text) != "" && HasMember(rail, "class", Str(text))
    ensures TextAt(rail, Owner) == text <==> Trim(text) != "" && HasMember(rail, "owner", Str(text))
    ensures TextAt(rail, FailureMode) == text <==> Trim(text) != "" && HasMember(rail, "failure_mode", Str(text))
    ensures TextAt(rail, ReplacementPath) == text <==> Trim(text) != "" && HasMember(rail, "replacement_path", Str(text))
  {
    TextIsExact(rail, Script, "script", text);
    TextIsExact(rail, Class, "class", text);
    TextIsExact(rail, Owner, "owner", text);
    TextIsExact(rail, FailureMode, "failure_mode", text);
    TextIsExact(rail, ReplacementPath, "replacement_path", text);
  }

  lemma TextIsExact(rail: Value, field: Field, key: string, text: string)
    requires WellFormed(rail) && text != "" && key == Name(field)
    ensures TextAt(rail, field) == text <==> Trim(text) != "" && HasMember(rail, key, Str(text))
  {
    AccessorsAreExact(rail, key);
    assert Get(rail, key) == Some(Str(text)) <==> HasMember(rail, key, Str(text));
  }

  /** An array field holds the items of the member of its name. */
  lemma ItemsAreExact(rail: Value, items: seq<Value>)
    requires WellFormed(rail)
    ensures ItemsAt(rail, RequirementIds) == Some(items) <==> HasMember(rail, "requirement_ids", Arr(items))
    ensures ItemsAt(rail, SourceArtifacts) == Some(items) <==> HasMember(rail, "source_artifacts", Arr(items))
  {
    ArrayIsExact(rail, RequirementIds, "requirement_ids", items);
    ArrayIsExact(rail, SourceArtifacts, "source_artifacts", items);
  }

  lemma ArrayIsExact(rail: Value, field: Field, key: string, items: seq<Value>)
    requires WellFormed(rail) && key == Name(field)
    ensures ItemsAt(rail, field) == Some(items) <==> HasMember(rail, key, Arr(items))
  {
    AccessorsAreExact(rail, key);
    assert Get(rail, key) == Some(Arr(items)) <==> HasMember(rail, key, Arr(items));
  }

  /** What is wrong with an array member, given its items. */
  predicate ArrayHolds(f: RailFinding, field: Field, items: Option<seq<Value>>) {
    match f
    case MissingArray(k) => k == field && items.None?
    case BadItem(k, i) => k == field && items.Some? && i < |items.value| && Blank(items.value[i])
    case EmptyArray(k) =>
      k == field && items.Some? && forall i :: 0 <= i < |items.value| ==> Blank(items.value[i])
    case _ => false
  }

  predicate Lists(items: Option<seq<Value>>, path: string) {
    items.Some? && Str(path) in items.value && Trim(path) != ""
  }

  predicate TextHolds(f: RailFinding, rail: Value) {
    f.MissingText? && (f.field.Script? || f.field.Class? || f.field.Owner?) && TextAt(rail, f.field) == ""
  }

  predicate ArraysHold(f: RailFinding, ids: Option<seq<Value>>, artifacts: Option<seq<Value>>, disk: Disk) {
    || ArrayHolds(f, RequirementIds, ids) || ArrayHolds(f, SourceArtifacts, artifacts)
    || (f.MissingArtifact? && Lists(artifacts, f.path) && !disk.present(f.path))
  }

  predicate TemporaryHolds(f: RailFinding, rail: Value) {
    || (f.MissingText? && (f.field.FailureMode? || f.field.ReplacementPath?) && TextAt(rail, f.field) == "")
    || (f.NoReplacement? && (TextAt(rail, FailureMode) == "" || TextAt(rail, ReplacementPath) == ""))
  }

  predicate ScriptFileHolds(f: RailFinding, script: string, disk: Disk) {
    f.NoScriptFile? && script != "" && !disk.isFile(script)
  }

  predicate RailHolds(f: RailFinding, rail: Value, disk: Disk) {
    || TextHolds(f, rail)
    || ArraysHold(f, ItemsAt(rail, RequirementIds), ItemsAt(rail, SourceArtifacts), disk)
    || ScriptFileHolds(f, ScriptOf(rail), disk)
    || (ClassOf(rail) == TEMPORARY && TemporaryHolds(f, rail))
  }

  method RequiredText(rail: Value, field: Field) returns (text: string, findings: seq<RailFinding>)
    ensures text == TextAt(rail, field)
    ensures findings == if text == "" then [MissingText(field)] else []
  {
    text, findings := TextAt(rail, field), [];
    if text == "" {
      findings := [MissingText(field)];
    }
  }

  method RequiredStringArray(items: Option<seq<Value>>, field: Field) returns (values: seq<string>, findings: seq<RailFinding>)
    ensures forall path :: path in values <==> Lists(items, path)
    ensures forall f :: f in findings <==> ArrayHolds(f, field, items)
  {
    values, findings := [], [];
    if items.None? {
      findings := [MissingArray(field)];
      return;
    }
    var listed := items.value;
    for i := 0 to |listed|
      invariant forall path :: path in values <==> Str(path) in listed[..i] && Trim(path) != ""
      invariant values == [] <==> forall j :: 0 <= j < i ==> Blank(listed[j])
      invariant forall f :: f in findings <==> f.BadItem? && f.item < i && ArrayHolds(f, field, items)
    {
      assert listed[..i + 1] == listed[..i] + [listed[i]];
      if Blank(listed[i]) {
        findings := findings + [BadItem(field, i)];
      } else {
        values := values + [listed[i].s];
      }
    }
    assert listed[..|listed|] == listed;
    if values == [] {
      findings := findings + [EmptyArray(field)];
    }
  }

  method MissingArtifacts(values: seq<string>, disk: Disk) returns (findings: seq<RailFinding>)
    ensures forall f :: f in findings <==> f.MissingArtifact? && f.path in values && !disk.present(f.path)
  {
    findings := [];
    for i := 0 to |values|
      invariant forall f :: f in findings <==> f.MissingArtifact? && f.path in values[..i] && !disk.present(f.path)
    {
      assert values[..i + 1] == values[..i] + [values[i]];
      if !disk.present(values[i]) {
        findings := findings + [MissingArtifact(values[i])];
      }
    }
    assert values[..|values|] == values;
  }

  method CheckTemporary(rail: Value) returns (findings: seq<RailFinding>)
    ensures forall f :: f in findings <==> TemporaryHolds(f, rail)
  {
    var failureMode, noMode := RequiredText(rail, FailureMode);
    var replacementPath, noPath := RequiredText(rail, ReplacementPath);
    findings := noMode + noPath;
    if failureMode == "" || replacementPath == "" {
      findings := findings + [NoReplacement];
    }
  }

  method CheckTexts(rail: Value) returns (script: string, class_: string, findings: seq<RailFinding>)
    ensures script == ScriptOf(rail) && class_ == ClassOf(rail)
    ensures forall f :: f in findings <==> TextHolds(f, rail)
  {
    var noScript, noClass, noOwner, owner;
    script, noScript := RequiredText(rail, Script);
    class_, noClass := RequiredText(rail, Class);
    owner, noOwner := RequiredText(rail, Owner);
    findings := noScript + noClass + noOwner;
  }

  method CheckArrays(ids: Option<seq<Value>>, artifacts: Option<seq<Value>>, disk: Disk) returns (findings: seq<RailFinding>)
    ensures forall f :: f in findings <==> ArraysHold(f, ids, artifacts, disk)
  {
    var names, badIds := RequiredStringArray(ids, RequirementIds);
    var paths, badArtifacts := RequiredStringArray(artifacts, SourceArtifacts);
    var absent := MissingArtifacts(paths, disk);
    findings := badIds + badArtifacts + absent;
  }

  method CheckScriptFile(script: string, disk: Disk) returns (findings: seq<RailFinding>)
    ensures forall f :: f in findings <==> ScriptFileHolds(f, script, disk)
  {
    findings := [];
    if script != "" && !disk.isFile(script) {
      findings := [NoScriptFile];
    }
  }

  method CheckRail(rail: Value, disk: Disk) returns (script: string, class_: string, findings: seq<RailFinding>)
    ensures script == ScriptOf(rail) && class_ == ClassOf(rail)
    ensures Exact(findings, rail, disk)
  {
    var noText, badArrays, noFile, temporary;
    script, class_, noText := CheckTexts(rail);
    badArrays := CheckArrays(ItemsAt(rail, RequirementIds), ItemsAt(rail, SourceArtifacts), disk);
    noFile := CheckScriptFile(script, disk);
    temporary := [];
    if class_ == TEMPORARY {
      temporary := CheckTemporary(rail);
    }
    findings := noText + badArrays + noFile + temporary;
  }

  // ------------------------------------------------------------------ counting classes

  predicate SameClass(a: string, b: string) {
    a == b
  }

  function ClassCount(c: string, classes: seq<string>): nat {
    Claims(SameClass, c, classes)
  }

  /** A count map holds exactly the classes that occur, each with the number of its occurrences. */
  ghost predicate Tallies(counts: map<string, nat>, classes: seq<string>) {
    && (forall c :: c in counts <==> c in classes)
    && forall c :: c in counts ==> counts[c] == ClassCount(c, classes)
  }

  function Tally(counts: map<string, nat>, c: string): map<string, nat> {
    counts[c := (if c in counts then counts[c] else 0) + 1]
  }

  lemma TallyOne(counts: map<string, nat>, classes: seq<string>, c: string)
    requires Tallies(counts, classes)
    ensures Tallies(Tally(counts, c), classes + [c])
  {
    forall d | d in Tally(counts, c) ensures Tally(counts, c)[d] == ClassCount(d, classes + [c]) {
      ClaimsSnoc(SameClass, d, classes, c);
      ClaimsPositive(SameClass, d, classes);
    }
  }

  lemma TalliesPositive(counts: map<string, nat>, classes: seq<string>, c: string)
    requires Tallies(counts, classes)
    ensures c in counts ==> counts[c] > 0
  {
    if c in counts {
      var k :| 0 <= k < |classes| && classes[k] == c;
      assert SameClass(c, classes[k]);
      ClaimsPositive(SameClass, c, classes);
    }
  }

  lemma TalliesUnique(a: map<string, nat>, b: map<string, nat>, classes: seq<string>)
    requires Tallies(a, classes) && Tallies(b, classes)
    ensures a == b
  {
    forall c | c in a ensures c in b && a[c] == b[c] {
      assert c in classes;
    }
    assert a.Keys == b.Keys;
  }

  // ------------------------------------------------------------------ the whole list

  /** What is wrong with the list as a whole, given the script and the class of each rail. */
  predicate ListHolds(f: Finding, expected: set<string>, allowed: seq<string>, scripts: seq<string>, classes: seq<string>) {
    match f
    case DuplicateScript(i) => i < |scripts| && scripts[i] != "" && scripts[i] in scripts[..i]
    case NotWired(i) => i < |scripts| && scripts[i] != "" && scripts[i] !in expected
    case InvalidClass(i) => i < |classes| && classes[i] != "" && classes[i] !in allowed
    case ScriptMissing(s) => s in expected && (s == "" || s !in scripts)
    case ClassUnused(c) => c in allowed && c !in classes
    case InRail(_, _) => false
  }

  predicate Holds(f: Finding, expected: set<string>, rails: seq<Value>, disk: Disk) {
    if f.InRail? then f.rail < |rails| && RailHolds(f.finding, rails[f.rail], disk)
    else ListHolds(f, expected, ALLOWED_CLASSES, Map(ScriptOf, rails), Map(ClassOf, rails))
  }

  predicate AboutScript(f: Finding) {
    f.DuplicateScript? || f.NotWired?
  }

  method CheckScripts(expected: set<string>, scripts: seq<string>) returns (seen: set<string>, findings: seq<Finding>)
    ensures forall s :: s in seen <==> s in scripts && s != ""
    ensures forall f :: f in findings <==> AboutScript(f) && ListHolds(f, expected, [], scripts, [])
  {
    seen, findings := {}, [];
    for i := 0 to |scripts|
      invariant forall s :: s in seen <==> s in scripts[..i] && s != ""
      invariant forall f :: f in findings <==> AboutScript(f) && f.rail < i && ListHolds(f, expected, [], scripts, [])
    {
      var script := scripts[i];
      assert scripts[..i + 1] == scripts[..i] + [script];
      if script != "" && script in seen {
        findings := findings + [DuplicateScript(i)];
      }
      if script != "" && script !in expected {
        findings := findings + [NotWired(i)];
      }
      if script != "" {
        seen := seen + {script};
      }
    }
    assert scripts[..|scripts|] == scripts;
  }

  method CheckClasses(allowed: seq<string>, classes: seq<string>) returns (counts: map<string, nat>, findings: seq<Finding>)
    ensures Tallies(counts, classes)
    ensures forall f :: f in findings <==> f.InvalidClass? && ListHolds(f, {}, allowed, [], classes)
  {
    counts, findings := map[], [];
    for i := 0 to |classes|
      invariant Tallies(counts, classes[..i])
      invariant forall f :: f in findings <==> f.InvalidClass? && f.rail < i && ListHolds(f, {}, allowed, [], classes)
    {
      assert classes[..i + 1] == classes[..i] + [classes[i]];
      TallyOne(counts, classes[..i], classes[i]);
      counts := Tally(counts, classes[i]);
      if classes[i] != "" && classes[i] !in allowed {
        findings := findings + [InvalidClass(i)];
      }
    }
    assert classes[..|classes|] == classes;
  }

  method MissingScripts(expected: set<string>, seen: set<string>) returns (findings: seq<Finding>)
    ensures forall f :: f in findings <==> f.ScriptMissing? && f.script in expected && f.script !in seen
  {
    findings := [];
    var rest := expected;
    while rest != {}
      invariant rest <= expected
      invariant forall f :: f in findings <==> f.ScriptMissing? && f.script in expected - rest && f.script !in seen
    {
      var script :| script in rest;
      if script !in seen {
        findings := findings + [ScriptMissing(script)];
      }
      rest := rest - {script};
    }
  }

  method UnusedClasses(counts: map<string, nat>, allowed: seq<string>, classes: seq<string>) returns (findings: seq<Finding>)
    requires Tallies(counts, classes)
    ensures forall f :: f in findings <==> f.ClassUnused? && f.class_ in allowed && f.class_ !in classes
  {
    findings := [];
    for i := 0 to |allowed|
      invariant forall f :: f in findings <==> f.ClassUnused? && f.class_ in allowed[..i] && f.class_ !in classes
    {
      assert allowed[..i + 1] == allowed[..i] + [allowed[i]];
      TalliesPositive(counts, classes, allowed[i]);
      if allowed[i] !in counts || counts[allowed[i]] == 0 {
        findings := findings + [ClassUnused(allowed[i])];
      }
    }
    assert allowed[..|allowed|] == allowed;
  }

  method CheckList(expected: set<string>, allowed: seq<string>, scripts: seq<string>, classes: seq<string>)
    returns (findings: seq<Finding>, counts: map<string, nat>)
    ensures forall f :: f in findings <==> ListHolds(f, expected, allowed, scripts, classes)
    ensures Tallies(counts, classes)
  {
    var seen, byScript, byClass;
    seen, byScript := CheckScripts(expected, scripts);
    counts, byClass := CheckClasses(allowed, classes);
    var missing := MissingScripts(expected, seen);
    var unused := UnusedClasses(counts, allowed, classes);
    findings := byScript + byClass + missing + unused;
  }

  ghost predicate Exact(found: seq<RailFinding>, rail: Value, disk: Disk) {
    forall f :: f in found <==> RailHolds(f, rail, disk)
  }

  datatype RailReport = RailReport(script: string, class_: string, findings: seq<RailFinding>)

  ghost predicate Reports(r: RailReport, rail: Value, disk: Disk) {
    r.script == ScriptOf(rail) && r.class_ == ClassOf(rail) && Exact(r.findings, rail, disk)
  }

  method ReportRail(rail: Value, disk: Disk) returns (r: RailReport)
    ensures Reports(r, rail, disk)
  {
    var script, class_, findings := CheckRail(rail, disk);
    r := RailReport(script, class_, findings);
  }

  method ReportRails(rails: seq<Value>, disk: Disk) returns (reports: seq<RailReport>)
    ensures |reports| == |rails| && forall i :: 0 <= i < |rails| ==> Reports(reports[i], rails[i], disk)
  {
    reports := [];
    for i := 0 to |rails|
      invariant |reports| == i && forall k :: 0 <= k < i ==> Reports(reports[k], rails[k], disk)
    {
      var report := ReportRail(rails[i], disk);
      reports := reports + [report];
    }
  }

  method CollectFindings(found: seq<seq<RailFinding>>) returns (findings: seq<Finding>)
    ensures forall f :: f in findings <==> f.InRail? && f.rail < |found| && f.finding in found[f.rail]
  {
    findings := [];
    for i := 0 to |found|
      invariant forall f :: f in findings <==> f.InRail? && f.rail < i && f.finding in found[f.rail]
    {
      var here := Map(g => InRail(i, g), found[i]);
      forall f ensures f in here <==> f.InRail? && f.rail == i && f.finding in found[i] {
        if f.InRail? && f.rail == i && f.finding in found[i] {
          var k :| 0 <= k < |found[i]| && found[i][k] == f.finding;
          assert here[k] == f;
        }
      }
      findings := findings + here;
    }
  }

  method ValidateRails(expected: set<string>, rails: seq<Value>, disk: Disk)
    returns (findings: seq<Finding>, counts: map<string, nat>)
    ensures forall f :: f in findings <==> Holds(f, expected, rails, disk)
    ensures Tallies(counts, Map(ClassOf, rails))
  {
    var reports := ReportRails(rails, disk);
    var scripts := Map((r: RailReport) => r.script, reports);
    var classes := Map((r: RailReport) => r.class_, reports);
    assert scripts == Map(ScriptOf, rails) && classes == Map(ClassOf, rails);
    var inRails := CollectFindings(Map((r: RailReport) => r.findings, reports));
    var inList;
    inList, counts := CheckList(expected, ALLOWED_CLASSES, scripts, classes);
    findings := inRails + inList;
  }

  // ------------------------------------------------------------------ what acceptance means

  /** No script finding, and no blank script. */
  ghost predicate ScriptsQuiet(expected: set<string>, scripts: seq<string>) {
    && "" !in scripts
    && forall f :: AboutScript(f) || f.ScriptMissing? ==> !ListHolds(f, expected, [], scripts, [])
  }

  /**
   Nothing is reported about scripts exactly when the rails name the acceptance scripts one to
   one: every script once, none missing, none extra.
   */
  lemma ScriptsCoverExactly(expected: set<string>, scripts: seq<string>)
    ensures ScriptsQuiet(expected, scripts) <==> "" !in scripts && multiset(scripts) == multiset(expected)
  {
    if ScriptsQuiet(expected, scripts) {
      QuietScriptsCover(expected, scripts);
    }
    if "" !in scripts && multiset(scripts) == multiset(expected) {
      forall f | AboutScript(f) || f.ScriptMissing? ensures !ListHolds(f, expected, [], scripts, []) {
        CoverIsQuiet(expected, scripts, f);
      }
    }
  }

  lemma QuietScriptsCover(expected: set<string>, scripts: seq<string>)
    requires ScriptsQuiet(expected, scripts)
    ensures multiset(scripts) == multiset(expected)
  {
    forall i | 0 <= i < |scripts| ensures scripts[i] in expected {
      assert !ListHolds(NotWired(i), expected, [], scripts, []);
    }
    forall i, j | 0 <= i < j < |scripts| ensures scripts[i] != scripts[j] {
      assert !ListHolds(DuplicateScript(j), expected, [], scripts, []);
      assert scripts[..j][i] == scripts[i];
    }
    forall s ensures multiset(scripts)[s] == multiset(expected)[s] {
      if s in expected {
        assert !ListHolds(ScriptMissing(s), expected, [], scripts, []);
        OccursOnce(scripts, s);
      }
    }
  }

  lemma CoverIsQuiet(expected: set<string>, scripts: seq<string>, f: Finding)
    requires "" !in scripts && multiset(scripts) == multiset(expected)
    requires AboutScript(f) || f.ScriptMissing?
    ensures !ListHolds(f, expected, [], scripts, [])
  {
    forall s ensures s in scripts <==> s in expected {
      assert s in scripts <==> s in multiset(scripts);
    }
    if f.DuplicateScript? && ListHolds(f, expected, [], scripts, []) {
      var h :| 0 <= h < f.rail && scripts[..f.rail][h] == scripts[f.rail];
      CountTwo(scripts, h, f.rail);
    }
  }

  ghost predicate Accepted(expected: set<string>, rails: seq<Value>, disk: Disk) {
    forall f :: !Holds(f, expected, rails, disk)
  }

  lemma AcceptedLists(expected: set<string>, rails: seq<Value>, disk: Disk)
    requires Accepted(expected, rails, disk)
    ensures ScriptsQuiet(expected, Map(ScriptOf, rails))
    ensures "" !in Map(ClassOf, rails)
    ensures forall c :: c in Map(ClassOf, rails) <==> c in ALLOWED_CLASSES
  {
    var scripts, classes := Map(ScriptOf, rails), Map(ClassOf, rails);
    forall i | 0 <= i < |rails| ensures scripts[i] != "" && classes[i] != "" {
      assert !Holds(InRail(i, MissingText(Script)), expected, rails, disk);
      assert !Holds(InRail(i, MissingText(Class)), expected, rails, disk);
    }
    forall f: Finding | !f.InRail? ensures !ListHolds(f, expected, ALLOWED_CLASSES, scripts, classes) {
      assert !Holds(f, expected, rails, disk);
    }
    QuietLists(expected, ALLOWED_CLASSES, scripts, classes);
  }

  lemma QuietLists(expected: set<string>, allowed: seq<string>, scripts: seq<string>, classes: seq<string>)
    requires "" !in scripts && "" !in classes
    requires forall f: Finding :: !f.InRail? ==> !ListHolds(f, expected, allowed, scripts, classes)
    ensures ScriptsQuiet(expected, scripts)
    ensures forall c :: c in classes <==> c in allowed
  {
    forall f | AboutScript(f) || f.ScriptMissing? ensures !ListHolds(f, expected, [], scripts, []) {
      assert !ListHolds(f, expected, allowed, scripts, classes);
    }
    forall c ensures c in classes <==> c in allowed {
      assert !ListHolds(ClassUnused(c), expected, allowed, scripts, classes);
      if c in classes {
        var i :| 0 <= i < |classes| && classes[i] == c;
        assert !ListHolds(InvalidClass(i), expected, allowed, scripts, classes);
      }
    }
  }

  /**
   An accepted list: the rails are the acceptance scripts one to one, so the two numbers in the
   receipt agree, and the counts of the four classes are positive and add up to that number.
   */
  lemma AcceptedRailsAreExactCover(expected: set<string>, rails: seq<Value>, disk: Disk)
    requires Accepted(expected, rails, disk)
    ensures multiset(Map(ScriptOf, rails)) == multiset(expected) && |rails| == |expected|
    ensures SumOfCounts(SameClass, ALLOWED_CLASSES, Map(ClassOf, rails)) == |rails|
    ensures forall c :: c in ALLOWED_CLASSES ==> ClassCount(c, Map(ClassOf, rails)) > 0
  {
    AcceptedLists(expected, rails, disk);
    AllowedDistinct();
    CoverHasAllScripts(expected, Map(ScriptOf, rails));
    CoverUsesAllClasses(ALLOWED_CLASSES, Map(ClassOf, rails));
  }

  lemma CoverHasAllScripts(expected: set<string>, scripts: seq<string>)
    requires ScriptsQuiet(expected, scripts)
    ensures multiset(scripts) == multiset(expected) && |scripts| == |expected|
  {
    QuietScriptsCover(expected, scripts);
    assert |multiset(scripts)| == |scripts| && |multiset(expected)| == |expected|;
  }

  lemma CoverUsesAllClasses(allowed: seq<string>, classes: seq<string>)
    requires forall i, j :: 0 <= i < j < |allowed| ==> allowed[i] != allowed[j]
    requires forall c :: c in classes <==> c in allowed
    ensures SumOfCounts(SameClass, allowed, classes) == |classes|
    ensures forall c :: c in allowed ==> ClassCount(c, classes) > 0
  {
    ClassesAddUp(allowed, classes);
    forall c | c in allowed ensures ClassCount(c, classes) > 0 {
      var k :| 0 <= k < |classes| && classes[k] == c;
      assert SameClass(c, classes[k]);
      ClaimsPositive(SameClass, c, classes);
    }
  }

  lemma AllowedDistinct()
    ensures forall i, j :: 0 <= i < j < |ALLOWED_CLASSES| ==> ALLOWED_CLASSES[i] != ALLOWED_CLASSES[j]
  {
    var a := ALLOWED_CLASSES;
    assert |a[0]| == 18 && |a[1]| == 16 && |a[2]| == 14 && |a[3]| == 31;
  }

  lemma ClassesAddUp(allowed: seq<string>, classes: seq<string>)
    requires forall i, j :: 0 <= i < j < |allowed| ==> allowed[i] != allowed[j]
    requires forall c :: c in classes ==> c in allowed
    ensures SumOfCounts(SameClass, allowed, classes) == |classes|
  {
    DisjointGroupsAddUp(SameClass, allowed, classes);
    forall i | 0 <= i < |classes| ensures Claimed(SameClass, allowed, classes[i]) {
      assert classes[i] in allowed;
      var k :| 0 <= k < |allowed| && allowed[k] == classes[i];
      assert SameClass(allowed[k], classes[i]);
    }
    ClaimedRowsCount(SameClass, allowed, _ => true, classes);
    CountAll(_ => true, classes);
  }

  // ------------------------------------------------------------------ the receipt

  function RawClass(rail: Value): Option<string> {
    AsStr(Get(rail, Name(Class)))
  }

  /** The class strings as the receipt reads them: any string, also a blank one. */
  function RawClasses(raw: seq<Option<string>>): seq<string> {
    if raw == [] then []
    else RawClasses(raw[..|raw| - 1]) + if raw[|raw| - 1].Some? then [raw[|raw| - 1].value] else []
  }

  method TallyRaw(raw: seq<Option<string>>) returns (counts: map<string, nat>)
    ensures Tallies(counts, RawClasses(raw))
  {
    counts := map[];
    for i := 0 to |raw|
      invariant Tallies(counts, RawClasses(raw[..i]))
    {
      ghost var before := RawClasses(raw[..i]);
      assert raw[..i + 1][..i] == raw[..i];
      if raw[i].Some? {
        TallyOne(counts, before, raw[i].value);
        counts := Tally(counts, raw[i].value);
      } else {
        assert RawClasses(raw[..i + 1]) == before;
      }
    }
    assert raw[..|raw|] == raw;
  }

  method RecountClasses(rails: seq<Value>) returns (counts: map<string, nat>)
    ensures Tallies(counts, RawClasses(Map(RawClass, rails)))
  {
    counts := TallyRaw(Map(RawClass, rails));
  }

  lemma {:induction false} RawClassesAreClasses(raw: seq<Option<string>>, classes: seq<string>)
    requires |raw| == |classes| && forall i :: 0 <= i < |raw| ==> raw[i] == Some(classes[i])
    ensures RawClasses(raw) == classes
  {
    if raw != [] {
      var n := |raw| - 1;
      RawClassesAreClasses(raw[..n], classes[..n]);
      assert classes == classes[..n] + [classes[n]];
    }
  }

  lemma RawClassIsClass(rails: seq<Value>)
    requires "" !in Map(ClassOf, rails)
    ensures forall i :: 0 <= i < |rails| ==> RawClass(rails[i]) == Some(ClassOf(rails[i]))
  {
    forall i | 0 <= i < |rails| ensures RawClass(rails[i]) == Some(ClassOf(rails[i])) {
      assert Map(ClassOf, rails)[i] != "";
    }
  }

  /** The receipt of an accepted list reports the very counts the validator checked. */
  lemma ReceiptCountsAgree(expected: set<string>, rails: seq<Value>, disk: Disk, checked: map<string, nat>, reported: map<string, nat>)
    requires Accepted(expected, rails, disk)
    requires Tallies(checked, Map(ClassOf, rails)) && Tallies(reported, RawClasses(Map(RawClass, rails)))
    ensures checked == reported && checked.Keys == set c | c in ALLOWED_CLASSES
  {
    var raw, classes := Map(RawClass, rails), Map(ClassOf, rails);
    AcceptedLists(expected, rails, disk);
    RawClassIsClass(rails);
    RawClassesAreClasses(raw, classes);
    TalliesUnique(checked, reported, classes);
  }
}
