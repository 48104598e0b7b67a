/**
 Paths joined with `::` and the string tests made on them: the suffix test of
 check-lego-architecture-boundaries and the forbidden-crate test of
 check-embeddable-engine-boundaries, which flattens `use` trees first.
 */
module UsePaths {
  import opened Text
  import opened Order

  predicate Segment(s: string) {
    s != [] && ':' !in s
  }

  /** A path as the compiler has it: at least one segment, none empty, no colon inside. */
  predicate Segments(path: seq<string>) {
    path != [] && forall i :: 0 <= i < |path| ==> Segment(path[i])
  }

  function PathToString(path: seq<string>): string {
    Join(path, "::")
  }

  predicate EndsWith(s: string, suffix: string) {
    |suffix| <= |s| && s[|s| - |suffix|..] == suffix
  }

  predicate PathMatches(actual: string, expected: string) {
    actual == expected || EndsWith(actual, "::" + expected)
  }

  predicate IsSuffix(suffix: seq<string>, path: seq<string>) {
    |suffix| <= |path| && path[|path| - |suffix|..] == suffix
  }

  // ------------------------------------------------------------------ joined paths

  lemma JoinedShape(path: seq<string>)
    requires Segments(path)
    ensures |path| == 1 ==> PathToString(path) == path[0]
    ensures |path| > 1 ==> PathToString(path) == path[0] + "::" + PathToString(path[1..]) && Segments(path[1..])
    ensures IndexOf(PathToString(path), ':') == |path[0]|
    ensures PathToString(path)[0] != ':'
  {
    var text := PathToString(path);
    assert forall j :: 0 <= j < |path[0]| ==> text[j] == path[0][j];
    assert text[0] == path[0][0] && path[0][0] in path[0];
    if |path| > 1 {
      assert text[|path[0]|] == ':';
    }
  }

  lemma {:induction false} JoinedInjective(a: seq<string>, b: seq<string>)
    requires Segments(a) && Segments(b) && PathToString(a) == PathToString(b)
    ensures a == b
  {
    JoinedShape(a);
    JoinedShape(b);
    var text := PathToString(a);
    assert a[0] == text[..|a[0]|] && b[0] == text[..|b[0]|];
    if |a| > 1 && |b| > 1 {
      assert PathToString(a[1..]) == text[|a[0]| + 2..] && PathToString(b[1..]) == text[|b[0]| + 2..];
      JoinedInjective(a[1..], b[1..]);
      assert a == [a[0]] + a[1..] && b == [b[0]] + b[1..];
    }
  }

  lemma JoinedAppend(a: seq<string>, b: seq<string>)
    requires a != [] && b != []
    ensures PathToString(a + b) == PathToString(a) + "::" + PathToString(b)
  {
    JoinAppend(a, b, "::");
  }

  /** A joined path that ends in a separator and another joined path ends in its segments. */
  lemma {:induction false} TextSuffixIsSegmentSuffix(path: seq<string>, expected: seq<string>, p: string)
    requires Segments(path) && Segments(expected)
    requires PathToString(path) == p + "::" + PathToString(expected)
    ensures IsSuffix(expected, path)
  {
    var x, e := path[0], PathToString(expected);
    AfterFirstSegment(path, p, e);
    var rest := path[1..];
    if |p| == |x| {
      JoinedInjective(rest, expected);
    } else {
      TextSuffixIsSegmentSuffix(rest, expected, p[|x| + 2..]);
      assert path[|path| - |expected|..] == rest[|rest| - |expected|..];
    }
  }

  /** A separator in a joined path comes right after the first segment, or lies in the rest. */
  lemma AfterFirstSegment(path: seq<string>, p: string, e: string)
    requires Segments(path) && PathToString(path) == p + "::" + e
    ensures |path| > 1 && Segments(path[1..])
    ensures |p| == |path[0]| ==> PathToString(path[1..]) == e
    ensures |p| != |path[0]| ==> |p| >= |path[0]| + 2 && PathToString(path[1..]) == p[|path[0]| + 2..] + "::" + e
  {
    var text, x := PathToString(path), path[0];
    JoinedShape(path);
    assert text[|p|] == ':';
    assert |path| > 1 && |p| >= |x|;
    var r := PathToString(path[1..]);
    JoinedShape(path[1..]);
    CutTexts(p, e, x, r);
  }

  /** Two ways to see one text around a separator, the second before a text that does not begin with a colon. */
  lemma CutTexts(p: string, e: string, x: string, r: string)
    requires p + "::" + e == x + "::" + r && |p| >= |x| && r != "" && r[0] != ':'
    ensures |p| == |x| ==> r == e
    ensures |p| != |x| ==> |p| >= |x| + 2 && r == p[|x| + 2..] + "::" + e
  {
    var text := p + "::" + e;
    assert text[|x| + 2..] == r by {
      assert text == x + "::" + r;
    }
    assert text[|p| + 2..] == e;
    assert text[|p|] == ':' && text[|p| + 1] == ':';
    if |p| != |x| {
      assert text[|x| + 2] == r[0];
      assert |p| >= |x| + 2;
      assert text[|x| + 2..] == p[|x| + 2..] + "::" + e;
    }
  }

  /** The string test holds exactly when the expected segments are the last segments of the path. */
  lemma PathMatchesIsSuffix(actual: seq<string>, expected: seq<string>)
    requires Segments(actual) && Segments(expected)
    ensures PathMatches(PathToString(actual), PathToString(expected)) <==> IsSuffix(expected, actual)
  {
    var a, e := PathToString(actual), PathToString(expected);
    if IsSuffix(expected, actual) {
      var k := |actual| - |expected|;
      if k == 0 {
        assert actual == expected;
      } else {
        assert actual == actual[..k] + expected;
        JoinedAppend(actual[..k], expected);
      }
    }
    if a == e {
      JoinedInjective(actual, expected);
    } else if EndsWith(a, "::" + e) {
      var p := a[..|a| - |e| - 2];
      assert a == p + "::" + e;
      TextSuffixIsSegmentSuffix(actual, expected, p);
    }
  }

  /** A joined path is another one, or begins with it and a separator, exactly when its segments begin with the other's. */
  lemma {:induction false} TextPrefixIsSegmentPrefix(prefix: seq<string>, path: seq<string>)
    requires Segments(prefix) && Segments(path)
    ensures PathToString(path) == PathToString(prefix) || PathToString(prefix) + "::" <= PathToString(path) <==> prefix <= path
  {
    var p, t := PathToString(prefix), PathToString(path);
    if prefix == path {
    } else if prefix <= path {
      assert path == prefix + path[|prefix|..];
      JoinedAppend(prefix, path[|prefix|..]);
    } else if t == p {
      JoinedInjective(path, prefix);
    } else if p + "::" <= t {
      SameFirstSegment(prefix, path);
      TextPrefixIsSegmentPrefix(prefix[1..], path[1..]);
    }
  }

  lemma SameFirstSegment(prefix: seq<string>, path: seq<string>)
    requires Segments(prefix) && Segments(path) && PathToString(prefix) + "::" <= PathToString(path) && !(prefix <= path)
    ensures prefix[0] == path[0] && |prefix| > 1 && |path| > 1
    ensures Segments(prefix[1..]) && Segments(path[1..])
    ensures PathToString(prefix[1..]) + "::" <= PathToString(path[1..])
  {
    var p, t := PathToString(prefix), PathToString(path);
    JoinedShape(prefix);
    JoinedShape(path);
    var q := p + "::";
    assert q == t[..|q|];
    assert q[|prefix[0]|] == ':' && forall j :: 0 <= j < |prefix[0]| ==> q[j] == prefix[0][j];
    assert |prefix[0]| == |path[0]|;
    assert prefix[0] == t[..|prefix[0]|] == path[0];
    if |prefix| > 1 {
      assert q[|path[0]| + 2..] == PathToString(prefix[1..]) + "::";
      assert t[|path[0]| + 2..] == PathToString(path[1..]);
    }
  }

  // ------------------------------------------------------------------ use trees

  datatype UseTree =
    | Path(ident: string, tree: UseTree)
    | Name(ident: string)
    | Rename(ident: string, rename: string)
    | Glob
    | Group(items: seq<UseTree>)

  const STAR := "*"

  /** Identifiers are segments and never the glob sign. */
  predicate ValidTree(tree: UseTree) {
    match tree
    case Path(ident, sub) => Segment(ident) && ident != STAR && ValidTree(sub)
    case Name(ident) => Segment(ident) && ident != STAR
    case Rename(ident, _) => Segment(ident) && ident != STAR
    case Glob => true
    case Group(items) => forall i :: 0 <= i < |items| ==> ValidTree(items[i])
  }

  /** The reference: the path from the root to each leaf, in order. */
  function LeafPaths(tree: UseTree): seq<seq<string>> {
    match tree
    case Path(ident, sub) => Prefixed([ident], LeafPaths(sub))
    case Name(ident) => [[ident]]
    case Rename(ident, _) => [[ident]]
    case Glob => [[STAR]]
    case Group(items) => LeafPathsOf(items)
  }

  function LeafPathsOf(items: seq<UseTree>): seq<seq<string>> {
    if items == [] then [] else LeafPathsOf(items[..|items| - 1]) + LeafPaths(items[|items| - 1])
  }

  function Prefixed(prefix: seq<string>, paths: seq<seq<string>>): seq<seq<string>> {
    seq(|paths|, i requires 0 <= i < |paths| => prefix + paths[i])
  }

  function AppendSegment(prefix: string, segment: string): string {
    if prefix == "" then segment else prefix + "::" + segment
  }

  /** What `flatten_use_tree` pushes for a tree. */
  function Flatten(prefix: string, tree: UseTree): seq<string>
    decreases tree
  {
    match tree
    case Path(ident, sub) => Flatten(AppendSegment(prefix, ident), sub)
    case Name(ident) => [AppendSegment(prefix, ident)]
    case Rename(ident, _) => [AppendSegment(prefix, ident)]
    case Glob => [prefix + "::" + STAR]
    case Group(items) => FlattenAll(prefix, items)
  }

  function FlattenAll(prefix: string, items: seq<UseTree>): seq<string>
    decreases items
  {
    if items == [] then [] else FlattenAll(prefix, items[..|items| - 1]) + Flatten(prefix, items[|items| - 1])
  }

  method FlattenUseTree(prefix: string, tree: UseTree, imports: seq<string>) returns (all: seq<string>)
    ensures all == imports + Flatten(prefix, tree)
    decreases tree
  {
    match tree
    case Path(ident, sub) => all := FlattenUseTree(AppendSegment(prefix, ident), sub, imports);
    case Name(ident) => all := imports + [AppendSegment(prefix, ident)];
    case Rename(ident, _) => all := imports + [AppendSegment(prefix, ident)];
    case Glob => all := imports + [prefix + "::" + STAR];
    case Group(items) =>
      all := imports;
      for i := 0 to |items|
        invariant all == imports + FlattenAll(prefix, items[..i])
      {
        assert items[..i + 1][..i] == items[..i];
        all := FlattenUseTree(prefix, items[i], all);
      }
      assert items[..|items|] == items;
  }

  /** The text of a leaf path; a glob without any prefix keeps its separator. */
  function PathText(path: seq<string>): string {
    if path == [STAR] then "::" + STAR else PathToString(path)
  }

  function PathTexts(prefix: seq<string>, paths: seq<seq<string>>): seq<string> {
    seq(|paths|, i requires 0 <= i < |paths| => PathText(prefix + paths[i]))
  }

  predicate Prefix(path: seq<string>) {
    forall i :: 0 <= i < |path| ==> Segment(path[i]) && path[i] != STAR
  }

  lemma AppendIsJoin(prefix: seq<string>, segment: string)
    requires Prefix(prefix)
    ensures AppendSegment(PathToString(prefix), segment) == PathToString(prefix + [segment])
    ensures prefix != [] ==> PathToString(prefix) != ""
  {
    if prefix == [] {
      assert prefix + [segment] == [segment];
    } else {
      JoinedShape(prefix);
      JoinedAppend(prefix, [segment]);
    }
  }

  lemma {:induction false} FlattenIsLeafPaths(prefix: seq<string>, tree: UseTree)
    requires Prefix(prefix) && ValidTree(tree)
    ensures Flatten(PathToString(prefix), tree) == PathTexts(prefix, LeafPaths(tree))
    decreases tree
  {
    match tree
    case Path(ident, sub) =>
      AppendIsJoin(prefix, ident);
      FlattenIsLeafPaths(prefix + [ident], sub);
      var paths := LeafPaths(sub);
      assert forall i :: 0 <= i < |paths| ==> (prefix + [ident]) + paths[i] == prefix + ([ident] + paths[i]);
    case Name(ident) => LeafText(prefix, ident);
    case Rename(ident, _) => LeafText(prefix, ident);
    case Glob =>
      GlobText(prefix);
    case Group(items) => FlattenAllIsLeafPaths(prefix, items);
  }

  lemma GlobText(prefix: seq<string>)
    requires Prefix(prefix)
    ensures PathText(prefix + [STAR]) == PathToString(prefix) + "::" + STAR
  {
    AppendIsJoin(prefix, STAR);
    if prefix == [] {
      assert prefix + [STAR] == [STAR];
    } else {
      assert (prefix + [STAR])[0] == prefix[0];
    }
  }

  lemma LeafText(prefix: seq<string>, ident: string)
    requires Prefix(prefix) && Segment(ident) && ident != STAR
    ensures PathText(prefix + [ident]) == AppendSegment(PathToString(prefix), ident)
  {
    AppendIsJoin(prefix, ident);
    assert (prefix + [ident])[|prefix|] == ident;
  }

  lemma {:induction false} FlattenAllIsLeafPaths(prefix: seq<string>, items: seq<UseTree>)
    requires Prefix(prefix) && forall i :: 0 <= i < |items| ==> ValidTree(items[i])
    ensures FlattenAll(PathToString(prefix), items) == PathTexts(prefix, LeafPathsOf(items))
    decreases items
  {
    if items != [] {
      var n := |items| - 1;
      FlattenAllIsLeafPaths(prefix, items[..n]);
      FlattenIsLeafPaths(prefix, items[n]);
    }
  }

  function LeafCount(tree: UseTree): nat {
    match tree
    case Path(_, sub) => LeafCount(sub)
    case Group(items) => LeafCountOf(items)
    case _ => 1
  }

  function LeafCountOf(items: seq<UseTree>): nat {
    if items == [] then 0 else LeafCountOf(items[..|items| - 1]) + LeafCount(items[|items| - 1])
  }

  lemma {:induction false} OnePathPerLeaf(tree: UseTree)
    ensures |LeafPaths(tree)| == LeafCount(tree)
    decreases tree
  {
    match tree
    case Path(_, sub) => OnePathPerLeaf(sub);
    case Group(items) => OnePathPerLeafOf(items);
    case _ =>
  }

  lemma {:induction false} OnePathPerLeafOf(items: seq<UseTree>)
    ensures |LeafPathsOf(items)| == LeafCountOf(items)
    decreases items
  {
    if items != [] {
      OnePathPerLeafOf(items[..|items| - 1]);
      OnePathPerLeaf(items[|items| - 1]);
    }
  }

  // ------------------------------------------------------------------ forbidden crates

  const FORBIDDEN_CRATES: seq<string> := [
    "clankers_agent", "clankers_config", "clankers_controller", "clankers_matrix", "clankers_protocol",
    "clankers_provider", "clankers_runtime", "clankers_session", "clankers_tui", "clanker_router",
    "ratatui", "crossterm", "iroh", "reqwest", "redb", "tokio", "tokio_util"]

  predicate StartsInCrate(crateName: string, text: string) {
    text == crateName || crateName + "::" <= text
  }

  predicate Flagged(forbidden: seq<string>, text: string) {
    exists k :: 0 <= k < |forbidden| && StartsInCrate(forbidden[k], text)
  }

  /** The flagged imports of a `use` item, in order. */
  function ForbiddenImports(forbidden: seq<string>, tree: UseTree): seq<string> {
    Filter(text => Flagged(forbidden, text), Flatten("", tree))
  }

  method FindForbidden(forbidden: seq<string>, tree: UseTree) returns (findings: seq<string>)
    ensures findings == ForbiddenImports(forbidden, tree)
  {
    var imports := FlattenUseTree("", tree, []);
    assert [] + Flatten("", tree) == Flatten("", tree);
    findings := [];
    for i := 0 to |imports|
      invariant findings == Filter(text => Flagged(forbidden, text), imports[..i])
    {
      FilterAppend(text => Flagged(forbidden, text), imports[..i], [imports[i]]);
      assert imports[..i + 1] == imports[..i] + [imports[i]];
      var k := 0;
      while k < |forbidden| && !StartsInCrate(forbidden[k], imports[i])
        invariant k <= |forbidden| && forall j :: 0 <= j < k ==> !StartsInCrate(forbidden[j], imports[i])
      {
        k := k + 1;
      }
      assert k < |forbidden| <==> Flagged(forbidden, imports[i]);
      if k < |forbidden| {
        findings := findings + [imports[i]];
      }
    }
    assert imports[..|imports|] == imports;
  }

  /** The text test sees the first segment and nothing else. */
  lemma StartsInCrateIsFirstSegment(crateName: string, path: seq<string>)
    requires Segment(crateName) && crateName != STAR && Segments(path)
    ensures StartsInCrate(crateName, PathText(path)) <==> path[0] == crateName
  {
    if path == [STAR] {
      assert crateName[0] in crateName;
      assert (crateName + "::")[0] == crateName[0] != PathText(path)[0];
    } else {
      JoinedShape(path);
      var text := PathToString(path);
      assert text[..|path[0]|] == path[0];
      if crateName + "::" <= text {
        assert text[|crateName|] == (crateName + "::")[|crateName|] == ':';
        assert forall j :: 0 <= j < |crateName| ==> text[j] == (crateName + "::")[j] == crateName[j];
        assert IndexOf(text, ':') == |crateName|;
        assert crateName == text[..|crateName|];
      }
      if text == crateName {
        assert IndexOf(text, ':') == |text|;
      }
      if path[0] == crateName && |path| > 1 {
        assert text[..|crateName| + 2] == crateName + "::";
      }
    }
  }

  lemma ForbiddenAreSegments()
    ensures forall k :: 0 <= k < |FORBIDDEN_CRATES| ==> Segment(FORBIDDEN_CRATES[k]) && FORBIDDEN_CRATES[k] != STAR
  {
  }

  predicate LeafInside(forbidden: seq<string>, path: seq<string>) {
    path != [] && path[0] in forbidden
  }

  /** An import is flagged exactly when the first segment of its leaf is a forbidden crate. */
  lemma FlaggedIsForbiddenCrate(forbidden: seq<string>, path: seq<string>)
    requires Segments(path) && forall k :: 0 <= k < |forbidden| ==> Segment(forbidden[k]) && forbidden[k] != STAR
    ensures Flagged(forbidden, PathText(path)) <==> LeafInside(forbidden, path)
  {
    forall k | 0 <= k < |forbidden| ensures StartsInCrate(forbidden[k], PathText(path)) <==> path[0] == forbidden[k] {
      StartsInCrateIsFirstSegment(forbidden[k], path);
    }
  }

  lemma {:induction false} LeafPathsAreSegments(tree: UseTree, k: nat)
    requires ValidTree(tree) && k < |LeafPaths(tree)|
    ensures Segments(LeafPaths(tree)[k])
    decreases tree
  {
    match tree
    case Path(ident, sub) => LeafPathsAreSegments(sub, k);
    case Group(items) => LeafPathsOfAreSegments(items, k);
    case _ =>
  }

  lemma {:induction false} LeafPathsOfAreSegments(items: seq<UseTree>, k: nat)
    requires (forall i :: 0 <= i < |items| ==> ValidTree(items[i])) && k < |LeafPathsOf(items)|
    ensures Segments(LeafPathsOf(items)[k])
    decreases items
  {
    var n := |items| - 1;
    var before := LeafPathsOf(items[..n]);
    if k < |before| {
      LeafPathsOfAreSegments(items[..n], k);
    } else {
      LeafPathsAreSegments(items[n], k - |before|);
    }
  }

  /**
   For any `use` tree the flattened imports are its leaf paths, one per leaf, and the k-th is
   flagged exactly when the k-th leaf starts in a forbidden crate.
   */
  lemma ForbiddenTestIsExact(tree: UseTree, k: nat)
    requires ValidTree(tree) && k < |Flatten("", tree)|
    ensures |Flatten("", tree)| == |LeafPaths(tree)| == LeafCount(tree)
    ensures Flatten("", tree)[k] == PathText(LeafPaths(tree)[k])
    ensures Flagged(FORBIDDEN_CRATES, Flatten("", tree)[k]) <==> LeafInside(FORBIDDEN_CRATES, LeafPaths(tree)[k])
  {
    OnePathPerLeaf(tree);
    FlattenIsLeafPaths([], tree);
    assert [] + LeafPaths(tree)[k] == LeafPaths(tree)[k];
    LeafPathsAreSegments(tree, k);
    ForbiddenAreSegments();
    FlaggedIsForbiddenCrate(FORBIDDEN_CRATES, LeafPaths(tree)[k]);
  }

  /** Any `use` item is reported exactly when one of its leaves starts in a forbidden crate. */
  lemma ForbiddenItemIsReported(tree: UseTree)
    requires ValidTree(tree)
    ensures ForbiddenImports(FORBIDDEN_CRATES, tree) != []
      <==> exists k :: 0 <= k < |LeafPaths(tree)| && LeafInside(FORBIDDEN_CRATES, LeafPaths(tree)[k])
  {
    var imports, findings := Flatten("", tree), ForbiddenImports(FORBIDDEN_CRATES, tree);
    OnePathPerLeaf(tree);
    FlattenIsLeafPaths([], tree);
    if findings != [] {
      FilterMember(text => Flagged(FORBIDDEN_CRATES, text), imports, findings[0]);
      var k :| 0 <= k < |imports| && imports[k] == findings[0];
      ForbiddenTestIsExact(tree, k);
    }
    if k :| 0 <= k < |LeafPaths(tree)| && LeafInside(FORBIDDEN_CRATES, LeafPaths(tree)[k]) {
      ForbiddenTestIsExact(tree, k);
      FilterMember(text => Flagged(FORBIDDEN_CRATES, text), imports, imports[k]);
    }
  }
}
