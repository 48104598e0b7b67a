/**
 The workspace dependency graph of check-lego-architecture-boundaries: read from cargo metadata,
 then reversed so that each package knows its users.
 */
module DependencyGraph {
  import opened Text
  import opened Order
  import opened Json

  type Graph = map<string, set<string>>

  // ------------------------------------------------------------------ reading the metadata

  function NameOf(v: Value): Option<string> {
    AsStr(Get(v, "name"))
  }

  function IdOf(v: Value): Option<string> {
    AsStr(Get(v, "id"))
  }

  function Packages(metadata: Value): Option<seq<Value>> {
    AsArray(Get(metadata, "packages"))
  }

  function Members(metadata: Value): Option<seq<Value>> {
    AsArray(Get(metadata, "workspace_members"))
  }

  function DependenciesOf(package: Value): Option<seq<Value>> {
    AsArray(Get(package, "dependencies"))
  }

  predicate IsDev(dep: Value) {
    AsStr(Get(dep, "kind")) == Some("dev")
  }

  /** What the readers take from one package and from one dependency. */
  datatype Package = Package(id: Option<string>, name: Option<string>, deps: Option<seq<Dependency>>)

  datatype Dependency = Dependency(name: Option<string>, dev: bool)

  function DependencyFrom(v: Value): Dependency {
    Dependency(NameOf(v), IsDev(v))
  }

  function PackageFrom(v: Value): Package {
    Package(IdOf(v), NameOf(v),
            match DependenciesOf(v)
            case None => None
            case Some(deps) => Some(seq(|deps|, i requires 0 <= i < |deps| => DependencyFrom(deps[i]))))
  }

  /** The identity read from a package, in terms of its members. */
  lemma IdentityIsReadExactly(v: Value)
    requires WellFormed(v)
    ensures forall id :: PackageFrom(v).id == Some(id) <==> HasMember(v, "id", Str(id))
    ensures forall name :: PackageFrom(v).name == Some(name) <==> HasMember(v, "name", Str(name))
  {
    AccessorsAreExact(v, "id");
    AccessorsAreExact(v, "name");
  }

  /** The dependencies read from a package: those of its list, in order, and nothing if it has no list. */
  lemma DependenciesAreReadExactly(v: Value, items: seq<Value>)
    requires WellFormed(v)
    ensures DependenciesOf(v) == Some(items) <==> HasMember(v, "dependencies", Arr(items))
    ensures PackageFrom(v).deps.Some? <==> DependenciesOf(v).Some?
    ensures HasMember(v, "dependencies", Arr(items)) ==> AllReadFrom(PackageFrom(v).deps.value, items)
  {
    AccessorsAreExact(v, "dependencies");
    assert Get(v, "dependencies") == Some(Arr(items)) <==> HasMember(v, "dependencies", Arr(items));
    if HasMember(v, "dependencies", Arr(items)) {
      GetIsWellFormed(v, "dependencies");
      forall i | 0 <= i < |items| ensures IsReadFrom(DependencyFrom(items[i]), items[i]) {
        DependencyIsReadExactly(items[i]);
      }
    }
  }

  lemma DependencyIsReadExactly(v: Value)
    requires WellFormed(v)
    ensures IsReadFrom(DependencyFrom(v), v)
  {
    AccessorsAreExact(v, "name");
    AccessorsAreExact(v, "kind");
  }

  ghost predicate AllReadFrom(deps: seq<Dependency>, items: seq<Value>) {
    |deps| == |items| && forall i :: 0 <= i < |items| ==> IsReadFrom(deps[i], items[i])
  }

  /** The dependency has this name, and is a dev dependency exactly when its kind says so. */
  ghost predicate IsReadFrom(d: Dependency, v: Value) {
    && (forall name :: d.name == Some(name) <==> HasMember(v, "name", Str(name)))
    && (d.dev <==> HasMember(v, "kind", Str("dev")))
  }

  /** The two lists read from the metadata, in terms of its members. */
  lemma MetadataIsReadExactly(metadata: Value)
    requires WellFormed(metadata)
    ensures forall items :: Packages(metadata) == Some(items) <==> HasMember(metadata, "packages", Arr(items))
    ensures forall items :: Members(metadata) == Some(items) <==> HasMember(metadata, "workspace_members", Arr(items))
  {
    AccessorsAreExact(metadata, "packages");
    AccessorsAreExact(metadata, "workspace_members");
  }

  function PackagesFrom(vs: seq<Value>): seq<Package> {
    seq(|vs|, i requires 0 <= i < |vs| => PackageFrom(vs[i]))
  }

  // ------------------------------------------------------------------ workspace packages

  function MemberIds(members: seq<Value>): set<string> {
    set v | v in members && v.Str? :: v.s
  }

  predicate IsMember(p: Package, ids: set<string>) {
    p.id.Some? && p.id.value in ids
  }

  predicate NameReadable(p: Package, ids: set<string>) {
    p.id.Some? && (p.id.value in ids ==> p.name.Some?)
  }

  function NamesIn(packages: seq<Package>, ids: set<string>): set<string> {
    set p | p in packages && IsMember(p, ids) && p.name.Some? :: p.name.value
  }

  /** The names of the packages whose id is a workspace member; nothing if one cannot be read. */
  method MemberNames(packages: seq<Package>, ids: set<string>) returns (r: Option<set<string>>)
    ensures r.Some? <==> forall i :: 0 <= i < |packages| ==> NameReadable(packages[i], ids)
    ensures r.Some? ==> r.value == NamesIn(packages, ids)
  {
    var names: set<string> := {};
    for i := 0 to |packages|
      invariant forall j :: 0 <= j < i ==> NameReadable(packages[j], ids)
      invariant names == NamesIn(packages[..i], ids)
    {
      var p := packages[i];
      if !NameReadable(p, ids) {
        return None;
      }
      assert packages[..i + 1] == packages[..i] + [p];
      if p.id.value in ids {
        names := names + {p.name.value};
      }
    }
    assert packages[..|packages|] == packages;
    return Some(names);
  }

  ghost predicate NamesAre(metadata: Value, r: Option<set<string>>) {
    var packages, members := Packages(metadata), Members(metadata);
    if packages.None? || members.None? then r.None?
    else
      var ps, ids := PackagesFrom(packages.value), MemberIds(members.value);
      && (r.Some? <==> forall i :: 0 <= i < |ps| ==> NameReadable(ps[i], ids))
      && (r.Some? ==> r.value == NamesIn(ps, ids))
  }

  method WorkspacePackageNames(metadata: Value) returns (r: Option<set<string>>)
    ensures NamesAre(metadata, r)
  {
    var packages, members := Packages(metadata), Members(metadata);
    if packages.None? || members.None? {
      return None;
    }
    r := MemberNames(PackagesFrom(packages.value), MemberIds(members.value));
  }

  // ------------------------------------------------------------------ the dependency map

  predicate InWorkspace(p: Package, workspace: set<string>) {
    p.name.Some? && p.name.value in workspace
  }

  predicate DepsReadable(deps: seq<Dependency>) {
    forall i :: 0 <= i < |deps| && !deps[i].dev ==> deps[i].name.Some?
  }

  predicate Readable(p: Package, workspace: set<string>) {
    p.name.Some? && (p.name.value in workspace ==> p.deps.Some? && DepsReadable(p.deps.value))
  }

  function Internal(name: string, deps: seq<Dependency>, workspace: set<string>): set<string> {
    set d | d in deps && !d.dev && d.name.Some? && d.name.value in workspace && d.name.value != name :: d.name.value
  }

  method InternalDeps(name: string, deps: seq<Dependency>, workspace: set<string>) returns (r: Option<set<string>>)
    ensures r.Some? <==> DepsReadable(deps)
    ensures r.Some? ==> r.value == Internal(name, deps, workspace)
  {
    var internal: set<string> := {};
    for i := 0 to |deps|
      invariant DepsReadable(deps[..i])
      invariant internal == Internal(name, deps[..i], workspace)
    {
      assert deps[..i + 1] == deps[..i] + [deps[i]];
      if deps[i].dev {
        continue;
      }
      if deps[i].name.None? {
        return None;
      }
      var dep := deps[i].name.value;
      if dep in workspace && dep != name {
        internal := internal + {dep};
      }
    }
    assert deps[..|deps|] == deps;
    return Some(internal);
  }

  /** The last package of a name that belongs to the workspace decides the entry of that name. */
  function GraphOf(packages: seq<Package>, workspace: set<string>): Graph {
    if packages == [] then map[]
    else
      var p := packages[|packages| - 1];
      var before := GraphOf(packages[..|packages| - 1], workspace);
      if InWorkspace(p, workspace) && p.deps.Some?
      then before[p.name.value := Internal(p.name.value, p.deps.value, workspace)]
      else before
  }

  method MapOfPackages(packages: seq<Package>, workspace: set<string>) returns (r: Option<Graph>)
    ensures r.Some? <==> forall i :: 0 <= i < |packages| ==> Readable(packages[i], workspace)
    ensures r.Some? ==> r.value == GraphOf(packages, workspace)
  {
    var m: Graph := map[];
    for i := 0 to |packages|
      invariant forall j :: 0 <= j < i ==> Readable(packages[j], workspace)
      invariant m == GraphOf(packages[..i], workspace)
    {
      var p := packages[i];
      assert packages[..i + 1][..i] == packages[..i];
      if p.name.None? {
        return None;
      }
      if p.name.value !in workspace {
        continue;
      }
      if p.deps.None? {
        return None;
      }
      var internal := InternalDeps(p.name.value, p.deps.value, workspace);
      if internal.None? {
        return None;
      }
      m := m[p.name.value := internal.value];
    }
    assert packages[..|packages|] == packages;
    return Some(m);
  }

  ghost predicate MapIs(metadata: Value, workspace: set<string>, r: Option<Graph>) {
    var packages := Packages(metadata);
    if packages.None? then r.None?
    else
      var ps := PackagesFrom(packages.value);
      && (r.Some? <==> forall i :: 0 <= i < |ps| ==> Readable(ps[i], workspace))
      && (r.Some? ==> r.value == GraphOf(ps, workspace))
  }

  method DependencyMap(metadata: Value, workspace: set<string>) returns (r: Option<Graph>)
    ensures MapIs(metadata, workspace, r)
  {
    var packages := Packages(metadata);
    if packages.None? {
      return None;
    }
    r := MapOfPackages(PackagesFrom(packages.value), workspace);
  }

  // ------------------------------------------------------------------ the shape of the map

  /** A graph over exactly `nodes`, without self edges. */
  predicate GraphOver(g: Graph, nodes: set<string>) {
    && g.Keys == nodes
    && forall s :: s in g ==> g[s] <= nodes && s !in g[s]
  }

  lemma {:induction false} GraphOfIsInternal(packages: seq<Package>, workspace: set<string>)
    ensures forall s :: s in GraphOf(packages, workspace) ==>
      s in workspace && GraphOf(packages, workspace)[s] <= workspace && s !in GraphOf(packages, workspace)[s]
  {
    if packages != [] {
      GraphOfIsInternal(packages[..|packages| - 1], workspace);
    }
  }

  lemma {:induction false} GraphOfKeys(packages: seq<Package>, workspace: set<string>, k: nat)
    requires k < |packages| && InWorkspace(packages[k], workspace) && packages[k].deps.Some?
    ensures packages[k].name.value in GraphOf(packages, workspace)
  {
    if k < |packages| - 1 {
      GraphOfKeys(packages[..|packages| - 1], workspace, k);
    }
  }

  /** An edge in the map comes from the last package of its source's name, and from no other place. */
  lemma {:induction false} EdgesComeFromLast(packages: seq<Package>, workspace: set<string>, k: nat)
    requires k < |packages| && InWorkspace(packages[k], workspace) && packages[k].deps.Some?
    requires forall j :: k < j < |packages| ==> packages[j].name != packages[k].name
    ensures packages[k].name.value in GraphOf(packages, workspace)
    ensures GraphOf(packages, workspace)[packages[k].name.value] ==
      Internal(packages[k].name.value, packages[k].deps.value, workspace)
  {
    if k < |packages| - 1 {
      EdgesComeFromLast(packages[..|packages| - 1], workspace, k);
    }
  }

  /** With the names of the same metadata, the map has an entry for every workspace package. */
  lemma MetadataGraphCovers(metadata: Value, names: Option<set<string>>, g: Option<Graph>)
    requires NamesAre(metadata, names) && names.Some? && MapIs(metadata, names.value, g) && g.Some?
    ensures GraphOver(g.value, names.value)
  {
    var ps, ids := PackagesFrom(Packages(metadata).value), MemberIds(Members(metadata).value);
    GraphOfIsInternal(ps, names.value);
    forall n | n in names.value ensures n in g.value {
      var p :| p in ps && IsMember(p, ids) && p.name == Some(n);
      var k :| 0 <= k < |ps| && ps[k] == p;
      assert Readable(ps[k], names.value);
      GraphOfKeys(ps, names.value, k);
    }
  }

  // ------------------------------------------------------------------ the metadata, member by member

  ghost predicate Holds(metadata: Value, packages: seq<Value>, members: seq<Value>) {
    HasMember(metadata, "packages", Arr(packages)) && HasMember(metadata, "workspace_members", Arr(members))
  }

  ghost predicate HasName(v: Value, name: string) {
    HasMember(v, "name", Str(name))
  }

  /** The id of the package is listed among the workspace members. */
  ghost predicate InList(v: Value, members: seq<Value>) {
    exists id :: HasMember(v, "id", Str(id)) && Str(id) in members
  }

  /** The package has an id, and a name if the id is listed. */
  ghost predicate NameCanBeRead(v: Value, members: seq<Value>) {
    (exists id :: HasMember(v, "id", Str(id))) && (InList(v, members) ==> exists name :: HasName(v, name))
  }

  lemma ListedPackage(v: Value, members: seq<Value>)
    requires WellFormed(v)
    ensures
      var p, ids := PackageFrom(v), MemberIds(members);
      && (IsMember(p, ids) <==> InList(v, members)) && (NameReadable(p, ids) <==> NameCanBeRead(v, members))
      && forall name :: p.name == Some(name) <==> HasName(v, name)
  {
    IdentityIsReadExactly(v);
    var p := PackageFrom(v);
    if p.id.Some? {
      assert HasMember(v, "id", Str(p.id.value));
      ListedId(members, p.id.value);
    }
    if p.name.Some? {
      assert HasName(v, p.name.value);
    }
  }

  lemma ListedId(members: seq<Value>, id: string)
    ensures id in MemberIds(members) <==> Str(id) in members
  {
    if Str(id) in members {
      assert Str(id).s == id;
    }
  }

  /** The names are those of the packages whose id is a workspace member, and are read if and only if all these can be. */
  lemma NamesAreExact(metadata: Value, packages: seq<Value>, members: seq<Value>, r: Option<set<string>>)
    requires WellFormed(metadata) && Holds(metadata, packages, members) && NamesAre(metadata, r)
    ensures r.Some? <==> forall v :: v in packages ==> NameCanBeRead(v, members)
    ensures r.Some? ==> forall name :: name in r.value <==> exists v :: v in packages && InList(v, members) && HasName(v, name)
  {
    MetadataIsReadExactly(metadata);
    GetIsWellFormed(metadata, "packages");
    var ps, ids := PackagesFrom(packages), MemberIds(members);
    forall i | 0 <= i < |packages| ensures NameReadable(ps[i], ids) <==> NameCanBeRead(packages[i], members) {
      ListedPackage(packages[i], members);
    }
    forall name ensures name in NamesIn(ps, ids) <==> exists v :: v in packages && InList(v, members) && HasName(v, name) {
      NamedMember(packages, members, name);
    }
  }

  lemma NamedMember(packages: seq<Value>, members: seq<Value>, name: string)
    requires forall v :: v in packages ==> WellFormed(v)
    ensures name in NamesIn(PackagesFrom(packages), MemberIds(members))
      <==> exists v :: v in packages && InList(v, members) && HasName(v, name)
  {
    var ps, ids := PackagesFrom(packages), MemberIds(members);
    if name in NamesIn(ps, ids) {
      var p :| p in ps && IsMember(p, ids) && p.name == Some(name);
      var i :| 0 <= i < |ps| && ps[i] == p;
      ListedPackage(packages[i], members);
    }
    if v :| v in packages && InList(v, members) && HasName(v, name) {
      var i :| 0 <= i < |packages| && packages[i] == v;
      ListedPackage(v, members);
      assert ps[i] in ps;
    }
  }

  ghost predicate IsDevDependency(d: Value) {
    HasMember(d, "kind", Str("dev"))
  }

  /** The package lists a dependency of this name that is no dev dependency. */
  ghost predicate DependsOn(v: Value, name: string) {
    exists items, d :: HasMember(v, "dependencies", Arr(items)) && d in items && !IsDevDependency(d) && HasName(d, name)
  }

  /** The package has a name and, in the workspace, a list in which every dependency but a dev one has a name. */
  ghost predicate EntryCanBeRead(v: Value, workspace: set<string>) {
    && (exists name :: HasName(v, name))
    && forall name :: HasName(v, name) && name in workspace ==>
         exists items :: HasMember(v, "dependencies", Arr(items)) && AllNamed(items)
  }

  ghost predicate AllNamed(items: seq<Value>) {
    forall d :: d in items ==> IsDevDependency(d) || exists name :: HasName(d, name)
  }

  lemma NamedDependencies(deps: seq<Dependency>, items: seq<Value>)
    requires AllReadFrom(deps, items)
    ensures DepsReadable(deps) <==> AllNamed(items)
  {
    forall i | 0 <= i < |items|
      ensures deps[i].dev || deps[i].name.Some? <==> IsDevDependency(items[i]) || exists name :: HasName(items[i], name)
    {
      assert IsReadFrom(deps[i], items[i]);
      if deps[i].name.Some? {
        assert HasName(items[i], deps[i].name.value);
      }
    }
    if DepsReadable(deps) {
      forall d | d in items ensures IsDevDependency(d) || exists name :: HasName(d, name) {
        var i :| 0 <= i < |items| && items[i] == d;
      }
    }
    if AllNamed(items) {
      forall i | 0 <= i < |deps| && !deps[i].dev ensures deps[i].name.Some? {
        assert items[i] in items;
      }
    }
  }

  lemma ReadableEntry(v: Value, workspace: set<string>)
    requires WellFormed(v)
    ensures Readable(PackageFrom(v), workspace) <==> EntryCanBeRead(v, workspace)
  {
    var p := PackageFrom(v);
    IdentityIsReadExactly(v);
    if p.name.Some? {
      assert HasName(v, p.name.value);
    }
    ListedDependencies(v);
  }

  lemma ListedDependencies(v: Value)
    requires WellFormed(v)
    ensures
      var p := PackageFrom(v);
      p.deps.Some? && DepsReadable(p.deps.value) <==> exists items :: HasMember(v, "dependencies", Arr(items)) && AllNamed(items)
  {
    var p := PackageFrom(v);
    DependenciesAreReadExactly(v, []);
    if p.deps.Some? {
      var items := DependenciesOf(v).value;
      DependenciesAreReadExactly(v, items);
      NamedDependencies(p.deps.value, items);
    }
    if items :| HasMember(v, "dependencies", Arr(items)) && AllNamed(items) {
      DependenciesAreReadExactly(v, items);
      NamedDependencies(p.deps.value, items);
    }
  }

  lemma InternalIsExact(v: Value, name: string, workspace: set<string>, t: string)
    requires WellFormed(v) && PackageFrom(v).deps.Some?
    ensures t in Internal(name, PackageFrom(v).deps.value, workspace) <==> t in workspace && t != name && DependsOn(v, t)
  {
    var deps, items := PackageFrom(v).deps.value, DependenciesOf(v).value;
    DependenciesAreReadExactly(v, items);
    NamedInList(deps, items, t);
    if DependsOn(v, t) {
      var listed, d :| HasMember(v, "dependencies", Arr(listed)) && d in listed && !IsDevDependency(d) && HasName(d, t);
      DependenciesAreReadExactly(v, listed);
    }
    var internal := Internal(name, deps, workspace);
    assert t in internal <==> NamedDependency(deps, t) && t in workspace && t != name;
  }

  /** A dependency of this name is read that is no dev dependency. */
  predicate NamedDependency(deps: seq<Dependency>, t: string) {
    exists d :: d in deps && !d.dev && d.name == Some(t)
  }

  lemma NamedInList(deps: seq<Dependency>, items: seq<Value>, t: string)
    requires AllReadFrom(deps, items)
    ensures NamedDependency(deps, t) <==> exists d :: d in items && !IsDevDependency(d) && HasName(d, t)
  {
    if NamedDependency(deps, t) {
      var d :| d in deps && !d.dev && d.name == Some(t);
      var i :| 0 <= i < |deps| && deps[i] == d;
      assert IsReadFrom(d, items[i]) && items[i] in items;
    }
    if d :| d in items && !IsDevDependency(d) && HasName(d, t) {
      var i :| 0 <= i < |items| && items[i] == d;
      assert IsReadFrom(deps[i], d) && deps[i] in deps;
    }
  }

  /** The map is read if and only if every entry can be. */
  lemma MapIsReadExactly(metadata: Value, packages: seq<Value>, workspace: set<string>, r: Option<Graph>)
    requires WellFormed(metadata) && HasMember(metadata, "packages", Arr(packages)) && MapIs(metadata, workspace, r)
    ensures r.Some? <==> forall v :: v in packages ==> EntryCanBeRead(v, workspace)
  {
    MetadataIsReadExactly(metadata);
    GetIsWellFormed(metadata, "packages");
    var ps := PackagesFrom(packages);
    forall i | 0 <= i < |packages| ensures Readable(ps[i], workspace) <==> EntryCanBeRead(packages[i], workspace) {
      ReadableEntry(packages[i], workspace);
    }
  }

  ghost predicate IsLastNamed(packages: seq<Value>, k: nat, name: string)
    requires k < |packages|
  {
    HasName(packages[k], name) && forall j :: k < j < |packages| ==> !HasName(packages[j], name)
  }

  /** In a map that is read, the last package of a workspace name has an edge exactly to each other workspace package it depends on. */
  lemma EdgesAreExact(metadata: Value, packages: seq<Value>, workspace: set<string>, r: Option<Graph>, k: nat, name: string, t: string)
    requires WellFormed(metadata) && HasMember(metadata, "packages", Arr(packages)) && MapIs(metadata, workspace, r) && r.Some?
    requires k < |packages| && IsLastNamed(packages, k, name) && name in workspace
    ensures name in r.value && (t in r.value[name] <==> t in workspace && t != name && DependsOn(packages[k], t))
  {
    MetadataIsReadExactly(metadata);
    GetIsWellFormed(metadata, "packages");
    var ps := PackagesFrom(packages);
    forall j | 0 <= j < |packages| ensures ps[j].name == Some(name) <==> HasName(packages[j], name) {
      IdentityIsReadExactly(packages[j]);
    }
    assert Readable(ps[k], workspace);
    EdgesComeFromLast(ps, workspace, k);
    InternalIsExact(packages[k], name, workspace, t);
  }

  // ------------------------------------------------------------------ reversing

  function Users(g: Graph, d: string): set<string> {
    set s | s in g && d in g[s]
  }

  function Reverse(g: Graph, nodes: set<string>): Graph {
    map d | d in nodes :: Users(g, d)
  }

  /** Adds one source to the users of each of its dependencies that is a node. */
  method AddUser(reverse: Graph, source: string, deps: set<string>) returns (next: Graph)
    ensures next.Keys == reverse.Keys
    ensures forall d :: d in next ==> next[d] == reverse[d] + if d in deps then {source} else {}
  {
    next := reverse;
    var rest := deps;
    while rest != {}
      invariant rest <= deps && next.Keys == reverse.Keys
      invariant forall d :: d in next ==> next[d] == reverse[d] + if d in deps - rest then {source} else {}
    {
      var dep :| dep in rest;
      if dep in next {
        next := next[dep := next[dep] + {source}];
      }
      rest := rest - {dep};
    }
  }

  method ReverseDependencyMap(g: Graph, nodes: set<string>) returns (reverse: Graph)
    ensures reverse == Reverse(g, nodes)
  {
    reverse := map d | d in nodes :: {};
    var rest := g.Keys;
    while rest != {}
      invariant rest <= g.Keys && reverse.Keys == nodes
      invariant forall d :: d in nodes ==> reverse[d] == set s | s in g && s !in rest && d in g[s]
    {
      var source :| source in rest;
      reverse := AddUser(reverse, source, g[source]);
      rest := rest - {source};
    }
    forall d | d in nodes ensures reverse[d] == Users(g, d) {
    }
  }

  /** Reversing twice restores the graph exactly when it lies over the nodes. */
  lemma ReverseTwice(g: Graph, nodes: set<string>)
    ensures Reverse(Reverse(g, nodes), nodes) == g <==> g.Keys == nodes && forall s :: s in g ==> g[s] <= nodes
  {
    var twice := Reverse(Reverse(g, nodes), nodes);
    forall s | s in nodes ensures twice[s] == set d | d in nodes && s in g && d in g[s] {
    }
    if g.Keys == nodes && forall s :: s in g ==> g[s] <= nodes {
      forall s | s in nodes ensures twice[s] == g[s] {
      }
    }
  }

  // ------------------------------------------------------------------ conservation of edges

  function EdgeSum(g: Graph, names: seq<string>): nat
    requires forall i :: 0 <= i < |names| ==> names[i] in g
  {
    if names == [] then 0 else EdgeSum(g, names[..|names| - 1]) + |g[names[|names| - 1]]|
  }

  function EdgesFrom(g: Graph, names: seq<string>): set<(string, string)> {
    set s, d | s in names && s in g && d in g[s] :: (s, d)
  }

  lemma {:induction false} PairUp(s: string, ds: set<string>, pairs: set<(string, string)>)
    requires forall p :: p in pairs <==> p.0 == s && p.1 in ds
    ensures |pairs| == |ds|
  {
    if ds != {} {
      var d :| d in ds;
      PairUp(s, ds - {d}, pairs - {(s, d)});
      assert (s, d) in pairs;
    } else {
      assert pairs == {};
    }
  }

  lemma EdgesFromSnoc(g: Graph, names: seq<string>, s: string)
    requires s in g && s !in names
    ensures |EdgesFrom(g, names + [s])| == |EdgesFrom(g, names)| + |g[s]|
  {
    var last := set d | d in g[s] :: (s, d);
    PairUp(s, g[s], last);
    assert EdgesFrom(g, names + [s]) == EdgesFrom(g, names) + last;
    assert EdgesFrom(g, names) !! last;
  }

  lemma {:induction false} EdgeSumCountsEdges(g: Graph, names: seq<string>)
    requires Distinct(names) && forall i :: 0 <= i < |names| ==> names[i] in g
    ensures EdgeSum(g, names) == |EdgesFrom(g, names)|
  {
    if names != [] {
      var n := |names| - 1;
      EdgeSumCountsEdges(g, names[..n]);
      assert names == names[..n] + [names[n]];
      EdgesFromSnoc(g, names[..n], names[n]);
    } else {
      assert EdgesFrom(g, names) == {};
    }
  }

  lemma {:induction false} FlippedSize(a: set<(string, string)>, b: set<(string, string)>)
    requires forall s, d :: (s, d) in a <==> (d, s) in b
    ensures |a| == |b|
  {
    forall p | p in b ensures (p.1, p.0) in a {
      assert (p.0, p.1) in b;
    }
    if a == {} {
      assert b == {};
    } else {
      var p :| p in a;
      assert (p.0, p.1) in a;
      FlippedSize(a - {p}, b - {(p.1, p.0)});
    }
  }

  /** Reversing neither loses nor invents an edge, however the packages are listed. */
  lemma ReverseConservesEdges(g: Graph, nodes: set<string>, names: seq<string>)
    requires GraphOver(g, nodes)
    requires Distinct(names) && forall n :: n in names <==> n in nodes
    ensures EdgeSum(Reverse(g, nodes), names) == EdgeSum(g, names)
  {
    var r := Reverse(g, nodes);
    EdgeSumCountsEdges(g, names);
    EdgeSumCountsEdges(r, names);
    FlippedSize(EdgesFrom(g, names), EdgesFrom(r, names));
  }

  /**
   The graph read from any metadata and its reverse: edges correspond one to one in opposite
   direction, none is a self edge, and reversing again gives back the graph.
   */
  lemma MetadataGraphTransposes(metadata: Value, names: Option<set<string>>, g: Option<Graph>, listed: seq<string>)
    requires NamesAre(metadata, names) && names.Some? && MapIs(metadata, names.value, g) && g.Some?
    requires Distinct(listed) && forall n :: n in listed <==> n in names.value
    ensures GraphOver(g.value, names.value) && GraphOver(Reverse(g.value, names.value), names.value)
    ensures forall s, d :: s in names.value && d in names.value ==>
      (d in g.value[s] <==> s in Reverse(g.value, names.value)[d])
    ensures Reverse(Reverse(g.value, names.value), names.value) == g.value
    ensures EdgeSum(Reverse(g.value, names.value), listed) == EdgeSum(g.value, listed)
  {
    MetadataGraphCovers(metadata, names, g);
    ReverseTwice(g.value, names.value);
    ReverseConservesEdges(g.value, names.value, listed);
  }
}
