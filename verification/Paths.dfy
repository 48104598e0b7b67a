/**
 Comparison of `PathBuf` values. Rust compares paths component by component, so repeated
 separators, inner `.` components and a trailing separator make no difference, and the
 order is not the order of the path strings.
 */
module Paths {
  import opened Text
  import opened Order

  datatype Component = RootDir | CurDir | ParentDir | Normal(name: string)

  function PieceComponent(piece: string, first: bool): seq<Component> {
    if piece == "" then []
    else if piece == "." then (if first then [CurDir] else [])
    else if piece == ".." then [ParentDir]
    else [Normal(piece)]
  }

  /** The components of the pieces between separators; `first` marks the start of a relative path. */
  function PieceComponents(pieces: seq<string>, first: bool): seq<Component> {
    if pieces == [] then []
    else PieceComponent(pieces[0], first) + PieceComponents(pieces[1..], false)
  }

  function Components(path: string): seq<Component> {
    if "/" <= path then [RootDir] + PieceComponents(Split(path, '/'), false)
    else PieceComponents(Split(path, '/'), true)
  }

  function ComponentRank(c: Component): nat {
    match c
    case RootDir => 0
    case CurDir => 1
    case ParentDir => 2
    case Normal(_) => 3
  }

  function CompareComponent(a: Component, b: Component): Ordering {
    if a.Normal? && b.Normal? then CompareStr(a.name, b.name)
    else CompareInt(ComponentRank(a), ComponentRank(b))
  }

  function ComparePath(a: string, b: string): Ordering {
    CompareSeq(CompareComponent, Components(a), Components(b))
  }

  lemma ComponentOrder()
    ensures TotalOrder(CompareComponent)
  {
    StrOrder();
    forall a, b, c | CompareComponent(a, b) != Greater && CompareComponent(b, c) != Greater
      ensures CompareComponent(a, c) != Greater
    {
    }
  }

  /** Paths are preordered, and exactly the paths with the same components tie. */
  lemma PathOrder()
    ensures Preorder(ComparePath)
    ensures forall a, b :: ComparePath(a, b) == Equal <==> Components(a) == Components(b)
  {
    ComponentOrder();
    forall a: string, b: string ensures ComparePath(b, a) == ComparePath(a, b).Flip() {
      CompareSeqFlip(CompareComponent, Components(a), Components(b));
    }
    forall a: string, b: string, c: string | ComparePath(a, b) != Greater && ComparePath(b, c) != Greater
      ensures ComparePath(a, c) != Greater
    {
      CompareSeqTransitive(CompareComponent, Components(a), Components(b), Components(c));
    }
    forall a: string, b: string ensures ComparePath(a, b) == Equal <==> Components(a) == Components(b) {
      if ComparePath(a, b) == Equal {
        CompareSeqEqual(CompareComponent, Components(a), Components(b));
      }
      CompareSeqReflexive(CompareComponent, Components(a));
    }
  }

  /** What a piece after a separator names: an empty one and a dot name nothing. */
  function Named(piece: string): seq<Component> {
    match piece
    case "" => []
    case "." => []
    case ".." => [ParentDir]
    case _ => [Normal(piece)]
  }

  /**
   The components of any path, from its last separator on: a separator at the very start is the
   root, and a dot counts only where the whole path begins with it.
   */
  lemma ComponentsFromTheEnd(path: string, piece: string)
    requires '/' !in piece
    ensures Components(piece) == if piece == "." then [CurDir] else Named(piece)
    ensures Components(path + "/" + piece) == (if path == "" then [RootDir] else Components(path)) + Named(piece)
  {
    LonePiece(piece);
    if path == "" {
      PieceOfRoot(piece);
      assert "" + "/" + piece == "/" + piece;
    } else {
      PieceOfPath(path, piece);
    }
  }

  lemma LonePiece(piece: string)
    requires '/' !in piece
    ensures Components(piece) == if piece == "." then [CurDir] else Named(piece)
  {
    OnePiece(piece, true);
    assert piece != "" ==> piece[0] in piece;
    assert Split(piece, '/') == [piece];
  }

  lemma PieceOfRoot(piece: string)
    requires '/' !in piece
    ensures Components("/" + piece) == [RootDir] + Named(piece)
  {
    SplitAtLast("", '/', piece);
    assert "" + ['/'] + piece == "/" + piece;
    assert Split("", '/') == [""];
    PieceAtEnd([""], piece, false);
    OnePiece("", false);
    assert [] + Named(piece) == Named(piece);
  }

  lemma PieceOfPath(path: string, piece: string)
    requires '/' !in piece && path != ""
    ensures Components(path + "/" + piece) == Components(path) + Named(piece)
  {
    var text, pieces := path + "/" + piece, Split(path, '/');
    SplitAtLast(path, '/', piece);
    assert Split(text, '/') == pieces + [piece];
    assert text[0] == path[0];
    PieceAtEnd(pieces, piece, !("/" <= path));
    if "/" <= path {
      assert [RootDir] + (PieceComponents(pieces, false) + Named(piece)) == [RootDir] + PieceComponents(pieces, false) + Named(piece);
    }
  }

  lemma OnePiece(piece: string, first: bool)
    ensures PieceComponents([piece], first) == if piece == "." && first then [CurDir] else Named(piece)
  {
    assert [piece][1..] == [];
  }

  lemma {:induction false} PieceAtEnd(pieces: seq<string>, piece: string, first: bool)
    requires pieces != []
    ensures PieceComponents(pieces + [piece], first) == PieceComponents(pieces, first) + Named(piece)
  {
    assert (pieces + [piece])[1..] == pieces[1..] + [piece];
    if |pieces| == 1 {
      assert pieces[1..] + [piece] == [piece];
      OnePiece(piece, false);
    } else {
      PieceAtEnd(pieces[1..], piece, false);
    }
  }

  lemma {:induction false} SplitAtLast(a: string, c: char, piece: string)
    requires c !in piece
    ensures Split(a + [c] + piece, c) == Split(a, c) + [piece]
    decreases |a|
  {
    var s := a + [c] + piece;
    var i := IndexOf(a, c);
    if i == |a| {
      SplitAtSeparator(a, c, piece);
      assert Split(piece, c) == [piece];
    } else {
      var rest := a[i + 1..] + [c] + piece;
      assert s == a[..i] + [c] + rest;
      SplitAtSeparator(a[..i], c, rest);
      SplitAtLast(a[i + 1..], c, piece);
    }
  }

  /** The root goes first, then the current and the parent directory, then names in string order. */
  ghost predicate ComponentBefore(a: Component, b: Component) {
    match (a, b)
    case (Normal(m), Normal(n)) => Before(m, n)
    case (RootDir, _) => b != RootDir
    case (CurDir, _) => b == ParentDir || b.Normal?
    case (ParentDir, _) => b.Normal?
    case (_, _) => false
  }

  /** At the first component where they differ, `a` ends or has the smaller one. */
  ghost predicate PathBeforeAt(a: seq<Component>, b: seq<Component>, k: nat) {
    k <= |a| && k < |b| && a[..k] == b[..k] && (k == |a| || ComponentBefore(a[k], b[k]))
  }

  ghost predicate PathBefore(a: string, b: string) {
    exists k: nat :: PathBeforeAt(Components(a), Components(b), k)
  }

  lemma ComponentLess(a: Component, b: Component)
    ensures CompareComponent(a, b) == Less <==> ComponentBefore(a, b)
  {
    if a.Normal? && b.Normal? {
      CompareStrIsLexicographic(a.name, b.name);
    }
  }

  /** The order of paths, in terms of their components. */
  lemma ComparePathIsLexicographic(a: string, b: string)
    ensures ComparePath(a, b) == Less <==> PathBefore(a, b)
    ensures ComparePath(a, b) == Greater <==> PathBefore(b, a)
  {
    PathOrder();
    PathLess(a, b);
    PathLess(b, a);
    assert ComparePath(b, a) == ComparePath(a, b).Flip();
  }

  lemma PathLess(a: string, b: string)
    ensures ComparePath(a, b) == Less <==> PathBefore(a, b)
  {
    var p, q := Components(a), Components(b);
    ComponentOrder();
    CompareSeqIsLexicographic(CompareComponent, p, q);
    forall k: nat ensures LessAt(CompareComponent, p, q, k) <==> PathBeforeAt(p, q, k) {
      LessAtIsBeforeAt(p, q, k);
    }
  }

  lemma LessAtIsBeforeAt(p: seq<Component>, q: seq<Component>, k: nat)
    ensures LessAt(CompareComponent, p, q, k) <==> PathBeforeAt(p, q, k)
  {
    if k < |p| && k < |q| {
      ComponentLess(p[k], q[k]);
    }
    forall i | 0 <= i < k && i < |p| && i < |q| ensures CompareComponent(p[i], q[i]) == Equal <==> p[i] == q[i] {
      ComponentOrder();
    }
    if k <= |p| && k <= |q| && p[..k] == q[..k] {
      assert forall i :: 0 <= i < k ==> p[i] == p[..k][i] == q[..k][i] == q[i];
    }
  }

  predicate InSomeName(c: char, components: seq<Component>) {
    exists k :: 0 <= k < |components| && components[k].Normal? && c in components[k].name
  }

  predicate InSomePiece(c: char, pieces: seq<string>) {
    exists k :: 0 <= k < |pieces| && c in pieces[k]
  }

  lemma InPieceOfCons(c: char, piece: string, rest: seq<string>)
    ensures InSomePiece(c, [piece] + rest) <==> c in piece || InSomePiece(c, rest)
  {
    assert ([piece] + rest)[0] == piece;
    assert forall k :: 0 <= k < |rest| ==> ([piece] + rest)[k + 1] == rest[k];
  }

  lemma InNameOfAppend(c: char, a: seq<Component>, b: seq<Component>)
    ensures InSomeName(c, a + b) <==> InSomeName(c, a) || InSomeName(c, b)
  {
    assert forall k :: 0 <= k < |a| ==> (a + b)[k] == a[k];
    assert forall k :: 0 <= k < |b| ==> (a + b)[|a| + k] == b[k];
  }

  lemma InPieceIsInItsName(c: char, piece: string, first: bool)
    requires c != '.'
    ensures InSomeName(c, PieceComponent(piece, first)) <==> c in piece
  {
    if c in piece {
      assert piece != "" && piece != "." && piece != "..";
      assert PieceComponent(piece, first)[0] == Normal(piece);
    }
  }

  lemma {:induction false} InPieceIsInName(c: char, pieces: seq<string>, first: bool)
    requires c != '.'
    ensures InSomeName(c, PieceComponents(pieces, first)) <==> InSomePiece(c, pieces)
  {
    if pieces != [] {
      InPieceIsInName(c, pieces[1..], false);
      InNameOfAppend(c, PieceComponent(pieces[0], first), PieceComponents(pieces[1..], false));
      InPieceIsInItsName(c, pieces[0], first);
      assert pieces == [pieces[0]] + pieces[1..];
      InPieceOfCons(c, pieces[0], pieces[1..]);
    }
  }

  lemma {:induction false} SplitKeepsChar(s: string, separator: char, c: char)
    requires c != separator
    ensures InSomePiece(c, Split(s, separator)) <==> c in s
    decreases |s|
  {
    var i := IndexOf(s, separator);
    if i < |s| {
      SplitKeepsChar(s[i + 1..], separator, c);
      InPieceOfCons(c, s[..i], Split(s[i + 1..], separator));
      assert s == s[..i] + [separator] + s[i + 1..];
    } else {
      InPieceOfCons(c, s, []);
      assert [s] + [] == [s];
    }
  }

  lemma RootHasNoName(c: char, rest: seq<Component>)
    ensures InSomeName(c, [RootDir] + rest) <==> InSomeName(c, rest)
  {
    InNameOfAppend(c, [RootDir], rest);
    assert !InSomeName(c, [RootDir]);
  }

  /** The components of a path hold every character of the path but separators and dots. */
  lemma PathCharIsInName(path: string, c: char)
    requires c != '/' && c != '.'
    ensures c in path <==> InSomeName(c, Components(path))
  {
    var pieces := Split(path, '/');
    SplitKeepsChar(path, '/', c);
    if "/" <= path {
      InPieceIsInName(c, pieces, false);
      RootHasNoName(c, PieceComponents(pieces, false));
    } else {
      InPieceIsInName(c, pieces, true);
    }
  }
}
