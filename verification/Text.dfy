/**
 The string operations of the Rust standard library that the checkers are built from:
 trimming, splitting on a character, `lines`, substring search and joining. Each function
 follows the library's behaviour on every input, and the lemmas say how splitting undoes
 joining.
 */
module Text {

  datatype Option<+T> = None | Some(value: T)

  /** What a trimming call removes: Unicode white space, or one given character. */
  datatype Pattern = Space | Only(c: char)

  predicate Matches(p: Pattern, c: char) {
    match p
    case Only(d) => c == d
    case Space =>
      || '\t' <= c <= '\r' || c == ' ' || c == '\U{0085}' || c == '\U{00A0}' || c == '\U{1680}'
      || '\U{2000}' <= c <= '\U{200A}' || c == '\U{2028}' || c == '\U{2029}' || c == '\U{202F}'
      || c == '\U{205F}' || c == '\U{3000}'
  }

  function TrimStart(s: string, p: Pattern): string {
    if s != [] && Matches(p, s[0]) then TrimStart(s[1..], p) else s
  }

  function TrimEnd(s: string, p: Pattern): string {
    if s != [] && Matches(p, s[|s| - 1]) then TrimEnd(s[..|s| - 1], p) else s
  }

  /** `str::trim` for `Space`, `str::trim_matches(c)` for `Only(c)`. */
  function TrimBy(s: string, p: Pattern): string {
    TrimEnd(TrimStart(s, p), p)
  }

  function Trim(s: string): string {
    TrimBy(s, Space)
  }

  predicate AllMatch(s: string, p: Pattern) {
    forall i :: 0 <= i < |s| ==> Matches(p, s[i])
  }

  /** Nothing is left to trim at either end. */
  predicate Trimmed(s: string, p: Pattern) {
    s == [] || (!Matches(p, s[0]) && !Matches(p, s[|s| - 1]))
  }

  lemma {:induction false} TrimStartPadded(pad: string, s: string, p: Pattern)
    requires AllMatch(pad, p)
    ensures TrimStart(pad + s, p) == TrimStart(s, p)
  {
    if pad == [] {
      assert pad + s == s;
    } else {
      assert (pad + s)[1..] == pad[1..] + s;
      TrimStartPadded(pad[1..], s, p);
    }
  }

  lemma {:induction false} TrimEndPadded(s: string, pad: string, p: Pattern)
    requires AllMatch(pad, p)
    ensures TrimEnd(s + pad, p) == TrimEnd(s, p)
  {
    if pad == [] {
      assert s + pad == s;
    } else {
      var short := pad[..|pad| - 1];
      assert (s + pad)[..|s + pad| - 1] == s + short;
      assert (s + pad)[|s + pad| - 1] == pad[|pad| - 1];
      TrimEndPadded(s, short, p);
    }
  }

  lemma {:induction false} TrimEndIgnoresPad(s: string, pad: string, p: Pattern)
    requires AllMatch(pad, p)
    ensures TrimEnd(TrimStart(s + pad, p), p) == TrimEnd(TrimStart(s, p), p)
  {
    if s == [] {
      assert s + pad == pad == pad + [];
      TrimStartPadded(pad, [], p);
    } else if Matches(p, s[0]) {
      assert (s + pad)[1..] == s[1..] + pad;
      TrimEndIgnoresPad(s[1..], pad, p);
    } else {
      TrimEndPadded(s, pad, p);
    }
  }

  /** Padding around any text is trimmed away with the text's own. */
  lemma TrimIgnoresPads(before: string, s: string, after: string, p: Pattern)
    requires AllMatch(before, p) && AllMatch(after, p)
    ensures TrimBy(before + s + after, p) == TrimBy(s, p)
  {
    assert before + s + after == before + (s + after);
    TrimStartPadded(before, s + after, p);
    TrimEndIgnoresPad(s, after, p);
  }

  /** Trimming removes exactly the padding around a core that does not itself need trimming. */
  lemma TrimPadded(before: string, core: string, after: string, p: Pattern)
    requires AllMatch(before, p) && AllMatch(after, p) && Trimmed(core, p)
    ensures TrimBy(before + core + after, p) == core
  {
    TrimIgnoresPads(before, core, after, p);
  }

  /** Trimming leaves a text alone exactly when there is nothing to trim. */
  lemma TrimKeepsExactly(s: string, p: Pattern)
    ensures TrimBy(s, p) == s <==> Trimmed(s, p)
  {
    TrimShape(s, p);
  }

  lemma {:induction false} TrimStartShape(s: string, p: Pattern)
    ensures |TrimStart(s, p)| <= |s| && TrimStart(s, p) == s[|s| - |TrimStart(s, p)|..]
    ensures TrimStart(s, p) == [] || !Matches(p, TrimStart(s, p)[0])
  {
    if s != [] && Matches(p, s[0]) {
      TrimStartShape(s[1..], p);
    }
  }

  lemma {:induction false} TrimEndShape(s: string, p: Pattern)
    ensures |TrimEnd(s, p)| <= |s| && TrimEnd(s, p) == s[..|TrimEnd(s, p)|]
    ensures TrimEnd(s, p) == [] || !Matches(p, TrimEnd(s, p)[|TrimEnd(s, p)| - 1])
  {
    if s != [] && Matches(p, s[|s| - 1]) {
      TrimEndShape(s[..|s| - 1], p);
    }
  }

  lemma TrimStartCut(s: string, p: Pattern) returns (before: string)
    ensures AllMatch(before, p) && s == before + TrimStart(s, p)
  {
    if s != [] && Matches(p, s[0]) {
      var rest := TrimStartCut(s[1..], p);
      before := [s[0]] + rest;
    } else {
      before := [];
    }
  }

  lemma TrimEndCut(s: string, p: Pattern) returns (after: string)
    ensures AllMatch(after, p) && s == TrimEnd(s, p) + after
  {
    if s != [] && Matches(p, s[|s| - 1]) {
      var rest := TrimEndCut(s[..|s| - 1], p);
      after := rest + [s[|s| - 1]];
    } else {
      after := [];
    }
  }

  /** The result of trimming is trimmed and adds no character. */
  lemma TrimShape(s: string, p: Pattern)
    ensures Trimmed(TrimBy(s, p), p)
    ensures forall c :: c in TrimBy(s, p) ==> c in s
  {
    TrimStartShape(s, p);
    TrimEndShape(TrimStart(s, p), p);
  }

  /** The position of the first `c`, or the length of `s` when there is none. */
  function IndexOf(s: string, c: char): (i: nat)
    ensures i <= |s|
    ensures i < |s| ==> s[i] == c
    ensures forall j :: 0 <= j < i ==> s[j] != c
  {
    if s == [] || s[0] == c then 0 else 1 + IndexOf(s[1..], c)
  }

  /** `str::split(c)`: always at least one piece, and no piece holds the separator. */
  function Split(s: string, c: char): (pieces: seq<string>)
    ensures |pieces| >= 1
    ensures forall i :: 0 <= i < |pieces| ==> c !in pieces[i]
    decreases |s|
  {
    var i := IndexOf(s, c);
    if i == |s| then [s] else [s[..i]] + Split(s[i + 1..], c)
  }

  lemma {:induction false} SplitChars(s: string, c: char, k: nat)
    requires k < |Split(s, c)|
    ensures forall x :: x in Split(s, c)[k] ==> x in s
    decreases |s|
  {
    var i := IndexOf(s, c);
    if i < |s| && k > 0 {
      SplitChars(s[i + 1..], c, k - 1);
    }
  }

  function Join(parts: seq<string>, separator: string): string {
    if parts == [] then []
    else if |parts| == 1 then parts[0]
    else parts[0] + separator + Join(parts[1..], separator)
  }

  lemma {:induction false} JoinSnoc(parts: seq<string>, separator: string, last: string)
    requires parts != []
    ensures Join(parts + [last], separator) == Join(parts, separator) + separator + last
  {
    if |parts| > 1 {
      JoinSnoc(parts[1..], separator, last);
      assert (parts + [last])[1..] == parts[1..] + [last];
    } else {
      assert (parts + [last])[1..] == [last];
    }
  }

  lemma {:induction false} JoinAppend(a: seq<string>, b: seq<string>, separator: string)
    requires a != [] && b != []
    ensures Join(a + b, separator) == Join(a, separator) + separator + Join(b, separator)
  {
    if |a| == 1 {
      assert (a + b)[1..] == b;
    } else {
      assert (a + b)[1..] == a[1..] + b;
      JoinAppend(a[1..], b, separator);
    }
  }

  lemma JoinPrefix(parts: seq<string>, separator: string, i: nat)
    requires 0 < i < |parts|
    ensures Join(parts[..i + 1], separator) == Join(parts[..i], separator) + separator + parts[i]
  {
    assert parts[..i + 1] == parts[..i] + [parts[i]];
    JoinSnoc(parts[..i], separator, parts[i]);
  }

  lemma FirstSeparator(a: string, c: char, rest: string)
    requires c !in a
    ensures
      var s := a + [c] + rest;
      IndexOf(s, c) == |a| < |s| && s[..|a|] == a && s[|a| + 1..] == rest
  {
    var s := a + [c] + rest;
    assert s[|a|] == c;
    assert forall j :: 0 <= j < |a| ==> s[j] == a[j];
  }

  lemma SplitAtSeparator(a: string, c: char, rest: string)
    requires c !in a
    ensures Split(a + [c] + rest, c) == [a] + Split(rest, c)
  {
    FirstSeparator(a, c, rest);
  }

  /** Splitting undoes joining for pieces that do not hold the separator. */
  lemma {:induction false} SplitJoin(parts: seq<string>, c: char)
    requires parts != []
    requires forall i :: 0 <= i < |parts| ==> c !in parts[i]
    ensures Split(Join(parts, [c]), c) == parts
  {
    if |parts| == 1 {
      assert IndexOf(parts[0], c) == |parts[0]|;
    } else {
      SplitJoin(parts[1..], c);
      SplitAtSeparator(parts[0], c, Join(parts[1..], [c]));
      assert Join(parts, [c]) == parts[0] + [c] + Join(parts[1..], [c]);
      assert parts == [parts[0]] + parts[1..];
    }
  }

  /** Joining undoes splitting, so the pieces of a text are the only ones without a separator that make it up. */
  lemma {:induction false} JoinSplit(s: string, c: char)
    ensures Join(Split(s, c), [c]) == s
    decreases |s|
  {
    var i := IndexOf(s, c);
    if i < |s| {
      var rest := s[i + 1..];
      JoinSplit(rest, c);
      JoinCons(s[..i], Split(rest, c), [c]);
      CutAround(s, i);
    }
  }

  lemma CutAround(s: string, i: nat)
    requires i < |s|
    ensures s[..i] + [s[i]] + s[i + 1..] == s
  {
  }

  lemma JoinCons(first: string, rest: seq<string>, separator: string)
    requires rest != []
    ensures Join([first] + rest, separator) == first + separator + Join(rest, separator)
  {
    assert ([first] + rest)[1..] == rest;
  }

  // ------------------------------------------------------------------ when joined text is unambiguous

  predicate Free(parts: seq<string>, c: char) {
    forall i :: 0 <= i < |parts| ==> c !in parts[i]
  }

  lemma CountAround(a: string, c: char, b: string)
    ensures multiset(a + [c] + b)[c] == multiset(a)[c] + 1 + multiset(b)[c]
  {
    assert multiset(a + [c] + b) == multiset(a) + multiset{c} + multiset(b);
  }

  /** Joined text holds the separators, and more of them exactly when a piece holds one. */
  lemma {:induction false} SeparatorCount(parts: seq<string>, c: char)
    requires parts != []
    ensures multiset(Join(parts, [c]))[c] >= |parts| - 1
    ensures multiset(Join(parts, [c]))[c] == |parts| - 1 <==> Free(parts, c)
  {
    assert c in parts[0] <==> multiset(parts[0])[c] > 0;
    if |parts| > 1 {
      var rest := parts[1..];
      SeparatorCount(rest, c);
      CountAround(parts[0], c, Join(rest, [c]));
      assert Join(parts, [c]) == parts[0] + [c] + Join(rest, [c]);
      assert Free(parts, c) <==> c !in parts[0] && Free(rest, c) by {
        assert forall i :: 0 < i < |parts| ==> parts[i] == rest[i - 1];
      }
    }
  }

  lemma JoinDetermines(p: seq<string>, q: seq<string>, c: char)
    requires |p| == |q| && p != [] && Free(p, c) && Join(q, [c]) == Join(p, [c])
    ensures q == p
  {
    SeparatorCount(p, c);
    SeparatorCount(q, c);
    SplitJoin(p, c);
    SplitJoin(q, c);
  }

  function MergedAt(parts: seq<string>, c: char, i: nat): seq<string>
    requires i + 1 < |parts|
  {
    parts[..i] + [parts[i] + [c] + parts[i + 1]] + parts[i + 2..]
  }

  lemma {:induction false} JoinOfMerged(parts: seq<string>, c: char, i: nat)
    requires i + 1 < |parts|
    ensures Join(MergedAt(parts, c, i), [c]) == Join(parts, [c])
  {
    var merged := MergedAt(parts, c, i);
    if i == 0 {
      JoinOfMergedHead(parts, c);
    } else {
      JoinOfMerged(parts[1..], c, i - 1);
      assert merged[1..] == MergedAt(parts[1..], c, i - 1);
      assert merged[0] == parts[0];
    }
  }

  lemma Regroup(a: string, b: string, c: string, d: string, e: string)
    ensures (a + b + c) + d + e == a + b + (c + d + e)
  {
  }

  lemma JoinOfTwo(x: string, y: string, rest: seq<string>, c: char)
    ensures Join([x, y] + rest, [c]) == Join([x + [c] + y] + rest, [c])
  {
    if rest == [] {
      assert [x, y] + rest == [x] + [y] && [x + [c] + y] + rest == [x + [c] + y];
      JoinAppend([x], [y], [c]);
    } else {
      var tail := Join(rest, [c]);
      assert [x, y] + rest == [x] + ([y] + rest);
      JoinAppend([x], [y] + rest, [c]);
      JoinAppend([y], rest, [c]);
      JoinAppend([x + [c] + y], rest, [c]);
      Regroup(x, [c], y, [c], tail);
    }
  }

  lemma JoinOfMergedHead(parts: seq<string>, c: char)
    requires 1 < |parts|
    ensures Join(MergedAt(parts, c, 0), [c]) == Join(parts, [c])
  {
    assert parts == [parts[0], parts[1]] + parts[2..];
    assert MergedAt(parts, c, 0) == [parts[0] + [c] + parts[1]] + parts[2..];
    JoinOfTwo(parts[0], parts[1], parts[2..], c);
  }

  /** A separator inside a piece can move the boundary to the neighbouring piece unseen. */
  lemma ShiftedParts(parts: seq<string>, c: char, i: nat) returns (other: seq<string>)
    requires |parts| >= 2 && i < |parts| && c in parts[i]
    ensures |other| == |parts| && other != parts && Join(other, [c]) == Join(parts, [c])
  {
    var k :| 0 <= k < |parts[i]| && parts[i][k] == c;
    var u, v := parts[i][..k], parts[i][k + 1..];
    assert parts[i] == u + [c] + v;
    var j := if i + 1 < |parts| then i else i - 1;
    if i + 1 < |parts| {
      other := parts[i := u][i + 1 := v + [c] + parts[i + 1]];
      assert |other[i]| < |parts[i]|;
      assert (u + [c] + v) + [c] + parts[i + 1] == u + [c] + (v + [c] + parts[i + 1]);
    } else {
      other := parts[i - 1 := parts[i - 1] + [c] + u][i := v];
      assert |other[i]| < |parts[i]|;
      assert parts[i - 1] + [c] + (u + [c] + v) == (parts[i - 1] + [c] + u) + [c] + v;
    }
    assert MergedAt(other, c, j) == MergedAt(parts, c, j);
    JoinOfMerged(parts, c, j);
    JoinOfMerged(other, c, j);
  }

  lemma Reassociate(a: string, b: string, c: string, d: string)
    ensures a + b + c + d == a + (b + c + d)
  {
  }

  function StripCarriageReturn(line: string): string {
    if line != [] && line[|line| - 1] == '\r' then line[..|line| - 1] else line
  }

  /** `str::lines`: a line loses its newline and then one carriage return before it. */
  function Lines(text: string): seq<string>
    decreases |text|
  {
    if text == [] then []
    else
      var i := IndexOf(text, '\n');
      if i == |text| then [text] else [StripCarriageReturn(text[..i])] + Lines(text[i + 1..])
  }

  predicate IsLine(line: string) {
    '\n' !in line && (line == [] || line[|line| - 1] != '\r')
  }

  function Unlines(lines: seq<string>): string {
    if lines == [] then [] else lines[0] + "\n" + Unlines(lines[1..])
  }

  lemma LinesCons(line: string, rest: string)
    requires IsLine(line)
    ensures Lines(line + "\n" + rest) == [line] + Lines(rest)
  {
    FirstSeparator(line, '\n', rest);
    var text := line + ['\n'] + rest;
    assert line + "\n" + rest == text;
    assert StripCarriageReturn(line) == line;
    assert Lines(text) == [line] + Lines(rest);
  }

  /** A line ends at its newline, or at a carriage return right before it; what is left at the end is a line as it is. */
  lemma LinesAreExact(line: string, rest: string)
    requires '\n' !in line
    ensures Lines(line + "\r\n" + rest) == [line] + Lines(rest)
    ensures IsLine(line) ==> Lines(line + "\n" + rest) == [line] + Lines(rest)
    ensures Lines(line) == if line == "" then [] else [line]
  {
    LinesOfReturn(line, rest);
    if IsLine(line) {
      LinesCons(line, rest);
    }
  }

  lemma LinesOfReturn(line: string, rest: string)
    requires '\n' !in line
    ensures Lines(line + "\r\n" + rest) == [line] + Lines(rest)
  {
    var returned := line + "\r";
    FirstSeparator(returned, '\n', rest);
    assert line + "\r\n" + rest == returned + ['\n'] + rest;
    assert StripCarriageReturn(returned) == returned[..|line|] == line;
  }

  /** Reading lines back undoes writing them one after the other. */
  lemma {:induction false} LinesUnlines(lines: seq<string>)
    requires forall i :: 0 <= i < |lines| ==> IsLine(lines[i])
    ensures Lines(Unlines(lines)) == lines
  {
    if lines != [] {
      LinesUnlines(lines[1..]);
      LinesCons(lines[0], Unlines(lines[1..]));
    }
  }

  /** No line holds a newline. */
  lemma {:induction false} LinesHaveNoNewline(text: string, k: nat)
    requires k < |Lines(text)|
    ensures '\n' !in Lines(text)[k]
    decreases |text|
  {
    var i := IndexOf(text, '\n');
    if i < |text| && k > 0 {
      LinesHaveNoNewline(text[i + 1..], k - 1);
    }
  }

  lemma {:induction false} UnlinesAppend(a: seq<string>, b: seq<string>)
    ensures Unlines(a + b) == Unlines(a) + Unlines(b)
  {
    if a == [] {
      assert a + b == b;
    } else {
      assert (a + b)[1..] == a[1..] + b;
      UnlinesAppend(a[1..], b);
    }
  }

  lemma {:induction false} JoinedHolds(parts: seq<string>, separator: string, c: char)
    requires c !in separator && forall i :: 0 <= i < |parts| ==> c !in parts[i]
    ensures c !in Join(parts, separator)
  {
    if |parts| > 1 {
      JoinedHolds(parts[1..], separator, c);
    }
  }

  /** `str::len`: the length in bytes of the UTF-8 form. */
  function Utf8Len(s: string): nat {
    if s == [] then 0
    else (if s[0] < '\U{80}' then 1 else if s[0] < '\U{800}' then 2 else if s[0] < '\U{10000}' then 3 else 4) + Utf8Len(s[1..])
  }

  /** `str::contains` for a string needle. */
  predicate Contains(s: string, needle: string) {
    needle <= s || (s != [] && Contains(s[1..], needle))
  }

  predicate StandsAt(s: string, needle: string, i: nat) {
    i + |needle| <= |s| && s[i..i + |needle|] == needle
  }

  lemma StandsInRest(s: string, needle: string, i: nat)
    requires s != []
    ensures StandsAt(s[1..], needle, i) <==> StandsAt(s, needle, i + 1)
  {
    if i + 1 + |needle| <= |s| {
      assert s[1..][i..i + |needle|] == s[i + 1..i + 1 + |needle|];
    }
  }

  /** A text contains a needle exactly when the needle stands at some position. */
  lemma {:induction false} ContainsIsExact(s: string, needle: string)
    ensures Contains(s, needle) <==> exists i: nat :: StandsAt(s, needle, i)
  {
    assert needle <= s <==> StandsAt(s, needle, 0);
    if s != [] {
      ContainsIsExact(s[1..], needle);
      forall i: nat ensures StandsAt(s[1..], needle, i) <==> StandsAt(s, needle, i + 1) {
        StandsInRest(s, needle, i);
      }
      if i: nat :| StandsAt(s, needle, i) {
        assert i > 0 ==> StandsAt(s[1..], needle, i - 1);
      }
    }
  }

  // ------------------------------------------------------------------ decimal numbers

  /** The decimal digits of a number, as printing shows it. */
  function Decimal(n: nat): string {
    if n < 10 then [Digit(n)] else Decimal(n / 10) + [Digit(n % 10)]
  }

  function Digit(d: nat): char
    requires d < 10
  {
    ('0' as int + d) as char
  }

  lemma DecimalShape(n: nat)
    ensures |Decimal(n)| >= 1 && (n >= 10 <==> |Decimal(n)| > 1)
    ensures Decimal(n)[|Decimal(n)| - 1] == Digit(n % 10)
    ensures n >= 10 ==> Decimal(n)[..|Decimal(n)| - 1] == Decimal(n / 10)
  {
  }

  lemma {:induction false} DecimalInjective(m: nat, n: nat)
    requires Decimal(m) == Decimal(n)
    ensures m == n
  {
    DecimalShape(m);
    DecimalShape(n);
    assert Digit(m % 10) == Digit(n % 10);
    if m >= 10 {
      DecimalInjective(m / 10, n / 10);
    }
  }
}
