/**
 The incremental request reader of the provider stub: bytes arrive in reads of any size, the
 end of the head is searched for until it is found and is then remembered, and the reader
 stops once the announced body is there (section 6.3 of RFC 9112).
 Decoding the head with `String::from_utf8_lossy` is a parameter.
 */
module HttpReader {
  import opened Text

  type Byte = b: int | 0 <= b < 256
  type Bytes = seq<Byte>
  type Decoder = Bytes -> string

  const CR: Byte := 13
  const LF: Byte := 10
  const MAX_LENGTH: nat := 0xFFFF_FFFF_FFFF_FFFF

  // ------------------------------------------------------------------ the end of the head

  predicate DelimiterAt(buf: Bytes, i: nat) {
    i + 4 <= |buf| && buf[i] == CR && buf[i + 1] == LF && buf[i + 2] == CR && buf[i + 3] == LF
  }

  function HeaderEndFrom(buf: Bytes, i: nat): (r: Option<nat>)
    ensures r.Some? ==> i + 4 <= r.value <= |buf| && DelimiterAt(buf, r.value - 4)
    ensures r.Some? ==> forall j :: i <= j < r.value - 4 ==> !DelimiterAt(buf, j)
    ensures r.None? ==> forall j: nat :: i <= j ==> !DelimiterAt(buf, j)
    decreases |buf| - i
  {
    if i + 4 > |buf| then None
    else if DelimiterAt(buf, i) then Some(i + 4)
    else HeaderEndFrom(buf, i + 1)
  }

  /** The position right after the first empty line, if there is one. */
  function FindHeaderEnd(buf: Bytes): Option<nat> {
    HeaderEndFrom(buf, 0)
  }

  lemma HeaderEndIs(buf: Bytes, e: nat)
    requires e >= 4 && DelimiterAt(buf, e - 4) && forall j :: 0 <= j < e - 4 ==> !DelimiterAt(buf, j)
    ensures FindHeaderEnd(buf) == Some(e)
  {
    var r := FindHeaderEnd(buf);
    assert r.Some?;
    assert DelimiterAt(buf, r.value - 4);
  }

  /** A head that is complete stays where it is when more bytes arrive. */
  lemma HeaderEndIsStable(buf: Bytes, more: Bytes)
    requires FindHeaderEnd(buf).Some?
    ensures FindHeaderEnd(buf + more) == FindHeaderEnd(buf)
    ensures (buf + more)[..FindHeaderEnd(buf).value] == buf[..FindHeaderEnd(buf).value]
  {
    var e := FindHeaderEnd(buf).value;
    var all := buf + more;
    assert forall j :: 0 <= j < |buf| ==> all[j] == buf[j];
    forall j | 0 <= j < e - 4 ensures !DelimiterAt(all, j) {
      assert !DelimiterAt(buf, j);
    }
    HeaderEndIs(all, e);
  }

  // ------------------------------------------------------------------ the announced length

  function LowerAscii(c: char): char {
    if 'A' <= c <= 'Z' then c - 'A' + 'a' else c
  }

  predicate EqIgnoreAsciiCase(a: string, b: string) {
    |a| == |b| && forall i :: 0 <= i < |a| ==> LowerAscii(a[i]) == LowerAscii(b[i])
  }

  predicate AllDigits(s: string) {
    forall i :: 0 <= i < |s| ==> '0' <= s[i] <= '9'
  }

  function DigitsValue(s: string): nat
    requires AllDigits(s)
  {
    if s == [] then 0 else 10 * DigitsValue(s[..|s| - 1]) + (s[|s| - 1] - '0') as nat
  }

  /** `str::parse::<usize>` on a 64-bit target: an optional plus sign, digits, and no overflow. */
  function ParseLength(s: string): Option<nat> {
    var digits := if "+" <= s then s[1..] else s;
    if digits == [] || !AllDigits(digits) || DigitsValue(digits) > MAX_LENGTH then None else Some(DigitsValue(digits))
  }

  function LineLength(line: string): Option<nat> {
    var i := IndexOf(line, ':');
    if i == |line| then None
    else if EqIgnoreAsciiCase(line[..i], "content-length") then ParseLength(Trim(line[i + 1..]))
    else None
  }

  // ------------------------------------------------------------------ what a length line looks like

  const LOWER_NAME := "content-length"
  const UPPER_NAME := "CONTENT-LENGTH"

  /** The header name, in any mixture of lower and upper case. */
  predicate IsLengthName(name: string) {
    |name| == |LOWER_NAME| && forall i :: 0 <= i < |name| ==> name[i] == LOWER_NAME[i] || name[i] == UPPER_NAME[i]
  }

  predicate Zeros(s: string) {
    forall i :: 0 <= i < |s| ==> s[i] == '0'
  }

  /** The name, a colon, and the decimal number `n`, perhaps with a plus sign and leading zeros, between white space. */
  predicate Spells(line: string, n: nat, name: string, before: string, sign: string, zeros: string, after: string) {
    && line == name + ":" + (before + (sign + (zeros + Decimal(n))) + after)
    && IsLengthName(name) && AllMatch(before, Space) && AllMatch(after, Space)
    && (sign == "" || sign == "+") && Zeros(zeros)
  }

  ghost predicate Announces(line: string, n: nat) {
    && n <= MAX_LENGTH
    && exists name, before, sign, zeros, after :: Spells(line, n, name, before, sign, zeros, after)
  }

  lemma UpperAndLower(i: nat)
    requires i < |LOWER_NAME|
    ensures LowerAscii(UPPER_NAME[i]) == LowerAscii(LOWER_NAME[i]) == LOWER_NAME[i]
    ensures forall c :: LowerAscii(c) == LOWER_NAME[i] ==> c == LOWER_NAME[i] || c == UPPER_NAME[i]
  {
  }

  lemma LengthNameIsExact(name: string)
    ensures EqIgnoreAsciiCase(name, "content-length") <==> IsLengthName(name)
  {
    if |name| == |LOWER_NAME| {
      forall i | 0 <= i < |name|
        ensures LowerAscii(name[i]) == LowerAscii(LOWER_NAME[i]) <==> name[i] == LOWER_NAME[i] || name[i] == UPPER_NAME[i]
      {
        UpperAndLower(i);
      }
    }
  }

  lemma {:induction false} ValueOfDecimal(n: nat)
    ensures AllDigits(Decimal(n)) && DigitsValue(Decimal(n)) == n
  {
    DecimalShape(n);
    var s := Decimal(n);
    if n >= 10 {
      ValueOfDecimal(n / 10);
      assert s == Decimal(n / 10) + [Digit(n % 10)];
    }
  }

  lemma {:induction false} ValueOfPadded(zeros: string, digits: string)
    requires Zeros(zeros) && AllDigits(digits)
    ensures AllDigits(zeros + digits) && DigitsValue(zeros + digits) == DigitsValue(digits)
  {
    var all := zeros + digits;
    if digits != [] {
      var n := |digits| - 1;
      ValueOfPadded(zeros, digits[..n]);
      assert all[..|all| - 1] == zeros + digits[..n];
    } else if zeros != [] {
      assert all == zeros;
      ValueOfPadded(zeros[..|zeros| - 1], []);
      assert zeros[..|zeros| - 1] + [] == zeros[..|zeros| - 1];
    }
  }

  lemma DecimalSnoc(v: nat, d: nat)
    requires v > 0 && d < 10
    ensures Decimal(10 * v + d) == Decimal(v) + [Digit(d)]
  {
    assert (10 * v + d) / 10 == v && (10 * v + d) % 10 == d;
  }

  lemma OneDigit(c: char)
    requires '0' <= c <= '9'
    ensures Decimal((c - '0') as nat) == [c]
  {
  }

  lemma SpellOneMore(zeros: string, v: nat, c: char) returns (more: string)
    requires Zeros(zeros) && '0' <= c <= '9'
    ensures Zeros(more) && zeros + Decimal(v) + [c] == more + Decimal(10 * v + (c - '0') as nat)
  {
    OneDigit(c);
    if v == 0 {
      more := zeros + "0";
    } else {
      more := zeros;
      DecimalSnoc(v, (c - '0') as nat);
    }
  }

  /** Digits are leading zeros and the decimal print of their value. */
  lemma {:induction false} DigitsSpellValue(s: string) returns (zeros: string)
    requires AllDigits(s) && s != []
    ensures Zeros(zeros) && s == zeros + Decimal(DigitsValue(s))
  {
    var n := |s| - 1;
    var front := s[..n];
    assert s == front + [s[n]];
    if front == [] {
      zeros := [];
      assert DigitsValue(front) == 0;
      OneDigit(s[n]);
    } else {
      zeros := DigitsSpellValue(front);
      zeros := SpellOneMore(zeros, DigitsValue(front), s[n]);
    }
  }

  predicate SpellsNumber(text: string, n: nat, sign: string, zeros: string) {
    (sign == "" || sign == "+") && Zeros(zeros) && text == sign + (zeros + Decimal(n))
  }

  lemma ParsedIsSpelled(text: string) returns (sign: string, zeros: string)
    requires ParseLength(text).Some?
    ensures SpellsNumber(text, ParseLength(text).value, sign, zeros) && ParseLength(text).value <= MAX_LENGTH
  {
    sign := if "+" <= text then "+" else "";
    var digits := text[|sign|..];
    zeros := DigitsSpellValue(digits);
    assert text == sign + digits;
  }

  lemma SpelledStart(n: nat, zeros: string)
    requires Zeros(zeros)
    ensures
      var digits := zeros + Decimal(n);
      digits != [] && '0' <= digits[0] <= '9' && '0' <= digits[|digits| - 1] <= '9' && AllDigits(digits) && DigitsValue(digits) == n
  {
    ValueOfDecimal(n);
    ValueOfPadded(zeros, Decimal(n));
    DecimalShape(n);
  }

  lemma SignIsCut(sign: string, digits: string)
    requires (sign == "" || sign == "+") && digits != [] && '0' <= digits[0] <= '9'
    ensures (if "+" <= sign + digits then (sign + digits)[1..] else sign + digits) == digits
    ensures (sign + digits)[0] == '+' || '0' <= (sign + digits)[0] <= '9'
  {
    if sign == "" {
      assert sign + digits == digits;
    } else {
      assert (sign + digits)[..1] == "+" && (sign + digits)[1..] == digits;
    }
  }

  lemma SpelledIsParsed(text: string, n: nat, sign: string, zeros: string)
    requires SpellsNumber(text, n, sign, zeros) && n <= MAX_LENGTH
    ensures ParseLength(text) == Some(n)
  {
    SpelledStart(n, zeros);
    SignIsCut(sign, zeros + Decimal(n));
  }

  lemma SpelledIsTrimmed(text: string, n: nat, sign: string, zeros: string)
    requires SpellsNumber(text, n, sign, zeros)
    ensures Trimmed(text, Space)
  {
    SpelledStart(n, zeros);
    VisibleEnds(sign, zeros + Decimal(n));
  }

  lemma VisibleEnds(sign: string, digits: string)
    requires (sign == "" || sign == "+") && digits != []
    requires '0' <= digits[0] <= '9' && '0' <= digits[|digits| - 1] <= '9'
    ensures Trimmed(sign + digits, Space)
  {
    SignIsCut(sign, digits);
    NotSpace((sign + digits)[0]);
    NotSpace(digits[|digits| - 1]);
    assert (sign + digits)[|sign + digits| - 1] == digits[|digits| - 1];
  }

  lemma NotSpace(c: char)
    requires c == '+' || '0' <= c <= '9'
    ensures !Matches(Space, c)
  {
  }

  /** A text is white space around its trimmed form. */
  lemma TrimCut(s: string) returns (before: string, after: string)
    ensures AllMatch(before, Space) && AllMatch(after, Space) && s == before + Trim(s) + after
  {
    before := TrimStartCut(s, Space);
    after := TrimEndCut(TrimStart(s, Space), Space);
    assert s == before + (Trim(s) + after);
  }

  /** A line gives the length `n` exactly when it announces it. */
  lemma LineLengthIsExact(line: string, n: nat)
    ensures LineLength(line) == Some(n) <==> Announces(line, n)
  {
    var i := IndexOf(line, ':');
    if LineLength(line) == Some(n) {
      var name, value := line[..i], line[i + 1..];
      assert line == name + ":" + value;
      LengthNameIsExact(name);
      var sign, zeros := ParsedIsSpelled(Trim(value));
      var before, after := TrimCut(value);
      assert Spells(line, n, name, before, sign, zeros, after);
    }
    if Announces(line, n) {
      var name, before, sign, zeros, after :| Spells(line, n, name, before, sign, zeros, after);
      SpelledIsRead(line, n, name, before, sign, zeros, after);
    }
  }

  lemma SpelledIsRead(line: string, n: nat, name: string, before: string, sign: string, zeros: string, after: string)
    requires n <= MAX_LENGTH && Spells(line, n, name, before, sign, zeros, after)
    ensures LineLength(line) == Some(n)
  {
    var number := sign + (zeros + Decimal(n));
    assert ':' !in name by {
      forall i | 0 <= i < |name| ensures name[i] != ':' {
        UpperAndLower(i);
        assert name[i] == LOWER_NAME[i] || name[i] == UPPER_NAME[i];
      }
    }
    FirstSeparator(name, ':', before + number + after);
    assert name + ":" + (before + number + after) == name + [':'] + (before + number + after);
    LengthNameIsExact(name);
    SpelledIsParsed(number, n, sign, zeros);
    SpelledIsTrimmed(number, n, sign, zeros);
    TrimPadded(before, number, after, Space);
  }

  /** The first line that gives a readable length decides; unreadable ones are passed over. */
  function FirstLength(lines: seq<string>): (r: Option<nat>)
    ensures r.Some? ==> exists i :: 0 <= i < |lines| && LineLength(lines[i]) == r && forall j :: 0 <= j < i ==> LineLength(lines[j]).None?
    ensures r.None? ==> forall i :: 0 <= i < |lines| ==> LineLength(lines[i]).None?
  {
    if lines == [] then None
    else if LineLength(lines[0]).Some? then LineLength(lines[0])
    else FirstLength(lines[1..])
  }

  /** Line `i` announces `n` and no earlier line announces anything. */
  ghost predicate FirstAnnounces(lines: seq<string>, i: nat, n: nat) {
    i < |lines| && Announces(lines[i], n) && forall j, m: nat :: 0 <= j < i ==> !Announces(lines[j], m)
  }

  lemma FirstLengthAnnounces(lines: seq<string>) returns (i: nat)
    requires FirstLength(lines).Some?
    ensures FirstAnnounces(lines, i, FirstLength(lines).value)
  {
    var r := FirstLength(lines);
    i :| 0 <= i < |lines| && LineLength(lines[i]) == r && forall j :: 0 <= j < i ==> LineLength(lines[j]).None?;
    LineLengthIsExact(lines[i], r.value);
    forall j, m: nat | 0 <= j < i ensures !Announces(lines[j], m) {
      LineLengthIsExact(lines[j], m);
    }
  }

  lemma OneFirst(lines: seq<string>, i: nat, n: nat, k: nat, m: nat)
    requires FirstAnnounces(lines, i, n) && FirstAnnounces(lines, k, m)
    ensures i == k && n == m
  {
    LineLengthIsExact(lines[i], n);
    LineLengthIsExact(lines[k], m);
  }

  lemma FirstAnnouncedIsRead(lines: seq<string>, i: nat, n: nat)
    requires FirstAnnounces(lines, i, n)
    ensures FirstLength(lines) == Some(n)
  {
    LineLengthIsExact(lines[i], n);
    if FirstLength(lines).Some? {
      var k := FirstLengthAnnounces(lines);
      OneFirst(lines, i, n, k, FirstLength(lines).value);
    }
  }

  /** The length read from the lines of a head is the one that the first announcing line says. */
  lemma FirstLengthIsExact(lines: seq<string>, n: nat)
    ensures FirstLength(lines) == Some(n) <==> exists i: nat :: FirstAnnounces(lines, i, n)
  {
    if FirstLength(lines) == Some(n) {
      var i := FirstLengthAnnounces(lines);
    }
    if i: nat :| FirstAnnounces(lines, i, n) {
      FirstAnnouncedIsRead(lines, i, n);
    }
  }

  function ParseContentLength(decode: Decoder, head: Bytes): Option<nat> {
    FirstLength(Lines(decode(head)))
  }

  // ------------------------------------------------------------------ reading

  /** The whole request is in the buffer, judged from scratch. */
  predicate Complete(decode: Decoder, buf: Bytes) {
    var end := FindHeaderEnd(buf);
    end.Some? &&
    var length := ParseContentLength(decode, buf[..end.value]);
    length.None? || |buf| - end.value >= length.value
  }

  predicate EmptyLineAt(buf: Bytes, j: nat) {
    j + 4 <= |buf| && buf[j..j + 4] == [CR, LF, CR, LF]
  }

  /** The first empty line ends right before `end`. */
  predicate HeadEnds(buf: Bytes, end: nat) {
    end >= 4 && EmptyLineAt(buf, end - 4) && forall j :: 0 <= j < end - 4 ==> !EmptyLineAt(buf, j)
  }

  lemma HeadEndIsExact(buf: Bytes, end: nat)
    ensures FindHeaderEnd(buf) == Some(end) <==> HeadEnds(buf, end)
  {
    forall j: nat ensures EmptyLineAt(buf, j) <==> DelimiterAt(buf, j) {
      if j + 4 <= |buf| {
        var line := buf[j..j + 4];
        assert line[0] == buf[j] && line[1] == buf[j + 1] && line[2] == buf[j + 2] && line[3] == buf[j + 3];
      }
    }
    if HeadEnds(buf, end) {
      HeaderEndIs(buf, end);
    }
  }

  /** At least as many bytes as the first announcing line says, or no line announces anything. */
  ghost predicate BodyIsThere(lines: seq<string>, bytes: nat) {
    forall i: nat, n: nat :: FirstAnnounces(lines, i, n) ==> bytes >= n
  }

  /**
   A request is complete exactly when its head has ended with an empty line and, if the head
   announces a length, that many bytes follow it.
   */
  lemma CompleteIsExact(decode: Decoder, buf: Bytes)
    ensures Complete(decode, buf) <==>
      exists end: nat :: end <= |buf| && HeadEnds(buf, end) && BodyIsThere(Lines(decode(buf[..end])), |buf| - end)
  {
    var r := FindHeaderEnd(buf);
    forall end: nat ensures r == Some(end) <==> HeadEnds(buf, end) {
      HeadEndIsExact(buf, end);
    }
    if r.Some? {
      BodyIsExact(Lines(decode(buf[..r.value])), |buf| - r.value);
    }
  }

  lemma BodyIsExact(lines: seq<string>, bytes: nat)
    ensures BodyIsThere(lines, bytes) <==> FirstLength(lines).None? || bytes >= FirstLength(lines).value
  {
    if FirstLength(lines).Some? {
      var i := FirstLengthAnnounces(lines);
    }
    forall i: nat, n: nat | FirstAnnounces(lines, i, n) ensures FirstLength(lines) == Some(n) {
      FirstAnnouncedIsRead(lines, i, n);
    }
  }

  function Concat(chunks: seq<Bytes>): Bytes {
    if chunks == [] then [] else Concat(chunks[..|chunks| - 1]) + chunks[|chunks| - 1]
  }

  /** What comes after the last chunk: the peer closes, or a read fails. */
  datatype End = Closed | ReadError

  /** What is remembered about the head is what a fresh scan of the buffer would find. */
  predicate Remembers(decode: Decoder, request: Bytes, headerEnd: Option<nat>, expectedLen: Option<nat>) {
    && headerEnd == FindHeaderEnd(request)
    && expectedLen == if headerEnd.Some? then ParseContentLength(decode, request[..headerEnd.value]) else None
  }

  /** One read: even when the empty line straddles two reads the remembered values stay exact. */
  method AddChunk(decode: Decoder, request: Bytes, headerEnd: Option<nat>, expectedLen: Option<nat>, chunk: Bytes)
    returns (grown: Bytes, newEnd: Option<nat>, newLen: Option<nat>, done: bool)
    requires Remembers(decode, request, headerEnd, expectedLen)
    ensures grown == request + chunk && Remembers(decode, grown, newEnd, newLen)
    ensures done <==> Complete(decode, grown)
  {
    grown, newEnd, newLen := request + chunk, headerEnd, expectedLen;
    if newEnd.None? {
      newEnd := FindHeaderEnd(grown);
      if newEnd.Some? {
        newLen := ParseContentLength(decode, grown[..newEnd.value]);
      }
    } else {
      HeaderEndIsStable(request, chunk);
    }
    done := false;
    if newEnd.Some? {
      assert |grown| >= newEnd.value;  // the saturating subtraction of the source never saturates
      var bodyLen := |grown| - newEnd.value;
      done := newLen.None? || bodyLen >= newLen.value;
    }
  }

  /**
   `chunks` are the reads that return bytes; a read of nothing is the end, `Closed`.
   The reader consumes exactly the reads up to the first one that completes the request, and
   fails only when a read fails before that.
   */
  method ReadHttpRequest(decode: Decoder, chunks: seq<Bytes>, end: End) returns (ok: bool, used: nat, request: Bytes)
    requires forall k :: 0 <= k < |chunks| ==> chunks[k] != []
    ensures used <= |chunks| && request == Concat(chunks[..used])
    ensures forall k :: 1 <= k < used ==> !Complete(decode, Concat(chunks[..k]))
    ensures used >= 1 && Complete(decode, request) ==> ok
    ensures !(used >= 1 && Complete(decode, request)) ==> used == |chunks| && (ok <==> end == Closed)
  {
    request, used := [], 0;
    var headerEnd: Option<nat>, expectedLen: Option<nat> := None, None;
    while used < |chunks|
      invariant used <= |chunks| && request == Concat(chunks[..used])
      invariant Remembers(decode, request, headerEnd, expectedLen)
      invariant forall k :: 1 <= k <= used ==> !Complete(decode, Concat(chunks[..k]))
    {
      assert chunks[..used + 1][..used] == chunks[..used];
      var done;
      request, headerEnd, expectedLen, done := AddChunk(decode, request, headerEnd, expectedLen, chunks[used]);
      used := used + 1;
      if done {
        return true, used, request;
      }
    }
    ok := end == Closed;
  }

  // ------------------------------------------------------------------ independence of chunking

  /** The length of the shortest complete prefix of a stream, read off the stream itself. */
  function Needed(decode: Decoder, stream: Bytes): Option<nat> {
    var end := FindHeaderEnd(stream);
    if end.None? then None
    else
      var length := ParseContentLength(decode, stream[..end.value]);
      Some(end.value + if length.Some? then length.value else 0)
  }

  /** A prefix is complete exactly from the needed length on. */
  lemma CompleteFromNeededOn(decode: Decoder, stream: Bytes, k: nat)
    requires k <= |stream|
    ensures Complete(decode, stream[..k]) <==> Needed(decode, stream).Some? && k >= Needed(decode, stream).value
  {
    var prefix, rest := stream[..k], stream[k..];
    assert prefix + rest == stream;
    if FindHeaderEnd(prefix).Some? {
      HeaderEndIsStable(prefix, rest);
    } else if FindHeaderEnd(stream).Some? {
      var e := FindHeaderEnd(stream).value;
      if k >= e {
        assert forall j :: 0 <= j < k ==> prefix[j] == stream[j];
        assert DelimiterAt(prefix, e - 4);
      }
    }
  }

  lemma {:induction false} ConcatPrefix(chunks: seq<Bytes>, k: nat)
    requires k <= |chunks|
    ensures |Concat(chunks[..k])| <= |Concat(chunks)|
    ensures Concat(chunks[..k]) == Concat(chunks)[..|Concat(chunks[..k])|]
  {
    if k < |chunks| {
      var n := |chunks| - 1;
      ConcatPrefix(chunks[..n], k);
      assert chunks[..n][..k] == chunks[..k];
    } else {
      assert chunks[..k] == chunks;
    }
  }

  /**
   Framing does not depend on chunking: however a stream is cut into reads, the reader has
   seen a complete request after `k` reads exactly when those reads reach the length the
   stream needs, so it stops at the first read boundary at or after that length.
   */
  lemma FramingIsIndependentOfChunking(decode: Decoder, chunks: seq<Bytes>, k: nat)
    requires k <= |chunks|
    ensures
      var stream := Concat(chunks);
      Complete(decode, Concat(chunks[..k]))
      <==> Needed(decode, stream).Some? && |Concat(chunks[..k])| >= Needed(decode, stream).value
  {
    ConcatPrefix(chunks, k);
    CompleteFromNeededOn(decode, Concat(chunks), |Concat(chunks[..k])|);
  }
}
