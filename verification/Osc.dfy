/** The OSC scanner: which escape sequences a chunk of terminal output holds. */
module Osc {
  import opened Wrappers
  import opened Utf8

  const ESC: byte := 0x1b
  const BEL: byte := 0x07
  const SEMICOLON: byte := 0x3b
  const BRACKET: byte := 0x5d
  const BACKSLASH: byte := 0x5c

  predicate IsDigit(b: byte) {
    0x30 <= b <= 0x39
  }

  // ----- The documented regular expression, with the usual meaning of its operators -----

  datatype ByteClass = Just(b: byte) | Digit | NeitherBelNorEsc

  predicate InClass(k: ByteClass, b: byte) {
    match k
    case Just(c) => b == c
    case Digit => IsDigit(b)
    case NeitherBelNorEsc => b != BEL && b != ESC
  }

  datatype Regex = One(k: ByteClass) | Cat(first: Regex, next: Regex) | Star(r: Regex) | Alt(left: Regex, right: Regex)

  ghost predicate Accepts(r: Regex, s: seq<byte>)
    decreases r, |s|
  {
    match r
    case One(k) => |s| == 1 && InClass(k, s[0])
    case Cat(f, t) => exists i | 0 <= i <= |s| :: Accepts(f, s[..i]) && Accepts(t, s[i..])
    case Star(q) => s == [] || exists i | 0 < i <= |s| :: Accepts(q, s[..i]) && Accepts(r, s[i..])
    case Alt(left, right) => Accepts(left, s) || Accepts(right, s)
  }

  /** `\x1b\](\d+);([^\x07\x1b]*)(?:\x07|\x1b\\)`, from its end to its start. */
  const TERMINATOR: Regex := Alt(One(Just(BEL)), Cat(One(Just(ESC)), One(Just(BACKSLASH))))
  const PAYLOAD: Regex := Star(One(NeitherBelNorEsc))
  const CODE: Regex := Cat(One(Digit), Star(One(Digit)))
  const AFTER_CODE: Regex := Cat(One(Just(SEMICOLON)), Cat(PAYLOAD, TERMINATOR))
  const OSC_REGEX: Regex := Cat(One(Just(ESC)), Cat(One(Just(BRACKET)), Cat(CODE, AFTER_CODE)))

  // ----- A match, with the two groups it captures -----

  /** `s[start..end]`, whose digits are `s[start + 2..digitsEnd]` and payload `s[digitsEnd + 1..payloadEnd]`. */
  datatype Match = Match(start: int, digitsEnd: int, payloadEnd: int, end: int)

  predicate IsMatch(s: seq<byte>, m: Match) {
    && 0 <= m.start && m.start + 2 < m.digitsEnd < m.payloadEnd < m.end <= |s|
    && s[m.start] == ESC && s[m.start + 1] == BRACKET
    && (forall x | m.start + 2 <= x < m.digitsEnd :: IsDigit(s[x]))
    && s[m.digitsEnd] == SEMICOLON
    && (forall x | m.digitsEnd < x < m.payloadEnd :: s[x] != BEL && s[x] != ESC)
    && Terminated(s, m.payloadEnd, m.end)
  }

  predicate Terminated(s: seq<byte>, k: int, end: int)
    requires 0 <= k < end <= |s|
  {
    || (s[k] == BEL && end == k + 1)
    || (s[k] == ESC && end == k + 2 && s[k + 1] == BACKSLASH)
  }

  lemma {:induction false} StarOfClass(k: ByteClass, s: seq<byte>)
    ensures Accepts(Star(One(k)), s) <==> forall x | 0 <= x < |s| :: InClass(k, s[x])
    decreases |s|
  {
    if s != [] {
      StarOfClass(k, s[1..]);
      assert s[..1] == [s[0]];
      if Accepts(Star(One(k)), s) {
        var i :| 0 < i <= |s| && Accepts(One(k), s[..i]) && Accepts(Star(One(k)), s[i..]);
        assert i == 1;
        assert forall x | 1 <= x < |s| :: s[x] == s[1..][x - 1];
      }
    }
  }

  lemma OneThen(k: ByteClass, r: Regex, s: seq<byte>)
    ensures Accepts(Cat(One(k), r), s) <==> s != [] && InClass(k, s[0]) && Accepts(r, s[1..])
  {
    if s != [] && InClass(k, s[0]) && Accepts(r, s[1..]) {
      assert Accepts(One(k), s[..1]);
    }
  }

  lemma TerminatorForms(s: seq<byte>)
    ensures Accepts(TERMINATOR, s) <==> s == [BEL] || s == [ESC, BACKSLASH]
  {
    OneThen(Just(ESC), One(Just(BACKSLASH)), s);
  }

  lemma CodeForms(s: seq<byte>)
    ensures Accepts(CODE, s) <==> s != [] && forall x | 0 <= x < |s| :: IsDigit(s[x])
  {
    OneThen(Digit, Star(One(Digit)), s);
    if s != [] {
      StarOfClass(Digit, s[1..]);
      assert forall x | 1 <= x < |s| :: s[x] == s[1..][x - 1];
    }
  }

  /** `s` is `;`, `k - 1` payload bytes, and a terminator. */
  ghost predicate AfterCodeAt(s: seq<byte>, k: nat) {
    && 1 <= k < |s| && s[0] == SEMICOLON
    && (forall x | 1 <= x < k :: s[x] != BEL && s[x] != ESC)
    && Terminated(s, k, |s|)
  }

  lemma AfterCodeForms(s: seq<byte>)
    ensures Accepts(AFTER_CODE, s) <==> exists k: nat :: AfterCodeAt(s, k)
  {
    OneThen(Just(SEMICOLON), Cat(PAYLOAD, TERMINATOR), s);
    if s != [] {
      var t := s[1..];
      forall i | 0 <= i <= |t|
        ensures s[0] == SEMICOLON && Accepts(PAYLOAD, t[..i]) && Accepts(TERMINATOR, t[i..]) <==> AfterCodeAt(s, i + 1)
      {
        StarOfClass(NeitherBelNorEsc, t[..i]);
        TerminatorForms(t[i..]);
        assert forall x | 0 <= x < i :: t[..i][x] == s[x + 1];
        assert t[i..] == s[i + 1..];
      }
      if k: nat :| AfterCodeAt(s, k) {
        assert Accepts(PAYLOAD, t[..k - 1]);
      }
    }
  }

  lemma RegexParts(t: seq<byte>)
    ensures Accepts(OSC_REGEX, t)
       <==> |t| >= 2 && t[0] == ESC && t[1] == BRACKET && Accepts(Cat(CODE, AFTER_CODE), t[2..])
  {
    OneThen(Just(ESC), Cat(One(Just(BRACKET)), Cat(CODE, AFTER_CODE)), t);
    if t != [] {
      OneThen(Just(BRACKET), Cat(CODE, AFTER_CODE), t[1..]);
      assert |t| >= 2 ==> t[1..][1..] == t[2..];
    }
  }

  lemma CodeAndRest(u: seq<byte>) returns (i: nat, x: nat)
    requires Accepts(Cat(CODE, AFTER_CODE), u)
    ensures 0 < i <= |u| && (forall y | 0 <= y < i :: IsDigit(u[y])) && AfterCodeAt(u[i..], x)
  {
    i :| 0 <= i <= |u| && Accepts(CODE, u[..i]) && Accepts(AFTER_CODE, u[i..]);
    CodeForms(u[..i]);
    assert forall y | 0 <= y < i :: u[y] == u[..i][y];
    AfterCodeForms(u[i..]);
    x :| AfterCodeAt(u[i..], x);
  }

  lemma AcceptedIsMatch(t: seq<byte>) returns (d: nat, k: nat)
    requires Accepts(OSC_REGEX, t)
    ensures IsMatch(t, Match(0, d, k, |t|))
  {
    RegexParts(t);
    hide Accepts;
    var u := t[2..];
    var i, x := CodeAndRest(u);
    d, k := i + 2, x + i + 2;
    assert forall y | 2 <= y < d :: t[y] == u[y - 2];
    assert forall y | d <= y < |t| :: t[y] == u[i..][y - d];
  }

  lemma MatchIsAccepted(t: seq<byte>, d: nat, k: nat)
    requires IsMatch(t, Match(0, d, k, |t|))
    ensures Accepts(OSC_REGEX, t)
  {
    RegexParts(t);
    var u, i := t[2..], d - 2;
    CodeForms(u[..i]);
    AfterCodeForms(u[i..]);
    assert forall y | 2 <= y < d :: t[y] == u[..i][y - 2];
    assert forall y | d <= y < |t| :: t[y] == u[i..][y - d];
    assert AfterCodeAt(u[i..], k - d);
    assert Accepts(CODE, u[..i]) && Accepts(AFTER_CODE, u[i..]);
  }

  lemma SliceMatch(s: seq<byte>, i: nat, j: nat, d: nat, k: nat)
    requires i <= j <= |s|
    ensures IsMatch(s[i..j], Match(0, d, k, j - i)) <==> IsMatch(s, Match(i, d + i, k + i, j))
  {
    var t := s[i..j];
    assert forall x | 0 <= x < j - i :: t[x] == s[x + i];
    assert forall x | i <= x < j :: s[x] == t[x - i];
  }

  /** The matches are the stretches of the chunk the documented expression accepts. */
  lemma MatchesAreTheAcceptedStretches(s: seq<byte>, i: nat, j: nat)
    requires i <= j <= |s|
    ensures Accepts(OSC_REGEX, s[i..j]) <==> exists m :: IsMatch(s, m) && m.start == i && m.end == j
  {
    hide Accepts;
    if Accepts(OSC_REGEX, s[i..j]) {
      var d, k := AcceptedIsMatch(s[i..j]);
      SliceMatch(s, i, j, d, k);
    }
    if m :| IsMatch(s, m) && m.start == i && m.end == j {
      MatchStretchIsAccepted(s, m);
    }
  }

  lemma MatchStretchIsAccepted(s: seq<byte>, m: Match)
    requires IsMatch(s, m)
    ensures Accepts(OSC_REGEX, s[m.start..m.end])
  {
    hide Accepts;
    var (i, j, d, k) := (m.start, m.end, m.digitsEnd - m.start, m.payloadEnd - m.start);
    assert m == Match(i, d + i, k + i, j);
    SliceMatch(s, i, j, d, k);
    MatchIsAccepted(s[i..j], d, k);
  }

  /** A start fixes the match, so its two groups are what the expression captures. */
  lemma OneMatchPerStart(s: seq<byte>, m: Match, n: Match)
    requires IsMatch(s, m) && IsMatch(s, n) && m.start == n.start
    ensures m == n
  {
    assert m.digitsEnd == n.digitsEnd;
    assert m.payloadEnd == n.payloadEnd;
  }

  /** Matches never overlap, so taking them from left to right skips none. */
  lemma MatchesAreDisjoint(s: seq<byte>, m: Match, n: Match)
    requires IsMatch(s, m) && IsMatch(s, n) && m.start < n.start
    ensures m.end <= n.start
  {
    assert s[n.start] == ESC;
  }

  // ----- All matches of a chunk -----

  ghost predicate Increasing(ms: seq<Match>) {
    forall x, y | 0 <= x < y < |ms| :: ms[x].start < ms[y].start
  }

  /** `ms` is every match of the chunk from `from` on, in order. */
  ghost predicate AreTheMatches(s: seq<byte>, from: nat, ms: seq<Match>) {
    Increasing(ms) && forall m :: m in ms <==> IsMatch(s, m) && m.start >= from
  }

  ghost function MatchesFrom(s: seq<byte>, i: nat): seq<Match>
    decreases |s| - i
  {
    if i >= |s| then []
    else if exists m :: IsMatch(s, m) && m.start == i then
      var m :| IsMatch(s, m) && m.start == i;
      [m] + MatchesFrom(s, i + 1)
    else MatchesFrom(s, i + 1)
  }

  lemma {:induction false} MatchesFromAreTheMatches(s: seq<byte>, i: nat)
    ensures AreTheMatches(s, i, MatchesFrom(s, i))
    decreases |s| - i
  {
    if i < |s| {
      MatchesFromAreTheMatches(s, i + 1);
      var rest := MatchesFrom(s, i + 1);
      if exists m :: IsMatch(s, m) && m.start == i {
        var first := MatchesFrom(s, i)[0];
        forall n | IsMatch(s, n) && n.start == i ensures n == first {
          OneMatchPerStart(s, n, first);
        }
        assert forall x | 0 <= x < |rest| :: rest[x] in rest;
      }
    }
  }

  /** Two increasing lists of the same matches are one list. */
  lemma {:induction false} MatchListsAgree(ms: seq<Match>, ns: seq<Match>)
    requires Increasing(ms) && Increasing(ns)
    requires forall m :: m in ms <==> m in ns
    ensures ms == ns
  {
    if ms == [] {
      if ns != [] {
        HasMember(ns);
      }
    } else {
      assert ms[0] in ns && ns[0] in ms;
      assert ms[0] == ns[0];
      forall m
        ensures m in ms[1..] <==> m in ns[1..]
      {
        assert m in ms[1..] <==> m in ms && m != ms[0] by { TailMembers(ms, m); }
        assert m in ns[1..] <==> m in ns && m != ns[0] by { TailMembers(ns, m); }
      }
      MatchListsAgree(ms[1..], ns[1..]);
    }
  }

  lemma HasMember(ms: seq<Match>)
    requires ms != []
    ensures exists m :: m in ms
  {
    assert ms[0] in ms;
  }

  lemma TailMembers(ms: seq<Match>, m: Match)
    requires Increasing(ms) && ms != []
    ensures m in ms[1..] <==> m in ms && m != ms[0]
  {
    assert ms == [ms[0]] + ms[1..];
  }

  // ----- What the scan reports -----

  function DecimalValue(digits: seq<byte>): nat
    requires forall x | 0 <= x < |digits| :: IsDigit(digits[x])
  {
    if digits == [] then 0
    else
      var last := digits[|digits| - 1];
      assert IsDigit(last);
      DecimalValue(digits[..|digits| - 1]) * 10 + (last - 0x30)
  }

  /** Rust's `parse::<u32>` on a run of digits: nothing when the number does not fit. */
  function ParseU32(digits: seq<byte>): Option<nat>
    requires forall x | 0 <= x < |digits| :: IsDigit(digits[x])
  {
    if digits != [] && DecimalValue(digits) < 0x1_0000_0000 then Some(DecimalValue(digits)) else None
  }

  /** What one match adds to the report: its code and payload, or nothing when the code overflows. */
  function Report(s: seq<byte>, m: Match): seq<(nat, seq<byte>)>
    requires IsMatch(s, m)
  {
    match ParseU32(s[m.start + 2..m.digitsEnd])
    case Some(code) => [(code, s[m.digitsEnd + 1..m.payloadEnd])]
    case None => []
  }

  ghost function Reports(s: seq<byte>, ms: seq<Match>): seq<(nat, seq<byte>)>
    requires forall m <- ms :: IsMatch(s, m)
  {
    if ms == [] then [] else
      assert forall m <- ms[1..] :: m in ms;
      Report(s, ms[0]) + Reports(s, ms[1..])
  }

  /** Every match of the chunk from left to right, each reported. */
  ghost function Scan(s: seq<byte>): seq<(nat, seq<byte>)> {
    MatchesFromAreTheMatches(s, 0);
    Reports(s, MatchesFrom(s, 0))
  }

  /** A slice of a Rust `str`, which panics off a character boundary. */
  function Slice(s: seq<byte>, i: nat, j: nat): (t: seq<byte>)
    requires Valid(s) && i <= j && IsBoundary(s, i) && IsBoundary(s, j)
    ensures Valid(t) && t == s[i..j]
  {
    CutAtBoundary(s, j);
    assert IsBoundary(s[..j], i);
    CutAtBoundary(s[..j], i);
    s[..j][i..]
  }

  /** Every byte a slice of a match is cut at stands on a character boundary. */
  lemma MatchBoundaries(s: seq<byte>, m: Match)
    requires Valid(s) && IsMatch(s, m)
    ensures IsBoundary(s, m.start + 2) && IsBoundary(s, m.digitsEnd)
    ensures IsBoundary(s, m.digitsEnd + 1) && IsBoundary(s, m.payloadEnd)
  {
    AsciiEndsACharacter(s, m.start + 1);
    AsciiEndsACharacter(s, m.digitsEnd);
    AsciiEndsACharacter(s, m.payloadEnd);
  }

  ghost predicate NoMatchAt(s: seq<byte>, i: nat) {
    forall m | IsMatch(s, m) :: m.start != i
  }

  lemma {:induction false} SkipToEnd(s: seq<byte>, i: nat, end: nat)
    requires i <= end && forall m | IsMatch(s, m) :: !(i <= m.start < end)
    ensures MatchesFrom(s, i) == MatchesFrom(s, end)
    decreases end - i
  {
    if i < end {
      SkipToEnd(s, i + 1, end);
    }
  }

  /** The reports of the matches from `i` on. */
  ghost function ReportsFrom(s: seq<byte>, i: nat): seq<(nat, seq<byte>)> {
    MatchesFromAreTheMatches(s, i);
    Reports(s, MatchesFrom(s, i))
  }

  lemma ReportsPastByte(s: seq<byte>, i: nat)
    requires i < |s| && NoMatchAt(s, i)
    ensures ReportsFrom(s, i) == ReportsFrom(s, i + 1)
  {
  }

  lemma ReportsPastMatch(s: seq<byte>, m: Match)
    requires IsMatch(s, m)
    ensures ReportsFrom(s, m.start) == Report(s, m) + ReportsFrom(s, m.end)
  {
    var ms := MatchesFrom(s, m.start);
    OneMatchPerStart(s, ms[0], m);
    forall n | IsMatch(s, n) ensures !(m.start + 1 <= n.start < m.end) {
      if m.start < n.start {
        MatchesAreDisjoint(s, m, n);
      }
    }
    SkipToEnd(s, m.start + 1, m.end);
    assert ms[1..] == MatchesFrom(s, m.end);
  }

  /** The first byte from `from` on that is no digit. */
  method DigitsEnd(chunk: seq<byte>, from: nat) returns (j: nat)
    requires from <= |chunk|
    ensures from <= j <= |chunk| && (forall x | from <= x < j :: IsDigit(chunk[x])) && (j < |chunk| ==> !IsDigit(chunk[j]))
  {
    j := from;
    while j < |chunk| && IsDigit(chunk[j])
      invariant from <= j <= |chunk|
      invariant forall x | from <= x < j :: IsDigit(chunk[x])
    {
      j := j + 1;
    }
  }

  /** The first byte from `from` on that may end a payload. */
  method PayloadEnd(chunk: seq<byte>, from: nat) returns (k: nat)
    requires from <= |chunk|
    ensures from <= k <= |chunk| && (forall x | from <= x < k :: chunk[x] != BEL && chunk[x] != ESC)
    ensures k < |chunk| ==> chunk[k] == BEL || chunk[k] == ESC
  {
    k := from;
    while k < |chunk| && chunk[k] != BEL && chunk[k] != ESC
      invariant from <= k <= |chunk|
      invariant forall x | from <= x < k :: chunk[x] != BEL && chunk[x] != ESC
    {
      k := k + 1;
    }
  }

  /** Past the terminator a payload ends on, if it ends on one. */
  function MatchEnd(chunk: seq<byte>, k: nat): (end: Option<int>)
    ensures end.Some? ==> k < end.value <= |chunk| && Terminated(chunk, k, end.value)
    ensures end.None? && k < |chunk| ==> chunk[k] != BEL && (chunk[k] == ESC && k + 1 < |chunk| ==> chunk[k + 1] != BACKSLASH)
  {
    if k < |chunk| && chunk[k] == BEL then Some(k + 1)
    else if k + 1 < |chunk| && chunk[k] == ESC && chunk[k + 1] == BACKSLASH then Some(k + 2)
    else None
  }

  /** What one match adds: its code and payload, or nothing when the code overflows. */
  method ReadMatch(chunk: seq<byte>, m: Match) returns (found: seq<(nat, seq<byte>)>)
    requires Valid(chunk) && IsMatch(chunk, m)
    ensures found == Report(chunk, m)
    ensures forall x | 0 <= x < |found| :: found[x].0 < 0x1_0000_0000 && Valid(found[x].1)
  {
    hide Valid, IsBoundary, ParseU32;
    MatchBoundaries(chunk, m);
    CodeFits(chunk, m.start + 2, m.digitsEnd);
    found := [];
    var code := ParseU32(Slice(chunk, m.start + 2, m.digitsEnd));
    if code.Some? {
      found := found + [(code.value, Slice(chunk, m.digitsEnd + 1, m.payloadEnd))];
    }
  }

  /** `osc_sequences`: the loop resumes past a match, and one byte on after anything else. */
  method OscSequences(chunk: seq<byte>) returns (out: seq<(nat, seq<byte>)>)
    requires Valid(chunk)
    ensures out == Scan(chunk)
    ensures forall x | 0 <= x < |out| :: out[x].0 < 0x1_0000_0000 && Valid(out[x].1)
  {
    hide Valid, Scan, ReportsFrom, NoMatchAt, IsMatch, Report, MatchEnd, Terminated;
    out := [];
    var i := 0;
    ScanIsAllReports(chunk);
    while i < |chunk|
      invariant 0 <= i <= |chunk|
      invariant Scan(chunk) == out + ReportsFrom(chunk, i)
      invariant forall x | 0 <= x < |out| :: out[x].0 < 0x1_0000_0000 && Valid(out[x].1)
    {
      if chunk[i] != ESC || i + 1 >= |chunk| || chunk[i + 1] != BRACKET {
        NoIntroducer(chunk, i);
        ReportsPastByte(chunk, i);
        i := i + 1;
        continue;
      }
      var digitsStart := i + 2;
      var j := DigitsEnd(chunk, digitsStart);
      if j == digitsStart || j >= |chunk| || chunk[j] != SEMICOLON {
        NoCode(chunk, i, j);
        ReportsPastByte(chunk, i);
        i := i + 1;
        continue;
      }
      var payloadStart := j + 1;
      var k := PayloadEnd(chunk, payloadStart);
      var end := MatchEnd(chunk, k);
      if end.None? {
        NoTerminator(chunk, i, j, k);
        ReportsPastByte(chunk, i);
        i := i + 1;
        continue;
      }
      MatchFound(chunk, i, j, k, end.value);
      var found := ReadMatch(chunk, Match(i, j, k, end.value));
      AppendFound(out, found, ReportsFrom(chunk, end.value));
      out := out + found;
      i := end.value;
    }
    NothingToReport(chunk);
  }

  lemma AppendFound(out: seq<(nat, seq<byte>)>, found: seq<(nat, seq<byte>)>, rest: seq<(nat, seq<byte>)>)
    ensures out + (found + rest) == (out + found) + rest
  {
  }

  lemma NoIntroducer(s: seq<byte>, i: nat)
    requires i < |s| && (s[i] != ESC || i + 1 >= |s| || s[i + 1] != BRACKET)
    ensures NoMatchAt(s, i)
  {
  }

  /** A match takes all the digits there are, so no digit or no `;` after them means no match. */
  lemma NoCode(s: seq<byte>, i: nat, j: nat)
    requires i + 2 <= j <= |s| && (forall x | i + 2 <= x < j :: IsDigit(s[x]))
    requires j < |s| ==> !IsDigit(s[j])
    requires j == i + 2 || j >= |s| || s[j] != SEMICOLON
    ensures NoMatchAt(s, i)
  {
    assert forall m | IsMatch(s, m) && m.start == i :: m.digitsEnd == j;
  }

  lemma NoTerminator(s: seq<byte>, i: nat, j: nat, k: nat)
    requires i + 2 <= j < k <= |s| && (forall x | i + 2 <= x < j :: IsDigit(s[x])) && !IsDigit(s[j])
    requires forall x | j < x < k :: s[x] != BEL && s[x] != ESC
    requires k < |s| ==> s[k] == ESC && (k + 1 < |s| ==> s[k + 1] != BACKSLASH)
    ensures NoMatchAt(s, i)
  {
    assert forall m | IsMatch(s, m) && m.start == i :: m.digitsEnd == j && m.payloadEnd == k;
  }

  lemma MatchFound(s: seq<byte>, i: nat, j: nat, k: nat, end: int)
    requires i + 2 < j < k < end <= |s| && s[i] == ESC && s[i + 1] == BRACKET
    requires (forall x | i + 2 <= x < j :: IsDigit(s[x])) && s[j] == SEMICOLON
    requires (forall x | j < x < k :: s[x] != BEL && s[x] != ESC) && Terminated(s, k, end)
    ensures IsMatch(s, Match(i, j, k, end))
    ensures ReportsFrom(s, i) == Report(s, Match(i, j, k, end)) + ReportsFrom(s, end)
  {
    hide ReportsFrom, Report;
    ReportsPastMatch(s, Match(i, j, k, end));
  }

  lemma CodeFits(s: seq<byte>, i: nat, j: nat)
    requires i <= j <= |s| && forall x | i <= x < j :: IsDigit(s[x])
    ensures forall x | 0 <= x < j - i :: IsDigit(s[i..j][x])
    ensures ParseU32(s[i..j]).Some? ==> ParseU32(s[i..j]).value < 0x1_0000_0000
  {
    assert forall x | 0 <= x < j - i :: s[i..j][x] == s[i + x];
    hide DecimalValue;
  }

  lemma ScanIsAllReports(s: seq<byte>)
    ensures Scan(s) == ReportsFrom(s, 0)
  {
  }

  lemma NothingToReport(s: seq<byte>)
    ensures ReportsFrom(s, |s|) == []
  {
  }
}
