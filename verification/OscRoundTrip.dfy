/** Scanning chunk by chunk, and scanning what was printed. */
module OscRoundTrip {
  import opened Wrappers
  import opened Utf8
  import opened Osc
  import Digits

  // ----- Scanning two chunks joined -----

  function Shift(m: Match, n: int): Match {
    Match(m.start + n, m.digitsEnd + n, m.payloadEnd + n, m.end + n)
  }

  function ShiftAll(ms: seq<Match>, n: nat): (r: seq<Match>)
    ensures |r| == |ms| && forall x | 0 <= x < |ms| :: r[x] == Shift(ms[x], n)
  {
    seq(|ms|, x requires 0 <= x < |ms| => Shift(ms[x], n))
  }

  /** Some match begins in `a` and ends in `b`: the sequence a chunk boundary would split. */
  ghost predicate Straddled(a: seq<byte>, b: seq<byte>) {
    exists m :: IsMatch(a + b, m) && m.start < |a| < m.end
  }

  lemma MatchInFirst(a: seq<byte>, b: seq<byte>, m: Match)
    requires m.end <= |a|
    ensures IsMatch(a + b, m) <==> IsMatch(a, m)
  {
    assert forall x | 0 <= x < |a| :: (a + b)[x] == a[x];
  }

  lemma MatchShiftsRight(a: seq<byte>, b: seq<byte>, m: Match)
    requires IsMatch(b, m)
    ensures IsMatch(a + b, Shift(m, |a|))
  {
    assert forall x | |a| <= x < |a + b| :: (a + b)[x] == b[x - |a|];
  }

  lemma MatchShiftsLeft(a: seq<byte>, b: seq<byte>, m: Match)
    requires IsMatch(a + b, m) && m.start >= |a|
    ensures IsMatch(b, Shift(m, -|a|))
  {
    assert forall x | 0 <= x < |b| :: b[x] == (a + b)[x + |a|];
  }

  ghost function Joined(a: seq<byte>, b: seq<byte>): seq<Match> {
    MatchesFrom(a, 0) + ShiftAll(MatchesFrom(b, 0), |a|)
  }

  lemma ShiftedMember(ns: seq<Match>, n: nat, m: Match)
    ensures m in ShiftAll(ns, n) <==> Shift(m, -(n as int)) in ns
  {
    if m in ShiftAll(ns, n) {
      var x :| 0 <= x < |ns| && m == Shift(ns[x], n);
      assert ns[x] == Shift(m, -(n as int));
    }
    if Shift(m, -(n as int)) in ns {
      var x :| 0 <= x < |ns| && ns[x] == Shift(m, -(n as int));
      assert ShiftAll(ns, n)[x] == m;
    }
  }

  lemma MatchExtent(s: seq<byte>, m: Match)
    requires IsMatch(s, m)
    ensures 0 <= m.start < m.end <= |s|
  {
  }

  /** A match of joined chunks that no cut splits is a match of the first or, shifted, of the second. */
  lemma JoinedMember(a: seq<byte>, b: seq<byte>, m: Match)
    ensures m in Joined(a, b) <==> IsMatch(a + b, m) && !(m.start < |a| < m.end)
  {
    hide IsMatch, MatchesFrom, ShiftAll;
    var n := Shift(m, -|a|);
    MatchesFromAreTheMatches(a, 0);
    MatchesFromAreTheMatches(b, 0);
    ShiftedMember(MatchesFrom(b, 0), |a|, m);
    if m.end <= |a| {
      MatchInFirst(a, b, m);
    }
    if IsMatch(a, m) {
      MatchExtent(a, m);
    }
    if IsMatch(b, n) {
      MatchShiftsRight(a, b, n);
      MatchExtent(b, n);
    }
    if IsMatch(a + b, m) {
      MatchExtent(a + b, m);
      if m.start >= |a| {
        MatchShiftsLeft(a, b, m);
      }
    }
  }

  lemma JoinedIncreasing(a: seq<byte>, b: seq<byte>)
    ensures Increasing(Joined(a, b))
  {
    MatchesFromAreTheMatches(a, 0);
    MatchesFromAreTheMatches(b, 0);
    var ms, ns := MatchesFrom(a, 0), MatchesFrom(b, 0);
    assert forall x | 0 <= x < |ms| :: ms[x] in ms;
    assert forall x | 0 <= x < |ns| :: ns[x] in ns;
  }

  /** Matching chunk by chunk finds exactly the matches of the whole, unless the boundary splits one. */
  lemma MatchesCompose(a: seq<byte>, b: seq<byte>)
    ensures MatchesFrom(a + b, 0) == Joined(a, b) <==> !Straddled(a, b)
  {
    MatchesFromAreTheMatches(a + b, 0);
    JoinedIncreasing(a, b);
    forall m ensures m in Joined(a, b) <==> IsMatch(a + b, m) && !(m.start < |a| < m.end) {
      JoinedMember(a, b, m);
    }
    if !Straddled(a, b) {
      MatchListsAgree(MatchesFrom(a + b, 0), Joined(a, b));
    }
  }

  // ----- So do the reports -----

  lemma ReportOfFirst(a: seq<byte>, b: seq<byte>, m: Match)
    requires IsMatch(a, m)
    ensures IsMatch(a + b, m) && Report(a + b, m) == Report(a, m)
  {
    MatchInFirst(a, b, m);
    assert (a + b)[m.start + 2..m.digitsEnd] == a[m.start + 2..m.digitsEnd];
    assert (a + b)[m.digitsEnd + 1..m.payloadEnd] == a[m.digitsEnd + 1..m.payloadEnd];
  }

  lemma {:induction false} ReportsOfFirst(a: seq<byte>, b: seq<byte>, ms: seq<Match>)
    requires forall m <- ms :: IsMatch(a, m)
    ensures forall m <- ms :: IsMatch(a + b, m)
    ensures Reports(a + b, ms) == Reports(a, ms)
  {
    hide IsMatch, Report;
    forall m <- ms ensures IsMatch(a + b, m) {
      ReportOfFirst(a, b, m);
    }
    if ms != [] {
      ReportOfFirst(a, b, ms[0]);
      assert forall n <- ms[1..] :: n in ms;
      ReportsOfFirst(a, b, ms[1..]);
    }
  }

  lemma ReportOfShifted(a: seq<byte>, b: seq<byte>, m: Match)
    requires IsMatch(b, m)
    ensures IsMatch(a + b, Shift(m, |a|))
    ensures Report(a + b, Shift(m, |a|)) == Report(b, m)
  {
    MatchShiftsRight(a, b, m);
    SliceBehind(a, b, m.start + 2, m.digitsEnd);
    SliceBehind(a, b, m.digitsEnd + 1, m.payloadEnd);
    hide ParseU32, IsDigit;
  }

  lemma SliceBehind(a: seq<byte>, b: seq<byte>, x: int, y: int)
    requires 0 <= x <= y <= |b|
    ensures (a + b)[|a| + x..|a| + y] == b[x..y]
  {
  }

  lemma {:induction false} ReportsOfSecond(a: seq<byte>, b: seq<byte>, ns: seq<Match>)
    requires forall n <- ns :: IsMatch(b, n)
    ensures forall m <- ShiftAll(ns, |a|) :: IsMatch(a + b, m)
    ensures Reports(a + b, ShiftAll(ns, |a|)) == Reports(b, ns)
  {
    hide IsMatch, Report;
    forall x | 0 <= x < |ns| ensures IsMatch(a + b, Shift(ns[x], |a|)) {
      assert ns[x] in ns;
      MatchShiftsRight(a, b, ns[x]);
    }
    if ns != [] {
      ReportOfShifted(a, b, ns[0]);
      assert forall n <- ns[1..] :: n in ns;
      ReportsOfSecond(a, b, ns[1..]);
      assert ShiftAll(ns, |a|)[1..] == ShiftAll(ns[1..], |a|);
    }
  }

  lemma {:induction false} ReportsConcat(s: seq<byte>, ms: seq<Match>, ns: seq<Match>)
    requires (forall m <- ms :: IsMatch(s, m)) && (forall n <- ns :: IsMatch(s, n))
    ensures forall m <- ms + ns :: IsMatch(s, m)
    ensures Reports(s, ms + ns) == Reports(s, ms) + Reports(s, ns)
  {
    hide IsMatch, Report;
    if ms == [] {
      assert ms + ns == ns;
    } else {
      assert forall m <- ms[1..] :: m in ms;
      ReportsConcat(s, ms[1..], ns);
      assert (ms + ns)[1..] == ms[1..] + ns;
    }
  }

  /** Scanning two chunks one after the other reports what scanning them joined does, when no sequence
      is split between them. */
  lemma ScanComposes(a: seq<byte>, b: seq<byte>)
    requires !Straddled(a, b)
    ensures Scan(a + b) == Scan(a) + Scan(b)
  {
    MatchesCompose(a, b);
    MatchesFromAreTheMatches(a, 0);
    MatchesFromAreTheMatches(b, 0);
    ReportsOfFirst(a, b, MatchesFrom(a, 0));
    ReportsOfSecond(a, b, MatchesFrom(b, 0));
    ReportsConcat(a + b, MatchesFrom(a, 0), ShiftAll(MatchesFrom(b, 0), |a|));
  }

  /** A place no sequence can be split after: the start of the chunk or the end of a match, with no
      ESC since. */
  ghost predicate CleanFrom(a: seq<byte>, t: int) {
    && 0 <= t <= |a|
    && (t == 0 || exists m :: IsMatch(a, m) && m.end == t)
    && forall x | t <= x < |a| :: a[x] != ESC
  }

  lemma CleanCutSplitsNothing(a: seq<byte>, b: seq<byte>, t: int)
    requires CleanFrom(a, t)
    ensures !Straddled(a, b)
  {
    if m :| IsMatch(a + b, m) && m.start < |a| < m.end {
      assert (a + b)[m.start] == a[m.start] == ESC;
      assert m.start < t;
      var n :| IsMatch(a, n) && n.end == t;
      MatchInFirst(a, b, n);
      if m.start < n.start {
        MatchesAreDisjoint(a + b, m, n);
      } else if n.start < m.start {
        MatchesAreDisjoint(a + b, n, m);
      } else {
        OneMatchPerStart(a + b, m, n);
      }
    }
  }

  // ----- Printing sequences, and scanning them back -----

  datatype Item =
    | Text(bytes: seq<byte>)
    | Sequence(digits: seq<byte>, payload: seq<byte>, stringTerminator: bool)

  predicate Printable(i: Item) {
    match i
    case Text(bytes) => ESC !in bytes
    case Sequence(digits, payload, _) =>
      && digits != [] && (forall x | 0 <= x < |digits| :: IsDigit(digits[x]))
      && ESC !in payload && BEL !in payload
  }

  function Print(i: Item): seq<byte> {
    match i
    case Text(bytes) => bytes
    case Sequence(digits, payload, st) =>
      [ESC, BRACKET] + digits + [SEMICOLON] + payload + (if st then [ESC, BACKSLASH] else [BEL])
  }

  function PrintAll(items: seq<Item>): seq<byte> {
    if items == [] then [] else Print(items[0]) + PrintAll(items[1..])
  }

  /** The codes and payloads printed, without the codes no `u32` holds. */
  function Printed(items: seq<Item>): seq<(nat, seq<byte>)>
    requires forall i <- items :: Printable(i)
  {
    if items == [] then [] else
      assert forall i <- items[1..] :: i in items;
      PrintedItem(items[0]) + Printed(items[1..])
  }

  function PrintedItem(i: Item): seq<(nat, seq<byte>)>
    requires Printable(i)
  {
    match i
    case Text(_) => []
    case Sequence(digits, payload, _) =>
      match ParseU32(digits)
      case Some(code) => [(code, payload)]
      case None => []
  }

  lemma PrintedSequenceMatches(i: Item)
    requires i.Sequence? && Printable(i)
    ensures var (d, s) := (2 + |i.digits|, Print(i));
            && IsMatch(s, Match(0, d, d + 1 + |i.payload|, |s|))
            && s[2..d] == i.digits && s[d + 1..d + 1 + |i.payload|] == i.payload
  {
    var d, s := 2 + |i.digits|, Print(i);
    assert forall x | 2 <= x < d :: s[x] == i.digits[x - 2];
    assert forall x | d < x < d + 1 + |i.payload| :: s[x] == i.payload[x - d - 1];
  }

  lemma ScanOfItem(i: Item)
    requires Printable(i)
    ensures Scan(Print(i)) == PrintedItem(i)
    ensures CleanFrom(Print(i), if i.Text? then 0 else |Print(i)|)
  {
    var s := Print(i);
    MatchesFromAreTheMatches(s, 0);
    var ms := MatchesFrom(s, 0);
    if i.Text? {
      if ms != [] {
        HasMember(ms);
      }
    } else {
      PrintedSequenceMatches(i);
      var d := 2 + |i.digits|;
      var m := Match(0, d, d + 1 + |i.payload|, |s|);
      ReportsPastMatch(s, m);
      assert MatchesFrom(s, |s|) == [];
    }
  }

  /** Whatever is printed, with either terminator and any ESC-free text between, scans back to the codes
      and payloads printed, in order. */
  lemma {:induction false} PrintScansBack(items: seq<Item>)
    requires forall i <- items :: Printable(i)
    ensures Scan(PrintAll(items)) == Printed(items)
  {
    if items != [] {
      var first, rest := Print(items[0]), PrintAll(items[1..]);
      assert forall i <- items[1..] :: i in items;
      PrintScansBack(items[1..]);
      ScanOfItem(items[0]);
      CleanCutSplitsNothing(first, rest, if items[0].Text? then 0 else |first|);
      ScanComposes(first, rest);
    }
  }

  // ----- Codes as they are usually written -----

  lemma {:induction false} DecimalValueOfDigits(s: string)
    requires forall x | 0 <= x < |s| :: '0' <= s[x] <= '9'
    ensures forall x | 0 <= x < |Encode(s)| :: IsDigit(Encode(s)[x])
    ensures DecimalValue(Encode(s)) == Digits.Value(s, 10)
  {
    EncodeAscii(s);
    if s != [] {
      var head := s[..|s| - 1];
      DecimalValueOfDigits(head);
      EncodeAscii(head);
      assert Encode(s)[..|s| - 1] == Encode(head);
    }
  }

  /** Every `u32` written in decimal is read back. */
  lemma RenderedCodeIsRead(code: nat)
    requires code < 0x1_0000_0000
    ensures var digits := Encode(Digits.Render(code, 10));
            (forall x | 0 <= x < |digits| :: IsDigit(digits[x])) && ParseU32(digits) == Some(code)
  {
    var s := Digits.Render(code, 10);
    Digits.RenderIsDecimal(code);
    Digits.RenderReadsBack(code, 10);
    assert forall x | 0 <= x < |s| :: s[x] in s;
    DecimalValueOfDigits(s);
    EncodeAscii(s);
  }
}
