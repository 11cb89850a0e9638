/** The status signals a chunk of terminal output carries: titles, progress, notifications, the bell and
    the alternate screen. */
module Signals {
  import opened Wrappers
  import opened Text
  import opened Utf8
  import opened Osc
  import OscRoundTrip

  datatype Signal =
    | Busy
    | Idle
    | Title(text: string)
    | Notification(text: string)
    | AltScreen(entered: bool)
    | Bell

  const PRODUCT_NAME: string := "Claude Code"
  const IDLE_GLYPH: char := '\U{2733}'

  predicate IsBusyGlyph(c: char) {
    0x2800 <= c as int <= 0x28FF || c == '\U{25D0}' || c == '\U{25D1}'
  }

  /** The text behind a title's first character, nothing when it is blank or names the program. */
  function TitleAfterGlyph(payload: string): Option<string> {
    if payload == "" then None
    else
      var rest := Trim(payload[1..]);
      if rest != "" && rest != PRODUCT_NAME then Some(rest) else None
  }

  /** A payload as text: payloads of valid chunks are valid. */
  function TextOf(payload: seq<byte>): string {
    match Decode(payload) case Some(text) => text case None => ""
  }

  function TitleSignals(s: (nat, seq<byte>)): seq<Signal> {
    var text := TextOf(s.1);
    if s.0 != 0 || text == "" then []
    else
      var title := match TitleAfterGlyph(text) case Some(t) => [Title(t)] case None => [];
      if IsBusyGlyph(text[0]) then [Busy] + title
      else if text[0] == IDLE_GLYPH then [Idle] + title
      else []
  }

  /** The level of a progress report: what stands before its first semicolon. */
  function Level(progress: string): string {
    match FindFrom(progress, ";", 0) case Some(k) => progress[..k] case None => progress
  }

  function NoticeSignals(s: (nat, seq<byte>)): seq<Signal> {
    var text := TextOf(s.1);
    if s.0 != 9 then []
    else if "4;" <= text then (if Level(text[2..]) in {"1", "2", "3"} then [Busy] else [])
    else [Notification(text)]
  }

  function Gather(found: seq<(nat, seq<byte>)>, f: ((nat, seq<byte>)) -> seq<Signal>): seq<Signal> {
    if found == [] then [] else Gather(found[..|found| - 1], f) + f(found[|found| - 1])
  }

  const OPEN_BRACKET: byte := 0x5b
  const INTRODUCER: seq<byte> := [ESC, BRACKET]
  const ENTERS: seq<byte> := [ESC, OPEN_BRACKET, 0x3f, 0x31, 0x30, 0x34, 0x39, 0x68]
  const ENTERS_OLD: seq<byte> := [ESC, OPEN_BRACKET, 0x3f, 0x34, 0x37, 0x68]
  const LEAVES: seq<byte> := [ESC, OPEN_BRACKET, 0x3f, 0x31, 0x30, 0x34, 0x39, 0x6c]
  const LEAVES_OLD: seq<byte> := [ESC, OPEN_BRACKET, 0x3f, 0x34, 0x37, 0x6c]
  const PRIVATE_MODE: seq<byte> := [ESC, OPEN_BRACKET, 0x3f]

  function BellSignals(chunk: seq<byte>): seq<Signal> {
    if BEL in chunk && !Contains(chunk, INTRODUCER) then [Bell] else []
  }

  function ScreenSignals(chunk: seq<byte>): seq<Signal> {
    (if Contains(chunk, ENTERS) || Contains(chunk, ENTERS_OLD) then [AltScreen(true)] else [])
    + (if Contains(chunk, LEAVES) || Contains(chunk, LEAVES_OLD) then [AltScreen(false)] else [])
  }

  /** The signals of the titles of a chunk, then of its notices, its bell and its screen switches. */
  ghost function Decoded(chunk: seq<byte>): seq<Signal> {
    Gather(Scan(chunk), TitleSignals) + Gather(Scan(chunk), NoticeSignals) + BellSignals(chunk) + ScreenSignals(chunk)
  }

  lemma GatherNext(found: seq<(nat, seq<byte>)>, i: nat, f: ((nat, seq<byte>)) -> seq<Signal>)
    requires i < |found|
    ensures Gather(found[..i + 1], f) == Gather(found[..i], f) + f(found[i])
  {
    assert found[..i + 1][..i] == found[..i];
  }

  lemma NothingWithoutIntroducer(chunk: seq<byte>)
    requires !Contains(chunk, INTRODUCER)
    ensures forall m :: !IsMatch(chunk, m)
    ensures Scan(chunk) == []
  {
    hide Contains;
    if m :| IsMatch(chunk, m) {
      MatchHasIntroducer(chunk, m);
    }
    MatchesFromAreTheMatches(chunk, 0);
    if MatchesFrom(chunk, 0) != [] {
      HasMember(MatchesFrom(chunk, 0));
    }
  }

  lemma MatchHasIntroducer(chunk: seq<byte>, m: Match)
    requires IsMatch(chunk, m)
    ensures Contains(chunk, INTRODUCER)
  {
    assert chunk[m.start..m.start + 2] == INTRODUCER;
    assert OccursAt(chunk, INTRODUCER, m.start);
  }

  lemma ScreensAreModes(chunk: seq<byte>)
    requires !Contains(chunk, PRIVATE_MODE)
    ensures ScreenSignals(chunk) == []
  {
    PrefixContained(chunk, ENTERS, PRIVATE_MODE);
    PrefixContained(chunk, ENTERS_OLD, PRIVATE_MODE);
    PrefixContained(chunk, LEAVES, PRIVATE_MODE);
    PrefixContained(chunk, LEAVES_OLD, PRIVATE_MODE);
  }

  lemma PrefixContained<T>(s: seq<T>, t: seq<T>, p: seq<T>)
    requires p <= t
    ensures Contains(s, t) ==> Contains(s, p)
  {
    if i :| 0 <= i <= |s| && OccursAt(s, t, i) {
      SliceOfSlice(s, i, i + |t|, 0, |p|);
      assert t[0..|p|] == p;
      assert OccursAt(s, p, i);
    }
  }

  /** `decode_chunk`. */
  method DecodeChunk(chunk: seq<byte>) returns (signals: seq<Signal>)
    requires Valid(chunk)
    ensures signals == Decoded(chunk)
  {
    hide Valid, Contains, Scan, Trim, FindFrom, Decode, IsBusyGlyph, Level;
    signals := [];
    if Contains(chunk, INTRODUCER) {
      var found := OscSequences(chunk);
      signals := TitlePass(found);
      var more := NoticePass(found);
      signals := signals + more;
    } else {
      NothingWithoutIntroducer(chunk);
      if BEL in chunk {
        signals := signals + [Bell];
      }
    }
    assert signals == Gather(Scan(chunk), TitleSignals) + Gather(Scan(chunk), NoticeSignals) + BellSignals(chunk);
    if Contains(chunk, PRIVATE_MODE) {
      if Contains(chunk, ENTERS) || Contains(chunk, ENTERS_OLD) {
        signals := signals + [AltScreen(true)];
      }
      if Contains(chunk, LEAVES) || Contains(chunk, LEAVES_OLD) {
        signals := signals + [AltScreen(false)];
      }
    } else {
      ScreensAreModes(chunk);
    }
  }

  method TitlePass(found: seq<(nat, seq<byte>)>) returns (signals: seq<Signal>)
    ensures signals == Gather(found, TitleSignals)
  {
    hide Trim, Decode, IsBusyGlyph;
    signals := [];
    for i := 0 to |found|
      invariant signals == Gather(found[..i], TitleSignals)
    {
      GatherNext(found, i, TitleSignals);
      var text := TextOf(found[i].1);
      if found[i].0 == 0 && text != "" {
        var status := if IsBusyGlyph(text[0]) then Some(Busy) else if text[0] == IDLE_GLYPH then Some(Idle) else None;
        if status.Some? {
          signals := signals + [status.value];
          var title := TitleAfterGlyph(text);
          if title.Some? {
            signals := signals + [Title(title.value)];
          }
        }
      }
    }
    assert found[..|found|] == found;
  }

  method NoticePass(found: seq<(nat, seq<byte>)>) returns (signals: seq<Signal>)
    ensures signals == Gather(found, NoticeSignals)
  {
    hide Decode, Level;
    signals := [];
    for i := 0 to |found|
      invariant signals == Gather(found[..i], NoticeSignals)
    {
      GatherNext(found, i, NoticeSignals);
      var text := TextOf(found[i].1);
      if found[i].0 == 9 {
        if "4;" <= text {
          if Level(text[2..]) in {"1", "2", "3"} {
            signals := signals + [Busy];
          }
        } else {
          signals := signals + [Notification(text)];
        }
      }
    }
    assert found[..|found|] == found;
  }

  // ----- What is signalled -----

  lemma {:induction false} Gathered(found: seq<(nat, seq<byte>)>, f: ((nat, seq<byte>)) -> seq<Signal>, x: Signal)
    ensures x in Gather(found, f) <==> exists s <- found :: x in f(s)
  {
    if found != [] {
      var front, last := found[..|found| - 1], found[|found| - 1];
      assert found == front + [last];
      Gathered(front, f, x);
    }
  }

  lemma {:induction false} GatherConcat(a: seq<(nat, seq<byte>)>, b: seq<(nat, seq<byte>)>, f: ((nat, seq<byte>)) -> seq<Signal>)
    ensures Gather(a + b, f) == Gather(a, f) + Gather(b, f)
  {
    if b == [] {
      assert a + b == a;
    } else {
      assert (a + b)[..|a + b| - 1] == a + b[..|b| - 1];
      GatherConcat(a, b[..|b| - 1], f);
    }
  }

  /** A title text that reaches a tab: behind a status glyph, trimmed, not blank and not the program's name. */
  predicate Titled(payload: string, t: string) {
    && payload != "" && (IsBusyGlyph(payload[0]) || payload[0] == IDLE_GLYPH)
    && t == Trim(payload[1..]) && t != "" && t != PRODUCT_NAME
  }

  lemma TitledOne(s: (nat, seq<byte>), t: string)
    ensures Title(t) in TitleSignals(s) <==> s.0 == 0 && Titled(TextOf(s.1), t)
    ensures Title(t) !in NoticeSignals(s)
  {
    hide Trim, Decode, IsBusyGlyph, Level;
  }

  lemma NoticedOne(s: (nat, seq<byte>), t: string)
    ensures Notification(t) in NoticeSignals(s) <==> s.0 == 9 && TextOf(s.1) == t && !("4;" <= t)
    ensures Notification(t) !in TitleSignals(s)
  {
    hide Trim, Decode, IsBusyGlyph, Level;
  }

  /** A title is reported exactly for the glyph-led titles of code 0; a notification, exactly for the
      payloads of code 9 that are not progress reports. */
  lemma TextsReported(chunk: seq<byte>, t: string)
    ensures Title(t) in Decoded(chunk) <==> exists s <- Scan(chunk) :: s.0 == 0 && Titled(TextOf(s.1), t)
    ensures Notification(t) in Decoded(chunk) <==> exists s <- Scan(chunk) :: s.0 == 9 && TextOf(s.1) == t && !("4;" <= t)
  {
    hide Scan, TitleSignals, NoticeSignals, Titled, TextOf, Contains;
    forall s: (nat, seq<byte>)
      ensures Title(t) in TitleSignals(s) <==> s.0 == 0 && Titled(TextOf(s.1), t)
      ensures Title(t) !in NoticeSignals(s)
    {
      TitledOne(s, t);
    }
    forall s: (nat, seq<byte>)
      ensures Notification(t) in NoticeSignals(s) <==> s.0 == 9 && TextOf(s.1) == t && !("4;" <= t)
      ensures Notification(t) !in TitleSignals(s)
    {
      NoticedOne(s, t);
    }
    Gathered(Scan(chunk), TitleSignals, Title(t));
    Gathered(Scan(chunk), NoticeSignals, Title(t));
    Gathered(Scan(chunk), TitleSignals, Notification(t));
    Gathered(Scan(chunk), NoticeSignals, Notification(t));
  }

  /** Every title directly follows a status. */
  ghost predicate StatusBeforeTitles(signals: seq<Signal>) {
    forall i | 0 <= i < |signals| && signals[i].Title? :: i > 0 && (signals[i - 1].Busy? || signals[i - 1].Idle?)
  }

  lemma {:induction false} GatheredTitlesFollowStatus(found: seq<(nat, seq<byte>)>)
    ensures StatusBeforeTitles(Gather(found, TitleSignals))
  {
    hide Trim, Decode, IsBusyGlyph;
    if found != [] {
      GatheredTitlesFollowStatus(found[..|found| - 1]);
      assert StatusBeforeTitles(TitleSignals(found[|found| - 1]));
    }
  }

  lemma TitlesFollowStatus(chunk: seq<byte>)
    ensures StatusBeforeTitles(Decoded(chunk))
  {
    hide Scan, TitleSignals, NoticeSignals, Contains;
    var found := Scan(chunk);
    GatheredTitlesFollowStatus(found);
    var (titles, notices) := (Gather(found, TitleSignals), Gather(found, NoticeSignals));
    forall x | x in notices ensures !x.Title? {
      if x.Title? {
        Gathered(found, NoticeSignals, x);
        forall s: (nat, seq<byte>) ensures x !in NoticeSignals(s) {
          TitledOne(s, x.text);
        }
      }
    }
    var rest := notices + BellSignals(chunk) + ScreenSignals(chunk);
    assert Decoded(chunk) == titles + rest;
    assert forall x <- rest :: !x.Title?;
  }

  // ----- The bell -----

  /** A BEL that belongs to no sequence. */
  ghost predicate BareBel(chunk: seq<byte>) {
    exists i :: 0 <= i < |chunk| && chunk[i] == BEL && OutsideMatches(chunk, i)
  }

  ghost predicate OutsideMatches(chunk: seq<byte>, i: int) {
    forall m | IsMatch(chunk, m) :: !(m.start <= i < m.end)
  }

  lemma BellIsFromBel(chunk: seq<byte>)
    ensures Bell in Decoded(chunk) <==> BEL in chunk && !Contains(chunk, INTRODUCER)
  {
    hide Scan, Contains, TextOf, Titled, IsBusyGlyph, Level, Trim;
    Gathered(Scan(chunk), TitleSignals, Bell);
    Gathered(Scan(chunk), NoticeSignals, Bell);
  }

  /** The bell is documented as a BEL outside any sequence. The code reports one as documented exactly
      when the chunk does not hold both such a BEL and the start of a sequence, finished or not. */
  lemma BellAsDocumented(chunk: seq<byte>)
    ensures (Bell in Decoded(chunk) <==> BareBel(chunk)) <==> !(BareBel(chunk) && Contains(chunk, INTRODUCER))
  {
    hide Contains, Decoded;
    BellIsFromBel(chunk);
    if BEL in chunk && !Contains(chunk, INTRODUCER) {
      var i :| 0 <= i < |chunk| && chunk[i] == BEL;
      NothingWithoutIntroducer(chunk);
      assert OutsideMatches(chunk, i);
    }
  }

  /** A bell lost: one that rings before a title in the same chunk. */
  lemma BellLostBeforeTitle(title: seq<byte>)
    ensures var chunk := [BEL, ESC, BRACKET] + title;
      BareBel(chunk) && Bell !in Decoded(chunk)
  {
    hide Contains, Decoded;
    var chunk := [BEL, ESC, BRACKET] + title;
    assert chunk[1..3] == INTRODUCER;
    assert OccursAt(chunk, INTRODUCER, 1);
    FoundAt(chunk, INTRODUCER, 1);
    assert OutsideMatches(chunk, 0);
    BellIsFromBel(chunk);
  }

  lemma FoundAt<T>(s: seq<T>, t: seq<T>, i: nat)
    requires OccursAt(s, t, i)
    ensures Contains(s, t)
  {
  }

  // ----- Chunks and round trips -----

  /** Cutting the output between sequences loses no status and no notification. */
  lemma PassesCompose(a: seq<byte>, b: seq<byte>)
    requires !OscRoundTrip.Straddled(a, b)
    ensures Gather(Scan(a + b), TitleSignals) == Gather(Scan(a), TitleSignals) + Gather(Scan(b), TitleSignals)
    ensures Gather(Scan(a + b), NoticeSignals) == Gather(Scan(a), NoticeSignals) + Gather(Scan(b), NoticeSignals)
  {
    hide Scan, OscRoundTrip.Straddled, TitleSignals, NoticeSignals;
    OscRoundTrip.ScanComposes(a, b);
    GatherConcat(Scan(a), Scan(b), TitleSignals);
    GatherConcat(Scan(a), Scan(b), NoticeSignals);
  }

  /** A title set behind a status glyph is reported right behind its status. */
  lemma TitleIsRead(glyph: char, name: string, stringTerminator: bool)
    requires IsBusyGlyph(glyph) || glyph == IDLE_GLYPH
    requires Trim(name) == name && name != "" && name != PRODUCT_NAME
    requires ESC !in Encode([glyph] + [' '] + name) && BEL !in Encode([glyph] + [' '] + name)
    ensures var chunk := OscRoundTrip.Print(OscRoundTrip.Sequence([0x30], Encode([glyph] + [' '] + name), stringTerminator));
      Decoded(chunk) == [if IsBusyGlyph(glyph) then Busy else Idle, Title(name)] + ScreenSignals(chunk)
  {
    hide Encode, Scan, Decode, Decoded, IsBusyGlyph, Trim, Contains, TitleSignals, ScreenSignals;
    var text := [glyph] + [' '] + name;
    var item := OscRoundTrip.Sequence([0x30], Encode(text), stringTerminator);
    var chunk := OscRoundTrip.Print(item);
    CodeZero();
    OscRoundTrip.ScanOfItem(item);
    TitleOf(glyph, name);
    assert chunk[0..2] == INTRODUCER;
    FoundAt(chunk, INTRODUCER, 0);
    DecodedOfOne(chunk, (0, Encode(text)));
  }

  lemma DecodedOfOne(chunk: seq<byte>, one: (nat, seq<byte>))
    requires Scan(chunk) == [one] && one.0 == 0 && Contains(chunk, INTRODUCER)
    ensures Decoded(chunk) == TitleSignals(one) + ScreenSignals(chunk)
  {
    hide Scan, Contains, TitleSignals, ScreenSignals;
    GatherOne(one, TitleSignals);
    GatherOne(one, NoticeSignals);
  }

  lemma GatherOne(one: (nat, seq<byte>), f: ((nat, seq<byte>)) -> seq<Signal>)
    ensures Gather([one], f) == f(one)
  {
    assert Gather([one][..0], f) == [];
  }

  lemma TitleOf(glyph: char, name: string)
    requires IsBusyGlyph(glyph) || glyph == IDLE_GLYPH
    requires Trim(name) == name && name != "" && name != PRODUCT_NAME
    ensures TitleSignals((0, Encode([glyph] + [' '] + name))) == [if IsBusyGlyph(glyph) then Busy else Idle, Title(name)]
  {
    hide Encode, TextOf, IsBusyGlyph, Trim;
    var text := [glyph] + [' '] + name;
    TextComesBack(text);
    assert text[0] == glyph && text[1..] == [' '] + name;
    TrimSpaceBefore(name);
  }

  lemma TextComesBack(text: string)
    ensures TextOf(Encode(text)) == text
  {
    hide Encode, Decode;
    DecodeEncode(text);
  }

  lemma CodeZero()
    ensures ParseU32([0x30]) == Some(0)
  {
    assert DecimalValue([0x30][..0]) == 0;
  }

  lemma TrimSpaceBefore(name: string)
    requires Trim(name) == name && name != ""
    ensures Trim([' '] + name) == name
  {
    hide LeadingBlanks, TrimmedLength;
    var s := [' '] + name;
    var a, b := LeadingBlanks(name), TrimmedLength(name);
    assert a == 0 && b == |name| by {
      assert |name[a..b]| == b - a;
    }
    assert s[1] == name[0] && s[|s| - 1] == name[|name| - 1];
    assert LeadingBlanks(s) == 1;
    assert TrimmedLength(s) == |s|;
  }
}
