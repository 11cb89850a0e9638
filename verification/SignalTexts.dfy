/** The status signals of a chunk, read off its characters: glyphs, levels and switches. */
module SignalTexts {
  import opened Wrappers
  import opened Chars
  import opened Text
  import opened Utf8
  import opened Osc
  import opened Signals

  /** A progress report of level 1, 2 or 3, whatever stands behind the level. */
  ghost predicate ReportsWork(payload: string) {
    exists level <- {"1", "2", "3"} :: payload == "4;" + level || "4;" + level + ";" <= payload
  }

  lemma LevelIs(progress: string, level: string)
    requires ';' !in level
    ensures Level(progress) == level <==> progress == level || level + ";" <= progress
  {
    hide FindFrom;
    forall i: nat ensures OccursAt(progress, ";", i) <==> i < |progress| && progress[i] == ';' {
      if i < |progress| {
        assert progress[i..i + 1] == [progress[i]];
      }
    }
    hide OccursAt;
    if level + ";" <= progress {
      assert progress[|level|] == ';' && forall k | 0 <= k < |level| :: progress[k] == level[k];
      assert OccursAt(progress, ";", |level|);
    }
    if progress == level {
      assert forall k | 0 <= k < |level| :: progress[k] == level[k];
    }
    match FindFrom(progress, ";", 0)
    case Some(k) => assert progress[..k + 1] == progress[..k] + ";";
    case None =>
  }

  lemma WorkIs(payload: string)
    ensures ReportsWork(payload) <==> "4;" <= payload && Level(payload[2..]) in {"1", "2", "3"}
  {
    hide Level;
    if "4;" <= payload {
      AtLevel(payload, "1");
      AtLevel(payload, "2");
      AtLevel(payload, "3");
    }
  }

  lemma AtLevel(payload: string, level: string)
    requires "4;" <= payload && ';' !in level
    ensures Level(payload[2..]) == level <==> payload == "4;" + level || "4;" + level + ";" <= payload
  {
    hide Level;
    assert payload == "4;" + payload[2..];
    LevelIs(payload[2..], level);
    LevelBehind(payload[2..], level);
  }

  lemma LevelBehind(progress: string, level: string)
    ensures progress == level <==> "4;" + progress == "4;" + level
    ensures level + ";" <= progress <==> "4;" + level + ";" <= "4;" + progress
  {
    var p, l := "4;" + progress, "4;" + level;
    assert p[2..] == progress && l[2..] == level;
    assert (l + ";")[2..] == level + ";";
    if level + ";" <= progress {
      assert progress == level + ";" + progress[|level| + 1..];
      assert p == l + ";" + progress[|level| + 1..];
    }
    if l + ";" <= p {
      assert p[2..|l| + 1] == level + ";";
      assert p[2..|l| + 1] == progress[..|level| + 1];
    }
  }

  /** Work is reported exactly by a title led by a Braille pattern or a half circle, and by a progress report; rest,
      exactly by a title led by the eight-spoked asterisk. */
  lemma StatusReported(chunk: seq<byte>)
    ensures Busy in Decoded(chunk) <==> exists s <- Scan(chunk) ::
      || (s.0 == 0 && TextOf(s.1) != "" && ('\U{2800}' <= TextOf(s.1)[0] < '\U{2900}' || TextOf(s.1)[0] in {'\U{25D0}', '\U{25D1}'}))
      || (s.0 == 9 && ReportsWork(TextOf(s.1)))
    ensures Idle in Decoded(chunk) <==> exists s <- Scan(chunk) :: s.0 == 0 && TextOf(s.1) != "" && TextOf(s.1)[0] == '\U{2733}'
  {
    hide Scan, TextOf, Contains, ReportsWork, TitleSignals, NoticeSignals;
    forall s: (nat, seq<byte>)
      ensures Busy in TitleSignals(s) <==>
        s.0 == 0 && TextOf(s.1) != "" && ('\U{2800}' <= TextOf(s.1)[0] < '\U{2900}' || TextOf(s.1)[0] in {'\U{25D0}', '\U{25D1}'})
      ensures Busy in NoticeSignals(s) <==> s.0 == 9 && ReportsWork(TextOf(s.1))
      ensures Idle in TitleSignals(s) <==> s.0 == 0 && TextOf(s.1) != "" && TextOf(s.1)[0] == '\U{2733}'
      ensures Idle !in NoticeSignals(s)
    {
      StatusOne(s);
    }
    Gathered(Scan(chunk), TitleSignals, Busy);
    Gathered(Scan(chunk), NoticeSignals, Busy);
    Gathered(Scan(chunk), TitleSignals, Idle);
    Gathered(Scan(chunk), NoticeSignals, Idle);
  }

  lemma StatusOne(s: (nat, seq<byte>))
    ensures Busy in TitleSignals(s) <==>
      s.0 == 0 && TextOf(s.1) != "" && ('\U{2800}' <= TextOf(s.1)[0] < '\U{2900}' || TextOf(s.1)[0] in {'\U{25D0}', '\U{25D1}'})
    ensures Busy in NoticeSignals(s) <==> s.0 == 9 && ReportsWork(TextOf(s.1))
    ensures Idle in TitleSignals(s) <==> s.0 == 0 && TextOf(s.1) != "" && TextOf(s.1)[0] == '\U{2733}'
    ensures Idle !in NoticeSignals(s)
  {
    hide TextOf, ReportsWork, Level, Trim;
    WorkIs(TextOf(s.1));
  }

  lemma ModesSpelled()
    ensures Encode("\U{1B}[?1049h") == ENTERS && Encode("\U{1B}[?47h") == ENTERS_OLD
    ensures Encode("\U{1B}[?1049l") == LEAVES && Encode("\U{1B}[?47l") == LEAVES_OLD
  {
    hide Encode;
    SpelledIs("\U{1B}[?1049h", ENTERS);
    SpelledIs("\U{1B}[?47h", ENTERS_OLD);
    SpelledIs("\U{1B}[?1049l", LEAVES);
    SpelledIs("\U{1B}[?47l", LEAVES_OLD);
  }

  lemma SpelledIs(text: string, bytes: seq<byte>)
    requires |text| == |bytes| && forall k | 0 <= k < |text| :: text[k] as int == bytes[k] < 0x80
    ensures Encode(text) == bytes
  {
    hide Encode;
    EncodeAscii(text);
  }

  ghost predicate Holds(chunk: seq<byte>, text: string) {
    exists before, after :: chunk == before + Encode(text) + after
  }

  lemma HoldsIs(chunk: seq<byte>, text: string)
    ensures Holds(chunk, text) <==> Contains(chunk, Encode(text))
  {
    hide Encode;
    var part := Encode(text);
    if Contains(chunk, part) {
      var i :| 0 <= i <= |chunk| && OccursAt(chunk, part, i);
      assert chunk == chunk[..i] + part + chunk[i + |part|..];
    }
    if before, after :| chunk == before + part + after {
      assert chunk[|before|..|before| + |part|] == part;
      assert OccursAt(chunk, part, |before|);
    }
  }

  lemma NeitherScreens(chunk: seq<byte>, entered: bool)
    ensures AltScreen(entered) !in Gather(Scan(chunk), TitleSignals) && AltScreen(entered) !in Gather(Scan(chunk), NoticeSignals)
  {
    hide Scan, TextOf, Contains, Level, Trim, IsBusyGlyph;
    Gathered(Scan(chunk), TitleSignals, AltScreen(entered));
    Gathered(Scan(chunk), NoticeSignals, AltScreen(entered));
  }

  /** The alternate screen is entered with either of two switches set, and left with either of them reset. */
  lemma ScreensReported(chunk: seq<byte>)
    ensures AltScreen(true) in Decoded(chunk) <==> Holds(chunk, "\U{1B}[?1049h") || Holds(chunk, "\U{1B}[?47h")
    ensures AltScreen(false) in Decoded(chunk) <==> Holds(chunk, "\U{1B}[?1049l") || Holds(chunk, "\U{1B}[?47l")
  {
    hide Scan, TextOf, Contains, Level, Trim, IsBusyGlyph, Holds, Encode;
    ModesSpelled();
    HoldsIs(chunk, "\U{1B}[?1049h");
    HoldsIs(chunk, "\U{1B}[?47h");
    HoldsIs(chunk, "\U{1B}[?1049l");
    HoldsIs(chunk, "\U{1B}[?47l");
    NeitherScreens(chunk, true);
    NeitherScreens(chunk, false);
  }

  function Rank(s: Signal): nat
    requires !s.Busy?
  {
    match s
    case Idle => 0
    case Title(_) => 0
    case Notification(_) => 1
    case Bell => 2
    case AltScreen(entered) => if entered then 3 else 4
  }

  ghost predicate Ranked(signals: seq<Signal>) {
    forall i, j | 0 <= i < j < |signals| && !signals[i].Busy? && !signals[j].Busy? :: Rank(signals[i]) <= Rank(signals[j])
  }

  ghost predicate RankedFrom(signals: seq<Signal>, low: nat, high: nat) {
    Ranked(signals) && forall s <- signals :: !s.Busy? ==> low <= Rank(s) <= high
  }

  lemma RankedThen(a: seq<Signal>, b: seq<Signal>, low: nat, middle: nat, next: nat, high: nat)
    requires RankedFrom(a, low, middle) && RankedFrom(b, next, high) && low <= middle <= next <= high
    ensures RankedFrom(a + b, low, high)
  {
    hide Rank;
    assert forall s <- a + b :: s in a || s in b;
  }

  lemma {:induction false} GatheredRank(found: seq<(nat, seq<byte>)>)
    ensures RankedFrom(Gather(found, TitleSignals), 0, 0) && RankedFrom(Gather(found, NoticeSignals), 1, 1)
  {
    hide Trim, Decode, IsBusyGlyph, Level;
    if found != [] {
      GatheredRank(found[..|found| - 1]);
      var last := found[|found| - 1];
      assert RankedFrom(TitleSignals(last), 0, 0) && RankedFrom(NoticeSignals(last), 1, 1);
      RankedThen(Gather(found[..|found| - 1], TitleSignals), TitleSignals(last), 0, 0, 0, 0);
      RankedThen(Gather(found[..|found| - 1], NoticeSignals), NoticeSignals(last), 1, 1, 1, 1);
    }
  }

  lemma FoursRanked(titles: seq<Signal>, notices: seq<Signal>, bell: seq<Signal>, screens: seq<Signal>)
    requires RankedFrom(titles, 0, 0) && RankedFrom(notices, 1, 1) && RankedFrom(bell, 2, 2) && RankedFrom(screens, 3, 4)
    ensures Ranked(titles + notices + bell + screens)
  {
    hide RankedFrom, Ranked;
    RankedThen(titles, notices, 0, 0, 1, 1);
    RankedThen(titles + notices, bell, 0, 1, 2, 2);
    RankedThen(titles + notices + bell, screens, 0, 2, 3, 4);
    RankedOf(titles + notices + bell + screens);
  }

  lemma BellAndScreensRank(chunk: seq<byte>)
    ensures RankedFrom(BellSignals(chunk), 2, 2) && RankedFrom(ScreenSignals(chunk), 3, 4)
  {
    hide Contains;
  }

  /** Titles and rest come before notifications, those before the bell, and the screen last, entered before left. */
  lemma SignalsInOrder(chunk: seq<byte>)
    ensures Ranked(Decoded(chunk))
  {
    hide Scan, Gather, Ranked, RankedFrom, BellSignals, ScreenSignals;
    var found := Scan(chunk);
    GatheredRank(found);
    BellAndScreensRank(chunk);
    FoursRanked(Gather(found, TitleSignals), Gather(found, NoticeSignals), BellSignals(chunk), ScreenSignals(chunk));
  }

  lemma RankedOf(signals: seq<Signal>)
    ensures RankedFrom(signals, 0, 4) ==> Ranked(signals)
  {
  }

  /** A title is reported exactly for a payload of code 0 led by a status glyph, and is what stands behind the glyph
      without the whitespace around it, if that is something and not the program's name. */
  lemma TitleReported(chunk: seq<byte>, t: string)
    ensures Title(t) in Decoded(chunk) <==> exists s <- Scan(chunk) :: s.0 == 0 && IsTitled(TextOf(s.1), t)
  {
    hide Scan, TextOf, Decoded, Titled, IsTitled;
    TextsReported(chunk, t);
    forall s: (nat, seq<byte>) ensures IsTitled(TextOf(s.1), t) <==> Titled(TextOf(s.1), t) {
      TitledIs(TextOf(s.1), t);
    }
  }

  ghost predicate IsTitled(payload: string, t: string) {
    exists glyph: char, before: string, after: string ::
      && payload == [glyph] + before + t + after && IsBlank(before) && IsBlank(after)
      && ('\U{2800}' <= glyph < '\U{2900}' || glyph in {'\U{25D0}', '\U{25D1}', '\U{2733}'})
      && t != "" && !IsWhitespace(t[0]) && !IsWhitespace(t[|t| - 1]) && t != "Claude Code"
  }

  lemma TitledIs(payload: string, t: string)
    ensures IsTitled(payload, t) <==> Titled(payload, t)
  {
    hide IsWhitespace, Trim;
    if glyph: char, before: string, after: string :|
      && payload == [glyph] + before + t + after && IsBlank(before) && IsBlank(after)
      && ('\U{2800}' <= glyph < '\U{2900}' || glyph in {'\U{25D0}', '\U{25D1}', '\U{2733}'})
      && t != "" && !IsWhitespace(t[0]) && !IsWhitespace(t[|t| - 1]) && t != "Claude Code"
    {
      assert payload[1..] == before + t + after;
      TrimAround(before, t, after);
    }
    if Titled(payload, t) {
      var before, after := TrimmedParts(payload[1..]);
      assert payload == [payload[0]] + before + t + after;
    }
  }

  lemma TrimAround(before: string, t: string, after: string)
    requires IsBlank(before) && IsBlank(after) && t != "" && !IsWhitespace(t[0]) && !IsWhitespace(t[|t| - 1])
    ensures Trim(before + t + after) == t
  {
    hide IsWhitespace, Trim;
    var s, a, b := before + t + after, |before|, |before| + |t|;
    assert s[a..b] == t && s[a] == t[0] && s[b - 1] == t[|t| - 1];
    assert forall k | 0 <= k < a :: s[k] in before;
    assert forall k | b <= k < |s| :: s[k] in after;
    TrimAt(s, a, b);
  }

  lemma TrimmedParts(s: string) returns (before: string, after: string)
    requires Trim(s) != ""
    ensures s == before + Trim(s) + after && IsBlank(before) && IsBlank(after)
    ensures !IsWhitespace(Trim(s)[0]) && !IsWhitespace(Trim(s)[|Trim(s)| - 1])
  {
    hide IsWhitespace, LeadingBlanks, TrimmedLength;
    var a, b := LeadingBlanks(s), TrimmedLength(s);
    before, after := s[..a], s[b..];
    assert Trim(s) == s[a..b];
    assert forall k | 0 <= k < |after| :: after[k] == s[b + k];
  }

  // ----- One sequence -----

  /** What one payload of code 0 gives: its glyph's status, and the title behind it. */
  lemma TitleOnItsOwn(payload: seq<byte>)
    ensures var (text, signals) := (TextOf(payload), TitleSignals((0, payload)));
      if text == "" then signals == []
      else
        var title := if exists t :: IsTitled(text, t) then [Title(Trim(text[1..]))] else [];
        if '\U{2800}' <= text[0] < '\U{2900}' || text[0] in {'\U{25D0}', '\U{25D1}'} then signals == [Busy] + title
        else if text[0] == '\U{2733}' then signals == [Idle] + title
        else signals == []
  {
    hide IsTitled, Trim, Decode;
    var text := TextOf(payload);
    SomeTitle(text);
  }

  lemma SomeTitle(text: string)
    ensures (exists t :: IsTitled(text, t)) <==> text != "" && Titled(text, Trim(text[1..]))
  {
    hide IsTitled, Trim, IsBusyGlyph;
    if text != "" {
      TitledIs(text, Trim(text[1..]));
    }
    if t :| IsTitled(text, t) {
      TitledIs(text, t);
    }
  }

  /** What one payload of code 9 gives: work for a progress report of a level that says so, nothing for any other, and
      a notification of anything else. */
  lemma NoticeOnItsOwn(payload: seq<byte>)
    ensures NoticeSignals((9, payload)) ==
      if ReportsWork(TextOf(payload)) then [Busy] else if "4;" <= TextOf(payload) then [] else [Notification(TextOf(payload))]
  {
    hide Decode, Level, ReportsWork;
    WorkIs(TextOf(payload));
  }

  /** A chunk of one sequence gives what it gives, and then the screens. */
  lemma OneSequence(chunk: seq<byte>, s: (nat, seq<byte>))
    requires Scan(chunk) == [s]
    ensures Decoded(chunk) == (if s.0 == 0 then TitleSignals(s) else if s.0 == 9 then NoticeSignals(s) else []) + ScreenSignals(chunk)
  {
    hide Scan, Contains, TextOf, ScreenSignals, Level, Trim, IsBusyGlyph;
    GatherOne(s, TitleSignals);
    GatherOne(s, NoticeSignals);
    if !Contains(chunk, INTRODUCER) {
      NothingWithoutIntroducer(chunk);
    }
  }
}
