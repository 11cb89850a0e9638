/** The session digest: one pass over a transcript's entries, against what the digest is said to hold. */
module Digest {
  import opened Wrappers
  import opened Machine
  import opened Text
  import opened Chars
  import opened Utf16
  import opened DigestText
  import opened ClaudeColor

  // ----- Transcript entries -----

  /** What follows `content` in a message: a string, an array (by its first element's `text`, when that
      is a string), or anything else. */
  datatype Content = Whole(text: string) | Blocks(firstText: Option<string>) | OtherContent

  datatype Message = Plain(text: string) | Object(content: Content, model: Option<string>)

  /** An entry by the fields the digest reads, each `None` when it is missing or of another type. */
  datatype Entry = Entry(kind: Option<string>, role: Option<string>, slug: Option<string>,
                         customTitle: Option<string>, aiTitle: Option<string>, agentColor: Option<string>,
                         version: Option<string>, isSidechain: Option<bool>, effort: Option<string>,
                         perTurnEffort: Option<string>, message: Option<Message>)

  datatype SessionDigest = SessionDigest(summary: string, messageCount: u32, textContent: string,
                                         slug: Option<string>, customTitle: Option<string>,
                                         aiTitle: Option<string>, tail: seq<string>, version: Option<string>,
                                         model: Option<string>, effort: Option<string>,
                                         agentColor: Option<Color>)

  const SUMMARY_UNITS: nat := 120
  const TEXT_SLICE_UNITS: nat := 500
  const TEXT_CONTENT_UNITS: nat := 8000
  const LABEL_UNITS: nat := 120
  const TAIL_MESSAGES: nat := 3
  const TAIL_UNITS: nat := 100
  const MAX_COUNT: nat := 0xFFFF_FFFF

  function NonEmpty(s: Option<string>): Option<string> {
    if s == Some("") then None else s
  }

  /** `display_title`: the user's rename, else the custom title, else the AI's, else the summary. */
  function DisplayTitle(d: SessionDigest, rename: Option<string>): string {
    match NonEmpty(rename)
    case Some(t) => t
    case None =>
      match NonEmpty(d.customTitle)
      case Some(t) => t
      case None =>
        match NonEmpty(d.aiTitle)
        case Some(t) => t
        case None => d.summary
  }

  function MessageText(e: Entry): string {
    match e.message
    case Some(Plain(text)) => text
    case Some(Object(Whole(text), _)) => text
    case Some(Object(Blocks(Some(text)), _)) => text
    case _ => ""
  }

  predicate IsUser(e: Entry) {
    e.kind == Some("user") || (e.kind == Some("message") && e.role == Some("user"))
  }

  predicate IsAssistant(e: Entry) {
    e.kind == Some("assistant") || (e.kind == Some("message") && e.role == Some("assistant"))
  }

  predicate IsLocalCommand(text: string) {
    Contains(text, "<bash-input>") || Contains(text, "<bash-stdout>") || Contains(text, "<local-command-caveat>")
  }

  function ColorOf(e: Entry): Option<Color> {
    if e.agentColor.None? then None
    else
      var color := FromName(e.agentColor.value);
      if color == Some(Default) then None else color
  }

  // ----- What one entry says -----

  function Label(s: Option<string>): Option<string> {
    match NonEmpty(s) case Some(t) => Some(Cut(t, LABEL_UNITS)) case None => None
  }

  function SlugIn(e: Entry): Option<string> {
    Label(e.slug)
  }

  function CustomTitleIn(e: Entry): Option<string> {
    if e.kind == Some("custom-title") then Label(e.customTitle) else None
  }

  function AiTitleIn(e: Entry): Option<string> {
    if e.kind == Some("ai-title") then Label(e.aiTitle) else None
  }

  /** An entry that sets the colour, and what to. */
  function ColorIn(e: Entry): Option<Option<Color>> {
    if e.kind == Some("agent-color") then Some(ColorOf(e)) else None
  }

  predicate IsMessage(e: Entry) {
    IsUser(e) || IsAssistant(e)
  }

  function MessageIn(e: Entry): Option<Entry> {
    if IsMessage(e) then Some(e) else None
  }

  predicate CarriesVersion(e: Entry) {
    IsMessage(e) || e.kind == Some("system")
  }

  function VersionIn(e: Entry): Option<string> {
    if CarriesVersion(e) then Label(e.version) else None
  }

  function ModelNamed(e: Entry): Option<string> {
    match e.message case Some(Object(_, model)) => NonEmpty(model) case _ => None
  }

  /** A reply of the model the session talks to. */
  predicate IsReply(e: Entry) {
    IsAssistant(e) && e.isSidechain != Some(true) && ModelNamed(e) != Some("<synthetic>")
  }

  function ModelIn(e: Entry): Option<string> {
    if IsReply(e) then Label(ModelNamed(e)) else None
  }

  function EffortIn(e: Entry): Option<string> {
    if !IsReply(e) then None else if NonEmpty(e.effort).Some? then Label(e.effort) else Label(e.perTurnEffort)
  }

  /** The text of an entry that is a real user prompt. */
  function PromptIn(e: Entry): Option<string> {
    var text := MessageText(e);
    if IsUser(e) && text != "" && !IsLocalCommand(text) then Some(text) else None
  }

  function SummaryOf(prompt: string): string {
    match ScheduledName(prompt)
    case Some(name) => Cut("Scheduled: " + name, SUMMARY_UNITS)
    case None => Cut(prompt, SUMMARY_UNITS)
  }

  /** What an entry adds to the indexed text. */
  function PieceIn(e: Entry): Option<string> {
    var text := MessageText(e);
    if text == "" then None else Some(Cut(text, TEXT_SLICE_UNITS) + "\n")
  }

  function FirstNonBlank(lines: seq<string>): Option<string> {
    if lines == [] then None
    else if Trim(lines[0]) != "" then Some(Trim(lines[0]))
    else FirstNonBlank(lines[1..])
  }

  function LineIn(e: Entry): Option<string> {
    if !IsMessage(e) then None
    else
      match FirstNonBlank(Lines(MessageText(e)))
      case Some(line) => Some(Cut(line, TAIL_UNITS))
      case None => None
  }

  // ----- What a transcript says -----

  function Listed<T>(o: Option<T>): seq<T> {
    match o case Some(v) => [v] case None => []
  }

  /** Everything the entries say under `f`, in order. */
  function Collect<T>(es: seq<Entry>, f: Entry -> Option<T>): (found: seq<T>)
    ensures |found| <= |es|
  {
    if es == [] then [] else Collect(es[..|es| - 1], f) + Listed(f(es[|es| - 1]))
  }

  function First<T>(s: seq<T>): Option<T> {
    if s == [] then None else Some(s[0])
  }

  function Last<T>(s: seq<T>): Option<T> {
    if s == [] then None else Some(s[|s| - 1])
  }

  function LastFew<T>(s: seq<T>, n: nat): seq<T> {
    if |s| <= n then s else s[|s| - n..]
  }

  /** How many pieces are indexed: up to the first that brings the text to its bound, or all. */
  function Enough(pieces: seq<string>): (k: nat)
    ensures k <= |pieces|
  {
    if pieces == [] then 0
    else
      var front := pieces[..|pieces| - 1];
      var k := Enough(front);
      if k < |front| || |Units(Joined(front))| >= TEXT_CONTENT_UNITS then k else k + 1
  }

  function Indexed(pieces: seq<string>): string {
    Joined(pieces[..Enough(pieces)])
  }

  /** The digest of a transcript as it is documented: nothing without a real prompt, else the first
      prompt and slug, the last of everything else, the messages counted, the text up to its bound and the
      last three lines. */
  function Reading(es: seq<Entry>): Option<SessionDigest> {
    match First(Collect(es, PromptIn))
    case None => None
    case Some(prompt) =>
      var messages := |Collect(es, MessageIn)|;
      Some(SessionDigest(
        SummaryOf(prompt),
        Saturated(messages) as u32,
        Indexed(Collect(es, PieceIn)),
        First(Collect(es, SlugIn)),
        Last(Collect(es, CustomTitleIn)),
        Last(Collect(es, AiTitleIn)),
        LastFew(Collect(es, LineIn), TAIL_MESSAGES),
        Last(Collect(es, VersionIn)),
        Last(Collect(es, ModelIn)),
        Last(Collect(es, EffortIn)),
        Flat(Last(Collect(es, ColorIn)))))
  }

  function Flat<T>(o: Option<Option<T>>): Option<T> {
    match o case Some(v) => v case None => None
  }

  // ----- One pass -----

  /** `keep_latest`: the slot after an entry was seen. */
  method KeepLatest(slot: Option<string>, seen: Option<string>) returns (kept: Option<string>)
    ensures kept == if NonEmpty(seen).Some? then Label(seen) else slot
  {
    kept := slot;
    if NonEmpty(seen).Some? {
      var cut := Utf16Prefix(seen.value, LABEL_UNITS);
      if slot != Some(cut) {
        kept := Some(cut);
      }
    }
  }

  class RunFacts {
    var version: Option<string>
    var model: Option<string>
    var effort: Option<string>

    constructor ()
      ensures version.None? && model.None? && effort.None?
    {
      version, model, effort := None, None, None;
    }

    method Observe(e: Entry, carriesVersion: bool, isAssistant: bool)
      requires carriesVersion <==> CarriesVersion(e)
      requires isAssistant <==> IsAssistant(e)
      modifies this
      ensures version == if VersionIn(e).Some? then VersionIn(e) else old(version)
      ensures model == if ModelIn(e).Some? then ModelIn(e) else old(model)
      ensures effort == if EffortIn(e).Some? then EffortIn(e) else old(effort)
    {
      if carriesVersion {
        version := KeepLatest(version, e.version);
      }
      if !isAssistant || e.isSidechain == Some(true) {
        return;
      }
      var named := ModelNamed(e);
      if named == Some("<synthetic>") {
        return;
      }
      model := KeepLatest(model, named);
      var seen := if NonEmpty(e.effort).Some? then e.effort else e.perTurnEffort;
      effort := KeepLatest(effort, seen);
    }
  }

  // The state of the pass, by the entries read so far.

  ghost predicate LabelsAre(said: seq<Entry>, slug: Option<string>, customTitle: Option<string>, aiTitle: Option<string>, color: Option<Color>) {
    && slug == First(Collect(said, SlugIn))
    && customTitle == Last(Collect(said, CustomTitleIn))
    && aiTitle == Last(Collect(said, AiTitleIn))
    && color == Flat(Last(Collect(said, ColorIn)))
  }

  ghost predicate RunIs(said: seq<Entry>, version: Option<string>, model: Option<string>, effort: Option<string>) {
    && version == Last(Collect(said, VersionIn))
    && model == Last(Collect(said, ModelIn))
    && effort == Last(Collect(said, EffortIn))
  }

  ghost predicate CountIs(said: seq<Entry>, count: u32) {
    count as int == Saturated(|Collect(said, MessageIn)|)
  }

  ghost predicate SummaryIs(said: seq<Entry>, summary: string) {
    match First(Collect(said, PromptIn))
    case None => summary == ""
    case Some(prompt) => summary == SummaryOf(prompt) && summary != ""
  }

  ghost predicate ContentIs(said: seq<Entry>, content: string, units: nat) {
    content == Indexed(Collect(said, PieceIn)) && units == |Units(content)|
  }

  ghost predicate TailIs(said: seq<Entry>, tail: seq<string>) {
    tail == LastFew(Collect(said, LineIn), TAIL_MESSAGES)
  }

  lemma NothingRead()
    ensures LabelsAre([], None, None, None, None) && RunIs([], None, None, None) && CountIs([], 0)
    ensures SummaryIs([], "") && ContentIs([], "", 0) && TailIs([], [])
  {
  }

  /** What the entries say under `f`, one entry further. */
  lemma SayingNext<T>(said: seq<Entry>, e: Entry, f: Entry -> Option<T>)
    ensures var (before, now) := (Collect(said, f), Collect(said + [e], f));
      && now == before + Listed(f(e))
      && First(now) == (if First(before).Some? then First(before) else f(e))
      && Last(now) == (if f(e).Some? then f(e) else Last(before))
      && |now| == |before| + if f(e).Some? then 1 else 0
  {
    assert (said + [e])[..|said|] == said;
  }

  method ReadLabels(ghost said: seq<Entry>, e: Entry, slug: Option<string>, customTitle: Option<string>, aiTitle: Option<string>, color: Option<Color>)
    returns (slug': Option<string>, customTitle': Option<string>, aiTitle': Option<string>, color': Option<Color>)
    requires LabelsAre(said, slug, customTitle, aiTitle, color)
    ensures LabelsAre(said + [e], slug', customTitle', aiTitle', color')
  {
    hide Cut, Collect, First, Last, Listed, FromName;
    SayingNext(said, e, SlugIn);
    SayingNext(said, e, CustomTitleIn);
    SayingNext(said, e, AiTitleIn);
    SayingNext(said, e, ColorIn);
    slug', customTitle', aiTitle', color' := slug, customTitle, aiTitle, color;
    if slug.None? && NonEmpty(e.slug).Some? {
      slug' := LabelOf(e.slug);
    }
    if e.kind == Some("custom-title") && NonEmpty(e.customTitle).Some? {
      customTitle' := LabelOf(e.customTitle);
    }
    if e.kind == Some("ai-title") && NonEmpty(e.aiTitle).Some? {
      aiTitle' := LabelOf(e.aiTitle);
    }
    if e.kind == Some("agent-color") {
      color' := ColorOf(e);
    }
  }

  method LabelOf(s: Option<string>) returns (r: Option<string>)
    requires NonEmpty(s).Some?
    ensures r == Label(s)
  {
    var cut := Utf16Prefix(s.value, LABEL_UNITS);
    r := Some(cut);
  }

  lemma RunNext(said: seq<Entry>, e: Entry, run: (Option<string>, Option<string>, Option<string>))
    requires RunIs(said, run.0, run.1, run.2)
    ensures RunIs(said + [e],
      if VersionIn(e).Some? then VersionIn(e) else run.0,
      if ModelIn(e).Some? then ModelIn(e) else run.1,
      if EffortIn(e).Some? then EffortIn(e) else run.2)
  {
    hide Collect, First, Last, Listed, VersionIn, ModelIn, EffortIn;
    SayingNext(said, e, VersionIn);
    SayingNext(said, e, ModelIn);
    SayingNext(said, e, EffortIn);
  }

  method CountMessage(ghost said: seq<Entry>, e: Entry, count: u32) returns (count': u32)
    requires CountIs(said, count)
    ensures CountIs(said + [e], count')
  {
    hide Collect, First, Last, Listed;
    SayingNext(said, e, MessageIn);
    count' := count;
    if (IsUser(e) || IsAssistant(e)) && count as int < MAX_COUNT {
      count' := count + 1;
    }
  }

  method Summarized(text: string) returns (summary: string)
    requires text != ""
    ensures summary == SummaryOf(text) && summary != ""
  {
    hide Cut, ScheduledName;
    var name := ScheduledTaskName(text);
    if name.Some? {
      CutOfNonEmpty("Scheduled: " + name.value, SUMMARY_UNITS);
      summary := Utf16Prefix("Scheduled: " + name.value, SUMMARY_UNITS);
    } else {
      CutOfNonEmpty(text, SUMMARY_UNITS);
      summary := Utf16Prefix(text, SUMMARY_UNITS);
    }
  }

  method ReadSummary(ghost said: seq<Entry>, e: Entry, summary: string) returns (summary': string)
    requires SummaryIs(said, summary)
    ensures SummaryIs(said + [e], summary')
  {
    hide MessageText, IsLocalCommand, SummaryOf, IsUser, Collect, First, Last, Listed;
    SayingNext(said, e, PromptIn);
    summary' := summary;
    var text := MessageText(e);
    if summary == "" && IsUser(e) && text != "" && !IsLocalCommand(text) {
      summary' := Summarized(text);
    }
  }

  lemma IndexedNext(pieces: seq<string>, p: string)
    ensures Indexed(pieces + [p])
         == if |Units(Indexed(pieces))| < TEXT_CONTENT_UNITS then Indexed(pieces) + p else Indexed(pieces)
  {
    hide Units;
    EnoughIsTheFirst(pieces);
    var all, k := pieces + [p], Enough(pieces);
    assert all[..|pieces|] == pieces && all[..k] == pieces[..k] && all[..|all|] == all;
    assert pieces[..|pieces|] == pieces;
  }

  /** The text, its units counted as they are added. */
  method AddText(ghost said: seq<Entry>, e: Entry, content: string, units: nat) returns (content': string, units': nat)
    requires ContentIs(said, content, units)
    ensures ContentIs(said + [e], content', units')
  {
    hide Indexed, Units, Cut, CharUnits, MessageText, Collect, First, Last;
    SayingNext(said, e, PieceIn);
    var text := MessageText(e);
    ghost var pieces := Collect(said, PieceIn);
    content', units' := content, units;
    if text == "" {
      assert pieces + [] == pieces;
    } else {
      var slice := Utf16Prefix(text, TEXT_SLICE_UNITS);
      IndexedNext(pieces, slice + "\n");
      if units < TEXT_CONTENT_UNITS {
        content' := content' + slice;
        content' := content' + "\n";
        assert content' == content + (slice + "\n");
        UnitsConcat(content, slice + "\n");
        UnitsConcat(slice, "\n");
        NewlineIsOneUnit();
        units' := units + |Units(slice)| + 1;
      }
    }
  }

  lemma NewlineIsOneUnit()
    ensures |Units("\n")| == 1
  {
    assert Units("\n"[1..]) == [];
  }

  lemma LastFewNext<T>(s: seq<T>, x: T, n: nat)
    requires n > 0
    ensures LastFew(s + [x], n) == if |LastFew(s, n)| < n then LastFew(s, n) + [x] else LastFew(s, n)[1..] + [x]
  {
  }

  method AddLine(ghost said: seq<Entry>, e: Entry, tail: seq<string>) returns (tail': seq<string>)
    requires TailIs(said, tail)
    ensures TailIs(said + [e], tail')
  {
    hide Cut, Lines, FirstNonBlank, LastFew, MessageText, IsUser, IsAssistant, Collect, First, Last;
    SayingNext(said, e, LineIn);
    ghost var lines := Collect(said, LineIn);
    tail' := tail;
    var line := FirstNonBlank(Lines(MessageText(e)));
    if (IsUser(e) || IsAssistant(e)) && line.Some? {
      var cut := Utf16Prefix(line.value, TAIL_UNITS);
      LastFewNext(lines, cut, TAIL_MESSAGES);
      tail' := tail' + [cut];
      if |tail'| > TAIL_MESSAGES {
        tail' := tail'[1..];
      }
    } else {
      assert lines + [] == lines;
    }
  }

  lemma {:induction false} PromptsAreMessages(es: seq<Entry>)
    ensures |Collect(es, PromptIn)| <= |Collect(es, MessageIn)|
  {
    hide MessageText, IsLocalCommand;
    if es != [] {
      PromptsAreMessages(es[..|es| - 1]);
    }
  }

  function Saturated(n: nat): nat {
    if n <= MAX_COUNT then n else MAX_COUNT
  }

  /** `digest_session`: one pass keeps exactly what the reading of the whole transcript says. */
  method DigestSession(es: seq<Entry>) returns (digest: Option<SessionDigest>)
    ensures digest == Reading(es)
  {
    hide LabelsAre, RunIs, CountIs, SummaryIs, ContentIs, TailIs, Reading, IsUser, VersionIn, ModelIn, EffortIn;
    var summary, count: u32, content, units := "", 0, "", 0;
    var slug, customTitle, aiTitle: Option<string>, color := None, None, None, None;
    var tail: seq<string> := [];
    var run := new RunFacts();
    assert es[..0] == [];
    NothingRead();
    for i := 0 to |es|
      invariant LabelsAre(es[..i], slug, customTitle, aiTitle, color)
      invariant CountIs(es[..i], count) && SummaryIs(es[..i], summary)
      invariant ContentIs(es[..i], content, units) && TailIs(es[..i], tail)
      invariant fresh(run) && RunIs(es[..i], run.version, run.model, run.effort)
    {
      var e := es[i];
      ghost var said := es[..i];
      assert es[..i + 1] == said + [e];
      slug, customTitle, aiTitle, color := ReadLabels(said, e, slug, customTitle, aiTitle, color);
      count := CountMessage(said, e, count);
      RunNext(said, e, (run.version, run.model, run.effort));
      run.Observe(e, IsUser(e) || IsAssistant(e) || e.kind == Some("system"), IsAssistant(e));
      summary := ReadSummary(said, e, summary);
      content, units := AddText(said, e, content, units);
      tail := AddLine(said, e, tail);
    }
    assert es[..|es|] == es;
    ReadingOf(es, summary, count, content, units, slug, customTitle, aiTitle, color, tail, run.version, run.model, run.effort);
    if summary == "" || count < 1 {
      return None;
    }
    digest := Some(SessionDigest(summary, count, content, slug, customTitle, aiTitle, tail,
                                 run.version, run.model, run.effort, color));
  }

  lemma ReadingOf(es: seq<Entry>, summary: string, count: u32, content: string, units: nat,
                  slug: Option<string>, customTitle: Option<string>, aiTitle: Option<string>, color: Option<Color>,
                  tail: seq<string>, version: Option<string>, model: Option<string>, effort: Option<string>)
    requires LabelsAre(es, slug, customTitle, aiTitle, color) && RunIs(es, version, model, effort)
    requires CountIs(es, count) && SummaryIs(es, summary) && ContentIs(es, content, units) && TailIs(es, tail)
    ensures Reading(es) == if summary == "" || count < 1 then None
      else Some(SessionDigest(summary, count, content, slug, customTitle, aiTitle, tail, version, model, effort, color))
  {
    PromptsAreMessages(es);
    hide Collect, SummaryOf, Indexed, LastFew, Last, Flat, PromptIn, Units;
  }

  // ----- What the reading means -----

  /** The indexed text ends with the first piece that brings it to its bound, and never passes that bound by
      more than one piece. */
  lemma {:induction false} EnoughIsTheFirst(pieces: seq<string>)
    ensures forall j | 0 <= j < Enough(pieces) :: |Units(Joined(pieces[..j]))| < TEXT_CONTENT_UNITS
    ensures Enough(pieces) < |pieces| ==> |Units(Joined(pieces[..Enough(pieces)]))| >= TEXT_CONTENT_UNITS
  {
    hide Units, Joined;
    if pieces != [] {
      var front := pieces[..|pieces| - 1];
      EnoughIsTheFirst(front);
      assert forall j | 0 <= j <= |front| :: front[..j] == pieces[..j];
      assert front[..|front|] == front;
    }
  }

  lemma {:induction false} CollectedIsSaid<T>(es: seq<Entry>, f: Entry -> Option<T>, x: T)
    ensures x in Collect(es, f) <==> exists e <- es :: f(e) == Some(x)
  {
    if es != [] {
      var front, e := es[..|es| - 1], es[|es| - 1];
      assert es == front + [e];
      CollectedIsSaid(front, f, x);
    }
  }

  lemma {:induction false} CollectConcat<T>(a: seq<Entry>, b: seq<Entry>, f: Entry -> Option<T>)
    ensures Collect(a + b, f) == Collect(a, f) + Collect(b, f)
  {
    if b == [] {
      assert a + b == a;
    } else {
      assert (a + b)[..|a + b| - 1] == a + b[..|b| - 1];
      CollectConcat(a, b[..|b| - 1], f);
    }
  }

  ghost predicate SaidFirst<T>(es: seq<Entry>, f: Entry -> Option<T>, v: T, i: nat) {
    i < |es| && f(es[i]) == Some(v) && forall j | 0 <= j < i :: f(es[j]).None?
  }

  ghost predicate SaidLast<T>(es: seq<Entry>, f: Entry -> Option<T>, v: T, i: nat) {
    i < |es| && f(es[i]) == Some(v) && forall j | i < j < |es| :: f(es[j]).None?
  }

  ghost predicate NoneSays<T>(es: seq<Entry>, f: Entry -> Option<T>) {
    forall j | 0 <= j < |es| :: f(es[j]).None?
  }

  lemma NoneSaysNext<T>(es: seq<Entry>, e: Entry, f: Entry -> Option<T>)
    ensures NoneSays(es + [e], f) <==> NoneSays(es, f) && f(e).None?
  {
    var all := es + [e];
    assert all[|es|] == e;
    assert forall j | 0 <= j < |es| :: all[j] == es[j];
  }

  lemma SaidFirstNext<T>(es: seq<Entry>, e: Entry, f: Entry -> Option<T>, v: T, i: nat)
    ensures SaidFirst(es + [e], f, v, i) <==>
      SaidFirst(es, f, v, i) || (i == |es| && f(e) == Some(v) && NoneSays(es, f))
  {
    assert forall j | 0 <= j < |es| :: (es + [e])[j] == es[j];
  }

  lemma SaidLastNext<T>(es: seq<Entry>, e: Entry, f: Entry -> Option<T>, v: T, i: nat)
    ensures SaidLast(es + [e], f, v, i) <==>
      if f(e).Some? then i == |es| && f(e) == Some(v) else SaidLast(es, f, v, i)
  {
    var all := es + [e];
    assert forall j | 0 <= j < |es| :: all[j] == es[j];
    assert all[|es|] == e;
  }

  /** The first of what is said is said by an entry before which none says anything. */
  lemma {:induction false} FirstSaid<T>(es: seq<Entry>, f: Entry -> Option<T>, v: T)
    ensures First(Collect(es, f)) == Some(v) <==> exists i: nat :: SaidFirst(es, f, v, i)
    ensures First(Collect(es, f)).None? <==> NoneSays(es, f)
  {
    if es != [] {
      hide SaidFirst, NoneSays, Collect, Last;
      var front, e := es[..|es| - 1], es[|es| - 1];
      assert es == front + [e];
      FirstSaid(front, f, v);
      SayingNext(front, e, f);
      NoneSaysNext(front, e, f);
      forall i: nat
        ensures SaidFirst(es, f, v, i) <==> SaidFirst(front, f, v, i) || (i == |front| && f(e) == Some(v) && NoneSays(front, f))
      {
        SaidFirstNext(front, e, f, v, i);
      }
      if First(Collect(front, f)) == Some(v) {
        var i: nat :| SaidFirst(front, f, v, i);
        assert SaidFirst(es, f, v, i);
      } else if f(e) == Some(v) && NoneSays(front, f) {
        assert SaidFirst(es, f, v, |front|);
      }
    }
  }

  /** The last of what is said is said by an entry after which none says anything. */
  lemma {:induction false} LastSaid<T>(es: seq<Entry>, f: Entry -> Option<T>, v: T)
    ensures Last(Collect(es, f)) == Some(v) <==> exists i: nat :: SaidLast(es, f, v, i)
  {
    if es != [] {
      hide SaidLast, Collect, First;
      var front, e := es[..|es| - 1], es[|es| - 1];
      assert es == front + [e];
      LastSaid(front, f, v);
      SayingNext(front, e, f);
      forall i: nat
        ensures SaidLast(es, f, v, i) <==> if f(e).Some? then i == |front| && f(e) == Some(v) else SaidLast(front, f, v, i)
      {
        SaidLastNext(front, e, f, v, i);
      }
      if f(e) == Some(v) {
        assert SaidLast(es, f, v, |front|);
      } else if f(e).None? && Last(Collect(front, f)) == Some(v) {
        var i: nat :| SaidLast(front, f, v, i);
        assert SaidLast(es, f, v, i);
      }
    }
  }

  /** A session is not listed exactly when no entry of it is a real user prompt. */
  lemma UnlistedIffNoPrompt(es: seq<Entry>)
    ensures Reading(es).None? <==> forall e <- es :: PromptIn(e).None?
  {
    hide PromptIn, Collect;
    FirstSaid(es, PromptIn, "");
    assert forall e <- es :: exists j :: 0 <= j < |es| && e == es[j];
  }

  lemma PieceIsShort(e: Entry)
    requires PieceIn(e).Some?
    ensures |Units(PieceIn(e).value)| <= TEXT_SLICE_UNITS + 1
  {
    hide Units, Cut, CharUnits, MessageText;
    var slice := Cut(MessageText(e), TEXT_SLICE_UNITS);
    UnitsConcat(slice, "\n");
    NewlineIsOneUnit();
  }

  /** The indexed text passes its bound by less than one piece. */
  lemma IndexedIsBounded(es: seq<Entry>)
    ensures |Units(Indexed(Collect(es, PieceIn)))| <= TEXT_CONTENT_UNITS - 1 + TEXT_SLICE_UNITS + 1
  {
    hide Units, PieceIn, Collect;
    var pieces := Collect(es, PieceIn);
    var k := Enough(pieces);
    EnoughIsTheFirst(pieces);
    if k == 0 {
      NothingRead();
      assert pieces[..0] == [] && |Units("")| == 0;
    } else {
      var piece := pieces[k - 1];
      assert piece in pieces;
      CollectedIsSaid(es, PieceIn, piece);
      var e :| e in es && PieceIn(e) == Some(piece);
      PieceIsShort(e);
      assert pieces[..k][..k - 1] == pieces[..k - 1];
      UnitsConcat(Joined(pieces[..k - 1]), piece);
    }
  }

  lemma {:induction false} LinesAreLines(s: string, line: string)
    requires line in Lines(s)
    ensures '\n' !in line
    decreases |s|
  {
    hide FindFrom;
    if s != [] {
      var found := FindFrom(s, ['\n'], 0);
      if found.None? {
        forall i | 0 <= i < |s| ensures s[i] != '\n' {
          assert !OccursAt(s, ['\n'], i);
          assert s[i..i + 1] == [s[i]];
        }
      } else {
        var k := found.value;
        forall i | 0 <= i < k ensures s[i] != '\n' {
          assert !OccursAt(s, ['\n'], i);
          assert s[i..i + 1] == [s[i]];
        }
        if line != WithoutReturn(s[..k]) {
          LinesAreLines(s[k + 1..], line);
        }
      }
    }
  }

  lemma {:induction false} FirstNonBlankIsTrimmed(lines: seq<string>)
    requires FirstNonBlank(lines).Some?
    ensures exists line <- lines :: FirstNonBlank(lines).value == Trim(line) != ""
  {
    hide Trim;
    if Trim(lines[0]) == "" {
      FirstNonBlankIsTrimmed(lines[1..]);
    }
  }

  /** A snippet of the tail is one line, starts with text, and fits its bound. */
  predicate IsSnippet(line: string) {
    line != "" && '\n' !in line && !IsWhitespace(line[0]) && |Units(line)| <= TAIL_UNITS
  }

  lemma TrimmedShape(line: string)
    requires Trim(line) != "" && '\n' !in line
    ensures !IsWhitespace(Trim(line)[0]) && '\n' !in Trim(line)
  {
    hide IsWhitespace, LeadingBlanks, TrimmedLength;
    assert Trim(line)[0] == line[LeadingBlanks(line)];
  }

  lemma CutOfTrimmed(t: string)
    requires t != "" && !IsWhitespace(t[0]) && '\n' !in t
    ensures IsSnippet(Cut(t, TAIL_UNITS))
  {
    hide Units, Cut, CharUnits, IsWhitespace;
    CutOfNonEmpty(t, TAIL_UNITS);
    assert Cut(t, TAIL_UNITS)[0] == t[0];
  }

  lemma LineIsSnippet(e: Entry)
    requires LineIn(e).Some?
    ensures IsSnippet(LineIn(e).value)
  {
    hide Cut, Lines, FirstNonBlank, Trim, IsSnippet, IsWhitespace, MessageText;
    var lines := Lines(MessageText(e));
    FirstNonBlankIsTrimmed(lines);
    var line :| line in lines && FirstNonBlank(lines).value == Trim(line) != "";
    LinesAreLines(MessageText(e), line);
    TrimmedShape(line);
    CutOfTrimmed(Trim(line));
  }

  ghost predicate ShortLabel(o: Option<string>) {
    o.Some? ==> o.value != "" && |Units(o.value)| <= LABEL_UNITS
  }

  lemma LabelIsShort(s: Option<string>)
    ensures ShortLabel(Label(s))
  {
    hide Units, Cut;
    if NonEmpty(s).Some? {
      CutOfNonEmpty(s.value, LABEL_UNITS);
    }
  }

  lemma CollectedLabelsAreShort(es: seq<Entry>, f: Entry -> Option<string>)
    requires forall e <- es :: ShortLabel(f(e))
    ensures ShortLabel(First(Collect(es, f))) && ShortLabel(Last(Collect(es, f)))
  {
    hide Collect, ShortLabel;
    var found := Collect(es, f);
    forall x | x in found ensures ShortLabel(Some(x)) {
      CollectedIsSaid(es, f, x);
    }
    NoLabelIsShort();
  }

  lemma NoLabelIsShort()
    ensures ShortLabel(None)
  {
  }

  /** Whatever the transcript holds, the digest is bounded. */
  lemma DigestIsBounded(es: seq<Entry>)
    requires Reading(es).Some?
    ensures var d := Reading(es).value;
      && 1 <= d.messageCount as int
      && d.summary != "" && |Units(d.summary)| <= SUMMARY_UNITS
      && |Units(d.textContent)| <= 8500
      && |d.tail| <= 3 && (forall line <- d.tail :: IsSnippet(line))
      && ShortLabel(d.slug) && ShortLabel(d.customTitle) && ShortLabel(d.aiTitle)
      && ShortLabel(d.version) && ShortLabel(d.model) && ShortLabel(d.effort)
  {
    hide Units, Collect, Cut, Indexed, MessageText, IsLocalCommand, ScheduledName, IsSnippet, Label, ShortLabel, CharUnits;
    NoLabelIsShort();
    forall s: Option<string> ensures ShortLabel(Label(s)) {
      LabelIsShort(s);
    }
    CollectedLabelsAreShort(es, SlugIn);
    CollectedLabelsAreShort(es, CustomTitleIn);
    CollectedLabelsAreShort(es, AiTitleIn);
    CollectedLabelsAreShort(es, VersionIn);
    CollectedLabelsAreShort(es, ModelIn);
    CollectedLabelsAreShort(es, EffortIn);
    IndexedIsBounded(es);
    PromptsAreMessages(es);
    SummaryIsBounded(es);
    forall line | line in LastFew(Collect(es, LineIn), TAIL_MESSAGES) ensures IsSnippet(line) {
      CollectedIsSaid(es, LineIn, line);
      var e :| e in es && LineIn(e) == Some(line);
      LineIsSnippet(e);
    }
  }

  lemma SummaryIsBounded(es: seq<Entry>)
    requires Reading(es).Some?
    ensures Reading(es).value.summary != "" && |Units(Reading(es).value.summary)| <= SUMMARY_UNITS
  {
    hide Units, Collect, Cut, MessageText, IsLocalCommand, ScheduledName, CharUnits;
    var prompt := Collect(es, PromptIn)[0];
    CollectedIsSaid(es, PromptIn, prompt);
    assert prompt in Collect(es, PromptIn);
    match ScheduledName(prompt)
    case Some(name) => CutOfNonEmpty("Scheduled: " + name, SUMMARY_UNITS);
    case None => CutOfNonEmpty(prompt, SUMMARY_UNITS);
  }

  lemma {:induction false} IndexedGrows(pieces: seq<string>, more: seq<string>)
    ensures Indexed(pieces) <= Indexed(pieces + more)
  {
    hide Indexed, Units;
    if more == [] {
      assert pieces + more == pieces;
    } else {
      var front, p := more[..|more| - 1], more[|more| - 1];
      IndexedGrows(pieces, front);
      assert (pieces + front) + [p] == pieces + more;
      IndexedNext(pieces + front, p);
    }
  }

  /** A growing transcript: once listed a session stays listed under the same summary and slug, its count
      and indexed text only grow, and what the new entries do not set stays as it was. */
  lemma GrowingKeepsTheDigest(es: seq<Entry>, more: seq<Entry>)
    requires Reading(es).Some?
    ensures Reading(es + more).Some?
    ensures var (d, d') := (Reading(es).value, Reading(es + more).value);
      && d'.summary == d.summary && (d.slug.Some? ==> d'.slug == d.slug)
      && d'.messageCount >= d.messageCount && d.textContent <= d'.textContent
      && d'.customTitle == (if Last(Collect(more, CustomTitleIn)).Some? then Last(Collect(more, CustomTitleIn)) else d.customTitle)
      && d'.aiTitle == (if Last(Collect(more, AiTitleIn)).Some? then Last(Collect(more, AiTitleIn)) else d.aiTitle)
      && d'.model == (if Last(Collect(more, ModelIn)).Some? then Last(Collect(more, ModelIn)) else d.model)
      && d'.version == (if Last(Collect(more, VersionIn)).Some? then Last(Collect(more, VersionIn)) else d.version)
      && d'.effort == (if Last(Collect(more, EffortIn)).Some? then Last(Collect(more, EffortIn)) else d.effort)
      && d'.agentColor == (if Last(Collect(more, ColorIn)).Some? then Last(Collect(more, ColorIn)).value else d.agentColor)
      && (d.slug.None? ==> d'.slug == First(Collect(more, SlugIn)))
      && d'.tail == LastFew(d.tail + Collect(more, LineIn), TAIL_MESSAGES)
  {
    hide Collect, Indexed, SummaryOf, PromptIn, SlugIn, CustomTitleIn, AiTitleIn, VersionIn, ModelIn, EffortIn, ColorIn, LineIn, PieceIn, MessageIn;
    CollectConcat(es, more, PromptIn);
    CollectConcat(es, more, MessageIn);
    CollectConcat(es, more, PieceIn);
    IndexedGrows(Collect(es, PieceIn), Collect(more, PieceIn));
    CollectConcat(es, more, SlugIn);
    CollectConcat(es, more, CustomTitleIn);
    CollectConcat(es, more, AiTitleIn);
    CollectConcat(es, more, ModelIn);
    CollectConcat(es, more, VersionIn);
    CollectConcat(es, more, EffortIn);
    CollectConcat(es, more, ColorIn);
    CollectConcat(es, more, LineIn);
    LastFewOfAppended(Collect(es, LineIn), Collect(more, LineIn), TAIL_MESSAGES);
  }

  lemma LastFewOfAppended<T>(s: seq<T>, t: seq<T>, n: nat)
    ensures LastFew(s + t, n) == LastFew(LastFew(s, n) + t, n)
  {
  }
}
