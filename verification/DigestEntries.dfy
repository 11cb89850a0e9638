/** What one transcript entry says to the digest, read off its fields alone. */
module DigestEntries {
  import opened Wrappers
  import opened Chars
  import opened Text
  import opened Utf16
  import opened DigestText
  import opened ClaudeColor
  import opened Digest

  // ----- Text -----

  /** The three shapes a message carries text in. */
  ghost predicate Carries(m: Message, text: string) {
    || m == Plain(text)
    || (m.Object? && m.content == Whole(text))
    || (m.Object? && m.content == Blocks(Some(text)))
  }

  ghost predicate IsWordless(e: Entry) {
    e.message.None? || (e.message.value.Object? && (e.message.value.content == OtherContent || e.message.value.content == Blocks(None)))
  }

  ghost predicate Says(e: Entry, text: string) {
    if IsWordless(e) then text == "" else Carries(e.message.value, text)
  }

  lemma SaysIs(e: Entry, text: string)
    ensures MessageText(e) == text <==> Says(e, text)
  {
  }

  ghost predicate Holds(text: string, part: string) {
    exists a, b :: text == a + part + b
  }

  lemma HoldsIs(text: string, part: string)
    ensures Contains(text, part) <==> Holds(text, part)
  {
    if Contains(text, part) {
      var i :| 0 <= i <= |text| && OccursAt(text, part, i);
      assert text == text[..i] + part + text[i + |part|..];
    }
    if a, b :| text == a + part + b {
      assert text[|a|..|a| + |part|] == part;
      assert OccursAt(text, part, |a|);
    }
  }

  /** The longest beginning of `s` that fits `n` units. */
  ghost predicate Shortened(s: string, l: string, n: nat) {
    l <= s && |Units(l)| <= n && forall t | t <= s && |Units(t)| <= n :: t <= l
  }

  lemma ShortenedIs(s: string, l: string, n: nat)
    ensures DigestText.Cut(s, n) == l <==> Shortened(s, l, n)
  {
    hide Units;
    var r := DigestText.Cut(s, n);
    hide DigestText.Cut;
    forall t | t <= s && |Units(t)| <= n ensures t <= r {
      CutIsTheLongest(s, n, t);
    }
    if Shortened(s, l, n) {
      assert l <= r && r <= l;
    }
  }

  // ----- Labels -----

  ghost predicate IsLabel(field: Option<string>, l: string) {
    field.Some? && field.value != "" && Shortened(field.value, l, 120)
  }

  lemma LabelIs(field: Option<string>, l: string)
    ensures Label(field) == Some(l) <==> IsLabel(field, l)
  {
    if field.Some? {
      ShortenedIs(field.value, l, 120);
    }
  }

  /** The labels an entry gives: any slug, and the titles of the two kinds of entry made for them. */
  lemma LabelsSaid(e: Entry, l: string)
    ensures SlugIn(e) == Some(l) <==> IsLabel(e.slug, l)
    ensures CustomTitleIn(e) == Some(l) <==> e.kind == Some("custom-title") && IsLabel(e.customTitle, l)
    ensures AiTitleIn(e) == Some(l) <==> e.kind == Some("ai-title") && IsLabel(e.aiTitle, l)
  {
    hide Label, IsLabel;
    LabelIs(e.slug, l);
    LabelIs(e.customTitle, l);
    LabelIs(e.aiTitle, l);
  }

  ghost predicate FromUser(e: Entry) {
    e.kind == Some("user") || (e.kind == Some("message") && e.role == Some("user"))
  }

  ghost predicate FromAssistant(e: Entry) {
    e.kind == Some("assistant") || (e.kind == Some("message") && e.role == Some("assistant"))
  }

  ghost predicate NamesModel(e: Entry, name: string) {
    e.message.Some? && e.message.value.Object? && e.message.value.model == Some(name)
  }

  /** A reply of the model itself: not of a side chain, and not made up by the program. */
  ghost predicate FromModel(e: Entry) {
    FromAssistant(e) && e.isSidechain != Some(true) && !NamesModel(e, "<synthetic>")
  }

  /** What an entry says of the program and the model behind it. */
  lemma RunSaid(e: Entry, l: string)
    ensures VersionIn(e) == Some(l) <==> (FromUser(e) || FromAssistant(e) || e.kind == Some("system")) && IsLabel(e.version, l)
    ensures ModelIn(e) == Some(l) <==> FromModel(e) && exists name :: NamesModel(e, name) && name != "" && Shortened(name, l, 120)
    ensures EffortIn(e) == Some(l) <==>
      FromModel(e) && if e.effort.Some? && e.effort.value != "" then Shortened(e.effort.value, l, 120) else IsLabel(e.perTurnEffort, l)
  {
    hide Shortened, DigestText.Cut;
    LabelIs(e.version, l);
    LabelIs(e.effort, l);
    LabelIs(e.perTurnEffort, l);
    LabelIs(ModelNamed(e), l);
    if e.message.Some? && e.message.value.Object? && e.message.value.model.Some? {
      assert NamesModel(e, e.message.value.model.value);
    }
  }

  /** The colour an entry sets: one of the palette but the default, and otherwise none. */
  lemma ColorSaid(e: Entry, c: Color)
    ensures ColorIn(e).Some? <==> e.kind == Some("agent-color")
    ensures ColorIn(e) == Some(Some(c)) <==>
      e.kind == Some("agent-color") && c != Default && e.agentColor.Some? && SameIgnoringCase(Name(c), Trim(e.agentColor.value))
  {
    hide FromName, SameIgnoringCase, Trim, Name;
    if e.agentColor.Some? {
      NamesReadBack(e.agentColor.value, c);
    }
  }

  // ----- Prompts and indexed text -----

  /** A real user prompt: what a user says, unless nothing or the output of a local command. */
  ghost predicate IsPrompt(e: Entry, text: string) {
    && FromUser(e) && Says(e, text) && text != ""
    && !Holds(text, "<bash-input>") && !Holds(text, "<bash-stdout>") && !Holds(text, "<local-command-caveat>")
  }

  lemma TextsSaid(e: Entry, text: string)
    ensures PromptIn(e) == Some(text) <==> IsPrompt(e, text)
    ensures MessageIn(e) == (if FromUser(e) || FromAssistant(e) then Some(e) else None)
    ensures PieceIn(e) == Some(text) <==>
      exists said, cut :: Says(e, said) && said != "" && Shortened(said, cut, 500) && text == cut + "\n"
  {
    hide MessageText, Says, Shortened, Holds, DigestText.Cut;
    var said := MessageText(e);
    SaysIs(e, said);
    SaysIs(e, text);
    HoldsIs(text, "<bash-input>");
    HoldsIs(text, "<bash-stdout>");
    HoldsIs(text, "<local-command-caveat>");
    hide Contains;
    ShortenedIs(said, DigestText.Cut(said, 500), 500);
    if said', cut :| Says(e, said') && said' != "" && Shortened(said', cut, 500) && text == cut + "\n" {
      SaysIs(e, said');
      ShortenedIs(said', cut, 500);
    }
  }

  /** A session is listed exactly when some entry of it is a real user prompt. */
  lemma ListedIff(es: seq<Entry>)
    ensures Reading(es).Some? <==> exists i, text :: 0 <= i < |es| && IsPrompt(es[i], text)
  {
    hide PromptIn, Reading, IsPrompt;
    UnlistedIffNoPrompt(es);
    forall i, text | 0 <= i < |es| ensures PromptIn(es[i]) == Some(text) <==> IsPrompt(es[i], text) {
      TextsSaid(es[i], text);
    }
    if Reading(es).Some? {
      var e :| e in es && PromptIn(e).Some?;
      var i :| 0 <= i < |es| && es[i] == e;
      assert IsPrompt(es[i], PromptIn(e).value);
    }
    if i, text :| 0 <= i < |es| && IsPrompt(es[i], text) {
      assert PromptIn(es[i]) == Some(text) && es[i] in es;
    }
  }

  lemma {:induction false} NoTagNoName(text: string)
    requires !Holds(text, "<scheduled-task")
    ensures ScheduledName(text).None?
  {
    hide Holds;
    if text != "" {
      if TAG <= text {
        HoldsAtStart(text, TAG);
      }
      if Holds(text[1..], TAG) {
        HoldsLater(text, TAG);
      }
      NoTagNoName(text[1..]);
    }
  }

  lemma HoldsAtStart(text: string, part: string)
    requires part <= text
    ensures Holds(text, part)
  {
    assert text == "" + part + text[|part|..];
  }

  lemma HoldsLater(text: string, part: string)
    requires text != "" && Holds(text[1..], part)
    ensures Holds(text, part)
  {
    var a, b :| text[1..] == a + part + b;
    assert text == ([text[0]] + a) + part + b;
  }

  /** The first real prompt gives the summary: its beginning, as long as 120 units allow, when no scheduled task is
      tagged in it. */
  lemma FirstPromptIsTheSummary(es: seq<Entry>, i: nat, text: string)
    requires i < |es| && IsPrompt(es[i], text) && !Holds(text, "<scheduled-task")
    requires forall j, said | 0 <= j < i :: !IsPrompt(es[j], said)
    ensures Reading(es).Some? && Shortened(text, Reading(es).value.summary, 120)
  {
    SummaryOfFirst(es, i, text);
    NoTagNoName(text);
    hide Reading, IsPrompt, Holds, ScheduledName, Shortened, DigestText.Cut;
    ShortenedIs(text, DigestText.Cut(text, 120), 120);
  }

  /** And the summary of a scheduled run is `Scheduled: ` and the task's name. */
  lemma ScheduledPromptIsTheSummary(es: seq<Entry>, i: nat, text: string, k: nat, ws: string, n: string)
    requires i < |es| && IsPrompt(es[i], text)
    requires forall j, said | 0 <= j < i :: !IsPrompt(es[j], said)
    requires k < |text| && TagOpens(text[k..], ws, n) && NoneOpensBefore(text, k)
    ensures Reading(es).Some? && Shortened("Scheduled: " + n, Reading(es).value.summary, 120)
  {
    SummaryOfFirst(es, i, text);
    NameOfLeftmost(text, k, ws, n);
    hide Reading, IsPrompt, ScheduledName, Shortened, DigestText.Cut, TagOpens, NoneOpensBefore;
    ShortenedIs("Scheduled: " + n, DigestText.Cut("Scheduled: " + n, 120), 120);
  }

  lemma SummaryOfFirst(es: seq<Entry>, i: nat, text: string)
    requires i < |es| && IsPrompt(es[i], text)
    requires forall j, said | 0 <= j < i :: !IsPrompt(es[j], said)
    ensures Reading(es).Some? && Reading(es).value.summary == SummaryOf(text)
  {
    hide IsPrompt, PromptIn, Collect, SummaryOf, Indexed;
    TextsSaid(es[i], text);
    forall j | 0 <= j < i ensures PromptIn(es[j]).None? {
      if PromptIn(es[j]).Some? {
        TextsSaid(es[j], PromptIn(es[j]).value);
      }
    }
    FirstSaid(es, PromptIn, text);
    assert SaidFirst(es, PromptIn, text, i);
  }

  // ----- However a text is carried -----

  /** Two entries that differ at most in how their message carries the one text it has. */
  ghost predicate SaysTheSame(e: Entry, d: Entry) {
    && e.kind == d.kind && e.role == d.role
    && exists text :: Says(e, text) && Says(d, text)
  }

  lemma {:induction false} CollectSame<T>(es: seq<Entry>, ds: seq<Entry>, f: Entry -> Option<T>)
    requires |es| == |ds| && forall i | 0 <= i < |es| :: f(es[i]) == f(ds[i])
    ensures Collect(es, f) == Collect(ds, f)
  {
    if es != [] {
      var n := |es| - 1;
      assert es[..n] == es[..|es| - 1] && forall i | 0 <= i < n :: es[..n][i] == es[i] && ds[..n][i] == ds[i];
      CollectSame(es[..n], ds[..n], f);
    }
  }

  lemma {:induction false} CountSame(es: seq<Entry>, ds: seq<Entry>)
    requires |es| == |ds| && forall i | 0 <= i < |es| :: IsMessage(es[i]) == IsMessage(ds[i])
    ensures |Collect(es, MessageIn)| == |Collect(ds, MessageIn)|
  {
    hide IsMessage;
    if es != [] {
      var n := |es| - 1;
      assert forall i | 0 <= i < n :: es[..n][i] == es[i] && ds[..n][i] == ds[i];
      CountSame(es[..n], ds[..n]);
    }
  }

  lemma SameSaid(e: Entry, d: Entry)
    requires SaysTheSame(e, d)
    ensures PromptIn(e) == PromptIn(d) && PieceIn(e) == PieceIn(d) && LineIn(e) == LineIn(d)
    ensures IsMessage(e) == IsMessage(d)
  {
    var text :| Says(e, text) && Says(d, text);
    SaysIs(e, text);
    SaysIs(d, text);
    hide MessageText, Says, Lines, FirstNonBlank, IsLocalCommand;
  }

  /** How a message carries its text makes no difference: as it is, as its whole content, or in its first block, the
      session is listed alike, under the same summary and with the same text, count and tail. */
  lemma CarriersAreAlike(es: seq<Entry>, ds: seq<Entry>)
    requires |es| == |ds| && forall i | 0 <= i < |es| :: SaysTheSame(es[i], ds[i])
    ensures Reading(es).Some? <==> Reading(ds).Some?
    ensures Reading(es).Some? ==> var (d, d') := (Reading(es).value, Reading(ds).value);
      d.summary == d'.summary && d.textContent == d'.textContent && d.messageCount == d'.messageCount && d.tail == d'.tail
  {
    hide SaysTheSame, PromptIn, PieceIn, LineIn, IsMessage, MessageIn, Collect, Indexed, SummaryOf;
    forall i | 0 <= i < |es|
      ensures PromptIn(es[i]) == PromptIn(ds[i]) && PieceIn(es[i]) == PieceIn(ds[i]) && LineIn(es[i]) == LineIn(ds[i])
      ensures IsMessage(es[i]) == IsMessage(ds[i])
    {
      SameSaid(es[i], ds[i]);
    }
    CollectSame(es, ds, PromptIn);
    CollectSame(es, ds, PieceIn);
    CollectSame(es, ds, LineIn);
    CountSame(es, ds);
  }

  // ----- Lines of the tail -----

  /** `text[a..b]` is the first line of a text that is not blank, without the whitespace around it; the line ends at
      `end`. */
  ghost predicate FirstLineAt(text: string, a: nat, b: nat, end: nat) {
    && a < b <= end <= |text| && (end < |text| ==> text[end] == '\n')
    && (forall k | 0 <= k < a :: IsWhitespace(text[k])) && (forall k | b <= k < end :: IsWhitespace(text[k]))
    && !IsWhitespace(text[a]) && !IsWhitespace(text[b - 1])
    && forall k | a <= k < end :: text[k] != '\n'
  }

  /** The carriage return before a line feed is whitespace like any other. */
  lemma LineTrimmed(line: string, a: nat, b: nat)
    requires a < b <= |line| && !IsWhitespace(line[a]) && !IsWhitespace(line[b - 1])
    requires (forall k | 0 <= k < a :: IsWhitespace(line[k])) && forall k | b <= k < |line| :: IsWhitespace(line[k])
    ensures Trim(WithoutReturn(line)) == line[a..b] && Trim(line) == line[a..b]
  {
    ReturnIsBlank();
    hide IsWhitespace, Trim;
    TrimAt(line, a, b);
    var w := WithoutReturn(line);
    assert b <= |w| && w[a..b] == line[a..b];
    TrimAt(w, a, b);
  }

  lemma {:induction false} FirstLineIsRead(text: string, a: nat, b: nat, end: nat)
    requires FirstLineAt(text, a, b, end)
    ensures FirstNonBlank(Lines(text)) == Some(text[a..b])
    decreases |text|
  {
    hide IsWhitespace, FindFrom, Trim, WithoutReturn;
    FirstNewline(text, 0);
    match FindFrom(text, ['\n'], 0)
    case None =>
      LineTrimmed(text, a, b);
    case Some(k) =>
      var line, rest := text[..k], text[k + 1..];
      assert ([WithoutReturn(line)] + Lines(rest))[1..] == Lines(rest);
      hide Lines;
      if k < a {
        BlankStart(text, k, a);
        ShiftedLine(text, k + 1, a, b, end);
        FirstLineIsRead(rest, a - k - 1, b - k - 1, end - k - 1);
      } else {
        assert k == end;
        LineUpTo(text, a, b, end);
      }
  }

  lemma BlankStart(text: string, k: nat, a: nat)
    requires k < a <= |text| && forall x | 0 <= x < a :: IsWhitespace(text[x])
    ensures Trim(WithoutReturn(text[..k])) == ""
  {
    hide IsWhitespace, Trim, WithoutReturn;
    BlankLine(text[..k]);
  }

  lemma LineUpTo(text: string, a: nat, b: nat, end: nat)
    requires FirstLineAt(text, a, b, end)
    ensures Trim(WithoutReturn(text[..end])) == text[a..b]
  {
    hide IsWhitespace, Trim, WithoutReturn;
    var line := text[..end];
    LineTrimmed(line, a, b);
    assert line[a..b] == text[a..b];
  }

  lemma BlankLine(line: string)
    requires forall k | 0 <= k < |line| :: IsWhitespace(line[k])
    ensures Trim(WithoutReturn(line)) == ""
  {
    hide IsWhitespace, Trim;
    TrimBlank(WithoutReturn(line));
  }

  lemma ShiftedLine(text: string, n: nat, a: nat, b: nat, end: nat)
    requires FirstLineAt(text, a, b, end) && n <= a
    ensures FirstLineAt(text[n..], a - n, b - n, end - n) && text[n..][a - n..b - n] == text[a..b]
  {
    hide IsWhitespace;
    assert forall k | 0 <= k < |text| - n :: text[n..][k] == text[n + k];
  }

  lemma {:induction false} BlankTextHasNoLine(text: string)
    requires forall k | 0 <= k < |text| :: IsWhitespace(text[k])
    ensures FirstNonBlank(Lines(text)).None?
    decreases |text|
  {
    hide IsWhitespace, FindFrom, Trim, WithoutReturn;
    if text != "" {
      FirstNewline(text, 0);
      match FindFrom(text, ['\n'], 0)
      case None =>
        TrimBlank(text);
      case Some(k) =>
        var line, rest := text[..k], text[k + 1..];
        assert ([WithoutReturn(line)] + Lines(rest))[1..] == Lines(rest);
        BlankLine(line);
        BlankTextHasNoLine(rest);
    }
  }

  lemma FirstLineExists(text: string) returns (a: nat, b: nat, end: nat)
    requires exists k :: 0 <= k < |text| && !IsWhitespace(text[k])
    ensures FirstLineAt(text, a, b, end)
  {
    ReturnIsBlank();
    hide IsWhitespace, LeadingBlanks, TrimmedLength, FindFrom;
    a := LeadingBlanks(text);
    FirstNewline(text, a);
    end := match FindFrom(text, ['\n'], a) case None => |text| case Some(k) => k;
    assert end > a;
    var line := text[a..end];
    b := a + TrimmedLength(line);
    assert forall k | 0 <= k < |line| :: line[k] == text[a + k];
    assert !IsWhitespace(line[0]);
    assert forall k | b <= k < end :: line[k - a] == text[k];
    assert b > a ==> line[b - a - 1] == text[b - 1];
  }

  ghost predicate HasFirstLine(text: string, line: string) {
    exists a: nat, b: nat, end: nat :: FirstLineAt(text, a, b, end) && line == text[a..b]
  }

  lemma FirstLineIs(text: string, line: string)
    ensures FirstNonBlank(Lines(text)) == Some(line) <==> HasFirstLine(text, line)
  {
    hide Lines, FirstNonBlank, IsWhitespace;
    if exists k :: 0 <= k < |text| && !IsWhitespace(text[k]) {
      var a, b, end := FirstLineExists(text);
      FirstLineIsRead(text, a, b, end);
    } else {
      BlankTextHasNoLine(text);
    }
    hide FirstLineAt;
    if a: nat, b: nat, end: nat :| FirstLineAt(text, a, b, end) && line == text[a..b] {
      FirstLineIsRead(text, a, b, end);
    }
  }

  /** What an entry adds to the tail: of a message, its first line that is not blank, as long as 100 units allow. */
  lemma LineSaid(e: Entry, l: string)
    ensures LineIn(e) == Some(l) <==>
      (FromUser(e) || FromAssistant(e)) && exists text, line :: Says(e, text) && HasFirstLine(text, line) && Shortened(line, l, 100)
  {
    hide MessageText, Says, Lines, FirstNonBlank, HasFirstLine, Shortened, DigestText.Cut;
    var text := MessageText(e);
    SaysIs(e, text);
    var first := FirstNonBlank(Lines(text));
    if first.Some? {
      FirstLineIs(text, first.value);
      ShortenedIs(first.value, l, 100);
    }
    if text', line :| Says(e, text') && HasFirstLine(text', line) && Shortened(line, l, 100) {
      SaysIs(e, text');
      FirstLineIs(text, line);
    }
  }

  // ----- The bounds of a digest -----

  /** The messages are counted up to the greatest of 32 bits. */
  lemma MessagesCounted(es: seq<Entry>)
    requires Reading(es).Some?
    ensures var n := |Collect(es, MessageIn)|; Reading(es).value.messageCount as int == if n <= 4294967295 then n else 4294967295
  {
    hide Collect, PromptIn, SummaryOf, Indexed;
  }

  /** The tail is the last three of the lines, or all of fewer. */
  lemma TailKept(es: seq<Entry>)
    requires Reading(es).Some?
    ensures exists before :: Collect(es, LineIn) == before + Reading(es).value.tail
    ensures |Reading(es).value.tail| == if |Collect(es, LineIn)| <= 3 then |Collect(es, LineIn)| else 3
  {
    hide Collect, PromptIn, SummaryOf, Indexed;
    var lines, tail := Collect(es, LineIn), Reading(es).value.tail;
    assert lines == lines[..|lines| - |tail|] + tail;
  }

  /** The indexed text is made of the first pieces that bring it to 8000 units, or of all. */
  lemma TextIndexed(es: seq<Entry>) returns (k: nat)
    requires Reading(es).Some?
    ensures k <= |Collect(es, PieceIn)| && Reading(es).value.textContent == Joined(Collect(es, PieceIn)[..k])
    ensures forall j | 0 <= j < k :: |Units(Joined(Collect(es, PieceIn)[..j]))| < 8000
    ensures k < |Collect(es, PieceIn)| ==> |Units(Reading(es).value.textContent)| >= 8000
  {
    hide Collect, PromptIn, SummaryOf, Units, Joined;
    k := Enough(Collect(es, PieceIn));
    EnoughIsTheFirst(Collect(es, PieceIn));
  }
}
