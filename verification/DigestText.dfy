/** The text the digest cuts out of a transcript: bounded prefixes and scheduled-task names. */
module DigestText {
  import opened Wrappers
  import opened Chars
  import opened Text
  import opened Utf16

  // ----- Cutting text -----

  /** The longest prefix of `s` that fits in `n` UTF-16 units. */
  function Cut(s: string, n: nat): (r: string)
    ensures r <= s && |Units(r)| <= n
    ensures |r| < |s| ==> |Units(r)| + |CharUnits(s[|r|])| > n
  {
    if s == [] || |CharUnits(s[0])| > n then []
    else [s[0]] + Cut(s[1..], n - |CharUnits(s[0])|)
  }

  lemma {:induction false} CutIsTheLongest(s: string, n: nat, t: string)
    requires t <= s && |Units(t)| <= n
    ensures t <= Cut(s, n)
  {
    if t != [] {
      assert t[0] == s[0];
      CutIsTheLongest(s[1..], n - |CharUnits(s[0])|, t[1..]);
    }
  }

  lemma UnitsNext(s: string, i: nat)
    requires i < |s|
    ensures Units(s[..i + 1]) == Units(s[..i]) + CharUnits(s[i])
  {
    hide CharUnits;
    assert s[..i + 1] == s[..i] + [s[i]];
    UnitsConcat(s[..i], [s[i]]);
    assert Units([s[i]][1..]) == [];
  }

  lemma CutIsUnique(s: string, n: nat, i: nat)
    requires i <= |s| && |Units(s[..i])| <= n
    requires i < |s| ==> |Units(s[..i])| + |CharUnits(s[i])| > n
    ensures s[..i] == Cut(s, n)
  {
    hide Units, CharUnits, Cut;
    var r := Cut(s, n);
    CutIsTheLongest(s, n, s[..i]);
    if |r| > i {
      UnitsNext(s, i);
      assert s[..i + 1] <= r;
      UnitsOfPrefix(s[..i + 1], r);
    }
  }

  lemma UnitsOfPrefix(t: string, r: string)
    requires t <= r
    ensures |Units(t)| <= |Units(r)|
  {
    assert r == t + r[|t|..];
    UnitsConcat(t, r[|t|..]);
  }

  method Utf16Prefix(s: string, maxUnits: nat) returns (r: string)
    ensures r == Cut(s, maxUnits)
  {
    var units := 0;
    for i := 0 to |s|
      invariant units == |Units(s[..i])| <= maxUnits
    {
      var w := |CharUnits(s[i])|;
      if units + w > maxUnits {
        CutIsUnique(s, maxUnits, i);
        return s[..i];
      }
      UnitsNext(s, i);
      units := units + w;
    }
    assert s[..|s|] == s;
    CutIsUnique(s, maxUnits, |s|);
    r := s;
  }

  lemma CutOfNonEmpty(s: string, n: nat)
    requires s != [] && n >= 2
    ensures Cut(s, n) != []
  {
  }

  // ----- Scheduled tasks -----

  const TAG: string := "<scheduled-task"
  const NAME: string := "name=\""

  /** The expression `<scheduled-task\s+name="([^"]+)"` at the start of `s`: `ws` is the blank run and `n`
      the group. */
  predicate TagOpens(s: string, ws: string, n: string) {
    && TAG + ws + NAME + n + "\"" <= s
    && ws != [] && IsBlank(ws)
    && n != [] && '"' !in n
  }

  function NameHere(s: string): Option<string> {
    if !(TAG <= s) then None
    else
      var rest := s[|TAG|..];
      var ws := LeadingBlanks(rest);
      if ws > 0 && NAME <= rest[ws..] then
        var quoted := rest[ws + |NAME|..];
        match FindFrom(quoted, "\"", 0)
        case Some(end) => if end > 0 then Some(quoted[..end]) else None
        case None => None
      else None
  }

  /** The name in the leftmost place where one opens. */
  function ScheduledName(s: string): Option<string> {
    if s == [] then None
    else
      match NameHere(s)
      case Some(n) => Some(n)
      case None => ScheduledName(s[1..])
  }

  lemma LeadingBlanksAre(s: string, ws: string, c: char, rest: string)
    requires s == ws + [c] + rest && IsBlank(ws) && !IsWhitespace(c)
    ensures LeadingBlanks(s) == |ws|
  {
    hide IsWhitespace, LeadingBlanks;
    assert s[|ws|] == c;
    assert forall i | 0 <= i < |ws| :: s[i] == ws[i];
  }

  lemma NameHereIs(s: string, n: string)
    ensures NameHere(s) == Some(n) <==> exists ws :: TagOpens(s, ws, n)
  {
    if NameHere(s) == Some(n) {
      NameHereOpens(s, n);
    }
    if ws :| TagOpens(s, ws, n) {
      OpenedNameIsHere(s, ws, n);
    }
  }

  lemma NameHereOpens(s: string, n: string)
    requires NameHere(s) == Some(n)
    ensures exists ws :: TagOpens(s, ws, n)
  {
    hide IsWhitespace, LeadingBlanks, FindFrom;
    var rest := s[|TAG|..];
    var k := LeadingBlanks(rest);
    var ws, quoted := rest[..k], rest[k + |NAME|..];
    var end := FindFrom(quoted, "\"", 0).value;
    assert quoted[end..end + 1] == "\"";
    assert s == TAG + ws + NAME + n + "\"" + quoted[end + 1..];
    forall i | 0 <= i < end ensures n[i] != '"' {
      assert !OccursAt(quoted, "\"", i);
      assert quoted[i..i + 1] == [n[i]];
    }
    assert TagOpens(s, ws, n);
  }

  lemma OpenedNameIsHere(s: string, ws: string, n: string)
    requires TagOpens(s, ws, n)
    ensures NameHere(s) == Some(n)
  {
    hide IsWhitespace, LeadingBlanks, FindFrom;
    var tail := s[|TAG + ws + NAME + n + "\""|..];
    assert s == TAG + ws + NAME + n + "\"" + tail;
    var rest := s[|TAG|..];
    var quoted := n + "\"" + tail;
    assert rest == ws + ['n'] + ("ame=\"" + quoted);
    NIsNoBlank();
    LeadingBlanksAre(rest, ws, 'n', "ame=\"" + quoted);
    assert rest[|ws|..] == NAME + quoted;
    assert rest[|ws| + |NAME|..] == quoted;
    FirstQuote(n, tail);
    assert quoted[..|n|] == n;
  }

  lemma NIsNoBlank()
    ensures !IsWhitespace('n')
  {
  }

  lemma FirstQuote(n: string, tail: string)
    requires '"' !in n
    ensures FindFrom(n + "\"" + tail, "\"", 0) == Some(|n|)
  {
    hide FindFrom;
    var quoted := n + "\"" + tail;
    assert quoted[|n|..|n| + 1] == "\"";
    assert OccursAt(quoted, "\"", |n|);
    forall k | 0 <= k < |n| ensures !OccursAt(quoted, "\"", k) {
      assert quoted[k..k + 1] == [n[k]];
    }
  }

  // The source names JavaScript's expression; its whitespace is not Rust's.

  /** What JavaScript's `\s` matches: Rust's whitespace without U+0085, and U+FEFF. */
  predicate IsJsSpace(c: char) {
    (IsWhitespace(c) && c != '\U{85}') || c == '\U{FEFF}'
  }

  predicate JsTagOpens(s: string, ws: string, n: string) {
    && TAG + ws + NAME + n + "\"" <= s
    && ws != [] && (forall c <- ws :: IsJsSpace(c))
    && n != [] && '"' !in n
  }

  lemma RunEnds(s: string, ws: string, n: string)
    requires TAG + ws + NAME + n + "\"" <= s
    ensures |TAG| + |ws| < |s| && s[|TAG| + |ws|] == 'n'
    ensures forall i | 0 <= i < |ws| :: s[|TAG| + i] == ws[i]
  {
    var t, rest := TAG, NAME + n + "\"";
    var a := t + ws + rest;
    assert TAG + ws + NAME + n + "\"" == a;
    assert a == s[..|a|];
    assert forall i | 0 <= i < |ws| :: a[|t| + i] == ws[i];
    assert a[|t| + |ws|] == rest[0];
  }

  lemma OneRun(s: string, ws: string, n: string, ws': string, n': string)
    requires TAG + ws + NAME + n + "\"" <= s && TAG + ws' + NAME + n' + "\"" <= s
    requires 'n' !in ws && 'n' !in ws'
    ensures ws == ws'
  {
    RunEnds(s, ws, n);
    RunEnds(s, ws', n');
    assert forall i | 0 <= i < |ws| :: ws[i] in ws;
    assert forall i | 0 <= i < |ws'| :: ws'[i] in ws';
  }

  lemma BlankIsNoN(ws: string)
    requires forall c <- ws :: IsWhitespace(c) || IsJsSpace(c)
    ensures 'n' !in ws
  {
  }

  lemma BlankRuns(ws: string)
    requires forall c <- ws :: IsWhitespace(c) || IsJsSpace(c)
    ensures IsBlank(ws) <==> '\U{FEFF}' !in ws
    ensures (forall c <- ws :: IsJsSpace(c)) <==> '\U{85}' !in ws
  {
  }

  /** A tag is read where the documented JavaScript expression reads it exactly when its blank run holds neither
      U+0085 nor U+FEFF, or both. */
  lemma DocumentedBlanks(s: string, ws: string, n: string)
    requires TAG + ws + NAME + n + "\"" <= s && n != [] && '"' !in n
    requires ws != [] && forall c <- ws :: IsWhitespace(c) || IsJsSpace(c)
    ensures (NameHere(s) == Some(n) <==> JsTagOpens(s, ws, n)) <==> ('\U{85}' in ws <==> '\U{FEFF}' in ws)
  {
    hide IsWhitespace, IsJsSpace, NameHere;
    BlankRuns(ws);
    BlankIsNoN(ws);
    if NameHere(s) == Some(n) {
      NameHereOpens(s, n);
      var ws' :| TagOpens(s, ws', n);
      BlankIsNoN(ws');
      OneRun(s, ws, n, ws', n);
    }
    if IsBlank(ws) {
      OpenedNameIsHere(s, ws, n);
    }
  }

  /** A tag read though the JavaScript expression matches nothing there, whatever its blank run and group. */
  lemma NextLineIsReadAsBlank(ws: string, n: string)
    ensures NameHere("<scheduled-task\U{85}name=\"x\"") == Some("x")
    ensures !JsTagOpens("<scheduled-task\U{85}name=\"x\"", ws, n)
  {
    hide NameHere;
    var s, blank := "<scheduled-task\U{85}name=\"x\"", "\U{85}";
    assert TAG + blank + NAME + "x" + "\"" == s;
    assert blank[0] in blank;
    OpenedNameIsHere(s, blank, "x");
    if JsTagOpens(s, ws, n) {
      BlankIsNoN(ws);
      BlankIsNoN(blank);
      OneRun(s, ws, n, blank, "x");
    }
  }

  /** The name found is the group of the leftmost match of the expression. */
  lemma {:induction false} ScheduledNameIsTheLeftmost(s: string)
    ensures ScheduledName(s).Some? ==> exists k, ws ::
      0 <= k < |s| && TagOpens(s[k..], ws, ScheduledName(s).value) && NoneOpensBefore(s, k)
    ensures ScheduledName(s).None? ==> NoneOpensBefore(s, |s|)
  {
    hide NameHere, TagOpens;
    if s != [] {
      var rest := s[1..];
      match NameHere(s)
      case Some(n) =>
        NameHereIs(s, n);
        assert s[0..] == s;
        var ws :| TagOpens(s, ws, n);
        assert TagOpens(s[0..], ws, n);
      case None =>
        forall ws, n ensures !TagOpens(s, ws, n) {
          NameHereIs(s, n);
        }
        ScheduledNameIsTheLeftmost(rest);
        if ScheduledName(s).Some? {
          var k, ws :| 0 <= k < |rest| && TagOpens(rest[k..], ws, ScheduledName(s).value) && NoneOpensBefore(rest, k);
          NoneOpensShifts(s, k);
          assert s[k + 1..] == rest[k..];
          assert TagOpens(s[k + 1..], ws, ScheduledName(s).value);
        } else {
          NoneOpensShifts(s, |rest|);
        }
    }
  }

  ghost predicate NoneOpensBefore(s: string, k: nat)
    requires k <= |s|
  {
    forall j, ws, n | 0 <= j < k :: !TagOpens(s[j..], ws, n)
  }

  lemma NoneOpensShifts(s: string, k: nat)
    requires k < |s| && NoneOpensBefore(s[1..], k) && forall ws, n :: !TagOpens(s, ws, n)
    ensures NoneOpensBefore(s, k + 1)
  {
    hide TagOpens;
    forall j, ws, n | 0 <= j < k + 1 ensures !TagOpens(s[j..], ws, n) {
      if j == 0 {
        assert s[0..] == s;
      } else {
        assert s[j..] == s[1..][j - 1..];
      }
    }
  }

  /** There is one leftmost match. */
  lemma NameOfLeftmost(s: string, k: nat, ws: string, n: string)
    requires k < |s| && TagOpens(s[k..], ws, n) && NoneOpensBefore(s, k)
    ensures ScheduledName(s) == Some(n)
  {
    hide NameHere, TagOpens, ScheduledName;
    ScheduledNameIsTheLeftmost(s);
    var name := ScheduledName(s);
    if name.Some? {
      var k', ws' :| 0 <= k' < |s| && TagOpens(s[k'..], ws', name.value) && NoneOpensBefore(s, k');
      assert k == k';
      NameHereIs(s[k..], n);
      NameHereIs(s[k..], name.value);
    }
  }

  ghost predicate NoneOpensInJsBefore(s: string, k: nat)
    requires k <= |s|
  {
    forall j, ws, n | 0 <= j < k :: !JsTagOpens(s[j..], ws, n)
  }

  lemma SameTags(s: string, ws: string, n: string)
    requires '\U{85}' !in s && '\U{FEFF}' !in s
    ensures TagOpens(s, ws, n) <==> JsTagOpens(s, ws, n)
  {
    hide IsWhitespace;
    if TAG + ws + NAME + n + "\"" <= s {
      RunEnds(s, ws, n);
      assert forall i | 0 <= i < |ws| :: ws[i] == s[|TAG| + i] && ws[i] in s;
    }
  }

  lemma SameTagsBefore(s: string, k: nat)
    requires k <= |s| && '\U{85}' !in s && '\U{FEFF}' !in s
    ensures NoneOpensBefore(s, k) <==> NoneOpensInJsBefore(s, k)
  {
    hide TagOpens, JsTagOpens;
    forall j, ws, n | 0 <= j < k ensures TagOpens(s[j..], ws, n) <==> JsTagOpens(s[j..], ws, n) {
      SameTags(s[j..], ws, n);
    }
  }

  /** On texts free of the two characters the search is the documented one: it finds the group of the leftmost match
      of the JavaScript expression, and nothing when that matches nowhere. */
  lemma DocumentedSearch(s: string, n: string)
    requires '\U{85}' !in s && '\U{FEFF}' !in s
    ensures ScheduledName(s) == Some(n) <==>
      exists k, ws :: 0 <= k < |s| && JsTagOpens(s[k..], ws, n) && NoneOpensInJsBefore(s, k)
    ensures ScheduledName(s).None? <==> NoneOpensInJsBefore(s, |s|)
  {
    hide TagOpens, JsTagOpens, NoneOpensBefore, NoneOpensInJsBefore, ScheduledName;
    ScheduledNameIsTheLeftmost(s);
    SameTagsBefore(s, |s|);
    if ScheduledName(s).Some? {
      var k, ws :| 0 <= k < |s| && TagOpens(s[k..], ws, ScheduledName(s).value) && NoneOpensBefore(s, k);
      SameTags(s[k..], ws, ScheduledName(s).value);
      SameTagsBefore(s, k);
      OpensSomewhere(s, k, ws, ScheduledName(s).value);
    }
    if k, ws :| 0 <= k < |s| && JsTagOpens(s[k..], ws, n) && NoneOpensInJsBefore(s, k) {
      SameTags(s[k..], ws, n);
      SameTagsBefore(s, k);
      NameOfLeftmost(s, k, ws, n);
    }
  }

  lemma OpensSomewhere(s: string, k: nat, ws: string, n: string)
    requires k < |s| && TagOpens(s[k..], ws, n)
    ensures !NoneOpensBefore(s, |s|)
  {
    hide TagOpens;
  }

  lemma {:induction false} SkippingToTag(s: string, k: nat)
    requires k <= |s| && forall j | 0 <= j < k :: !(TAG <= s[j..])
    ensures ScheduledName(s) == ScheduledName(s[k..])
  {
    if k == 0 {
      assert s[0..] == s;
    } else {
      assert s[0..] == s;
      var rest := s[1..];
      forall j | 0 <= j < k - 1 ensures !(TAG <= rest[j..]) {
        assert rest[j..] == s[j + 1..];
      }
      SkippingToTag(rest, k - 1);
      assert rest[k - 1..] == s[k..];
    }
  }

  /** A tag cannot start inside another, so the search may go on behind one. */
  lemma SkippingTag(s: string)
    requires TAG <= s && NameHere(s).None?
    ensures ScheduledName(s) == ScheduledName(s[|TAG|..])
  {
    hide NameHere, ScheduledName;
    var rest := s[1..];
    forall j | 0 <= j < |TAG| - 1 ensures !(TAG <= rest[j..]) {
      assert rest[j] == s[j + 1] == TAG[j + 1] != '<';
    }
    SkippingToTag(rest, |TAG| - 1);
    assert rest[|TAG| - 1..] == s[|TAG|..];
    NoNameHere(s);
  }

  lemma NoNameHere(s: string)
    requires s != [] && NameHere(s).None?
    ensures ScheduledName(s) == ScheduledName(s[1..])
  {
  }

  method ScheduledTaskName(text: string) returns (name: Option<string>)
    ensures name == ScheduledName(text)
  {
    hide ScheduledName, IsWhitespace, LeadingBlanks, FindFrom;
    var search := text;
    while true
      invariant ScheduledName(search) == ScheduledName(text)
      decreases |search|
    {
      var pos := FindFrom(search, TAG, 0);
      if pos.None? {
        NoTag(search);
        return None;
      }
      var at := search[pos.value..];
      TagFound(search, pos.value);
      SkippingToTag(search, pos.value);
      var rest := search[pos.value + |TAG|..];
      assert rest == at[|TAG|..];
      var ws := LeadingBlanks(rest);
      var afterWs := rest[ws..];
      if |afterWs| < |rest| && NAME <= afterWs {
        var quoted := afterWs[|NAME|..];
        assert quoted == rest[ws + |NAME|..];
        var end := FindFrom(quoted, "\"", 0);
        if end.Some? && end.value > 0 {
          NameOf(at, quoted[..end.value]);
          return Some(quoted[..end.value]);
        }
      }
      SkippingTag(at);
      search := rest;
    }
  }

  lemma NameOf(s: string, n: string)
    requires s != [] && NameHere(s) == Some(n)
    ensures ScheduledName(s) == Some(n)
  {
  }

  lemma TagFound(s: string, pos: nat)
    requires FindFrom(s, TAG, 0) == Some(pos)
    ensures pos + |TAG| <= |s| && TAG <= s[pos..]
    ensures forall j | 0 <= j < pos :: !(TAG <= s[j..])
  {
    hide FindFrom, OccursAt;
    OccursAsPrefix(s, TAG, pos);
    forall j | 0 <= j < pos ensures !(TAG <= s[j..]) {
      OccursAsPrefix(s, TAG, j);
    }
  }

  lemma NoTag(s: string)
    requires FindFrom(s, TAG, 0).None?
    ensures ScheduledName(s) == None
  {
    hide FindFrom, NameHere, OccursAt;
    forall j | 0 <= j < |s| ensures !(TAG <= s[j..]) {
      OccursAsPrefix(s, TAG, j);
    }
    SkippingToTag(s, |s|);
    assert s[|s|..] == [];
  }
}
