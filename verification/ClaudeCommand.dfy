/** The slash commands typed into a Claude session, and the text made safe to type in one. */
module ClaudeCommand {
  import opened Wrappers
  import opened Utf8
  import opened Chars
  import opened Text
  import opened ClaudeColor

  const MAX_GRAPHEMES := 80

  /** Whether a grapheme cluster begins with the last character of a text. The rules of section 3 of UAX
      #29 look back from a character and never past it, so the text up to the character decides. */
  type Breaks = string -> bool

  predicate BreaksLine(c: char) {
    IsControl(c) || c as int == 0x2028 || c as int == 0x2029
  }

  predicate IsInvisibleFormat(c: char) {
    var v := c as int;
    || v == 0xAD || v == 0x61C || v == 0x180E || v == 0x200B || v == 0x200E || v == 0x200F
    || 0x202A <= v <= 0x202E || 0x2060 <= v <= 0x2069 || v == 0xFEFF || 0xE0000 <= v <= 0xE007F
  }

  /** Invisible formatting dropped, and what breaks a line turned into a space. */
  function Spaced(raw: string): string {
    if raw == [] then []
    else (if IsInvisibleFormat(raw[0]) then [] else [if BreaksLine(raw[0]) then ' ' else raw[0]]) + Spaced(raw[1..])
  }

  function Collapsed(s: string): string {
    JoinWords(Words(s))
  }

  /** How many clusters a text has; the first character always begins one. */
  function Clusters(breaks: Breaks, s: string): nat {
    if s == [] then 0
    else Clusters(breaks, s[..|s| - 1]) + if |s| == 1 || breaks(s) then 1 else 0
  }

  /** The first `n` clusters: the longest beginning that has no more. */
  function Cut(breaks: Breaks, s: string, n: nat): (r: string)
    ensures r <= s
  {
    if Clusters(breaks, s) <= n then s else Cut(breaks, s[..|s| - 1], n)
  }

  predicate IsTail(c: char) {
    c == '\\' || IsWhitespace(c)
  }

  function TrimmedEnd(s: string): (r: string)
    ensures r <= s && (r == [] || !IsTail(r[|r| - 1]))
    ensures forall k | |r| <= k < |s| :: IsTail(s[k])
  {
    if s != [] && IsTail(s[|s| - 1]) then TrimmedEnd(s[..|s| - 1]) else s
  }

  /** `CommandArgument::new`: the argument as typed, or nothing when nothing would be left. */
  function Argument(breaks: Breaks, raw: string): Option<string> {
    var clean := TrimmedEnd(Cut(breaks, Collapsed(Spaced(raw)), MAX_GRAPHEMES));
    if clean == [] then None else Some(clean)
  }

  // ----- Safe text -----

  /** One line of words, single spaces between, nothing that ends the line or hides in it. */
  ghost predicate IsLine(s: string) {
    && (forall k | 0 <= k < |s| :: !IsInvisibleFormat(s[k]) && !BreaksLine(s[k]))
    && (forall k | 0 <= k < |s| && IsWhitespace(s[k]) :: s[k] == ' ' && k > 0 && !IsWhitespace(s[k - 1]))
  }

  /** What an argument is once it has been made safe. */
  ghost predicate IsSafe(breaks: Breaks, s: string) {
    IsLine(s) && s != [] && !IsTail(s[|s| - 1]) && Clusters(breaks, s) <= MAX_GRAPHEMES
  }

  predicate IsPlain(s: string) {
    forall k | 0 <= k < |s| :: !IsInvisibleFormat(s[k]) && !BreaksLine(s[k])
  }

  lemma {:induction false} SpacedIsPlain(raw: string)
    ensures IsPlain(Spaced(raw))
    ensures IsPlain(raw) ==> Spaced(raw) == raw
  {
    if raw != [] {
      SpacedIsPlain(raw[1..]);
      assert IsPlain(raw) ==> IsPlain(raw[1..]);
      assert raw == [raw[0]] + raw[1..];
    }
  }

  ghost predicate AreWords(words: seq<string>) {
    forall k | 0 <= k < |words| ::
      words[k] != [] && forall j | 0 <= j < |words[k]| :: !IsWhitespace(words[k][j]) && !IsInvisibleFormat(words[k][j]) && !BreaksLine(words[k][j])
  }

  lemma {:induction false} WordsAreWords(s: string)
    requires IsPlain(s)
    ensures AreWords(Words(s))
    decreases |s|
  {
    if s == [] {
    } else if IsWhitespace(s[0]) {
      WordsAreWords(s[1..]);
    } else {
      WordsAreWords(s[WordLength(s)..]);
    }
  }

  lemma {:induction false} JoinedIsLine(words: seq<string>)
    requires AreWords(words)
    ensures IsLine(JoinWords(words)) && (words != [] ==> JoinWords(words) != [] && !IsWhitespace(JoinWords(words)[0]))
    ensures words != [] ==> !IsWhitespace(JoinWords(words)[|JoinWords(words)| - 1])
  {
    if |words| > 1 {
      JoinedIsLine(words[1..]);
      var w, rest := words[0], JoinWords(words[1..]);
      var s := w + [' '] + rest;
      forall k | 0 <= k < |s|
        ensures !IsInvisibleFormat(s[k]) && !BreaksLine(s[k])
        ensures IsWhitespace(s[k]) ==> s[k] == ' ' && k > 0 && !IsWhitespace(s[k - 1])
      {
        if k > |w| {
          assert s[k] == rest[k - |w| - 1];
        }
      }
    }
  }

  lemma RestOfLine(s: string, n: nat)
    requires IsLine(s) && n < |s| - 1 && IsWhitespace(s[n])
    ensures IsLine(s[n + 1..]) && s[n] == ' ' && !IsWhitespace(s[n + 1])
  {
    hide IsWhitespace, IsInvisibleFormat, BreaksLine;
    var rest := s[n + 1..];
    assert forall k | 0 <= k < |rest| :: rest[k] == s[k + n + 1];
    forall k | 0 <= k < |rest| && IsWhitespace(rest[k]) ensures rest[k] == ' ' && k > 0 && !IsWhitespace(rest[k - 1]) {
      assert s[k + n + 1] == rest[k] && !IsWhitespace(s[k + n]);
    }
  }

  lemma WordsStep(s: string, n: nat)
    requires s != [] && n == WordLength(s) && 0 < n < |s|
    ensures Words(s) == [s[..n]] + Words(s[n + 1..])
  {
    hide IsWhitespace;
    assert s[n..][1..] == s[n + 1..];
  }

  lemma OneWord(s: string)
    requires s != [] && WordLength(s) == |s|
    ensures Collapsed(s) == s
  {
    assert s[..|s|] == s && s[|s|..] == [];
    assert Words(s) == [s];
  }

  lemma JoinFirst(w: string, words: seq<string>)
    requires words != []
    ensures JoinWords([w] + words) == w + [' '] + JoinWords(words)
  {
    assert ([w] + words)[1..] == words;
  }

  lemma WordsOfSomething(s: string)
    requires s != [] && !IsWhitespace(s[0])
    ensures Words(s) != []
  {
  }

  lemma LineStart(s: string)
    requires IsLine(s) && s != []
    ensures !IsWhitespace(s[0])
  {
  }

  lemma CutAt(s: string, n: nat)
    requires n < |s| && s[n] == ' '
    ensures s == s[..n] + [' '] + s[n + 1..]
  {
  }

  /** The first word of a line, a space, and a line. */
  lemma LineSplits(s: string, n: nat)
    requires IsLine(s) && s != [] && n == WordLength(s) < |s| && !IsWhitespace(s[|s| - 1])
    ensures 0 < n < |s| - 1 && IsLine(s[n + 1..]) && !IsWhitespace(s[n + 1])
    ensures s == s[..n] + [' '] + s[n + 1..]
  {
    hide IsWhitespace, IsLine, WordLength;
    LineStart(s);
    RestOfLine(s, n);
    CutAt(s, n);
  }

  lemma WordFirst(s: string, n: nat)
    requires 0 < n == WordLength(s) < |s| && s == s[..n] + [' '] + s[n + 1..]
    requires Words(s[n + 1..]) != [] && Collapsed(s[n + 1..]) == s[n + 1..]
    ensures Collapsed(s) == s
  {
    hide Words, WordLength, JoinWords;
    WordsStep(s, n);
    JoinFirst(s[..n], Words(s[n + 1..]));
  }

  /** A line already collapsed stays as it is. */
  lemma {:induction false} LineIsCollapsed(s: string)
    requires IsLine(s) && (s == [] || !IsWhitespace(s[|s| - 1]))
    ensures Collapsed(s) == s
    decreases |s|
  {
    if s == [] {
      assert Words(s) == [];
    } else {
      hide IsWhitespace, IsLine, Words, WordLength, JoinWords, Collapsed;
      var n := WordLength(s);
      if n == |s| {
        OneWord(s);
      } else {
        LineSplits(s, n);
        LineIsCollapsed(s[n + 1..]);
        WordsOfSomething(s[n + 1..]);
        WordFirst(s, n);
      }
    }
  }

  lemma {:induction false} CutFits(breaks: Breaks, s: string, n: nat)
    ensures Clusters(breaks, Cut(breaks, s, n)) <= n
  {
    if Clusters(breaks, s) > n {
      CutFits(breaks, s[..|s| - 1], n);
    }
  }

  lemma {:induction false} ClustersOfPrefix(breaks: Breaks, s: string, n: nat)
    requires n <= |s|
    ensures Clusters(breaks, s[..n]) <= Clusters(breaks, s)
    decreases |s|
  {
    if n < |s| {
      ClustersOfPrefix(breaks, s[..|s| - 1], n);
      assert s[..|s| - 1][..n] == s[..n];
    } else {
      assert s[..n] == s;
    }
  }

  lemma LineOfPrefix(s: string, n: nat)
    requires IsLine(s) && n <= |s|
    ensures IsLine(s[..n])
  {
  }

  /** Whatever the text, an argument is safe to type: one trimmed line, without control characters, line
      breaks, invisible formatting or double spaces, not ending on a backslash, of at most 80 clusters. */
  lemma ArgumentsAreSafe(breaks: Breaks, raw: string)
    ensures Argument(breaks, raw).Some? ==> IsSafe(breaks, Argument(breaks, raw).value)
  {
    var spaced := Spaced(raw);
    SpacedIsPlain(raw);
    WordsAreWords(spaced);
    JoinedIsLine(Words(spaced));
    var collapsed := Collapsed(spaced);
    var cut := Cut(breaks, collapsed, MAX_GRAPHEMES);
    hide Words, Join, Spaced, IsTail, IsLine, Clusters, Cut;
    CutFits(breaks, collapsed, MAX_GRAPHEMES);
    var clean := TrimmedEnd(cut);
    LineOfPrefix(collapsed, |clean|);
    ClustersOfPrefix(breaks, cut, |clean|);
    assert clean == collapsed[..|clean|] && clean == cut[..|clean|];
  }

  /** The texts typed unchanged are exactly the safe ones. */
  lemma SafeTextsAreTheFixedPoints(breaks: Breaks, s: string)
    ensures Argument(breaks, s) == Some(s) <==> IsSafe(breaks, s)
  {
    ArgumentsAreSafe(breaks, s);
    if IsSafe(breaks, s) {
      SpacedIsPlain(s);
      LineIsCollapsed(s);
    }
  }

  /** So making an argument safe a second time changes nothing. */
  lemma ArgumentIsIdempotent(breaks: Breaks, raw: string)
    requires Argument(breaks, raw).Some?
    ensures Argument(breaks, Argument(breaks, raw).value) == Argument(breaks, raw)
  {
    hide Argument, IsSafe;
    ArgumentsAreSafe(breaks, raw);
    SafeTextsAreTheFixedPoints(breaks, Argument(breaks, raw).value);
  }

  // ----- Where arguments are cut -----

  /** A text is cut only where a cluster ends, and only when as many as allowed are kept. */
  lemma {:induction false} CutIsOnABoundary(breaks: Breaks, s: string, n: nat)
    requires n > 0 && |Cut(breaks, s, n)| < |s|
    ensures var r := Cut(breaks, s, n); Clusters(breaks, r) == n && breaks(s[..|r| + 1])
  {
    var front, r := s[..|s| - 1], Cut(breaks, s, n);
    if |r| < |front| {
      CutIsOnABoundary(breaks, front, n);
      assert front[..|r| + 1] == s[..|r| + 1];
    } else {
      assert s[..|r| + 1] == s;
    }
  }

  /** `clean` is what is left of `text` cut at `n`: at its end, or where a cluster begins after 80 others. */
  ghost predicate IsCutAt(breaks: Breaks, clean: string, text: string, n: nat) {
    && |clean| <= n <= |text| && clean == text[..|clean|]
    && (n < |text| ==> Clusters(breaks, text[..n]) == MAX_GRAPHEMES && breaks(text[..n + 1]))
    && forall k | |clean| <= k < n :: IsTail(text[k])
  }

  /** How an argument ends: its collapsed text is cut on a cluster boundary after 80 clusters, or not at all, so no
      accent or flag is left half typed; then backslashes and spaces go, and nothing else. */
  lemma ArgumentIsCutOnABoundary(breaks: Breaks, raw: string)
    requires Argument(breaks, raw).Some?
    ensures exists n: nat :: IsCutAt(breaks, Argument(breaks, raw).value, Collapsed(Spaced(raw)), n)
  {
    hide Clusters, IsTail, Collapsed, Spaced, Cut;
    var text := Collapsed(Spaced(raw));
    var cut := Cut(breaks, text, MAX_GRAPHEMES);
    var clean := TrimmedEnd(cut);
    assert cut == text[..|cut|] && clean == cut[..|clean|] == text[..|clean|];
    if |cut| < |text| {
      CutIsOnABoundary(breaks, text, MAX_GRAPHEMES);
    }
    assert forall k | |clean| <= k < |cut| :: cut[k] == text[k];
    assert IsCutAt(breaks, clean, text, |cut|);
  }

  /** The backslashes and spaces a text starts with. */
  function LeadingTails(s: string): (n: nat)
    ensures n <= |s| && (forall k | 0 <= k < n :: IsTail(s[k])) && (n < |s| ==> !IsTail(s[n]))
  {
    if s == [] || !IsTail(s[0]) then 0 else LeadingTails(s[1..]) + 1
  }

  lemma {:induction false} CutReaches(breaks: Breaks, s: string, n: nat, k: nat)
    requires k <= |s| && n > 0
    ensures k <= |Cut(breaks, s, n)| <==> Clusters(breaks, s[..k]) <= n
  {
    var r := Cut(breaks, s, n);
    CutFits(breaks, s, n);
    if k <= |r| {
      ClustersOfPrefix(breaks, r, k);
      assert r[..k] == s[..k];
    } else {
      CutIsOnABoundary(breaks, s, n);
      assert s[..|r|] == r;
      PastTheCut(breaks, s, |r|, k);
    }
  }

  lemma PastTheCut(breaks: Breaks, s: string, r: nat, k: nat)
    requires r < k <= |s| && breaks(s[..r + 1])
    ensures Clusters(breaks, s[..k]) > Clusters(breaks, s[..r])
  {
    ClustersOfPrefix(breaks, s[..k], r + 1);
    assert s[..k][..r + 1] == s[..r + 1] && s[..r + 1][..r] == s[..r];
  }

  /** An argument is documented as refused when nothing typeable is left. It is refused exactly when the collapsed
      text is all backslashes and spaces, or starts with so many that its first other character lies past 80
      clusters. */
  lemma RefusedArguments(breaks: Breaks, raw: string)
    ensures var text := Collapsed(Spaced(raw));
      Argument(breaks, raw).None? <==>
      LeadingTails(text) == |text| || Clusters(breaks, text[..LeadingTails(text) + 1]) > MAX_GRAPHEMES
  {
    hide IsTail, Cut, Collapsed, Spaced, Clusters;
    var text := Collapsed(Spaced(raw));
    var cut, m := Cut(breaks, text, MAX_GRAPHEMES), LeadingTails(text);
    var clean := TrimmedEnd(cut);
    if clean != [] {
      assert cut[|clean| - 1] == clean[|clean| - 1] == text[|clean| - 1];
    }
    if m < |text| {
      CutReaches(breaks, text, MAX_GRAPHEMES, m + 1);
      if m < |cut| {
        assert cut[m] == text[m];
      }
    }
  }

  function Backslashes(n: nat): (s: string)
    ensures |s| == n && forall k | 0 <= k < n :: s[k] == '\\'
  {
    seq(n, k => '\\')
  }

  lemma {:induction false} OneClusterEach(s: string)
    ensures Clusters(_ => true, s) == |s|
  {
    if s != [] {
      OneClusterEach(s[..|s| - 1]);
    }
  }

  /** So a name can be refused although something typeable is left in it, past the cut. */
  lemma RefusedThoughTypeable()
    ensures Argument(_ => true, Backslashes(MAX_GRAPHEMES) + "a").None?
  {
    var raw := Backslashes(MAX_GRAPHEMES) + "a";
    var breaks: Breaks := _ => true;
    SpacedIsPlain(raw);
    LineIsCollapsed(raw);
    OneClusterEach(raw);
    assert raw[..MAX_GRAPHEMES + 1] == raw;
    hide Collapsed, Spaced, Clusters;
    RefusedArguments(breaks, raw);
  }

  // ----- Commands -----

  datatype Command = Rename(name: string) | SetColor(color: Color) | Desktop

  /** The commands there are: a name is only ever a safe argument. */
  ghost predicate IsCommand(breaks: Breaks, c: Command) {
    c.Rename? ==> exists raw :: Argument(breaks, raw) == Some(c.name)
  }

  /** The line shown, and typed. */
  function Line(c: Command): string {
    match c
    case Rename(name) => "/rename " + name
    case SetColor(color) => "/color " + Name(color)
    case Desktop => "/desktop"
  }

  const CTRL_U: byte := 0x15
  const ENTER: byte := 0x0D

  /** The two writes: the draft cleared and the line typed, then Enter on its own. */
  function Keystrokes(c: Command): (seq<byte>, seq<byte>) {
    ([CTRL_U] + Encode(Line(c)), [ENTER])
  }

  predicate IsVerb(s: string) {
    s != [] && forall k | 0 <= k < |s| :: s[k] == '/' || 'a' <= s[k] <= 'z'
  }

  lemma VerbIsLine(s: string)
    requires IsVerb(s)
    ensures IsLine(s) && !IsWhitespace(s[|s| - 1]) && !IsTail(s[|s| - 1])
  {
  }

  lemma VerbThenName(verb: string, name: string)
    requires IsVerb(verb) && IsLine(name) && name != [] && !IsTail(name[|name| - 1])
    ensures var s := verb + " " + name; IsLine(s) && !IsTail(s[|s| - 1])
  {
    VerbIsLine(verb);
    hide IsInvisibleFormat, IsControl, IsVerb;
    var s, n := verb + " " + name, |verb| + 1;
    assert s[|verb|] == ' ' && !IsWhitespace(s[|verb| - 1]) && !BreaksLine(' ') && !IsInvisibleFormat(' ') by {
      SpaceIsPlain();
    }
    forall k | 0 <= k < |s|
      ensures !IsInvisibleFormat(s[k]) && !BreaksLine(s[k])
      ensures IsWhitespace(s[k]) ==> s[k] == ' ' && k > 0 && !IsWhitespace(s[k - 1])
    {
      if k >= n {
        assert s[k] == name[k - n];
        assert k > n ==> s[k - 1] == name[k - n - 1];
      } else if k < |verb| {
        assert s[k] == verb[k];
      }
    }
  }

  lemma SpaceIsPlain()
    ensures !BreaksLine(' ') && !IsInvisibleFormat(' ')
  {
  }

  lemma ColorNamesAreVerbs(color: Color)
    ensures IsVerb(Name(color))
  {
  }

  lemma VerbLine(verb: string, name: string)
    requires IsVerb(verb) && IsLine(name) && name != [] && !IsTail(name[|name| - 1])
    ensures var s := verb + (" " + name); IsLine(s) && s != [] && !IsTail(s[|s| - 1])
  {
    hide IsLine, IsTail, IsVerb;
    VerbThenName(verb, name);
    assert verb + (" " + name) == verb + " " + name;
  }

  lemma LinePrefixes(name: string)
    ensures "/rename " + name == "/rename" + (" " + name) && "/color " + name == "/color" + (" " + name)
  {
  }

  lemma VerbsAreVerbs()
    ensures IsVerb("/rename") && IsVerb("/color") && IsVerb("/desktop")
  {
  }

  lemma NameIsSafe(breaks: Breaks, name: string)
    requires IsCommand(breaks, Rename(name))
    ensures IsLine(name) && name != [] && !IsTail(name[|name| - 1])
  {
    hide IsLine, IsTail, Argument;
    var raw :| Argument(breaks, raw) == Some(name);
    ArgumentsAreSafe(breaks, raw);
  }

  lemma LinesAreLines(breaks: Breaks, c: Command)
    requires IsCommand(breaks, c)
    ensures IsLine(Line(c)) && Line(c) != [] && !IsTail(Line(c)[|Line(c)| - 1])
  {
    hide IsLine, IsTail, IsVerb, Name, IsCommand;
    VerbsAreVerbs();
    match c
    case Rename(name) =>
      NameIsSafe(breaks, name);
      LinePrefixes(name);
      VerbLine("/rename", name);
    case SetColor(color) =>
      ColorNamesAreVerbs(color);
      VerbIsLine(Name(color));
      VerbSomething(Name(color));
      LinePrefixes(Name(color));
      VerbLine("/color", Name(color));
    case Desktop =>
      VerbIsLine("/desktop");
  }

  lemma VerbSomething(s: string)
    requires IsVerb(s)
    ensures s != []
  {
  }

  /** A byte below 0x80 in encoded text is one of its characters. */
  lemma {:induction false} LowBytesAreCharacters(s: string, k: nat)
    requires k < |Encode(s)| && Encode(s)[k] < 0x80
    ensures exists j :: 0 <= j < |s| && s[j] as int == Encode(s)[k]
  {
    var n := |EncodeChar(s[0])|;
    if k < n {
      assert Encode(s)[k] == EncodeChar(s[0])[k];
    } else {
      LowBytesAreCharacters(s[1..], k - n);
      var j :| 0 <= j < |s[1..]| && s[1..][j] as int == Encode(s[1..])[k - n];
      assert s[j + 1] as int == Encode(s)[k];
    }
  }

  /** The keystrokes of any command press Enter once, last, after exactly the line shown; before it the
      only control byte is the Ctrl+U that clears the draft. */
  lemma EnterIsPressedOnceAndLast(breaks: Breaks, c: Command)
    requires IsCommand(breaks, c)
    ensures var (typed, enter) := Keystrokes(c);
      && enter == [ENTER] && typed != [] && typed[0] == CTRL_U
      && Decode(typed[1..]) == Some(Line(c))
      && forall k | 1 <= k < |typed| :: typed[k] >= 0x20 && typed[k] != 0x7F
  {
    hide Encode, Decode, IsLine;
    var typed := Keystrokes(c).0;
    assert typed[1..] == Encode(Line(c));
    DecodeEncode(Line(c));
    LinesAreLines(breaks, c);
    forall k | 1 <= k < |typed| ensures typed[k] >= 0x20 && typed[k] != 0x7F {
      LineBytes(Line(c), k - 1);
    }
  }

  lemma LineBytes(s: string, k: nat)
    requires IsLine(s) && k < |Encode(s)|
    ensures Encode(s)[k] >= 0x20 && Encode(s)[k] != 0x7F
  {
    hide Encode;
    if Encode(s)[k] < 0x80 {
      LowBytesAreCharacters(s, k);
      var j :| 0 <= j < |s| && s[j] as int == Encode(s)[k];
      assert !BreaksLine(s[j]);
    }
  }
}
