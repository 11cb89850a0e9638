/** What a command argument is made of, read off the characters alone: what is dropped, what becomes a space, and
    where the line is cut. */
module ArgumentTexts {
  import opened Wrappers
  import opened Sequences
  import opened Utf8
  import opened Chars
  import opened Text
  import opened ClaudeColor
  import opened ClaudeCommand

  /** Invisible formatting, every character of it. */
  ghost predicate IsUnseen(c: char) {
    || c in {'\U{AD}', '\U{61C}', '\U{180E}', '\U{200B}', '\U{200E}', '\U{200F}', '\U{FEFF}'}
    || c in {'\U{202A}', '\U{202B}', '\U{202C}', '\U{202D}', '\U{202E}'}
    || c in {'\U{2060}', '\U{2061}', '\U{2062}', '\U{2063}', '\U{2064}', '\U{2065}', '\U{2066}', '\U{2067}', '\U{2068}', '\U{2069}'}
    || '\U{E0000}' <= c < '\U{E0080}'
  }

  /** Controls, and the separators of lines and of paragraphs. */
  ghost predicate IsBreak(c: char) {
    c < ' ' || '\U{7F}' <= c < '\U{A0}' || c == '\U{2028}' || c == '\U{2029}'
  }

  lemma UnseenIs(c: char)
    ensures IsUnseen(c) <==> IsInvisibleFormat(c)
    ensures IsBreak(c) <==> BreaksLine(c)
  {
  }

  lemma {:induction false} SpacedConcat(a: string, b: string)
    ensures Spaced(a + b) == Spaced(a) + Spaced(b)
  {
    hide IsInvisibleFormat, BreaksLine;
    if a == "" {
      assert a + b == b;
    } else {
      TailOfConcat(a, b);
      SpacedConcat(a[1..], b);
      Associative(if IsInvisibleFormat(a[0]) then [] else [if BreaksLine(a[0]) then ' ' else a[0]], Spaced(a[1..]), Spaced(b));
    }
  }

  lemma SpacedAround(a: string, middle: string, b: string)
    ensures Spaced(a + middle + b) == Spaced(a) + Spaced(middle) + Spaced(b)
  {
    hide Spaced;
    SpacedConcat(a + middle, b);
    SpacedConcat(a, middle);
  }

  lemma SpacedOne(c: char)
    ensures Spaced([c]) == if IsUnseen(c) then "" else if IsBreak(c) then " " else [c]
  {
    UnseenIs(c);
    hide IsInvisibleFormat, BreaksLine, IsUnseen, IsBreak;
    assert Spaced([c][1..]) == "";
  }

  /** A character of invisible formatting might as well not be there. */
  lemma UnseenIsDropped(breaks: Breaks, a: string, c: char, b: string)
    requires IsUnseen(c)
    ensures Argument(breaks, a + [c] + b) == Argument(breaks, a + b)
  {
    hide Spaced, IsUnseen, Collapsed, Cut;
    SpacedAround(a, [c], b);
    SpacedOne(c);
    SpacedConcat(a, b);
    assert Spaced(a) + "" == Spaced(a);
  }

  /** A character that would end the line is as good as a space. */
  lemma BreakIsASpace(breaks: Breaks, a: string, c: char, b: string)
    requires IsBreak(c)
    ensures Argument(breaks, a + [c] + b) == Argument(breaks, a + " " + b)
  {
    assert !IsUnseen(c);
    SpaceIsSpace();
    hide Spaced, IsUnseen, IsBreak, Collapsed, Cut;
    SpacedAround(a, [c], b);
    SpacedAround(a, " ", b);
    SpacedOne(c);
  }

  lemma SpaceIsSpace()
    ensures Spaced(" ") == " "
  {
    SpacedOne(' ');
  }

  // ----- Whitespace -----

  lemma {:induction false} BlankStart(blank: string, s: string)
    requires IsBlank(blank)
    ensures Words(blank + s) == Words(s)
  {
    hide IsWhitespace;
    if blank == "" {
      assert blank + s == s;
    } else {
      assert blank[0] in blank && forall c <- blank[1..] :: c in blank;
      TailOfConcat(blank, s);
      BlankStart(blank[1..], s);
    }
  }

  lemma FirstWord(w: string, rest: string)
    requires IsSolid(w) && (rest == "" || IsWhitespace(rest[0]))
    ensures Words(w + rest) == [w] + Words(rest)
  {
    hide IsWhitespace, Words, WordLength;
    WordLengthIs(w, rest);
    WordThenRest(w, rest);
  }

  lemma WordAtStart(s: string)
    requires s != "" && !IsWhitespace(s[0])
    ensures WordLength(s) > 0 && IsSolid(s[..WordLength(s)])
    ensures Words(s) == [s[..WordLength(s)]] + Words(s[WordLength(s)..])
  {
  }

  /** The words on both sides of a run of whitespace. */
  lemma {:induction false} WordsOver(s: string, blank: string, t: string)
    requires IsBlank(blank) && blank != ""
    ensures Words(s + blank + t) == Words(s) + Words(t)
    decreases |s|
  {
    hide IsWhitespace, WordLength;
    Associative(s, blank, t);
    var tail := blank + t;
    if s == "" {
      BlankStart(blank, t);
      assert s + tail == tail && [] + Words(t) == Words(t);
    } else if IsWhitespace(s[0]) {
      TailOfConcat(s, tail);
      Associative(s[1..], blank, t);
      WordsOver(s[1..], blank, t);
    } else {
      hide Words;
      var n := WordLength(s);
      WordAtStart(s);
      WordsOver(s[n..], blank, t);
      Associative(s[n..], blank, t);
      assert blank[0] in blank && tail[0] == blank[0];
      WordThenOver(s, n, tail, t);
    }
  }

  lemma WordThenOver(s: string, n: nat, tail: string, t: string)
    requires n <= |s| && IsSolid(s[..n]) && Words(s) == [s[..n]] + Words(s[n..])
    requires tail != "" && IsWhitespace(tail[0]) && (n < |s| ==> IsWhitespace(s[n]))
    requires Words(s[n..] + tail) == Words(s[n..]) + Words(t)
    ensures Words(s + tail) == Words(s) + Words(t)
  {
    hide IsWhitespace, Words;
    var w, rest := s[..n], s[n..] + tail;
    assert s == w + s[n..];
    Associative(w, s[n..], tail);
    FirstWord(w, rest);
    Associative([w], Words(s[n..]), Words(t));
  }

  lemma {:induction false} BlankSpaced(blank: string)
    requires IsBlank(blank)
    ensures IsBlank(Spaced(blank)) && |Spaced(blank)| == |blank|
  {
    if blank != "" {
      assert blank[0] in blank && forall c <- blank[1..] :: c in blank;
      BlankSpaced(blank[1..]);
      WhitespaceIsSeen(blank[0]);
    }
  }

  lemma WhitespaceIsSeen(c: char)
    requires IsWhitespace(c)
    ensures !IsInvisibleFormat(c) && IsWhitespace(' ')
  {
  }

  lemma WordsDecide(breaks: Breaks, r: string, s: string)
    requires Words(Spaced(r)) == Words(Spaced(s))
    ensures Argument(breaks, r) == Argument(breaks, s)
  {
  }

  /** A run of whitespace, of any kind and length, is as good as one space, and at either end as nothing. */
  lemma BlankRunIsASpace(breaks: Breaks, a: string, blank: string, b: string)
    requires IsBlank(blank) && blank != ""
    ensures Argument(breaks, a + blank + b) == Argument(breaks, a + " " + b)
    ensures Argument(breaks, blank + b) == Argument(breaks, b) && Argument(breaks, a + blank) == Argument(breaks, a)
  {
    var space := " ";
    assert IsBlank(space);
    hide IsWhitespace, Words, Spaced, IsBlank, Argument;
    BlankSpaced(blank);
    SpaceIsSpace();
    SpacedAround(a, blank, b);
    SpacedAround(a, space, b);
    WordsOver(Spaced(a), Spaced(blank), Spaced(b));
    WordsOver(Spaced(a), space, Spaced(b));
    WordsDecide(breaks, a + blank + b, a + space + b);
    SpacedConcat(blank, b);
    BlankStart(Spaced(blank), Spaced(b));
    WordsDecide(breaks, blank + b, b);
    SpacedConcat(a, blank);
    WordsOver(Spaced(a), Spaced(blank), "");
    assert Spaced(a) + Spaced(blank) + "" == Spaced(a) + Spaced(blank);
    NoWords();
    assert Words(Spaced(a)) + [] == Words(Spaced(a));
    WordsDecide(breaks, a + blank, a);
  }

  lemma NoWords()
    ensures Words("") == []
  {
  }

  // ----- What is left -----

  /** A line as it is typed, character by character. */
  ghost predicate IsTyped(s: string) {
    && (forall k | 0 <= k < |s| :: !IsUnseen(s[k]) && !IsBreak(s[k]))
    && (forall k | 0 <= k < |s| && IsWhitespace(s[k]) :: s[k] == ' ' && 0 < k < |s| - 1 && !IsWhitespace(s[k - 1]))
  }

  lemma TypedIs(s: string)
    ensures IsTyped(s) <==> IsLine(s) && (s == "" || !IsWhitespace(s[|s| - 1]))
  {
    hide IsWhitespace, IsUnseen, IsBreak, IsInvisibleFormat, BreaksLine;
    forall k | 0 <= k < |s| ensures (IsUnseen(s[k]) <==> IsInvisibleFormat(s[k])) && (IsBreak(s[k]) <==> BreaksLine(s[k])) {
      UnseenIs(s[k]);
    }
  }

  /** A line typed as given is cut after 80 clusters, where another begins, or nowhere; then the backslashes and spaces
      it ends on go, and it is refused exactly when nothing is left. */
  lemma TypedLineIsCut(breaks: Breaks, s: string, n: nat)
    requires IsTyped(s) && n <= |s|
    requires if Clusters(breaks, s) <= 80 then n == |s| else n < |s| && Clusters(breaks, s[..n]) == 80 && breaks(s[..n + 1])
    ensures match Argument(breaks, s)
            case None => forall k | 0 <= k < n :: s[k] == '\\' || s[k] == ' '
            case Some(clean) =>
              && clean != "" && clean <= s[..n] && clean[|clean| - 1] != '\\' && clean[|clean| - 1] != ' '
              && forall k | |clean| <= k < n :: s[k] == '\\' || s[k] == ' '
  {
    hide Argument, Clusters, IsUnseen, IsBreak, IsWhitespace, TrimmedEnd;
    LineIsKept(breaks, s, n);
    var cut := s[..n];
    assert forall k | 0 <= k < n :: cut[k] == s[k];
    assert forall k | 0 <= k < n && IsWhitespace(s[k]) :: s[k] == ' ';
    EndDropped(cut);
  }

  lemma LineIsKept(breaks: Breaks, s: string, n: nat)
    requires IsTyped(s) && n <= |s|
    requires if Clusters(breaks, s) <= 80 then n == |s| else n < |s| && Clusters(breaks, s[..n]) == 80 && breaks(s[..n + 1])
    ensures Argument(breaks, s) == if TrimmedEnd(s[..n]) == "" then None else Some(TrimmedEnd(s[..n]))
  {
    hide IsTyped, IsLine, IsWhitespace, Clusters, Cut, Collapsed, Spaced, TrimmedEnd, BreaksLine, IsInvisibleFormat;
    TypedIs(s);
    PlainLine(s);
    SpacedIsPlain(s);
    LineIsCollapsed(s);
    CutPlace(breaks, s, n);
  }

  lemma PlainLine(s: string)
    requires IsLine(s)
    ensures IsPlain(s)
  {
  }

  lemma EndDropped(cut: string)
    requires forall k | 0 <= k < |cut| && IsWhitespace(cut[k]) :: cut[k] == ' '
    ensures var clean := TrimmedEnd(cut);
      && clean <= cut && (clean != "" ==> clean[|clean| - 1] != '\\' && clean[|clean| - 1] != ' ')
      && forall k | |clean| <= k < |cut| :: cut[k] == '\\' || cut[k] == ' '
  {
    hide IsWhitespace, TrimmedEnd;
    SpaceIsBlank();
  }

  lemma SpaceIsBlank()
    ensures IsWhitespace(' ')
  {
  }

  lemma CutPlace(breaks: Breaks, s: string, n: nat)
    requires n <= |s|
    requires if Clusters(breaks, s) <= 80 then n == |s| else n < |s| && Clusters(breaks, s[..n]) == 80 && breaks(s[..n + 1])
    ensures Cut(breaks, s, MAX_GRAPHEMES) == s[..n]
  {
    if Clusters(breaks, s) <= 80 {
      assert s[..n] == s;
    } else {
      hide Clusters, Cut;
      CutReaches(breaks, s, MAX_GRAPHEMES, n);
      CutReaches(breaks, s, MAX_GRAPHEMES, n + 1);
      PastTheCut(breaks, s, n, n + 1);
    }
  }

  ghost predicate BeginsAt(breaks: Breaks, s: string, k: nat) {
    k < |s| && (k == 0 || breaks(s[..k + 1]))
  }

  ghost function Begins(breaks: Breaks, s: string): set<nat> {
    set k: nat | k < |s| && BeginsAt(breaks, s, k)
  }

  /** A text has as many clusters as characters that begin one: its first, and those in front of which it breaks. */
  lemma {:induction false} ClustersBegin(breaks: Breaks, s: string)
    ensures Clusters(breaks, s) == |Begins(breaks, s)|
  {
    if s == "" {
      assert Begins(breaks, s) == {};
    } else {
      var n, front := |s| - 1, s[..|s| - 1];
      ClustersBegin(breaks, front);
      forall k: nat | k < n ensures BeginsAt(breaks, front, k) <==> BeginsAt(breaks, s, k) {
        assert front[..k + 1] == s[..k + 1];
      }
      assert s[..n + 1] == s;
      assert Begins(breaks, s) == Begins(breaks, front) + if n == 0 || breaks(s) then {n} else {};
    }
  }

  // ----- The lines typed -----

  /** The line typed for each command, Ctrl+U before it, and the carriage return written after it. */
  lemma LinesTyped(name: string)
    ensures forall c :: Keystrokes(c).1 == [0x0D]
    ensures Keystrokes(Rename(name)).0 == [0x15] + Encode("/rename " + name)
    ensures Keystrokes(Desktop).0 == [0x15] + Encode("/desktop")
    ensures Keystrokes(SetColor(Red)).0 == [0x15] + Encode("/color red")
    ensures Keystrokes(SetColor(Blue)).0 == [0x15] + Encode("/color blue")
    ensures Keystrokes(SetColor(Green)).0 == [0x15] + Encode("/color green")
    ensures Keystrokes(SetColor(Yellow)).0 == [0x15] + Encode("/color yellow")
    ensures Keystrokes(SetColor(Purple)).0 == [0x15] + Encode("/color purple")
    ensures Keystrokes(SetColor(Orange)).0 == [0x15] + Encode("/color orange")
    ensures Keystrokes(SetColor(Pink)).0 == [0x15] + Encode("/color pink")
    ensures Keystrokes(SetColor(Cyan)).0 == [0x15] + Encode("/color cyan")
    ensures Keystrokes(SetColor(Default)).0 == [0x15] + Encode("/color default")
  {
    hide Encode;
    forall color ensures Line(SetColor(color)) == "/color " + Name(color) {}
    assert "/color " + "red" == "/color red" && "/color " + "blue" == "/color blue" && "/color " + "green" == "/color green";
    assert "/color " + "yellow" == "/color yellow" && "/color " + "purple" == "/color purple";
    assert "/color " + "orange" == "/color orange" && "/color " + "pink" == "/color pink";
    assert "/color " + "cyan" == "/color cyan" && "/color " + "default" == "/color default";
  }
}
