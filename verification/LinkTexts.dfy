/** What is marked as a link, read off the characters alone: the schemes, the URL characters, and the prose dropped
    at the end. */
module LinkTexts {
  import opened Wrappers
  import opened Chars
  import opened Links

  const SIGNS: string := "0123456789-._~:/?#[]@!$&'()*+,;=%"
  const URL_CHARACTERS: string := LOWER + UPPER + SIGNS

  const SCHEME_SET: set<string> := {"https://", "http://", "file://", "ftp://", "termherd://"}

  /** One of the five schemes, in any case, at `i`, of length `n`. */
  ghost predicate SchemeOf(line: string, i: nat, n: nat) {
    i + n <= |line| && exists scheme <- SCHEME_SET :: |scheme| == n && SameIgnoringCase(line[i..i + n], scheme)
  }

  /** A text whose last character is prose: punctuation, or a closing bracket of which it holds more than it
      opens. */
  ghost predicate EndsInProse(text: string)
    requires text != []
  {
    var c := text[|text| - 1];
    || c in {'.', ',', ';', ':', '!', '?', '\''}
    || (c == ')' && multiset(text)[')'] > multiset(text)['('])
    || (c == ']' && multiset(text)[']'] > multiset(text)['['])
  }

  lemma {:induction false} CountIs(s: string, c: char)
    ensures Count(s, c) == multiset(s)[c]
  {
    if s != [] {
      CountIs(s[..|s| - 1], c);
      assert s == s[..|s| - 1] + [s[|s| - 1]];
    }
  }

  lemma DroppableIs(line: string, start: nat, end: nat)
    requires start < end <= |line|
    ensures Droppable(line, start, end) <==> EndsInProse(line[start..end])
  {
    var text := line[start..end];
    CountIs(text, '(');
    CountIs(text, ')');
    CountIs(text, '[');
    CountIs(text, ']');
    assert text[|text| - 1] == line[end - 1];
    hide Count;
  }

  lemma UrlCharIs(c: char)
    ensures IsUrlChar(c) <==> c in URL_CHARACTERS
  {
    LettersIn(c);
    assert c in URL_CHARACTERS <==> c in LOWER || c in UPPER || c in SIGNS;
  }

  // ----- Schemes -----

  lemma StartsIs(line: string, i: nat, scheme: string)
    ensures StartsWithScheme(line, i, scheme) <==>
      i + |scheme| <= |line| && SameIgnoringCase(line[i..i + |scheme|], scheme)
  {
    hide AsciiLower;
    if i + |scheme| <= |line| {
      var sub := line[i..i + |scheme|];
      assert forall k | 0 <= k < |scheme| :: sub[k] == line[i + k];
    }
  }

  lemma SchemeFromIs(line: string, i: nat, n: nat)
    ensures SchemeFrom(line, i, n).Some? <==> exists m :: n <= m < |SCHEMES| && StartsWithScheme(line, i, SCHEMES[m])
    ensures SchemeFrom(line, i, n).Some? ==>
      exists m :: n <= m < |SCHEMES| && StartsWithScheme(line, i, SCHEMES[m]) && SchemeFrom(line, i, n).value == |SCHEMES[m]|
    decreases |SCHEMES| - n
  {
    hide StartsWithScheme;
    if n < |SCHEMES| && !StartsWithScheme(line, i, SCHEMES[n]) {
      SchemeFromIs(line, i, n + 1);
    }
  }

  /** No place starts with two schemes of different lengths. */
  lemma OneLength(line: string, i: nat, s: string, t: string)
    requires s in SCHEME_SET && t in SCHEME_SET && StartsWithScheme(line, i, s) && StartsWithScheme(line, i, t)
    ensures |s| == |t|
  {
    hide AsciiLower;
    LowerSchemes();
    if |s| < |t| {
      Apart(s, t);
    } else if |t| < |s| {
      Apart(t, s);
    }
  }

  lemma LowerSchemes()
    ensures forall s <- SCHEME_SET :: forall k | 0 <= k < |s| :: AsciiLower(s[k]) == s[k]
  {
  }

  lemma Apart(s: string, t: string)
    requires s in SCHEME_SET && t in SCHEME_SET && |s| < |t|
    ensures exists k :: 0 <= k < |s| && s[k] != t[k]
  {
    if t == "termherd://" {
      assert s[0] != t[0];
    } else if s == "ftp://" {
      assert s[1] != t[1] || s[0] != t[0];
    } else {
      assert t == "https://";
      assert s[0] != t[0] || s[4] != t[4];
    }
  }

  lemma SchemesListed(s: string)
    ensures s in SCHEME_SET <==> exists m :: 0 <= m < |SCHEMES| && SCHEMES[m] == s
  {
    assert SCHEMES[0] == "https://" && SCHEMES[1] == "http://" && SCHEMES[2] == "file://";
    assert SCHEMES[3] == "ftp://" && SCHEMES[4] == "termherd://";
  }

  lemma SchemeAtIs(line: string, i: nat, n: nat)
    ensures SchemeAt(line, i) == Some(n) <==> SchemeOf(line, i, n)
  {
    hide StartsWithScheme, SameIgnoringCase, SchemeFrom;
    SchemeFromIs(line, i, 0);
    if SchemeOf(line, i, n) {
      var s :| s in SCHEME_SET && |s| == n && SameIgnoringCase(line[i..i + n], s);
      SchemesListed(s);
      StartsIs(line, i, s);
      var m :| 0 <= m < |SCHEMES| && StartsWithScheme(line, i, SCHEMES[m]) && SchemeFrom(line, i, 0).value == |SCHEMES[m]|;
      SchemesListed(SCHEMES[m]);
      OneLength(line, i, s, SCHEMES[m]);
    }
    if SchemeAt(line, i) == Some(n) {
      var m :| 0 <= m < |SCHEMES| && StartsWithScheme(line, i, SCHEMES[m]) && SchemeFrom(line, i, 0).value == |SCHEMES[m]|;
      SchemesListed(SCHEMES[m]);
      StartsIs(line, i, SCHEMES[m]);
    }
  }

  /** A scheme on a word boundary, as the rows on runs speak of it. */
  lemma CandidateIs(alnum: char -> bool, line: string, i: nat)
    requires i < |line|
    ensures IsCandidate(alnum, line, i) <==> (exists n: nat :: SchemeOf(line, i, n)) && (i == 0 || !alnum(line[i - 1]))
  {
    hide SchemeFrom, SchemeOf;
    forall n: nat ensures SchemeAt(line, i) == Some(n) <==> SchemeOf(line, i, n) {
      SchemeAtIs(line, i, n);
    }
    if SchemeAt(line, i).Some? {
      assert SchemeOf(line, i, SchemeAt(line, i).value);
    }
  }

  // ----- The links of a line -----

  /** From a scheme on a word boundary, all the URL characters after it up to `raw`, and of them up to the last
      place that does not end in prose. */
  ghost predicate IsLink(alnum: char -> bool, line: string, start: nat, n: nat, raw: nat, end: nat) {
    && SchemeOf(line, start, n) && (start == 0 || start > |line| || !alnum(line[start - 1]))
    && start + n < end <= raw <= |line|
    && (forall k | start + n <= k < raw :: line[k] in URL_CHARACTERS) && (raw < |line| ==> line[raw] !in URL_CHARACTERS)
    && !EndsInProse(line[start..end]) && forall e | end < e <= raw :: EndsInProse(line[start..e])
  }

  lemma RunIsLink(alnum: char -> bool, line: string, r: Run)
    requires IsRun(alnum, line, r) && r.end > r.body
    ensures IsLink(alnum, line, r.start, r.body - r.start, r.rawEnd, r.end)
  {
    hide SchemeFrom, IsUrlChar, IsTrimmed, EndsInProse, SchemeOf;
    SchemeAtIs(line, r.start, r.body - r.start);
    RunShape(alnum, line, r);
    TrimmedEnd(line, r);
    forall k | 0 <= k < |line| ensures IsUrlChar(line[k]) <==> line[k] in URL_CHARACTERS {
      UrlCharIs(line[k]);
    }
  }

  lemma TrimmedEnd(line: string, r: Run)
    requires r.start < r.body <= r.rawEnd <= |line| && r.end > r.body && IsTrimmed(line, r.start, r.body, r.rawEnd, r.end)
    ensures r.end <= r.rawEnd && !EndsInProse(line[r.start..r.end])
    ensures forall e | r.end < e <= r.rawEnd :: EndsInProse(line[r.start..e])
  {
    hide Droppable, EndsInProse;
    forall e | r.end <= e <= r.rawEnd ensures Droppable(line, r.start, e) <==> EndsInProse(line[r.start..e]) {
      DroppableIs(line, r.start, e);
    }
  }

  ghost predicate IsSomeLink(alnum: char -> bool, line: string, s: Span) {
    exists n: nat, raw: nat :: IsLink(alnum, line, s.start, n, raw, s.end)
  }

  /** Every link of a line is that: scheme, whole run of URL characters, trailing prose left out and nothing more. */
  lemma {:induction false} EveryLinkReads(alnum: char -> bool, line: string, from: nat, runs: seq<Run>, k: nat)
    requires AreTheRuns(alnum, line, from, runs) && k < |Spans(runs)|
    ensures IsSomeLink(alnum, line, Spans(runs)[k])
    decreases |runs|
  {
    hide AreTheRuns, IsSomeLink, IsRun;
    var r, rest := runs[0], Spans(runs[1..]);
    FirstIsRun(alnum, line, from, runs);
    RestAreTheRuns(alnum, line, from, runs);
    if r.end > r.body {
      assert Spans(runs) == [Span(r.start, r.end)] + rest;
      if k == 0 {
        FirstIsLink(alnum, line, r);
      } else {
        EveryLinkReads(alnum, line, r.rawEnd, runs[1..], k - 1);
      }
    } else {
      assert Spans(runs) == rest;
      EveryLinkReads(alnum, line, r.rawEnd, runs[1..], k);
    }
  }

  lemma FirstIsLink(alnum: char -> bool, line: string, r: Run)
    requires IsRun(alnum, line, r) && r.end > r.body
    ensures IsSomeLink(alnum, line, Span(r.start, r.end))
  {
    hide IsLink, IsRun;
    RunShape(alnum, line, r);
    RunIsLink(alnum, line, r);
    assert IsLink(alnum, line, r.start, r.body - r.start, r.rawEnd, r.end);
  }

  // ----- A URL on its own -----

  /** The one run of a scheme followed by URL characters only. */
  lemma UrlIsOneRun(alnum: char -> bool, text: string, n: nat, runs: seq<Run>)
    requires SchemeOf(text, 0, n) && (forall k | n <= k < |text| :: text[k] in URL_CHARACTERS)
    requires AreTheRuns(alnum, text, 0, runs)
    ensures |runs| == 1 && runs[0].start == 0 && runs[0].body == n && runs[0].rawEnd == |text|
    ensures IsTrimmed(text, 0, n, |text|, runs[0].end)
  {
    hide SchemeFrom, IsUrlChar, IsTrimmed;
    SchemeAtIs(text, 0, n);
    SchemeSomewhere(text, n);
    hide SchemeOf;
    assert IsCandidate(alnum, text, 0);
    var k := Covering(alnum, text, 0, runs, 0);
    forall x | 0 <= x < |text| ensures IsUrlChar(text[x]) <==> text[x] in URL_CHARACTERS {
      UrlCharIs(text[x]);
    }
    assert IsRun(alnum, text, runs[k]) && runs[k].start == 0;
    assert runs[k].rawEnd == |text|;
    if |runs| > 1 {
      OnlyRun(alnum, text, runs, k);
    }
  }

  lemma SchemeSomewhere(text: string, n: nat)
    requires SchemeOf(text, 0, n)
    ensures 0 < n <= |text|
  {
  }

  lemma OnlyRun(alnum: char -> bool, text: string, runs: seq<Run>, k: nat)
    requires AreTheRuns(alnum, text, 0, runs) && k < |runs| && runs[k].start == 0 && runs[k].rawEnd == |text|
    ensures |runs| == 1
  {
    hide IsRun;
    if |runs| > 1 {
      var j := if k == 0 then 1 else 0;
      RunShape(alnum, text, runs[j]);
    }
  }

  /** A scheme followed by URL characters only is marked up to `end` exactly when no later end is free of prose and
      this one is; and not at all exactly when every end leaves prose. */
  lemma UrlIsMarked(alnum: char -> bool, text: string, n: nat, runs: seq<Run>, end: nat)
    requires SchemeOf(text, 0, n) && (forall k | n <= k < |text| :: text[k] in URL_CHARACTERS)
    requires AreTheRuns(alnum, text, 0, runs)
    ensures Spans(runs) == [Span(0, end)] <==>
      n < end <= |text| && !EndsInProse(text[..end]) && forall e | end < e <= |text| :: EndsInProse(text[..e])
    ensures Spans(runs) == [] <==> forall e | n < e <= |text| :: EndsInProse(text[..e])
  {
    hide Droppable, EndsInProse, SchemeOf, AreTheRuns;
    UrlIsOneRun(alnum, text, n, runs);
    SchemeSomewhere(text, n);
    var r := runs[0];
    assert runs == [r];
    SpansOfOneRun(r);
    forall e | 0 < e <= |text| ensures Droppable(text, 0, e) <==> EndsInProse(text[..e]) {
      DroppableIs(text, 0, e);
      assert text[0..e] == text[..e];
    }
  }

  lemma SpansOfOneRun(r: Run)
    ensures Spans([r]) == if r.end > r.body then [Span(r.start, r.end)] else []
  {
    assert Spans([r][1..]) == [];
  }

  /** A URL is marked whole exactly when it does not end in punctuation and, ending in a closing bracket, opens at
      least as many as it closes. */
  lemma UrlIsMarkedWhole(alnum: char -> bool, text: string, n: nat, runs: seq<Run>)
    requires SchemeOf(text, 0, n) && n < |text| && (forall k | n <= k < |text| :: text[k] in URL_CHARACTERS)
    requires AreTheRuns(alnum, text, 0, runs)
    ensures Spans(runs) == [Span(0, |text|)] <==>
      && text[|text| - 1] !in {'.', ',', ';', ':', '!', '?', '\''}
      && (text[|text| - 1] == ')' ==> multiset(text)[')'] <= multiset(text)['('])
      && (text[|text| - 1] == ']' ==> multiset(text)[']'] <= multiset(text)['['])
  {
    hide SchemeOf, AreTheRuns, Spans, EndsInProse;
    UrlIsMarked(alnum, text, n, runs, |text|);
    assert text[..|text|] == text;
    NoProse(text);
  }

  lemma NoProse(text: string)
    requires text != ""
    ensures !EndsInProse(text) <==>
      && text[|text| - 1] !in {'.', ',', ';', ':', '!', '?', '\''}
      && (text[|text| - 1] == ')' ==> multiset(text)[')'] <= multiset(text)['('])
      && (text[|text| - 1] == ']' ==> multiset(text)[']'] <= multiset(text)['['])
  {
  }
}
