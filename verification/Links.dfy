/** Clickable URLs in one line of terminal text, as ranges of character positions. What counts as
    alphanumeric is Unicode's to say, so it is a parameter. */
module Links {
  import opened Wrappers
  import opened Chars

  const SCHEMES: seq<string> := ["https://", "http://", "file://", "ftp://", "termherd://"]

  predicate StartsWithScheme(chars: string, i: nat, scheme: string) {
    i + |scheme| <= |chars| && forall k | 0 <= k < |scheme| :: AsciiLower(chars[i + k]) == AsciiLower(scheme[k])
  }

  /** The length of the first scheme in the list that starts at `i`. */
  function SchemeFrom(chars: string, i: nat, n: nat): Option<nat>
    decreases |SCHEMES| - n
  {
    if n >= |SCHEMES| then None
    else if StartsWithScheme(chars, i, SCHEMES[n]) then Some(|SCHEMES[n]|)
    else SchemeFrom(chars, i, n + 1)
  }

  function SchemeAt(chars: string, i: nat): Option<nat> {
    SchemeFrom(chars, i, 0)
  }

  predicate IsUrlChar(c: char) {
    'a' <= c <= 'z' || 'A' <= c <= 'Z' || '0' <= c <= '9' || c in "-._~:/?#[]@!$&'()*+,;=%"
  }

  function Count(s: string, c: char): nat {
    if s == [] then 0 else Count(s[..|s| - 1], c) + if s[|s| - 1] == c then 1 else 0
  }

  predicate Unbalanced(chars: string, start: nat, end: nat, open: char, close: char)
    requires start <= end <= |chars|
  {
    Count(chars[start..end], close) > Count(chars[start..end], open)
  }

  /** Whether the last character of `chars[start..end]` is prose rather than URL. */
  predicate Droppable(chars: string, start: nat, end: nat)
    requires start < end <= |chars|
  {
    var c := chars[end - 1];
    || c in ".,;:!?'"
    || (c == ')' && Unbalanced(chars, start, end, '(', ')'))
    || (c == ']' && Unbalanced(chars, start, end, '[', ']'))
  }

  /** `end` is where trimming `chars[body..rawEnd]` stops: everything after is dropped in turn. */
  ghost predicate IsTrimmed(chars: string, start: nat, body: nat, rawEnd: nat, end: nat)
    requires start <= body <= rawEnd <= |chars|
  {
    && body <= end <= rawEnd
    && (forall e | end < e <= rawEnd :: Droppable(chars, start, e))
    && (end > body ==> !Droppable(chars, start, end))
  }

  method TrimTrailing(chars: string, start: nat, body: nat, rawEnd: nat) returns (end: nat)
    requires start <= body <= rawEnd <= |chars|
    ensures IsTrimmed(chars, start, body, rawEnd, end)
  {
    end := rawEnd;
    while end > body && Droppable(chars, start, end)
      invariant body <= end <= rawEnd
      invariant forall e | end < e <= rawEnd :: Droppable(chars, start, e)
    {
      end := end - 1;
    }
  }

  // ----- What a line holds -----

  /** A scheme on a word boundary. */
  predicate IsCandidate(alnum: char -> bool, chars: string, i: nat) {
    i < |chars| && SchemeAt(chars, i).Some? && (i == 0 || !alnum(chars[i - 1]))
  }

  /** A candidate with its whole run of URL characters, and where that run trims to. */
  datatype Run = Run(start: nat, body: nat, rawEnd: nat, end: nat)

  datatype Span = Span(start: nat, end: nat)

  ghost predicate IsRun(alnum: char -> bool, chars: string, r: Run) {
    && IsCandidate(alnum, chars, r.start)
    && r.body == r.start + SchemeAt(chars, r.start).value
    && r.body <= r.rawEnd <= |chars|
    && (forall k | r.body <= k < r.rawEnd :: IsUrlChar(chars[k]))
    && (r.rawEnd < |chars| ==> !IsUrlChar(chars[r.rawEnd]))
    && IsTrimmed(chars, r.start, r.body, r.rawEnd, r.end)
  }

  /** `runs` are the runs of the line: in order and apart, and every candidate either starts one or lies
      inside one that started before it. */
  ghost predicate AreTheRuns(alnum: char -> bool, chars: string, from: nat, runs: seq<Run>) {
    && (forall k | 0 <= k < |runs| :: IsRun(alnum, chars, runs[k]) && from <= runs[k].start)
    && (forall j, k | 0 <= j < k < |runs| :: runs[j].rawEnd <= runs[k].start)
    && forall i | from <= i && IsCandidate(alnum, chars, i) :: exists k :: 0 <= k < |runs| && Within(runs[k], i)
  }

  ghost predicate Within(r: Run, i: nat) {
    r.start == i || r.start < i < r.rawEnd
  }

  /** The links of a line: its runs that are more than a bare scheme. */
  function Spans(runs: seq<Run>): seq<Span> {
    if runs == [] then []
    else (if runs[0].end > runs[0].body then [Span(runs[0].start, runs[0].end)] else []) + Spans(runs[1..])
  }

  lemma SchemeLength(chars: string, i: nat, n: nat)
    ensures SchemeFrom(chars, i, n).Some? ==> 0 < SchemeFrom(chars, i, n).value <= |chars| - i
    decreases |SCHEMES| - n
  {
    if n < |SCHEMES| {
      SchemeLength(chars, i, n + 1);
    }
  }

  /** `runs` are the runs that start before `i`, none of them reaching past it. */
  ghost predicate RunsBefore(alnum: char -> bool, chars: string, i: nat, runs: seq<Run>) {
    && (forall k | 0 <= k < |runs| :: IsRun(alnum, chars, runs[k]) && runs[k].rawEnd <= i)
    && (forall j, k | 0 <= j < k < |runs| :: runs[j].rawEnd <= runs[k].start)
    && forall p | 0 <= p < i && IsCandidate(alnum, chars, p) :: exists k :: 0 <= k < |runs| && Within(runs[k], p)
  }

  lemma RunsPast(alnum: char -> bool, chars: string, i: nat, runs: seq<Run>)
    requires RunsBefore(alnum, chars, i, runs) && !IsCandidate(alnum, chars, i)
    ensures RunsBefore(alnum, chars, i + 1, runs)
  {
    hide IsRun, IsCandidate, Within;
  }

  lemma RunsAndOneMore(alnum: char -> bool, chars: string, i: nat, runs: seq<Run>, r: Run)
    requires RunsBefore(alnum, chars, i, runs) && IsRun(alnum, chars, r) && r.start == i < r.rawEnd
    ensures RunsBefore(alnum, chars, r.rawEnd, runs + [r])
  {
    hide IsRun, IsCandidate;
    var more := runs + [r];
    forall p | 0 <= p < r.rawEnd && IsCandidate(alnum, chars, p)
      ensures exists k :: 0 <= k < |more| && Within(more[k], p)
    {
      if p < i {
        var k :| 0 <= k < |runs| && Within(runs[k], p);
        assert Within(more[k], p);
      } else {
        assert Within(more[|runs|], p);
      }
    }
  }

  lemma RunsOfTheLine(alnum: char -> bool, chars: string, runs: seq<Run>)
    requires RunsBefore(alnum, chars, |chars|, runs)
    ensures AreTheRuns(alnum, chars, 0, runs)
  {
    hide IsRun, Within, SchemeAt;
  }

  /** `detect`: the links of the line, from its runs. */
  method Detect(alnum: char -> bool, chars: string) returns (spans: seq<Span>)
    ensures exists runs :: AreTheRuns(alnum, chars, 0, runs) && spans == Spans(runs)
  {
    hide SchemeFrom, IsTrimmed, IsUrlChar, Spans, RunsBefore, AreTheRuns;
    SpansOfNothing();
    NoRunsYet(alnum, chars);
    spans := [];
    ghost var runs: seq<Run> := [];
    var i := 0;
    while i < |chars|
      invariant 0 <= i <= |chars|
      invariant spans == Spans(runs) && RunsBefore(alnum, chars, i, runs)
    {
      var scheme := SchemeAt(chars, i);
      if scheme.Some? && (i == 0 || !alnum(chars[i - 1])) {
        SchemeLength(chars, i, 0);
        var body := i + scheme.value;
        var end := body;
        while end < |chars| && IsUrlChar(chars[end])
          invariant body <= end <= |chars|
          invariant forall k | body <= k < end :: IsUrlChar(chars[k])
        {
          end := end + 1;
        }
        var rawEnd := end;
        end := TrimTrailing(chars, i, body, end);
        ghost var r := Run(i, body, rawEnd, end);
        RunsAndOneMore(alnum, chars, i, runs, r);
        SpansAppend(runs, r);
        runs := runs + [r];
        if end > body {
          spans := spans + [Span(i, end)];
        }
        i := if rawEnd > i + 1 then rawEnd else i + 1;
      } else {
        RunsPast(alnum, chars, i, runs);
        i := i + 1;
      }
    }
    RunsOfTheLine(alnum, chars, runs);
  }

  lemma NoRunsYet(alnum: char -> bool, chars: string)
    ensures RunsBefore(alnum, chars, 0, [])
  {
  }

  lemma SpansOfNothing()
    ensures Spans([]) == []
  {
  }

  lemma {:induction false} SpansAppend(runs: seq<Run>, r: Run)
    ensures Spans(runs + [r]) == Spans(runs) + if r.end > r.body then [Span(r.start, r.end)] else []
  {
    if runs == [] {
      assert Spans([r][1..]) == [];
    } else {
      SpansAppend(runs[1..], r);
      assert (runs + [r])[1..] == runs[1..] + [r];
    }
  }

  // ----- The runs of a line are fixed by it -----

  lemma {:induction false} TrimmedIsUnique(chars: string, start: nat, body: nat, rawEnd: nat, e: nat, f: nat)
    requires start <= body <= rawEnd <= |chars|
    requires IsTrimmed(chars, start, body, rawEnd, e) && IsTrimmed(chars, start, body, rawEnd, f)
    ensures e == f
  {
  }

  lemma RunIsUnique(alnum: char -> bool, chars: string, r: Run, q: Run)
    requires IsRun(alnum, chars, r) && IsRun(alnum, chars, q) && r.start == q.start
    ensures r == q
  {
    assert r.rawEnd == q.rawEnd;
    TrimmedIsUnique(chars, r.start, r.body, r.rawEnd, r.end, q.end);
  }

  lemma RunShape(alnum: char -> bool, chars: string, r: Run)
    requires IsRun(alnum, chars, r)
    ensures IsCandidate(alnum, chars, r.start) && r.start < r.body <= r.rawEnd <= |chars|
  {
    SchemeLength(chars, r.start, 0);
  }

  /** Any two ways of reading a line's runs are the same, so its links are determined. */
  lemma {:induction false} RunsAreUnique(alnum: char -> bool, chars: string, from: nat, runs: seq<Run>, others: seq<Run>)
    requires AreTheRuns(alnum, chars, from, runs) && AreTheRuns(alnum, chars, from, others)
    ensures runs == others
    decreases |runs|
  {
    hide AreTheRuns, IsRun;
    if runs == [] {
      if others != [] {
        FirstRun(alnum, chars, from, others, runs);
      }
    } else {
      FirstRun(alnum, chars, from, runs, others);
      FirstIsRun(alnum, chars, from, runs);
      FirstIsRun(alnum, chars, from, others);
      RunIsUnique(alnum, chars, runs[0], others[0]);
      RestAreTheRuns(alnum, chars, from, runs);
      RestAreTheRuns(alnum, chars, from, others);
      RunsAreUnique(alnum, chars, runs[0].rawEnd, runs[1..], others[1..]);
    }
  }

  lemma FirstIsRun(alnum: char -> bool, chars: string, from: nat, runs: seq<Run>)
    requires AreTheRuns(alnum, chars, from, runs) && runs != []
    ensures IsRun(alnum, chars, runs[0]) && from <= runs[0].start && IsCandidate(alnum, chars, runs[0].start)
  {
    hide IsRun;
    RunShape(alnum, chars, runs[0]);
  }

  lemma Covering(alnum: char -> bool, chars: string, from: nat, runs: seq<Run>, i: nat) returns (k: nat)
    requires AreTheRuns(alnum, chars, from, runs) && from <= i && IsCandidate(alnum, chars, i)
    ensures k < |runs| && Within(runs[k], i) && runs[0].start <= runs[k].start
  {
    hide IsRun, IsCandidate;
    k :| 0 <= k < |runs| && Within(runs[k], i);
    RunShape(alnum, chars, runs[0]);
  }

  lemma FirstRun(alnum: char -> bool, chars: string, from: nat, runs: seq<Run>, others: seq<Run>)
    requires AreTheRuns(alnum, chars, from, runs) && AreTheRuns(alnum, chars, from, others) && runs != []
    ensures others != [] && others[0].start == runs[0].start
  {
    hide AreTheRuns, IsRun, IsCandidate;
    FirstIsRun(alnum, chars, from, runs);
    var k := Covering(alnum, chars, from, others, runs[0].start);
    FirstIsRun(alnum, chars, from, others);
    var j := Covering(alnum, chars, from, runs, others[0].start);
  }

  lemma RestAreTheRuns(alnum: char -> bool, chars: string, from: nat, runs: seq<Run>)
    requires AreTheRuns(alnum, chars, from, runs) && runs != []
    ensures AreTheRuns(alnum, chars, runs[0].rawEnd, runs[1..])
  {
    hide IsRun, IsCandidate;
    var rest := runs[1..];
    RunShape(alnum, chars, runs[0]);
    forall i | runs[0].rawEnd <= i && IsCandidate(alnum, chars, i)
      ensures exists k :: 0 <= k < |rest| && Within(rest[k], i)
    {
      var k :| 0 <= k < |runs| && Within(runs[k], i);
      assert Within(rest[k - 1], i);
    }
  }

  // ----- What a link is -----

  /** A link starts at a candidate, has a body of URL characters only, ends on one that is not dropped,
      and everything dropped from its run was droppable; links come in order and apart. */
  lemma {:induction false} EveryLinkIsAUrl(alnum: char -> bool, chars: string, from: nat, runs: seq<Run>, k: nat)
    requires AreTheRuns(alnum, chars, from, runs) && k < |Spans(runs)|
    ensures var s := Spans(runs)[k];
      && from <= s.start < s.end <= |chars| && IsCandidate(alnum, chars, s.start)
      && s.start + SchemeAt(chars, s.start).value < s.end
      && (forall x | s.start + SchemeAt(chars, s.start).value <= x < s.end :: IsUrlChar(chars[x]))
      && !Droppable(chars, s.start, s.end)
    ensures forall j | k < j < |Spans(runs)| :: Spans(runs)[k].end <= Spans(runs)[j].start
    decreases |runs|
  {
    hide SchemeFrom, IsUrlChar, Droppable, AreTheRuns;
    var r, rest := runs[0], Spans(runs[1..]);
    FirstIsRun(alnum, chars, from, runs);
    RunShape(alnum, chars, r);
    RestAreTheRuns(alnum, chars, from, runs);
    if r.end > r.body {
      if k > 0 {
        EveryLinkIsAUrl(alnum, chars, r.rawEnd, runs[1..], k - 1);
      } else {
        forall j | 0 < j < |Spans(runs)| ensures r.end <= Spans(runs)[j].start {
          EveryLinkIsAUrl(alnum, chars, r.rawEnd, runs[1..], j - 1);
        }
      }
    } else {
      EveryLinkIsAUrl(alnum, chars, r.rawEnd, runs[1..], k);
    }
  }

  /** No link is missed: a scheme on a word boundary starts a link, or it lies inside an earlier run, or
      all that follows it trims away. */
  lemma EveryCandidateIsAccountedFor(alnum: char -> bool, chars: string, runs: seq<Run>, i: nat)
    requires AreTheRuns(alnum, chars, 0, runs) && IsCandidate(alnum, chars, i)
    ensures || (exists s <- Spans(runs) :: s.start == i)
            || (exists r <- runs :: r.start < i < r.rawEnd)
            || (exists r <- runs :: r.start == i && r.end == r.body)
  {
    hide IsCandidate, Spans;
    var k := Covering(alnum, chars, 0, runs, i);
    assert runs[k] in runs;
    if runs[k].start == i && runs[k].end > runs[k].body {
      SpanOfRun(runs, k);
    } else if runs[k].start == i {
      assert IsRun(alnum, chars, runs[k]);
    }
  }

  lemma {:induction false} SpanOfRun(runs: seq<Run>, k: nat)
    requires k < |runs| && runs[k].end > runs[k].body
    ensures Span(runs[k].start, runs[k].end) in Spans(runs)
  {
    if k > 0 {
      SpanOfRun(runs[1..], k - 1);
    }
  }

  // ----- Detecting inside a link's own text -----

  lemma SchemeInSlice(chars: string, start: nat, end: nat, scheme: string)
    requires start <= end <= |chars|
    ensures StartsWithScheme(chars[start..end], 0, scheme)
       <==> StartsWithScheme(chars, start, scheme) && start + |scheme| <= end
  {
    var sub := chars[start..end];
    assert forall k | 0 <= k < |sub| :: sub[0 + k] == sub[k] == chars[start + k];
  }

  lemma {:induction false} SchemeOfSlice(chars: string, start: nat, end: nat, n: nat)
    requires start <= end <= |chars|
    requires SchemeFrom(chars, start, n).Some? && start + SchemeFrom(chars, start, n).value <= end
    ensures SchemeFrom(chars[start..end], 0, n) == SchemeFrom(chars, start, n)
    decreases |SCHEMES| - n
  {
    hide StartsWithScheme;
    SchemeInSlice(chars, start, end, SCHEMES[n]);
    if !StartsWithScheme(chars, start, SCHEMES[n]) {
      SchemeOfSlice(chars, start, end, n + 1);
    }
  }

  lemma DroppableInSlice(chars: string, start: nat, end: nat)
    requires start < end <= |chars|
    ensures Droppable(chars[start..end], 0, end - start) <==> Droppable(chars, start, end)
  {
    assert chars[start..end][0..end - start] == chars[start..end];
  }

  lemma SliceIsOneRun(alnum: char -> bool, chars: string, start: nat, end: nat)
    requires IsCandidate(alnum, chars, start) && start < end <= |chars| && !Droppable(chars, start, end)
    requires start + SchemeAt(chars, start).value < end
    requires forall x | start + SchemeAt(chars, start).value <= x < end :: IsUrlChar(chars[x])
    ensures var (sub, n) := (chars[start..end], end - start);
      SchemeAt(sub, 0).Some? && AreTheRuns(alnum, sub, 0, [Run(0, SchemeAt(sub, 0).value, n, n)])
  {
    hide SchemeFrom, IsUrlChar, Droppable;
    var sub, n := chars[start..end], end - start;
    SchemeOfSlice(chars, start, end, 0);
    DroppableInSlice(chars, start, end);
    var whole := Run(0, SchemeAt(sub, 0).value, n, n);
    assert forall x | whole.body <= x < n :: sub[x] == chars[start + x];
    forall i | IsCandidate(alnum, sub, i) ensures Within([whole][0], i) {
    }
  }

  /** Detection run on the text of a link gives that whole text as its one link. */
  lemma LinkTextIsItsOwnLink(alnum: char -> bool, chars: string, runs: seq<Run>, k: nat, own: seq<Run>)
    requires AreTheRuns(alnum, chars, 0, runs) && k < |Spans(runs)|
    requires Spans(runs)[k].start <= Spans(runs)[k].end <= |chars|
    requires AreTheRuns(alnum, chars[Spans(runs)[k].start..Spans(runs)[k].end], 0, own)
    ensures Spans(own) == [Span(0, Spans(runs)[k].end - Spans(runs)[k].start)]
  {
    hide SchemeFrom, IsUrlChar, Spans, Droppable, AreTheRuns;
    var s := Spans(runs)[k];
    var sub, n := chars[s.start..s.end], s.end - s.start;
    EveryLinkIsAUrl(alnum, chars, 0, runs, k);
    SliceIsOneRun(alnum, chars, s.start, s.end);
    var whole := Run(0, SchemeAt(sub, 0).value, n, n);
    RunsAreUnique(alnum, sub, 0, own, [whole]);
    SchemeOfSlice(chars, s.start, s.end, 0);
    SpansOfOne(whole);
  }

  lemma SpansOfOne(r: Run)
    requires r.end > r.body
    ensures Spans([r]) == [Span(r.start, r.end)]
  {
    assert Spans([r][1..]) == [];
  }
}
