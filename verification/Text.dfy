/** Searching, cutting and trimming text. */
module Text {
  import opened Wrappers
  import opened Chars

  /** `t` occurs in `s` at `i`. */
  predicate OccursAt<T(==)>(s: seq<T>, t: seq<T>, i: nat) {
    i + |t| <= |s| && s[i..i + |t|] == t
  }

  predicate Contains<T(==)>(s: seq<T>, t: seq<T>) {
    exists i :: 0 <= i <= |s| && OccursAt(s, t, i)
  }

  function FindFrom<T(==)>(s: seq<T>, t: seq<T>, i: nat): (k: Option<nat>)
    requires i <= |s| + 1
    ensures k.Some? ==> i <= k.value <= |s| && OccursAt(s, t, k.value)
    ensures k.Some? ==> forall j | i <= j < k.value :: !OccursAt(s, t, j)
    ensures k.None? ==> forall j: nat | i <= j :: !OccursAt(s, t, j)
    decreases |s| + 1 - i
  {
    if i > |s| then None else if OccursAt(s, t, i) then Some(i) else FindFrom(s, t, i + 1)
  }

  lemma OccursAsPrefix<T>(s: seq<T>, t: seq<T>, i: nat)
    requires i <= |s|
    ensures OccursAt(s, t, i) <==> t <= s[i..]
  {
    if i + |t| <= |s| {
      assert s[i..][..|t|] == s[i..i + |t|];
    }
  }

  lemma SliceOfSlice<T>(s: seq<T>, from: nat, to: nat, a: nat, b: nat)
    requires from <= to <= |s| && a <= b <= to - from
    ensures s[from..to][a..b] == s[from + a..from + b]
  {
    var t := s[from..to];
    forall k | 0 <= k < b - a ensures t[a..b][k] == s[from + a..from + b][k] {
      assert t[a..b][k] == t[a + k] == s[from + (a + k)];
    }
  }

  /** The pieces one after another. */
  function Joined(pieces: seq<string>): string {
    if pieces == [] then "" else Joined(pieces[..|pieces| - 1]) + pieces[|pieces| - 1]
  }

  /** Rust's `str::lines`: cut at each line feed, a carriage return before it dropped, nothing after the
      last one. */
  function Lines(s: string): seq<string>
    decreases |s|
  {
    if s == [] then []
    else
      match FindFrom(s, ['\n'], 0)
      case None => [s]
      case Some(k) => [WithoutReturn(s[..k])] + Lines(s[k + 1..])
  }

  function WithoutReturn(line: string): string {
    if line != [] && line[|line| - 1] == '\r' then line[..|line| - 1] else line
  }

  function LeadingBlanks(s: string): (n: nat)
    ensures n <= |s| && (forall k | 0 <= k < n :: IsWhitespace(s[k])) && (n < |s| ==> !IsWhitespace(s[n]))
  {
    if s == [] || !IsWhitespace(s[0]) then 0 else LeadingBlanks(s[1..]) + 1
  }

  function TrimmedLength(s: string): (n: nat)
    ensures n <= |s| && (forall k | n <= k < |s| :: IsWhitespace(s[k])) && (n > 0 ==> !IsWhitespace(s[n - 1]))
  {
    if s == [] || !IsWhitespace(s[|s| - 1]) then |s| else TrimmedLength(s[..|s| - 1])
  }

  /** Rust's `str::trim`. */
  function Trim(s: string): string {
    if LeadingBlanks(s) <= TrimmedLength(s) then s[LeadingBlanks(s)..TrimmedLength(s)] else []
  }

  function WordLength(s: string): (n: nat)
    ensures n <= |s| && (forall k | 0 <= k < n :: !IsWhitespace(s[k])) && (n < |s| ==> IsWhitespace(s[n]))
  {
    if s == [] || IsWhitespace(s[0]) then 0 else WordLength(s[1..]) + 1
  }

  /** Rust's `split_whitespace`. */
  function Words(s: string): seq<string>
    decreases |s|
  {
    if s == [] then []
    else if IsWhitespace(s[0]) then Words(s[1..])
    else [s[..WordLength(s)]] + Words(s[WordLength(s)..])
  }

  function JoinWords(words: seq<string>): string {
    if words == [] then [] else if |words| == 1 then words[0] else words[0] + [' '] + JoinWords(words[1..])
  }

  /** A word as splitting gives it: not empty, and no whitespace in it. */
  predicate IsSolid(w: string) {
    w != [] && forall c <- w :: !IsWhitespace(c)
  }

  lemma {:induction false} WordsAreSolid(s: string)
    ensures forall w <- Words(s) :: IsSolid(w)
    decreases |s|
  {
    if s != [] {
      WordsAreSolid(if IsWhitespace(s[0]) then s[1..] else s[WordLength(s)..]);
    }
  }

  lemma WordLengthIs(w: string, rest: string)
    requires IsSolid(w) && (rest == [] || IsWhitespace(rest[0]))
    ensures WordLength(w + rest) == |w|
  {
    hide IsWhitespace, WordLength;
    var s, n := w + rest, WordLength(w + rest);
    assert forall k | 0 <= k < |w| :: w[k] in w && s[k] == w[k];
    assert rest != [] ==> s[|w|] == rest[0];
  }

  /** Solid words joined by spaces split back into themselves. */
  lemma {:induction false} JoinedWordsSplitBack(words: seq<string>)
    requires forall w <- words :: IsSolid(w)
    ensures Words(JoinWords(words)) == words
  {
    if words != [] {
      var w := words[0];
      if |words| == 1 {
        WordLengthIs(w, []);
        assert w + [] == w;
        WordThenRest(w, []);
      } else {
        JoinedWordsSplitBack(words[1..]);
        var rest := [' '] + JoinWords(words[1..]);
        assert w + [' '] + JoinWords(words[1..]) == w + rest;
        WordLengthIs(w, rest);
        WordThenRest(w, rest);
        assert rest[1..] == JoinWords(words[1..]);
      }
    }
  }

  lemma WordThenRest(w: string, rest: string)
    requires IsSolid(w) && WordLength(w + rest) == |w|
    ensures Words(w + rest) == [w] + Words(rest)
  {
    assert w[0] in w && (w + rest)[0] == w[0];
    assert (w + rest)[..|w|] == w && (w + rest)[|w|..] == rest;
  }

  // ----- Trimming and lines -----

  /** Trimming takes the whitespace at both ends and nothing else. */
  lemma TrimAt(s: string, a: nat, b: nat)
    requires a < b <= |s| && !IsWhitespace(s[a]) && !IsWhitespace(s[b - 1])
    requires (forall k | 0 <= k < a :: IsWhitespace(s[k])) && forall k | b <= k < |s| :: IsWhitespace(s[k])
    ensures Trim(s) == s[a..b]
  {
    hide IsWhitespace, LeadingBlanks, TrimmedLength;
    assert LeadingBlanks(s) == a;
    assert TrimmedLength(s) == b;
  }

  lemma TrimBlank(s: string)
    requires forall k | 0 <= k < |s| :: IsWhitespace(s[k])
    ensures Trim(s) == ""
  {
    hide IsWhitespace, LeadingBlanks, TrimmedLength;
    assert LeadingBlanks(s) == |s| && TrimmedLength(s) == 0;
  }

  lemma NewlineAt(s: string, i: nat)
    ensures OccursAt(s, ['\n'], i) <==> i < |s| && s[i] == '\n'
  {
    if i < |s| {
      assert s[i..i + 1] == [s[i]];
    }
  }

  lemma FirstNewline(s: string, from: nat)
    requires from <= |s|
    ensures match FindFrom(s, ['\n'], from)
            case None => forall i | from <= i < |s| :: s[i] != '\n'
            case Some(k) => from <= k < |s| && s[k] == '\n' && forall i | from <= i < k :: s[i] != '\n'
  {
    hide FindFrom;
    forall i: nat ensures OccursAt(s, ['\n'], i) <==> i < |s| && s[i] == '\n' {
      NewlineAt(s, i);
    }
    hide OccursAt;
  }

  lemma ReturnIsBlank()
    ensures IsWhitespace('\r') && IsWhitespace('\n')
  {
  }

  lemma NoLineFeedBefore(line: string, rest: string)
    requires '\n' !in line
    ensures FindFrom(line + ['\n'] + rest, ['\n'], 0) == Some(|line|) && FindFrom(line, ['\n'], 0).None?
  {
    hide FindFrom;
    var s := line + ['\n'] + rest;
    FirstNewline(s, 0);
    FirstNewline(line, 0);
    assert s[|line|] == '\n' && forall k | 0 <= k < |line| :: s[k] == line[k];
  }

  /** A line ends at its line feed, or at the carriage return and line feed, and the last one with the text. */
  lemma LineBreaks(line: string, rest: string)
    requires '\n' !in line
    ensures line != "" ==> Lines(line) == [line]
    ensures (line == "" || line[|line| - 1] != '\r') ==> Lines(line + ['\n'] + rest) == [line] + Lines(rest)
    ensures Lines(line + ['\r', '\n'] + rest) == [line] + Lines(rest)
  {
    hide FindFrom;
    NoLineFeedBefore(line, rest);
    var s := line + ['\n'] + rest;
    assert s[..|line|] == line && s[|line| + 1..] == rest;
    var returned := line + ['\r'];
    NoLineFeedBefore(returned, rest);
    var t := returned + ['\n'] + rest;
    assert t[..|returned|] == returned && t[|returned| + 1..] == rest;
    assert t == line + ['\r', '\n'] + rest;
    assert returned[..|line|] == line;
  }
}
