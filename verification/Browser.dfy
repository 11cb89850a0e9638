/** The search box: which sessions a query keeps. */
module Browser {
  import opened Wrappers
  import opened Chars
  import opened Text
  import opened Snippets
  import opened Hits
  import opened Projects
  import D = Digest

  datatype Row = Row(path: string, sessions: seq<SessionRecord>)

  /** The texts a content search reads, in order. */
  function Fields(d: D.SessionDigest): seq<string> {
    [d.summary] + Lines(d.textContent) + (match d.slug case Some(s) => [s] case None => [])
  }

  function FirstHit(lower: string -> string, fields: seq<string>, needle: string): Option<(string, Hit)> {
    if fields == [] then None
    else
      match Locate(lower, fields[0], needle)
      case Some(hit) => Some((fields[0], hit))
      case None => FirstHit(lower, fields[1..], needle)
  }

  /** The first content hit of a digest, nothing for an empty needle. */
  function ContentHit(lower: string -> string, d: D.SessionDigest, needle: string): Option<(string, Hit)> {
    if needle == [] then None else FirstHit(lower, Fields(d), needle)
  }

  /** The first field whose lowercase holds the needle. */
  ghost predicate IsFirstField(lower: string -> string, fields: seq<string>, needle: string, f: nat) {
    f < |fields| && Contains(lower(fields[f]), needle) && forall g | 0 <= g < f :: !Contains(lower(fields[g]), needle)
  }

  /** The bytes shown are those of the first case-insensitive occurrence in the line, wherever lowercasing
      leaves that occurrence's ends. */
  ghost predicate ShowsFirst(lower: string -> string, line: string, needle: string, shown: seq<Utf8.byte>) {
    forall parts: seq<string>, k: nat, i: nat, j: nat
      | IsLowered(lower, line, parts) && FirstAt(lower(line), needle, k) && Covers(parts, k, |needle|, i, j)
        && EndsStay(line, lower(line), k, |needle|, i, j)
      :: shown == Utf8.Encode(line[i..j])
  }

  /** `content_snippet`: a snippet exactly when some content field holds the needle, of the first that does; its
      text is the window around the range located there, and its own range reads as what is there. */
  method ContentSnippet(lower: string -> string, d: D.SessionDigest, needle: string) returns (snippet: Option<(string, Hit)>)
    ensures snippet.None? <==> needle == [] || forall f <- Fields(d) :: !Contains(lower(f), needle)
    ensures snippet.Some? ==> exists f: nat, i: nat, j: nat ::
      && IsFirstField(lower, Fields(d), needle, f) && i <= j <= |Fields(d)[f]|
      && Locate(lower, Fields(d)[f], needle) == Some(Hit(Offset(Fields(d)[f], i), Offset(Fields(d)[f], j)))
      && snippet.value.0 == Snippet(Fields(d)[f], i, j)
      && IsHit(snippet.value.0, snippet.value.1)
      && Utf8.Encode(snippet.value.0)[snippet.value.1.start..snippet.value.1.end] == Utf8.Encode(Fields(d)[f][i..j])
      && ShowsFirst(lower, Fields(d)[f], needle, Utf8.Encode(Fields(d)[f][i..j]))
  {
    hide Utf8.Encode, IsHit, Offset, Fields, Snippet, Locate, ShowsFirst, FirstHit, IsFirstField, Contains;
    var fields := Fields(d);
    var found := ContentHit(lower, d, needle);
    if needle != [] {
      FirstHitExists(lower, fields, needle);
    }
    if found.None? {
      return None;
    }
    var (line, hit) := found.value;
    ghost var f := FirstHitIsFirst(lower, fields, needle);
    var text, range, i, j := SnippetAround(line, hit);
    HitBytes(line, i, j);
    HitShowsFirst(lower, line, needle, i, j);
    snippet := Some((text, range));
  }

  lemma HitBytes(line: string, i: nat, j: nat)
    requires i <= j <= |line|
    ensures Offset(line, i) <= Offset(line, j) <= |Utf8.Encode(line)|
    ensures Utf8.Encode(line)[Offset(line, i)..Offset(line, j)] == Utf8.Encode(line[i..j])
  {
    hide Utf8.Encode, Offset;
    OffsetsRise(line, i, j);
  }

  lemma {:induction false} FirstHitIsFirst(lower: string -> string, fields: seq<string>, needle: string) returns (f: nat)
    requires needle != [] && FirstHit(lower, fields, needle).Some?
    ensures IsFirstField(lower, fields, needle, f)
    ensures FirstHit(lower, fields, needle).value.0 == fields[f]
    ensures Locate(lower, fields[f], needle) == Some(FirstHit(lower, fields, needle).value.1)
  {
    hide Locate, Contains, IsHit;
    LocatedIsContained(lower, fields[0], needle);
    if Locate(lower, fields[0], needle).Some? {
      f := 0;
    } else {
      var rest := FirstHitIsFirst(lower, fields[1..], needle);
      f := rest + 1;
    }
  }

  lemma HitShowsFirst(lower: string -> string, line: string, needle: string, i: nat, j: nat)
    requires needle != [] && i <= j <= |line|
    requires Locate(lower, line, needle) == Some(Hit(Offset(line, i), Offset(line, j)))
    ensures ShowsFirst(lower, line, needle, Utf8.Encode(line[i..j]))
  {
    hide Utf8.Encode, Offset, Locate, Start, Joined, EndsStay;
    forall parts: seq<string>, k: nat, i': nat, j': nat
      | IsLowered(lower, line, parts) && FirstAt(lower(line), needle, k) && Covers(parts, k, |needle|, i', j')
        && EndsStay(line, lower(line), k, |needle|, i', j')
      ensures i' == i && j' == j
    {
      LocatedIsTheFirst(lower, line, needle, parts, k, i', j');
      OffsetIsInjective(line, i, i');
      OffsetIsInjective(line, j, j');
    }
  }

  predicate SessionMatches(lower: string -> string, s: SessionRecord, needle: string, titlesOnly: bool) {
    || Contains(lower(D.DisplayTitle(s.digest, None)), needle)
    || (!titlesOnly && ContentHit(lower, s.digest, needle).Some?)
  }

  lemma {:induction false} FirstHitExists(lower: string -> string, fields: seq<string>, needle: string)
    requires needle != []
    ensures FirstHit(lower, fields, needle).Some? <==> exists f <- fields :: Contains(lower(f), needle)
    ensures FirstHit(lower, fields, needle).Some? ==>
      var (line, hit) := FirstHit(lower, fields, needle).value; line in fields && IsHit(line, hit)
  {
    hide Locate, Contains, IsHit;
    if fields != [] {
      LocatedIsContained(lower, fields[0], needle);
      FirstHitExists(lower, fields[1..], needle);
      assert fields == [fields[0]] + fields[1..];
    }
  }

  // ----- Filtering -----

  function Kept(lower: string -> string, sessions: seq<SessionRecord>, needle: string, titlesOnly: bool): seq<SessionRecord> {
    if sessions == [] then []
    else (if SessionMatches(lower, sessions[0], needle, titlesOnly) then [sessions[0]] else [])
         + Kept(lower, sessions[1..], needle, titlesOnly)
  }

  predicate KeepsWholeRow(lower: string -> string, row: Row, needle: string) {
    needle == [] || Contains(lower(row.path), needle)
  }

  /** What a needle leaves of one row. */
  function FilteredRow(lower: string -> string, row: Row, needle: string, titlesOnly: bool): Option<Row> {
    if KeepsWholeRow(lower, row, needle) then Some(row)
    else
      var sessions := Kept(lower, row.sessions, needle, titlesOnly);
      if sessions == [] then None else Some(Row(row.path, sessions))
  }

  function FilteredBy(lower: string -> string, rows: seq<Row>, needle: string, titlesOnly: bool): seq<Row> {
    if rows == [] then []
    else (match FilteredRow(lower, rows[0], needle, titlesOnly) case Some(r) => [r] case None => [])
         + FilteredBy(lower, rows[1..], needle, titlesOnly)
  }

  /** The needle a query is searched by. */
  function Needle(lower: string -> string, query: string): string {
    lower(Trim(query))
  }

  /** `filter_rows`. */
  function FilterRows(lower: string -> string, rows: seq<Row>, query: string, titlesOnly: bool): seq<Row> {
    FilteredBy(lower, rows, Needle(lower, query), titlesOnly)
  }

  // ----- What survives -----

  lemma {:induction false} KeptMembers(lower: string -> string, sessions: seq<SessionRecord>, needle: string, titlesOnly: bool, s: SessionRecord)
    ensures s in Kept(lower, sessions, needle, titlesOnly) <==> s in sessions && SessionMatches(lower, s, needle, titlesOnly)
  {
    hide SessionMatches;
    if sessions != [] {
      KeptMembers(lower, sessions[1..], needle, titlesOnly, s);
      assert sessions == [sessions[0]] + sessions[1..];
    }
  }

  /** A session survives a needle exactly when its row's path holds it, or its title does, or, unless only
      titles are searched, one of its content fields does. */
  lemma SurvivingSessions(lower: string -> string, row: Row, needle: string, titlesOnly: bool, s: SessionRecord)
    requires needle != []
    ensures var left := FilteredRow(lower, row, needle, titlesOnly);
      (left.Some? && s in left.value.sessions) <==>
      && s in row.sessions
      && (|| Contains(lower(row.path), needle)
          || Contains(lower(D.DisplayTitle(s.digest, None)), needle)
          || (!titlesOnly && exists f <- Fields(s.digest) :: Contains(lower(f), needle)))
  {
    hide Contains, Fields;
    KeptMembers(lower, row.sessions, needle, titlesOnly, s);
    FirstHitExists(lower, Fields(s.digest), needle);
  }

  // ----- Filtering further -----

  lemma ContainsTransitive(s: string, t: string, u: string)
    requires Contains(s, t) && Contains(t, u)
    ensures Contains(s, u)
  {
    var i :| 0 <= i <= |s| && OccursAt(s, t, i);
    var j :| 0 <= j <= |t| && OccursAt(t, u, j);
    SliceOfSlice(s, i, i + |t|, j, j + |u|);
    assert OccursAt(s, u, i + j);
  }

  lemma MatchingLongerNeedle(lower: string -> string, s: SessionRecord, n1: string, n2: string, titlesOnly: bool)
    requires n1 != [] && Contains(n2, n1) && SessionMatches(lower, s, n2, titlesOnly)
    ensures SessionMatches(lower, s, n1, titlesOnly)
  {
    hide Contains, Fields, FirstHit;
    if Contains(lower(D.DisplayTitle(s.digest, None)), n2) {
      ContainsTransitive(lower(D.DisplayTitle(s.digest, None)), n2, n1);
    } else {
      FirstHitExists(lower, Fields(s.digest), n1);
      FirstHitExists(lower, Fields(s.digest), n2);
      var f :| f in Fields(s.digest) && Contains(lower(f), n2);
      ContainsTransitive(lower(f), n2, n1);
    }
  }

  lemma {:induction false} KeptTwice(lower: string -> string, sessions: seq<SessionRecord>, n1: string, n2: string, titlesOnly: bool)
    requires n1 != [] && Contains(n2, n1)
    ensures Kept(lower, Kept(lower, sessions, n1, titlesOnly), n2, titlesOnly) == Kept(lower, sessions, n2, titlesOnly)
  {
    hide SessionMatches, Contains;
    if sessions != [] {
      var s, rest := sessions[0], Kept(lower, sessions[1..], n1, titlesOnly);
      KeptTwice(lower, sessions[1..], n1, n2, titlesOnly);
      if SessionMatches(lower, s, n1, titlesOnly) {
        assert ([s] + rest)[1..] == rest;
      } else {
        if SessionMatches(lower, s, n2, titlesOnly) {
          MatchingLongerNeedle(lower, s, n1, n2, titlesOnly);
        }
        assert [] + rest == rest;
      }
    }
  }

  lemma RowTwice(lower: string -> string, row: Row, n1: string, n2: string, titlesOnly: bool)
    requires n1 == [] || Contains(n2, n1)
    ensures FilteredRow(lower, row, n2, titlesOnly)
         == match FilteredRow(lower, row, n1, titlesOnly)
            case None => None
            case Some(r) => FilteredRow(lower, r, n2, titlesOnly)
  {
    hide Contains, Kept;
    if n1 != [] && !Contains(lower(row.path), n1) {
      EmptyContainsNothing(n1);
      if Contains(lower(row.path), n2) {
        ContainsTransitive(lower(row.path), n2, n1);
      }
      KeptTwice(lower, row.sessions, n1, n2, titlesOnly);
      KeptOfNothing(lower, n2, titlesOnly);
    }
  }

  lemma EmptyContainsNothing(t: string)
    requires t != []
    ensures !Contains([], t)
  {
  }

  lemma KeptOfNothing(lower: string -> string, needle: string, titlesOnly: bool)
    ensures Kept(lower, [], needle, titlesOnly) == []
  {
  }

  lemma {:induction false} RowsTwice(lower: string -> string, rows: seq<Row>, n1: string, n2: string, titlesOnly: bool)
    requires n1 == [] || Contains(n2, n1)
    ensures FilteredBy(lower, FilteredBy(lower, rows, n1, titlesOnly), n2, titlesOnly)
         == FilteredBy(lower, rows, n2, titlesOnly)
  {
    hide FilteredRow, Contains;
    if rows != [] {
      RowTwice(lower, rows[0], n1, n2, titlesOnly);
      RowsTwice(lower, rows[1..], n1, n2, titlesOnly);
      var rest := FilteredBy(lower, rows[1..], n1, titlesOnly);
      match FilteredRow(lower, rows[0], n1, titlesOnly)
      case Some(r) => assert ([r] + rest)[1..] == rest;
      case None => assert [] + rest == rest;
    }
  }

  /** Filtering again by the same query changes nothing. */
  lemma FilteringIsIdempotent(lower: string -> string, rows: seq<Row>, query: string, titlesOnly: bool)
    ensures var kept := FilterRows(lower, rows, query, titlesOnly); FilterRows(lower, kept, query, titlesOnly) == kept
  {
    var needle := Needle(lower, query);
    assert needle[0..|needle|] == needle;
    assert OccursAt(needle, needle, 0);
    RowsTwice(lower, rows, needle, needle, titlesOnly);
  }

  /** On every sidebar, typing on from `q1` to `q2` only removes: filtering what `q1` left by `q2` gives
      what `q2` leaves of everything. */
  ghost predicate Narrows(lower: string -> string, q1: string, q2: string) {
    forall rows: seq<Row>, titlesOnly: bool ::
      FilterRows(lower, FilterRows(lower, rows, q1, titlesOnly), q2, titlesOnly) == FilterRows(lower, rows, q2, titlesOnly)
  }

  /** Typing on only removes exactly when the new needle holds the old one. (Lowercasing a needle again
      leaves it as it is.) */
  lemma NarrowsIffNeedleContained(lower: string -> string, q1: string, q2: string)
    requires lower(Needle(lower, q2)) == Needle(lower, q2)
    ensures Narrows(lower, q1, q2) <==> Needle(lower, q1) == [] || Contains(Needle(lower, q2), Needle(lower, q1))
  {
    var n1, n2 := Needle(lower, q1), Needle(lower, q2);
    hide Contains;
    if n1 == [] || Contains(n2, n1) {
      forall rows: seq<Row>, titlesOnly: bool
        ensures FilterRows(lower, FilterRows(lower, rows, q1, titlesOnly), q2, titlesOnly) == FilterRows(lower, rows, q2, titlesOnly)
      {
        RowsTwice(lower, rows, n1, n2, titlesOnly);
      }
    } else {
      var rows := [Row(n2, [])];
      ContainsItself(n2);
      OneRow(lower, rows[0], n1, false);
      OneRow(lower, rows[0], n2, false);
      assert FilterRows(lower, FilterRows(lower, rows, q1, false), q2, false) != FilterRows(lower, rows, q2, false);
    }
  }

  lemma ContainsItself(s: string)
    ensures Contains(s, s)
  {
    assert OccursAt(s, s, 0);
  }

  lemma OneRow(lower: string -> string, row: Row, needle: string, titlesOnly: bool)
    ensures FilteredBy(lower, [row], needle, titlesOnly)
         == match FilteredRow(lower, row, needle, titlesOnly) case Some(r) => [r] case None => []
  {
    assert FilteredBy(lower, [row][1..], needle, titlesOnly) == [];
  }

  // ----- Longer queries -----

  lemma TrimKeepsContainment(q1: string, q2: string)
    requires Contains(q2, q1)
    ensures Contains(Trim(q2), Trim(q1))
  {
    var i :| 0 <= i <= |q2| && OccursAt(q2, q1, i);
    TrimKeepsOccurrence(q1, q2, i);
  }

  lemma TrimKeepsOccurrence(q1: string, q2: string, i: nat)
    requires OccursAt(q2, q1, i)
    ensures Contains(Trim(q2), Trim(q1))
  {
    hide IsWhitespace, LeadingBlanks, TrimmedLength;
    var (a, b, c, d) := (LeadingBlanks(q1), TrimmedLength(q1), LeadingBlanks(q2), TrimmedLength(q2));
    if a < b {
      TrimLeavesOccurrence(q1, q2, i);
      SliceOccurs(q1, q2, i, a, b, c, d);
      assert Trim(q1) == q1[a..b] && Trim(q2) == q2[c..d];
    } else {
      assert Trim(q1) == [];
      assert OccursAt(Trim(q2), [], 0);
    }
  }

  lemma SliceOccurs(q1: string, q2: string, i: nat, a: nat, b: nat, c: nat, d: nat)
    requires OccursAt(q2, q1, i) && a <= b <= |q1| && c <= i + a && i + b <= d <= |q2|
    ensures Contains(q2[c..d], q1[a..b])
  {
    SliceOfSlice(q2, i, i + |q1|, a, b);
    SliceOfSlice(q2, c, d, i + a - c, i + b - c);
    assert OccursAt(q2[c..d], q1[a..b], i + a - c);
  }

  lemma TrimLeavesOccurrence(q1: string, q2: string, i: nat)
    requires OccursAt(q2, q1, i) && LeadingBlanks(q1) < TrimmedLength(q1)
    ensures LeadingBlanks(q2) <= i + LeadingBlanks(q1) && i + TrimmedLength(q1) <= TrimmedLength(q2)
  {
    hide IsWhitespace, LeadingBlanks, TrimmedLength;
    var a, b := LeadingBlanks(q1), TrimmedLength(q1);
    assert q2[i + a] == q2[i..i + |q1|][a] == q1[a];
    assert q2[i + b - 1] == q2[i..i + |q1|][b - 1] == q1[b - 1];
  }

  /** Lowercasing that works character by character, whatever is around them. */
  ghost predicate PerCharacter(lower: string -> string) {
    forall a: string, b: string {:trigger lower(a + b)} :: lower(a + b) == lower(a) + lower(b)
  }

  lemma LowerKeepsContainment(lower: string -> string, s: string, t: string)
    requires PerCharacter(lower) && Contains(s, t)
    ensures Contains(lower(s), lower(t))
  {
    var i :| 0 <= i <= |s| && OccursAt(s, t, i);
    var before, after := s[..i], s[i + |t|..];
    assert s == (before + t) + after;
    assert lower(s) == lower(before + t) + lower(after) && lower(before + t) == lower(before) + lower(t);
    var k := |lower(before)|;
    assert lower(s)[k..k + |lower(t)|] == lower(t);
    assert OccursAt(lower(s), lower(t), k);
  }

  /** With such a lowercasing, a longer query holding the old one only ever removes rows. */
  lemma LongerQueryNarrows(lower: string -> string, q1: string, q2: string)
    requires PerCharacter(lower) && Contains(q2, q1)
    ensures Narrows(lower, q1, q2)
  {
    TrimKeepsContainment(q1, q2);
    LowerKeepsContainment(lower, Trim(q2), Trim(q1));
    forall rows: seq<Row>, titlesOnly: bool
      ensures FilterRows(lower, FilterRows(lower, rows, q1, titlesOnly), q2, titlesOnly) == FilterRows(lower, rows, q2, titlesOnly)
    {
      RowsTwice(lower, rows, Needle(lower, q1), Needle(lower, q2), titlesOnly);
    }
  }

  /** Unicode's lowercasing is not one: a capital sigma that ends a word becomes another letter. So typing
      one more letter after one can bring a row back. */
  lemma FinalSigmaDoesNotNarrow(lower: string -> string)
    requires lower("\U{391}\U{3A3}") == "\U{3B1}\U{3C2}"
    requires lower("\U{391}\U{3A3}\U{391}") == "\U{3B1}\U{3C3}\U{3B1}"
    requires lower("\U{3B1}\U{3C3}\U{3B1}") == "\U{3B1}\U{3C3}\U{3B1}"
    ensures Contains("\U{391}\U{3A3}\U{391}", "\U{391}\U{3A3}")
    ensures !Narrows(lower, "\U{391}\U{3A3}", "\U{391}\U{3A3}\U{391}")
  {
    hide Contains, Trim, PerCharacter, Narrows;
    var q1, q2 := "\U{391}\U{3A3}", "\U{391}\U{3A3}\U{391}";
    var n1, n2 := "\U{3B1}\U{3C2}", "\U{3B1}\U{3C3}\U{3B1}";
    GreekIsTrimmed();
    GreekContains();
    NarrowsIffNeedleContained(lower, q1, q2);
  }

  lemma GreekIsTrimmed()
    ensures Trim("\U{391}\U{3A3}") == "\U{391}\U{3A3}" && Trim("\U{391}\U{3A3}\U{391}") == "\U{391}\U{3A3}\U{391}"
  {
    TrimmedStays("\U{391}\U{3A3}");
    TrimmedStays("\U{391}\U{3A3}\U{391}");
  }

  lemma TrimmedStays(s: string)
    requires s != [] && !IsWhitespace(s[0]) && !IsWhitespace(s[|s| - 1])
    ensures Trim(s) == s
  {
    assert s[0..|s|] == s;
  }

  lemma GreekContains()
    ensures Contains("\U{391}\U{3A3}\U{391}", "\U{391}\U{3A3}")
    ensures !Contains("\U{3B1}\U{3C3}\U{3B1}", "\U{3B1}\U{3C2}")
  {
    var q2: string, n1: string, n2: string := "\U{391}\U{3A3}\U{391}", "\U{3B1}\U{3C2}", "\U{3B1}\U{3C3}\U{3B1}";
    assert q2[0..2] == "\U{391}\U{3A3}";
    assert OccursAt(q2, "\U{391}\U{3A3}", 0);
    forall i: nat | i <= |n2| ensures !OccursAt(n2, n1, i) {
      if i + 2 <= 3 {
        assert n2[i..i + 2][1] == n2[i + 1];
      }
    }
  }
}
