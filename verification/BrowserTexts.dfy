/** What the search box reads of a session, and what it leaves of the sidebar. */
module BrowserTexts {
  import opened Wrappers
  import opened Chars
  import opened Text
  import opened Projects
  import opened Browser
  import D = Digest

  /** The title shown is the first of the rename, the custom title and the generated one that is not empty, and the
      summary when none is. */
  lemma TitleShown(d: D.SessionDigest, rename: Option<string>, k: nat)
    requires var named := [rename, d.customTitle, d.aiTitle];
      k <= 3 && (forall j | 0 <= j < k :: named[j] in {None, Some("")}) && (k < 3 ==> named[k] !in {None, Some("")})
    ensures Some(D.DisplayTitle(d, rename)) == [rename, d.customTitle, d.aiTitle, Some(d.summary)][k]
  {
    var named := [rename, d.customTitle, d.aiTitle];
    assert named[0] == rename && named[1] == d.customTitle && named[2] == d.aiTitle;
  }

  /** A content search reads the summary, the lines of the indexed text and the slug, in this order. */
  lemma FieldsRead(d: D.SessionDigest, k: nat)
    requires k < |Fields(d)|
    ensures |Fields(d)| == 1 + |Lines(d.textContent)| + if d.slug.Some? then 1 else 0
    ensures k == 0 ==> Fields(d)[k] == d.summary
    ensures 0 < k <= |Lines(d.textContent)| ==> Fields(d)[k] == Lines(d.textContent)[k - 1]
    ensures k > |Lines(d.textContent)| ==> d.slug == Some(Fields(d)[k])
  {
    hide Lines;
  }

  // ----- The sidebar -----

  /** A blank query keeps the sidebar as it is. */
  lemma {:induction false} BlankKeepsAll(lower: string -> string, rows: seq<Row>, query: string, titlesOnly: bool)
    requires IsBlank(query) && lower("") == ""
    ensures FilterRows(lower, rows, query, titlesOnly) == rows
  {
    TrimBlankQuery(query);
    hide Trim;
    if rows != [] {
      BlankKeepsAll(lower, rows[1..], query, titlesOnly);
      assert rows == [rows[0]] + rows[1..];
    }
  }

  lemma TrimBlankQuery(query: string)
    requires IsBlank(query)
    ensures Trim(query) == ""
  {
    hide Trim;
    assert forall k | 0 <= k < |query| :: query[k] in query;
    TrimBlank(query);
  }

  /** Each row is filtered on its own, and they keep their order. */
  lemma {:induction false} RowsApart(lower: string -> string, above: seq<Row>, below: seq<Row>, query: string, titlesOnly: bool)
    ensures FilterRows(lower, above + below, query, titlesOnly)
         == FilterRows(lower, above, query, titlesOnly) + FilterRows(lower, below, query, titlesOnly)
  {
    hide FilteredRow, Trim;
    if above == [] {
      assert above + below == below;
    } else {
      RowsApart(lower, above[1..], below, query, titlesOnly);
      assert (above + below)[1..] == above[1..] + below;
    }
  }

  lemma {:induction false} KeptApart(lower: string -> string, above: seq<SessionRecord>, below: seq<SessionRecord>, needle: string, titlesOnly: bool)
    ensures Kept(lower, above + below, needle, titlesOnly) == Kept(lower, above, needle, titlesOnly) + Kept(lower, below, needle, titlesOnly)
  {
    hide SessionMatches;
    if above == [] {
      assert above + below == below;
    } else {
      KeptApart(lower, above[1..], below, needle, titlesOnly);
      assert (above + below)[1..] == above[1..] + below;
    }
  }

  ghost predicate Found(lower: string -> string, s: SessionRecord, needle: string, titlesOnly: bool) {
    || Contains(lower(D.DisplayTitle(s.digest, None)), needle)
    || (!titlesOnly && exists f <- Fields(s.digest) :: Contains(lower(f), needle))
  }

  /** `kept` is what is left of `sessions` when those a query does not find are taken out. */
  ghost predicate OnlyFound(lower: string -> string, sessions: seq<SessionRecord>, needle: string, titlesOnly: bool, kept: seq<SessionRecord>)
    decreases |sessions|
  {
    if sessions == [] then kept == []
    else if Found(lower, sessions[0], needle, titlesOnly) then
      kept != [] && kept[0] == sessions[0] && OnlyFound(lower, sessions[1..], needle, titlesOnly, kept[1..])
    else OnlyFound(lower, sessions[1..], needle, titlesOnly, kept)
  }

  lemma {:induction false} KeptIsFound(lower: string -> string, sessions: seq<SessionRecord>, needle: string, titlesOnly: bool)
    requires needle != ""
    ensures OnlyFound(lower, sessions, needle, titlesOnly, Kept(lower, sessions, needle, titlesOnly))
  {
    hide Contains, FirstHit, Fields;
    if sessions != [] {
      KeptIsFound(lower, sessions[1..], needle, titlesOnly);
      var rest := Kept(lower, sessions[1..], needle, titlesOnly);
      FirstHitExists(lower, Fields(sessions[0].digest), needle);
      assert ([sessions[0]] + rest)[1..] == rest && [] + rest == rest;
    }
  }

  /** A row whose path a query holds is kept whole; any other keeps the sessions found in it, in their order, and goes
      when there are none. */
  lemma RowLeft(lower: string -> string, row: Row, query: string, titlesOnly: bool)
    requires lower(Trim(query)) != ""
    ensures var (left, needle) := (FilterRows(lower, [row], query, titlesOnly), lower(Trim(query)));
      if Contains(lower(row.path), needle) then left == [row]
      else exists kept ::
        OnlyFound(lower, row.sessions, needle, titlesOnly, kept) && left == if kept == [] then [] else [Row(row.path, kept)]
  {
    hide Contains, Trim, OnlyFound, Kept;
    var needle := lower(Trim(query));
    OneRow(lower, row, needle, titlesOnly);
    KeptIsFound(lower, row.sessions, needle, titlesOnly);
  }
}
