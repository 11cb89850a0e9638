/** The grammar of `termherd://` links: exactly which texts are accepted, as which path, and how every other is
    refused. */
module DeeplinkGrammar {
  import opened Wrappers
  import opened Sequences
  import opened Utf8
  import opened Chars
  import opened Deeplink

  // ----- Pieces of a query -----

  function JoinAmp(pieces: seq<string>): string
    requires pieces != []
  {
    if |pieces| == 1 then pieces[0] else pieces[0] + "&" + JoinAmp(pieces[1..])
  }

  ghost predicate FreeOf(pieces: seq<string>, c: char) {
    forall k | 0 <= k < |pieces| :: c !in pieces[k]
  }

  function NonEmpty(pieces: seq<string>): seq<string> {
    if pieces == [] then [] else (if pieces[0] == "" then [] else [pieces[0]]) + NonEmpty(pieces[1..])
  }

  lemma {:induction false} SplitJoined(pieces: seq<string>)
    requires pieces != [] && FreeOf(pieces, '&')
    ensures Split(JoinAmp(pieces), '&') == pieces
  {
    hide SplitOnce;
    if |pieces| == 1 {
      SplitOnceShorter(pieces[0], '&');
    } else {
      var rest := JoinAmp(pieces[1..]);
      SplitJoined(pieces[1..]);
      SplitOnceAt(pieces[0], '&', rest);
      assert pieces[0] + ['&'] + rest == JoinAmp(pieces);
    }
  }

  lemma {:induction false} SplitIsJoin(query: string)
    ensures JoinAmp(Split(query, '&')) == query && FreeOf(Split(query, '&'), '&')
    decreases |query|
  {
    hide SplitOnce;
    SplitOnceShorter(query, '&');
    match SplitOnce(query, '&')
    case None =>
    case Some((before, after)) =>
      SplitIsJoin(after);
      assert ([before] + Split(after, '&'))[1..] == Split(after, '&');
  }

  ghost predicate HasRepoKey(piece: string) {
    piece == "repo" || "repo=" <= piece
  }

  lemma KeyIs(piece: string)
    ensures var (key, value) := match SplitOnce(piece, '=') case Some(kv) => kv case None => (piece, "");
      && (key == "repo" <==> HasRepoKey(piece))
      && (piece == "repo" ==> value == "") && ("repo=" <= piece ==> value == piece[5..])
  {
    hide SplitOnce;
    SplitOnceShorter(piece, '=');
    if "repo=" <= piece {
      assert "repo" + ['='] + piece[5..] == piece;
      SplitOnceAt("repo", '=', piece[5..]);
    }
    if SplitOnce(piece, '=').Some? {
      var (key, value) := SplitOnce(piece, '=').value;
      if key == "repo" {
        assert piece == "repo" + ['='] + value && piece[..5] == "repo=";
      }
    }
  }

  /** What a query gives: only its first two non-empty pieces matter. */
  function QueryAnswer(ps: seq<string>): Result<string, LinkError> {
    if ps == [] then Err(MissingRepo)
    else if ps[0] != "repo" && !("repo=" <= ps[0]) then Err(UnknownParameter)
    else if |ps| > 1 && ps[1] != "repo" && !("repo=" <= ps[1]) then Err(UnknownParameter)
    else if |ps| > 1 then Err(DuplicateRepo)
    else if ps[0] == "repo" || ps[0] == "repo=" then Err(MissingRepo)
    else Ok(ps[0][5..])
  }

  lemma {:induction false} RepoOfNonEmpty(pieces: seq<string>, repo: Option<string>)
    ensures RepoOf(pieces, repo) == RepoOf(NonEmpty(pieces), repo)
  {
    hide SplitOnce;
    if pieces != [] {
      var rest := NonEmpty(pieces[1..]);
      if pieces[0] == "" {
        RepoOfNonEmpty(pieces[1..], repo);
        assert [] + rest == rest;
      } else {
        assert ([pieces[0]] + rest)[1..] == rest;
        var (key, value) := match SplitOnce(pieces[0], '=') case Some(kv) => kv case None => (pieces[0], "");
        RepoOfNonEmpty(pieces[1..], Some(value));
      }
    }
  }

  lemma {:induction false} NonEmptyHasNone(pieces: seq<string>)
    ensures "" !in NonEmpty(pieces)
  {
    if pieces != [] {
      NonEmptyHasNone(pieces[1..]);
    }
  }

  lemma SecondPiece(ps: seq<string>, value: string)
    requires "" !in ps
    ensures RepoOf(ps, Some(value)) ==
      if ps == [] then (if value != "" then Ok(value) else Err(MissingRepo))
      else if HasRepoKey(ps[0]) then Err(DuplicateRepo) else Err(UnknownParameter)
  {
    hide SplitOnce;
    if ps != [] {
      assert ps[0] in ps;
      KeyIs(ps[0]);
    }
  }

  lemma RepoOfPieces(pieces: seq<string>)
    ensures RepoOf(pieces, None) == QueryAnswer(NonEmpty(pieces))
  {
    hide SplitOnce;
    var ps := NonEmpty(pieces);
    RepoOfNonEmpty(pieces, None);
    NonEmptyHasNone(pieces);
    if ps != [] {
      assert ps[0] in ps;
      KeyIs(ps[0]);
      assert forall p <- ps[1..] :: p in ps;
      var (key, value) := match SplitOnce(ps[0], '=') case Some(kv) => kv case None => (ps[0], "");
      SecondPiece(ps[1..], value);
    }
  }

  // ----- Hexadecimal digits -----

  const SMALL_HEX: string := "0123456789abcdef"
  const LARGE_HEX: string := "0123456789ABCDEF"

  lemma HexDigitAt(d: nat)
    requires d < 16
    ensures HexValue(SMALL_HEX[d] as int) == Some(d) && HexValue(LARGE_HEX[d] as int) == Some(d)
  {
  }

  lemma HexDigitOf(b: byte)
    requires HexValue(b).Some?
    ensures var d := HexValue(b).value; d < 16 && (b == SMALL_HEX[d] as int || b == LARGE_HEX[d] as int)
  {
  }

  /** The sixteen digits in either case have their values, and nothing else has one. */
  lemma HexValues(b: byte, d: nat)
    ensures HexValue(b) == Some(d) <==> d < 16 && (b == SMALL_HEX[d] as int || b == LARGE_HEX[d] as int)
  {
    hide HexValue;
    if d < 16 {
      HexDigitAt(d);
    }
    if HexValue(b).Some? {
      HexDigitOf(b);
    }
  }

  // ----- Paths -----

  /** A decoded path and what it is shown as: absolute, on Unix not of a host, control-free, and its trailing
      separators dropped down to its root. */
  ghost predicate ShownAs(repo: string, path: string) {
    && (forall c <- repo :: !(c as int < 0x20 || 0x7F <= c as int <= 0x9F))
    && path <= repo
    && if |repo| > 0 && repo[0] == '/' then
         && !(|repo| > 1 && (repo[1] == '/' || repo[1] == '\\'))
         && 1 <= |path| && (forall k | |path| <= k < |repo| :: repo[k] == '/') && (|path| > 1 ==> path[|path| - 1] != '/')
       else
         && |repo| >= 3 && ('a' <= repo[0] <= 'z' || 'A' <= repo[0] <= 'Z') && repo[1] == ':' && (repo[2] == '/' || repo[2] == '\\')
         && 3 <= |path| && (forall k | |path| <= k < |repo| :: repo[k] == '/' || repo[k] == '\\')
         && (|path| > 3 ==> path[|path| - 1] != '/' && path[|path| - 1] != '\\')
  }

  lemma OneTrimmed(repo: string, root: nat, path: string)
    requires root <= |repo|
    ensures IsTrimmed(repo, root, path) <==> path == Trimmed(repo, root)
  {
    var t := Trimmed(repo, root);
    hide Trimmed, IsSeparator;
    if IsTrimmed(repo, root, path) {
      assert forall k | 0 <= k < |t| :: t[k] == repo[k];
      assert forall k | 0 <= k < |path| :: path[k] == repo[k];
      assert |path| == |t|;
    }
  }

  lemma JudgedIs(repo: string, path: string)
    ensures Judged(repo) == Ok(path) <==> ShownAs(repo, path)
  {
    hide Trimmed;
    ControlsIn(repo);
    if RootLength(repo).Some? {
      OneTrimmed(repo, RootLength(repo).value, path);
    }
  }

  lemma ControlsIn(repo: string)
    ensures HasControl(repo) <==> exists c <- repo :: c as int < 0x20 || 0x7F <= c as int <= 0x9F
  {
    if c :| c in repo && (c as int < 0x20 || 0x7F <= c as int <= 0x9F) {
      var k :| 0 <= k < |repo| && repo[k] == c;
      assert IsControl(repo[k]);
    }
    if HasControl(repo) {
      var k :| 0 <= k < |repo| && IsControl(repo[k]);
      assert repo[k] in repo;
    }
  }

  /** How a decoded path is refused: control characters first, then a host, then whatever has no root. */
  lemma RefusedPaths(repo: string)
    ensures Judged(repo) == Err(ControlCharacter) <==> exists c <- repo :: c as int < 0x20 || 0x7F <= c as int <= 0x9F
    ensures Judged(repo) == Err(NetworkPath) <==>
      && (forall c <- repo :: !(c as int < 0x20 || 0x7F <= c as int <= 0x9F))
      && |repo| > 1 && repo[0] == '/' && (repo[1] == '/' || repo[1] == '\\')
    ensures Judged(repo) == Err(RelativeRepo) <==>
      && (forall c <- repo :: !(c as int < 0x20 || 0x7F <= c as int <= 0x9F)) && (|repo| > 0 ==> repo[0] != '/')
      && !(|repo| >= 3 && ('a' <= repo[0] <= 'z' || 'A' <= repo[0] <= 'Z') && repo[1] == ':' && (repo[2] == '/' || repo[2] == '\\'))
  {
    hide Trimmed;
    ControlsIn(repo);
  }

  /** A text that spells a path, each of its bytes raw or escaped, in UTF-8. */
  ghost predicate Spells(text: string, repo: string) {
    exists ps: seq<Piece> :: (forall k | 0 <= k < |ps| :: IsPiece(ps[k])) && Spell(ps) == Encode(text) && Meaning(ps) == Encode(repo)
  }

  lemma DecodedIs(text: string, repo: string)
    ensures PercentDecoded(text) == Ok(repo) <==> Spells(text, repo)
  {
    hide Unescaped, Spell, Meaning, IsPiece, Encode, Decode;
    var bytes := Encode(text);
    DecodeEncode(repo);
    if PercentDecoded(text) == Ok(repo) {
      EncodeDecode(Unescaped(bytes).value);
      var ps := ReadIsSpelling(bytes);
    }
    if ps: seq<Piece> :| (forall k | 0 <= k < |ps| :: IsPiece(ps[k])) && Spell(ps) == bytes && Meaning(ps) == Encode(repo) {
      SpellingIsRead(ps);
    }
  }

  lemma {:induction false} UnescapedBytes(b: seq<byte>)
    requires PERCENT !in b
    ensures Unescaped(b) == Some(b)
  {
    if b != [] {
      assert forall x <- b[1..] :: x in b;
      UnescapedBytes(b[1..]);
      assert b[0] in b && b == [b[0]] + b[1..];
    }
  }

  lemma {:induction false} NoPercentByte(text: string)
    requires '%' !in text
    ensures PERCENT !in Encode(text)
  {
    if text != "" {
      assert text[0] in text && forall c <- text[1..] :: c in text;
      NoPercentByte(text[1..]);
      NoPercentIn(text[0]);
    }
  }

  lemma NoPercentIn(c: char)
    requires c != '%'
    ensures PERCENT !in EncodeChar(c)
  {
  }

  /** Text without `%` stands for itself, `+` included. */
  lemma PlainTextStands(text: string)
    requires text != "" && '%' !in text && '#' !in text && '&' !in text
    ensures Parsed(LinkWith(text)) == Judged(text)
  {
    NoPercentByte(text);
    hide LinkWith, Parsed, Judged, Encode, Unescaped, Decode;
    UnescapedBytes(Encode(text));
    DecodeEncode(text);
    TextIsDecoded(text);
  }

  // ----- Whole links -----

  /** The scheme in any case, an action, and what follows it. */
  lemma ActionOf(head: string, action: string, tail: string)
    requires |head| == |SCHEME| && SameIgnoringCase(head, SCHEME) && '?' !in action && '#' !in action
    requires tail == "" || tail[0] == '?' || tail[0] == '#'
    ensures ActionAndQuery(head + action + tail).Some? && ActionAndQuery(head + action + tail).value.0 == action
  {
    hide SplitOnce, SameIgnoringCase;
    var url, rest := head + action + tail, action + tail;
    assert url[..|SCHEME|] == head && url[|SCHEME|..] == rest;
    SplitOnceShorter(rest, '#');
    if tail == "" {
      assert rest == action;
      SplitOnceShorter(action, '?');
    } else if tail[0] == '#' {
      assert action + ['#'] + tail[1..] == rest;
      SplitOnceAt(action, '#', tail[1..]);
      SplitOnceShorter(action, '?');
    } else {
      var before := match SplitOnce(rest, '#') case Some((b, _)) => b case None => rest;
      BeforeFragment(action, tail);
      assert before == action + ['?'] + before[|action| + 1..];
      SplitOnceAt(action, '?', before[|action| + 1..]);
    }
  }

  lemma BeforeFragment(action: string, tail: string)
    requires '#' !in action && tail != "" && tail[0] == '?'
    ensures var before := match SplitOnce(action + tail, '#') case Some((b, _)) => b case None => action + tail;
      |before| > |action| && before == action + ['?'] + before[|action| + 1..]
  {
    hide SplitOnce;
    var rest := action + tail;
    SplitOnceShorter(rest, '#');
    match SplitOnce(rest, '#')
    case None =>
      assert rest + "" == rest;
      KeepsAction(action, tail, rest, "");
    case Some((before, after)) =>
      Associative(before, ['#'], after);
      KeepsAction(action, tail, before, ['#'] + after);
  }

  lemma KeepsAction(action: string, tail: string, before: string, fragment: string)
    requires '#' !in action && tail != "" && tail[0] == '?' && action + tail == before + fragment
    requires fragment == "" || fragment[0] == '#'
    ensures |before| > |action| && before == action + ['?'] + before[|action| + 1..]
  {
    var rest := action + tail;
    assert forall k | 0 <= k < |action| :: rest[k] in action;
    assert rest[|action|] == '?';
    assert |before| < |rest| ==> rest[|before|] == '#';
    assert before == rest[..|before|];
  }

  lemma QueryOf(head: string, action: string, query: string, fragment: string)
    requires |head| == |SCHEME| && SameIgnoringCase(head, SCHEME) && '?' !in action && '#' !in action && '#' !in query
    requires fragment == "" || fragment[0] == '#'
    ensures ActionAndQuery(head + action + "?" + query + fragment) == Some((action, query))
  {
    hide SplitOnce, SameIgnoringCase;
    var before := action + "?" + query;
    var url, rest := head + action + "?" + query + fragment, before + fragment;
    assert url == head + rest;
    assert url[..|SCHEME|] == head && url[|SCHEME|..] == rest;
    if fragment == "" {
      assert rest == before;
      SplitOnceShorter(rest, '#');
    } else {
      assert before + ['#'] + fragment[1..] == rest;
      SplitOnceAt(before, '#', fragment[1..]);
    }
    assert action + ['?'] + query == before;
    SplitOnceAt(action, '?', query);
  }

  /** Text not addressed to termherd. */
  lemma ForeignText(url: string)
    ensures Parsed(url) == Err(NotTermherd) <==> !(|url| >= 11 && IsTermherd(url[..11]))
  {
    if |url| >= 11 {
      SchemeIs(url[..11]);
    }
    hide IsTermherd, SplitOnce, SameIgnoringCase, RepoOf, PercentDecoded, Judged, Split;
    if ActionAndQuery(url).Some? {
      NeverForeign(Split(ActionAndQuery(url).value.1, '&'));
    }
  }

  lemma NeverForeign(pieces: seq<string>)
    ensures RepoOf(pieces, None) != Err(NotTermherd) && RepoOf(pieces, None) != Err(UnknownAction)
    ensures forall text :: PercentDecoded(text) != Err(NotTermherd) && PercentDecoded(text) != Err(UnknownAction)
    ensures forall repo :: Judged(repo) != Err(NotTermherd) && Judged(repo) != Err(UnknownAction)
  {
    RepoOfPieces(pieces);
    hide RepoOf, Trimmed, Unescaped, Encode, Decode;
  }

  /** Every action but `open`, with at most one slash, is refused. */
  lemma UnknownActions(head: string, action: string, tail: string)
    requires |head| == |SCHEME| && SameIgnoringCase(head, SCHEME) && '?' !in action && '#' !in action
    requires tail == "" || tail[0] == '?' || tail[0] == '#'
    ensures Parsed(head + action + tail) == Err(UnknownAction) <==> action != "open" && action != "open/"
  {
    ActionOf(head, action, tail);
    hide ActionAndQuery, SameIgnoringCase, RepoOf, PercentDecoded, Judged, Split;
    var url := head + action + tail;
    NeverForeign(Split(ActionAndQuery(url).value.1, '&'));
    OpenAction(action);
  }

  lemma OpenAction(action: string)
    ensures WithoutOneSlash(action) == "open" <==> action == "open" || action == "open/"
  {
    if WithoutOneSlash(action) == "open" && action != "open" {
      assert action == action[..|action| - 1] + [action[|action| - 1]];
    }
  }

  /** The answer to a link by the pieces of its query: a missing, foreign or repeated parameter is refused, and one
      `repo` value is decoded and judged. */
  lemma QueryAnswers(head: string, slash: string, pieces: seq<string>, fragment: string)
    requires |head| == |SCHEME| && SameIgnoringCase(head, SCHEME) && (slash == "" || slash == "/")
    requires pieces != [] && FreeOf(pieces, '&') && '#' !in JoinAmp(pieces) && (fragment == "" || fragment[0] == '#')
    ensures Parsed(head + ("open" + slash) + "?" + JoinAmp(pieces) + fragment)
         == match QueryAnswer(NonEmpty(pieces))
            case Err(e) => Err(e)
            case Ok(value) => (match PercentDecoded(value) case Err(e) => Err(e) case Ok(repo) => Judged(repo))
  {
    hide SameIgnoringCase, RepoOf, PercentDecoded, Judged, Split, ActionAndQuery, QueryAnswer;
    QueryOf(head, "open" + slash, JoinAmp(pieces), fragment);
    SplitJoined(pieces);
    RepoOfPieces(pieces);
    OpenAction("open" + slash);
  }

  lemma NoQuery(head: string, slash: string, fragment: string)
    requires |head| == |SCHEME| && SameIgnoringCase(head, SCHEME) && (slash == "" || slash == "/")
    requires fragment == "" || fragment[0] == '#'
    ensures Parsed(head + ("open" + slash) + fragment) == Err(MissingRepo)
  {
    var action := "open" + slash;
    QuerylessAction(head, action, fragment);
    hide SameIgnoringCase, PercentDecoded, Judged, SplitOnce, ActionAndQuery, RepoOf, Split;
    NothingAsked();
    OpenAction(action);
  }

  lemma NothingAsked()
    ensures RepoOf(Split("", '&'), None) == Err(MissingRepo)
  {
    SplitOnceShorter("", '&');
    assert [""][1..] == [];
  }

  lemma QuerylessAction(head: string, action: string, fragment: string)
    requires |head| == |SCHEME| && SameIgnoringCase(head, SCHEME) && '?' !in action && '#' !in action
    requires fragment == "" || fragment[0] == '#'
    ensures ActionAndQuery(head + action + fragment) == Some((action, ""))
  {
    hide SameIgnoringCase, SplitOnce;
    var rest := action + fragment;
    assert (head + action + fragment)[..|SCHEME|] == head && (head + action + fragment)[|SCHEME|..] == rest;
    SplitOnceShorter(rest, '#');
    SplitOnceShorter(action, '?');
    if fragment != "" {
      assert action + ['#'] + fragment[1..] == rest;
      SplitOnceAt(action, '#', fragment[1..]);
    } else {
      assert rest == action;
    }
  }

  // ----- Accepted links -----

  ghost predicate IsTermherd(scheme: string) {
    |scheme| == 11 && forall k | 0 <= k < 11 :: scheme[k] == "termherd://"[k] || scheme[k] == "TERMHERD://"[k]
  }

  lemma SchemeIs(scheme: string)
    ensures IsTermherd(scheme) <==> |scheme| == |SCHEME| && SameIgnoringCase(scheme, SCHEME)
  {
  }

  ghost predicate All(s: string, c: char) {
    forall k | 0 <= k < |s| :: s[k] == c
  }

  /** The parts of an accepted link, `before` and `after` being idle ampersands. */
  datatype Link = Link(scheme: string, slash: string, before: string, value: string, after: string, fragment: string)

  function Query(l: Link): string {
    l.before + ("repo=" + l.value) + l.after
  }

  function Written(l: Link): string {
    l.scheme + ("open" + l.slash) + "?" + Query(l) + l.fragment
  }

  ghost predicate Grammatical(l: Link) {
    && IsTermherd(l.scheme) && (l.slash == "" || l.slash == "/") && All(l.before, '&') && All(l.after, '&')
    && l.value != "" && '#' !in l.value && '&' !in l.value && (l.fragment == "" || l.fragment[0] == '#')
  }

  lemma {:induction false} AmpersandsAreIdle(amps: string, rest: string)
    requires All(amps, '&')
    ensures NonEmpty(Split(amps + rest, '&')) == NonEmpty(Split(rest, '&'))
  {
    if amps == "" {
      assert amps + rest == rest;
    } else {
      AmpersandsAreIdle(amps[1..], rest);
      assert amps + rest == ['&'] + (amps[1..] + rest);
      AmpersandFirst(amps[1..] + rest);
    }
  }

  lemma AmpersandFirst(rest: string)
    ensures NonEmpty(Split(['&'] + rest, '&')) == NonEmpty(Split(rest, '&'))
  {
    var pieces := Split(rest, '&');
    assert ([""] + pieces)[1..] == pieces && ([""] + pieces)[0] == "";
    assert SplitOnce(['&'] + rest, '&') == Some(("", rest));
    hide SplitOnce;
    assert Split(['&'] + rest, '&') == [""] + pieces;
    assert [] + NonEmpty(pieces) == NonEmpty(pieces);
  }

  lemma PieceThenIdle(piece: string, amps: string)
    requires piece != "" && '&' !in piece && All(amps, '&')
    ensures NonEmpty(Split(piece + amps, '&')) == [piece]
  {
    hide SplitOnce;
    if amps == "" {
      assert piece + amps == piece;
      SplitOnceShorter(piece, '&');
      assert [piece][1..] == [];
    } else {
      assert piece + ['&'] + amps[1..] == piece + amps;
      SplitOnceAt(piece, '&', amps[1..]);
      var rest := Split(amps[1..], '&');
      assert ([piece] + rest)[1..] == rest;
      AmpersandsAreIdle(amps[1..], "");
      assert amps[1..] + "" == amps[1..];
      SplitOnceShorter("", '&');
      assert [""][1..] == [];
    }
  }

  lemma {:induction false} IdlePieces(pieces: seq<string>)
    requires pieces != [] && NonEmpty(pieces) == []
    ensures All(JoinAmp(pieces), '&')
  {
    if |pieces| > 1 {
      IdlePieces(pieces[1..]);
    }
  }

  lemma {:induction false} OnePiece(pieces: seq<string>, piece: string) returns (before: string, after: string)
    requires NonEmpty(pieces) == [piece]
    ensures All(before, '&') && All(after, '&') && JoinAmp(pieces) == before + piece + after
  {
    var tail := NonEmpty(pieces[1..]);
    if pieces[0] == "" {
      assert [] + tail == tail;
      before, after := OnePiece(pieces[1..], piece);
      assert "" + "&" + (before + piece + after) == (['&'] + before) + piece + after;
      before := ['&'] + before;
    } else {
      assert NonEmpty(pieces) == [pieces[0]] + tail;
      assert ([pieces[0]] + tail)[0] == pieces[0] && |[pieces[0]] + tail| == 1 + |tail|;
      if |pieces| == 1 {
        before, after := "", "";
      } else {
        IdlePieces(pieces[1..]);
        before, after := "", ['&'] + JoinAmp(pieces[1..]);
        assert piece + "&" + JoinAmp(pieces[1..]) == "" + piece + after;
      }
    }
  }

  lemma {:induction false} NonEmptyFree(pieces: seq<string>, c: char)
    requires FreeOf(pieces, c)
    ensures FreeOf(NonEmpty(pieces), c)
  {
    if pieces != [] {
      NonEmptyFree(pieces[1..], c);
    }
  }

  lemma OneValue(query: string, value: string)
    ensures RepoOf(Split(query, '&'), None) == Ok(value) <==>
      value != "" && '&' !in value && NonEmpty(Split(query, '&')) == ["repo=" + value]
  {
    hide RepoOf, Split;
    var pieces := Split(query, '&');
    var ps := NonEmpty(pieces);
    RepoOfPieces(pieces);
    SplitIsJoin(query);
    NonEmptyFree(pieces, '&');
    hide NonEmpty;
    if QueryAnswer(ps) == Ok(value) {
      assert ps == [ps[0]];
      assert ps[0] == "repo=" + value;
      assert forall c <- value :: c in ps[0];
    }
    if value != "" && ps == ["repo=" + value] {
      assert "repo=" <= ps[0] && ps[0][5..] == value;
    }
  }

  lemma GrammaticalAsks(l: Link, url: string)
    requires Grammatical(l) && url == Written(l)
    ensures ActionAndQuery(url) == Some(("open" + l.slash, Query(l)))
    ensures RepoOf(Split(Query(l), '&'), None) == Ok(l.value)
  {
    hide RepoOf, Split, ActionAndQuery, SameIgnoringCase;
    SchemeIs(l.scheme);
    NoFragmentSign(l);
    QueryOf(l.scheme, "open" + l.slash, Query(l), l.fragment);
    var piece := "repo=" + l.value;
    Associative(l.before, piece, l.after);
    AmpersandsAreIdle(l.before, piece + l.after);
    PieceThenIdle(piece, l.after);
    OneValue(Query(l), l.value);
  }

  lemma NoFragmentSign(l: Link)
    requires Grammatical(l)
    ensures '#' !in Query(l)
  {
    hide IsTermherd;
  }

  lemma LinkRead(url: string, value: string) returns (l: Link)
    requires ActionAndQuery(url).Some? && WithoutOneSlash(ActionAndQuery(url).value.0) == "open"
    requires RepoOf(Split(ActionAndQuery(url).value.1, '&'), None) == Ok(value)
    ensures Grammatical(l) && url == Written(l) && l.value == value
  {
    hide RepoOf, Split, WithoutOneSlash;
    var (action, query) := ActionAndQuery(url).value;
    NothingAsked();
    var fragment := PartsOf(url);
    hide ActionAndQuery, IsTermherd;
    OpenAction(action);
    OneValue(query, value);
    var before, after := OnePiece(Split(query, '&'), "repo=" + value);
    SplitIsJoin(query);
    l := Link(url[..11], if action == "open" then "" else "/", before, value, after, fragment);
    assert action == "open" + l.slash;
    SignFree(query, before, value, after);
  }

  lemma SignFree(query: string, before: string, value: string, after: string)
    requires query == before + ("repo=" + value) + after && '#' !in query
    ensures '#' !in value
  {
    assert forall k | 0 <= k < |value| :: value[k] == query[|before| + 5 + k];
  }

  /** The parts a link with a query is cut into. */
  lemma PartsOf(url: string) returns (fragment: string)
    requires ActionAndQuery(url).Some? && ActionAndQuery(url).value.1 != ""
    ensures var (action, query) := ActionAndQuery(url).value;
      && IsTermherd(url[..11]) && '#' !in query && (fragment == "" || fragment[0] == '#')
      && url == url[..11] + action + "?" + query + fragment
  {
    hide SplitOnce, SameIgnoringCase;
    SchemeIs(url[..|SCHEME|]);
    hide IsTermherd;
    var (action, query) := ActionAndQuery(url).value;
    var rest := url[|SCHEME|..];
    SplitOnceShorter(rest, '#');
    var unfragmented := match SplitOnce(rest, '#') case Some((before, _)) => before case None => rest;
    fragment := match SplitOnce(rest, '#') case Some((_, after)) => ['#'] + after case None => "";
    assert rest == unfragmented + fragment;
    assert '#' !in unfragmented;
    SplitOnceShorter(unfragmented, '?');
    assert unfragmented == action + ['?'] + query;
    assert forall c <- query :: c in unfragmented;
    Joined(url, url[..11], action, query, fragment);
  }

  lemma Joined(url: string, scheme: string, action: string, query: string, fragment: string)
    requires |url| >= 11 && scheme == url[..11] && url[11..] == action + ['?'] + query + fragment
    ensures url == scheme + action + "?" + query + fragment
  {
    assert url == scheme + url[11..];
  }

  /** The grammar: a link is accepted exactly when it is the scheme in any case, `open` with at most one slash, and a
      query in which one `repo` with a value stands among idle ampersands, whatever the fragment; and its path is
      what that value spells, shown without the separators it ends on. */
  lemma AcceptedLinks(url: string, path: string)
    ensures Parsed(url) == Ok(path) <==>
      exists l: Link, repo :: Grammatical(l) && url == Written(l) && Spells(l.value, repo) && ShownAs(repo, path)
  {
    hide Grammatical, Written, Spells, ShownAs, RepoOf, Split, PercentDecoded, Judged, ActionAndQuery, WithoutOneSlash;
    if Parsed(url) == Ok(path) {
      var (action, query) := ActionAndQuery(url).value;
      var value := RepoOf(Split(query, '&'), None).value;
      var l := LinkRead(url, value);
      var repo := PercentDecoded(value).value;
      DecodedIs(value, repo);
      JudgedIs(repo, path);
    }
    if l: Link, repo :| Grammatical(l) && url == Written(l) && Spells(l.value, repo) && ShownAs(repo, path) {
      GrammaticalAsks(l, url);
      OpenSlash(l);
      DecodedIs(l.value, repo);
      JudgedIs(repo, path);
    }
  }

  lemma OpenSlash(l: Link)
    requires Grammatical(l)
    ensures WithoutOneSlash("open" + l.slash) == "open"
  {
    hide IsTermherd;
    OpenAction("open" + l.slash);
  }
}
