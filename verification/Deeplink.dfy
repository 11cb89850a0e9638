/** `termherd://` links, read from untrusted text. Every place the source cuts a link at is an ASCII
    character, so text is cut by characters here; only percent-decoding works on bytes. */
module Deeplink {
  import opened Wrappers
  import opened Utf8
  import opened Chars

  datatype LinkError =
    | NotTermherd | UnknownAction | MissingRepo | DuplicateRepo | UnknownParameter
    | RelativeRepo | BadEncoding | ControlCharacter | NetworkPath

  const SCHEME := "termherd://"

  /** The text before and after the first `c`. */
  function SplitOnce(s: string, c: char): Option<(string, string)> {
    if s == [] then None
    else if s[0] == c then Some(([], s[1..]))
    else
      match SplitOnce(s[1..], c)
      case None => None
      case Some((before, after)) => Some(([s[0]] + before, after))
  }

  /** The pieces of `s` between every `c`. */
  function Split(s: string, c: char): (r: seq<string>)
    ensures |r| > 0
    decreases |s|
  {
    match SplitOnce(s, c)
    case None => [s]
    case Some((before, after)) => SplitOnceShorter(s, c); [before] + Split(after, c)
  }

  lemma {:induction false} SplitOnceShorter(s: string, c: char)
    ensures SplitOnce(s, c).Some? ==> s == SplitOnce(s, c).value.0 + [c] + SplitOnce(s, c).value.1
    ensures SplitOnce(s, c).Some? ==> c !in SplitOnce(s, c).value.0
    ensures SplitOnce(s, c).None? <==> c !in s
  {
    if s != [] && s[0] != c {
      SplitOnceShorter(s[1..], c);
    }
  }

  // ----- The grammar -----

  /** The one `repo` value among `pairs`, after `repo` was seen with a value or not. */
  function RepoOf(pairs: seq<string>, repo: Option<string>): Result<string, LinkError> {
    if pairs == [] then
      (if repo.Some? && repo.value != [] then Ok(repo.value) else Err(MissingRepo))
    else if pairs[0] == [] then RepoOf(pairs[1..], repo)
    else
      var (key, value) := match SplitOnce(pairs[0], '=') case Some(kv) => kv case None => (pairs[0], "");
      if key != "repo" then Err(UnknownParameter)
      else if repo.Some? then Err(DuplicateRepo)
      else RepoOf(pairs[1..], Some(value))
  }

  method RepoParameter(query: string) returns (r: Result<string, LinkError>)
    ensures r == RepoOf(Split(query, '&'), None)
  {
    var pairs := Split(query, '&');
    var repo: Option<string> := None;
    for i := 0 to |pairs|
      invariant RepoOf(pairs, None) == RepoOf(pairs[i..], repo)
    {
      if pairs[i] != [] {
        var (key, value) := match SplitOnce(pairs[i], '=') case Some(kv) => kv case None => (pairs[i], "");
        if key != "repo" {
          return Err(UnknownParameter);
        }
        if repo.Some? {
          return Err(DuplicateRepo);
        }
        repo := Some(value);
      }
    }
    r := if repo.Some? && repo.value != [] then Ok(repo.value) else Err(MissingRepo);
  }

  function HexValue(b: byte): Option<byte> {
    if 0x30 <= b <= 0x39 then Some(b - 0x30)
    else if 0x41 <= b <= 0x46 then Some(b - 0x41 + 10)
    else if 0x61 <= b <= 0x66 then Some(b - 0x61 + 10)
    else None
  }

  const PERCENT: byte := 0x25

  /** The bytes a percent-encoded run of bytes stands for; `+` stands for itself. */
  function Unescaped(b: seq<byte>): Option<seq<byte>>
    decreases |b|
  {
    if b == [] then Some([])
    else if b[0] != PERCENT then
      match Unescaped(b[1..])
      case None => None
      case Some(rest) => Some([b[0]] + rest)
    else if |b| < 3 || HexValue(b[1]).None? || HexValue(b[2]).None? then None
    else
      match Unescaped(b[3..])
      case None => None
      case Some(rest) => Some([EscapedByte(b[1], b[2])] + rest)
  }

  function EscapedByte(high: byte, low: byte): byte
    requires HexValue(high).Some? && HexValue(low).Some?
  {
    HexValueFits(high);
    HexValueFits(low);
    HexValue(high).value * 16 + HexValue(low).value
  }

  lemma HexValueFits(b: byte)
    ensures HexValue(b).Some? ==> HexValue(b).value < 16
  {
  }

  function PercentDecoded(encoded: string): Result<string, LinkError> {
    match Unescaped(Encode(encoded))
    case None => Err(BadEncoding)
    case Some(bytes) =>
      match Decode(bytes)
      case None => Err(BadEncoding)
      case Some(text) => Ok(text)
  }

  function Prefixed(bytes: seq<byte>, rest: Option<seq<byte>>): Option<seq<byte>> {
    match rest
    case None => None
    case Some(tail) => Some(bytes + tail)
  }

  lemma PrefixedOneMore(bytes: seq<byte>, b: byte, rest: Option<seq<byte>>)
    ensures Prefixed(bytes + [b], rest) == Prefixed(bytes, Prefixed([b], rest))
  {
    if rest.Some? {
      assert bytes + [b] + rest.value == bytes + ([b] + rest.value);
    }
  }

  method PercentDecode(encoded: string) returns (r: Result<string, LinkError>)
    ensures r == PercentDecoded(encoded)
  {
    hide Encode, Decode, HexValue, EscapedByte;
    var input := Encode(encoded);
    var bytes: seq<byte> := [];
    var i := 0;
    assert input[0..] == input;
    assert Prefixed([], Unescaped(input)) == Unescaped(input) by {
      if Unescaped(input).Some? {
        assert [] + Unescaped(input).value == Unescaped(input).value;
      }
    }
    while i < |input|
      invariant 0 <= i <= |input|
      invariant Unescaped(input) == Prefixed(bytes, Unescaped(input[i..]))
    {
      if input[i] == PERCENT {
        if i + 2 >= |input| || HexValue(input[i + 1]).None? || HexValue(input[i + 2]).None? {
          return Err(BadEncoding);
        }
        var b := EscapedByte(input[i + 1], input[i + 2]);
        assert input[i..][3..] == input[i + 3..];
        PrefixedOneMore(bytes, b, Unescaped(input[i + 3..]));
        bytes := bytes + [b];
        i := i + 3;
      } else {
        assert input[i..][1..] == input[i + 1..];
        PrefixedOneMore(bytes, input[i], Unescaped(input[i + 1..]));
        bytes := bytes + [input[i]];
        i := i + 1;
      }
    }
    assert bytes + [] == bytes;
    var text := Decode(bytes);
    r := if text.Some? then Ok(text.value) else Err(BadEncoding);
  }

  predicate HasControl(s: string) {
    exists k :: 0 <= k < |s| && IsControl(s[k])
  }

  predicate IsNetwork(path: string) {
    |path| >= 2 && path[0] == '/' && (path[1] == '/' || path[1] == '\\')
  }

  function RootLength(path: string): Option<nat> {
    if |path| >= 1 && path[0] == '/' then Some(1)
    else if |path| >= 3 && ('a' <= path[0] <= 'z' || 'A' <= path[0] <= 'Z') && path[1] == ':'
            && (path[2] == '/' || path[2] == '\\') then Some(3)
    else None
  }

  predicate IsSeparator(root: nat, c: char) {
    c == '/' || (root != 1 && c == '\\')
  }

  /** The path cut after the last character that is not a separator, never into its root. */
  ghost predicate IsTrimmed(path: string, root: nat, trimmed: string) {
    && root <= |trimmed| <= |path| && trimmed == path[..|trimmed|]
    && (forall k | |trimmed| <= k < |path| :: IsSeparator(root, path[k]))
    && (|trimmed| > root ==> !IsSeparator(root, trimmed[|trimmed| - 1]))
  }

  function Trimmed(path: string, root: nat): (r: string)
    requires root <= |path|
    ensures IsTrimmed(path, root, r)
    decreases |path|
  {
    if |path| > root && IsSeparator(root, path[|path| - 1]) then Trimmed(path[..|path| - 1], root) else path
  }

  method WithoutTrailingSeparator(path: string, root: nat) returns (r: string)
    requires root <= |path|
    ensures r == Trimmed(path, root)
  {
    r := path;
    while |r| > root && IsSeparator(root, r[|r| - 1])
      invariant root <= |r| && Trimmed(path, root) == Trimmed(r, root)
      decreases |r|
    {
      r := r[..|r| - 1];
    }
  }

  /** What a decoded path is answered with. */
  function Judged(repo: string): Result<string, LinkError> {
    if HasControl(repo) then Err(ControlCharacter)
    else if IsNetwork(repo) then Err(NetworkPath)
    else
      match RootLength(repo)
      case None => Err(RelativeRepo)
      case Some(root) => Ok(Trimmed(repo, root))
  }

  /** The action and query of a link, its fragment dropped; nothing for text not addressed to termherd. */
  function ActionAndQuery(url: string): Option<(string, string)> {
    if |url| < |SCHEME| || !SameIgnoringCase(url[..|SCHEME|], SCHEME) then None
    else
      var rest := url[|SCHEME|..];
      var unfragmented := match SplitOnce(rest, '#') case Some((before, _)) => before case None => rest;
      Some(match SplitOnce(unfragmented, '?') case Some(parts) => parts case None => (unfragmented, ""))
  }

  function WithoutOneSlash(action: string): string {
    if action != [] && action[|action| - 1] == '/' then action[..|action| - 1] else action
  }

  /** What a link asks for. */
  function Parsed(url: string): Result<string, LinkError> {
    match ActionAndQuery(url)
    case None => Err(NotTermherd)
    case Some((action, query)) =>
      if WithoutOneSlash(action) != "open" then Err(UnknownAction)
      else
        match RepoOf(Split(query, '&'), None)
        case Err(e) => Err(e)
        case Ok(encoded) =>
          match PercentDecoded(encoded)
          case Err(e) => Err(e)
          case Ok(repo) => Judged(repo)
  }

  method Parse(url: string) returns (r: Result<string, LinkError>)
    ensures r == Parsed(url)
  {
    var parts := ActionAndQuery(url);
    if parts.None? {
      return Err(NotTermherd);
    }
    var (action, query) := parts.value;
    if WithoutOneSlash(action) != "open" {
      return Err(UnknownAction);
    }
    var encoded := RepoParameter(query);
    if encoded.Err? {
      return Err(encoded.error);
    }
    var repo := PercentDecode(encoded.value);
    if repo.Err? {
      return Err(repo.error);
    }
    if HasControl(repo.value) {
      return Err(ControlCharacter);
    }
    if IsNetwork(repo.value) {
      return Err(NetworkPath);
    }
    var root := RootLength(repo.value);
    if root.None? {
      return Err(RelativeRepo);
    }
    var trimmed := WithoutTrailingSeparator(repo.value, root.value);
    r := Ok(trimmed);
  }

  // ----- Encoding a path, and reading the link back -----

  function HexDigit(d: nat): char
    requires d < 16
  {
    "0123456789ABCDEF"[d]
  }

  function PercentText(b: seq<byte>): string {
    if b == [] then [] else ['%', HexDigit(b[0] / 16), HexDigit(b[0] % 16)] + PercentText(b[1..])
  }

  /** The link that asks for a path, every byte of it escaped. */
  function LinkFor(path: string): string {
    SCHEME + "open?repo=" + PercentText(Encode(path))
  }

  /** The paths a link can name unchanged. */
  predicate IsCanonical(path: string) {
    && !HasControl(path) && !IsNetwork(path)
    && var root := RootLength(path);
      root.Some? && (|path| > root.value ==> !IsSeparator(root.value, path[|path| - 1]))
  }

  lemma HexRoundTrip(b: byte)
    ensures var (h, l) := (HexDigit(b / 16) as int, HexDigit(b % 16) as int);
      && 0 <= h < 0x80 && 0 <= l < 0x80 && HexValue(h) == Some(b / 16) && HexValue(l) == Some(b % 16)
  {
    HexDigitValue(b / 16);
    HexDigitValue(b % 16);
  }

  lemma HexDigitValue(d: nat)
    requires d < 16
    ensures HexDigit(d) as int < 0x80 && HexValue(HexDigit(d) as int) == Some(d)
  {
  }

  lemma {:induction false} PercentTextUnescapes(b: seq<byte>)
    ensures Unescaped(Encode(PercentText(b))) == Some(b)
  {
    if b != [] {
      hide Encode, HexValue, HexDigit, EscapedByte;
      var head, tail := ['%', HexDigit(b[0] / 16), HexDigit(b[0] % 16)], PercentText(b[1..]);
      EscapedHead(b[0]);
      EncodeConcat(head, tail);
      PercentTextUnescapes(b[1..]);
      var e := Encode(head) + Encode(tail);
      assert e[3..] == Encode(tail) && e[0] == PERCENT && e[1] == Encode(head)[1] && e[2] == Encode(head)[2];
      assert b == [b[0]] + b[1..];
    }
  }

  lemma EscapedHead(b: byte)
    ensures var e := Encode(['%', HexDigit(b / 16), HexDigit(b % 16)]);
      && |e| == 3 && e[0] == PERCENT && HexValue(e[1]).Some? && HexValue(e[2]).Some? && EscapedByte(e[1], e[2]) == b
  {
    HexRoundTrip(b);
    EncodeAscii(['%', HexDigit(b / 16), HexDigit(b % 16)]);
    hide Encode, HexValue, HexDigit;
  }

  lemma HexDigitIsPlain(d: nat)
    requires d < 16
    ensures HexDigit(d) != '#' && HexDigit(d) != '&'
  {
  }

  lemma {:induction false} PercentTextIsPlain(b: seq<byte>)
    ensures '#' !in PercentText(b) && '&' !in PercentText(b)
  {
    hide HexDigit;
    if b != [] {
      HexDigitIsPlain(b[0] / 16);
      HexDigitIsPlain(b[0] % 16);
      PercentTextIsPlain(b[1..]);
    }
  }

  lemma {:induction false} SplitOnceAt(a: string, c: char, b: string)
    requires forall x <- a :: x != c
    ensures SplitOnce(a + [c] + b, c) == Some((a, b))
  {
    if a == [] {
      assert a + [c] + b == [c] + b;
    } else {
      assert a[0] in a && forall x <- a[1..] :: x in a;
      SplitOnceAt(a[1..], c, b);
      assert (a + [c] + b)[1..] == a[1..] + [c] + b;
      assert a == [a[0]] + a[1..];
    }
  }

  function LinkWith(text: string): string {
    SCHEME + "open?repo=" + text
  }

  lemma LinkAction(text: string)
    requires '#' !in text
    ensures ActionAndQuery(LinkWith(text)) == Some(("open", "repo=" + text))
  {
    hide SplitOnce, SameIgnoringCase;
    var query := "repo=" + text;
    var rest := "open?" + query;
    LinkParts(text);
    SameAsItself(SCHEME);
    SplitOnceShorter(rest, '#');
    SplitOnceAt("open", '?', query);
    assert "open" + ['?'] + query == rest;
  }

  lemma LinkParts(text: string)
    ensures var url := LinkWith(text);
      |url| >= |SCHEME| && url[..|SCHEME|] == SCHEME && url[|SCHEME|..] == "open?" + ("repo=" + text)
  {
    var tail := "open?" + ("repo=" + text);
    assert LinkWith(text) == SCHEME + tail;
  }

  lemma SameAsItself(a: string)
    ensures SameIgnoringCase(a, a)
  {
  }

  lemma LinkQuery(text: string)
    requires '&' !in text
    ensures Split("repo=" + text, '&') == ["repo=" + text]
    ensures SplitOnce("repo=" + text, '=') == Some(("repo", text))
  {
    hide SplitOnce;
    SplitOnceShorter("repo=" + text, '&');
    SplitOnceAt("repo", '=', text);
    assert "repo" + ['='] + text == "repo=" + text;
  }

  /** A link is answered by the decoding of its text alone, whatever that is but empty or cut by `#` or `&`. */
  lemma TextIsDecoded(text: string)
    requires text != "" && '#' !in text && '&' !in text
    ensures Parsed(LinkWith(text)) == match PercentDecoded(text) case Err(e) => Err(e) case Ok(path) => Judged(path)
  {
    hide PercentDecoded, Judged, ActionAndQuery, Split, SplitOnce, LinkWith;
    LinkAction(text);
    LinkQuery(text);
    var pairs := ["repo=" + text];
    assert pairs[1..] == [];
    assert RepoOf(pairs, None) == RepoOf([], Some(text));
  }

  // ----- Raw and escaped bytes -----

  /** One byte of a text: raw, or escaped by two hexadecimal digits of either case. */
  datatype Piece = Raw(b: byte) | Escaped(high: byte, low: byte)

  predicate IsPiece(p: Piece) {
    match p
    case Raw(b) => b != PERCENT
    case Escaped(high, low) => HexValue(high).Some? && HexValue(low).Some?
  }

  function SpellOne(p: Piece): seq<byte> {
    match p case Raw(b) => [b] case Escaped(high, low) => [PERCENT, high, low]
  }

  function Spell(ps: seq<Piece>): seq<byte> {
    if ps == [] then [] else SpellOne(ps[0]) + Spell(ps[1..])
  }

  function MeanOne(p: Piece): byte
    requires IsPiece(p)
  {
    match p case Raw(b) => b case Escaped(high, low) => EscapedByte(high, low)
  }

  function Meaning(ps: seq<Piece>): seq<byte>
    requires forall k | 0 <= k < |ps| :: IsPiece(ps[k])
  {
    if ps == [] then [] else [MeanOne(ps[0])] + Meaning(ps[1..])
  }

  lemma {:induction false} SpellingIsRead(ps: seq<Piece>)
    requires forall k | 0 <= k < |ps| :: IsPiece(ps[k])
    ensures Unescaped(Spell(ps)) == Some(Meaning(ps))
  {
    hide HexValue, EscapedByte;
    if ps != [] {
      SpellingIsRead(ps[1..]);
      var rest := Spell(ps[1..]);
      match ps[0]
      case Raw(b) => assert ([b] + rest)[1..] == rest;
      case Escaped(high, low) => assert ([PERCENT, high, low] + rest)[3..] == rest;
    }
  }

  lemma {:induction false} ReadIsSpelling(b: seq<byte>) returns (ps: seq<Piece>)
    requires Unescaped(b).Some?
    ensures forall k | 0 <= k < |ps| :: IsPiece(ps[k])
    ensures Spell(ps) == b && Meaning(ps) == Unescaped(b).value
    decreases |b|
  {
    hide HexValue, EscapedByte;
    if b == [] {
      ps := [];
    } else {
      var n, first := if b[0] == PERCENT then 3 else 1, if b[0] == PERCENT then Escaped(b[1], b[2]) else Raw(b[0]);
      var rest := ReadIsSpelling(b[n..]);
      ps := [first] + rest;
      assert ps[1..] == rest && b == SpellOne(first) + b[n..];
    }
  }

  /** What decodes, and to what: exactly the lists of raw and escaped bytes, each to what they mean. */
  lemma UnescapedReadsPieces(b: seq<byte>, v: seq<byte>)
    ensures Unescaped(b) == Some(v) <==>
      exists ps: seq<Piece> :: (forall k | 0 <= k < |ps| :: IsPiece(ps[k])) && Spell(ps) == b && Meaning(ps) == v
  {
    hide Unescaped, Spell, Meaning, IsPiece;
    if Unescaped(b) == Some(v) {
      var ps := ReadIsSpelling(b);
    }
    if ps: seq<Piece> :| (forall k | 0 <= k < |ps| :: IsPiece(ps[k])) && Spell(ps) == b && Meaning(ps) == v {
      SpellingIsRead(ps);
    }
  }

  /** A path is judged as it stands however its bytes are spelled, each raw or escaped, as long as no raw `#` or
      `&` cuts the text. */
  lemma SpelledPathIsJudged(path: string, text: string, ps: seq<Piece>)
    requires forall k | 0 <= k < |ps| :: IsPiece(ps[k])
    requires Encode(text) == Spell(ps) && Encode(path) == Meaning(ps)
    requires path != "" && '#' !in text && '&' !in text
    ensures Parsed(LinkWith(text)) == Judged(path)
    ensures Parsed(LinkWith(text)) == Ok(path) <==> IsCanonical(path)
  {
    hide Encode, Decode, Unescaped, Spell, Meaning, Parsed, LinkWith;
    SpellingIsRead(ps);
    DecodeEncode(path);
    SpelledSomething(path, text, ps);
    TextIsDecoded(text);
  }

  lemma SpelledSomething(path: string, text: string, ps: seq<Piece>)
    requires forall k | 0 <= k < |ps| :: IsPiece(ps[k])
    requires Encode(text) == Spell(ps) && Encode(path) == Meaning(ps) && path != ""
    ensures text != ""
  {
    assert |Encode(path)| > 0;
    assert ps != [] && |SpellOne(ps[0])| > 0;
    if text == "" {
      EncodeNothing();
    }
  }

  lemma EncodeNothing()
    ensures Encode("") == []
  {
  }

  /** The whole behaviour on encoded paths: the empty one names no repo, and any other is judged as it
      stands. */
  lemma EncodedPathIsJudged(path: string)
    ensures Parsed(LinkFor(path)) == if path == [] then Err(MissingRepo) else Judged(path)
  {
    hide Encode, Decode, PercentText, Judged, ActionAndQuery, Split, SplitOnce;
    var text := PercentText(Encode(path));
    PercentTextIsPlain(Encode(path));
    LinkText(path);
    PercentTextUnescapes(Encode(path));
    DecodeEncode(path);
    PercentTextEmpty(path);
    if path == [] {
      LinkAction(text);
      LinkQuery(text);
      var pairs := ["repo=" + text];
      assert pairs[1..] == [];
      assert RepoOf(pairs, None) == RepoOf([], Some(text));
    } else {
      hide Parsed, LinkFor;
      TextIsDecoded(text);
    }
  }

  lemma LinkText(path: string)
    ensures LinkFor(path) == LinkWith(PercentText(Encode(path)))
  {
  }

  lemma PercentTextEmpty(path: string)
    ensures PercentText(Encode(path)) == [] <==> path == []
  {
  }

  /** A path comes back from its own link exactly when it is absolute, free of control characters, no
      network path, and ends on no separator past its root. */
  lemma CanonicalPathsRoundTrip(path: string)
    ensures Parsed(LinkFor(path)) == Ok(path) <==> IsCanonical(path)
  {
    hide LinkFor, Parsed;
    EncodedPathIsJudged(path);
  }

  /** Whatever a link is accepted as is such a path, so asking for it again changes nothing. */
  lemma AcceptedPathsAreCanonical(url: string)
    requires Parsed(url).Ok?
    ensures IsCanonical(Parsed(url).value)
    ensures Parsed(LinkFor(Parsed(url).value)) == Parsed(url)
  {
    hide LinkFor, ActionAndQuery, RepoOf, PercentDecoded;
    var (action, query) := ActionAndQuery(url).value;
    var repo := PercentDecoded(RepoOf(Split(query, '&'), None).value).value;
    JudgedIsCanonical(repo);
    CanonicalPathsRoundTrip(Parsed(url).value);
  }

  lemma JudgedIsCanonical(repo: string)
    requires Judged(repo).Ok?
    ensures IsCanonical(Judged(repo).value)
  {
    var root := RootLength(repo).value;
    var path := Trimmed(repo, root);
    assert RootLength(path) == Some(root);
    ControlsOfPrefix(repo, |path|);
  }

  lemma ControlsOfPrefix(s: string, n: nat)
    requires n <= |s|
    ensures HasControl(s[..n]) ==> HasControl(s)
  {
    if k :| 0 <= k < n && IsControl(s[..n][k]) {
      assert IsControl(s[k]);
    }
  }
}
