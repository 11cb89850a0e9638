/** The configured editor command: parsing its words into literals and slots, and filling them in. */
module OpenCommand {
  import opened Wrappers
  import opened Chars
  import opened Text
  import Digits

  datatype Slot = Path | Line | Col

  datatype Segment = Literal(text: string) | Fill(slot: Slot)

  type Word = seq<Segment>

  datatype OpenError =
    | Empty
    | PlaceholderInProgram(program: string)
    | UnknownPlaceholder(name: string)
    | UnterminatedPlaceholder(word: string)
    | NoPath

  function Named(name: string): Option<Slot> {
    if name == "path" then Some(Path)
    else if name == "line" then Some(Line)
    else if name == "col" then Some(Col)
    else None
  }

  function NameOf(slot: Slot): string {
    match slot
    case Path => "path"
    case Line => "line"
    case Col => "col"
  }

  /** Where `c` first is. */
  function Find(s: string, c: char): (k: Option<nat>)
    ensures k.Some? ==> k.value < |s| && s[k.value] == c && c !in s[..k.value]
    ensures k.None? ==> c !in s
  {
    if s == [] then None
    else if s[0] == c then Some(0)
    else
      match Find(s[1..], c)
      case None => None
      case Some(k) => assert s[..k + 1] == [s[0]] + s[1..][..k]; Some(k + 1)
  }

  function AsLiteral(text: string): Word {
    if text == [] then [] else [Literal(text)]
  }

  /** The segments of what is left of `word`. */
  function Segments(rest: string, word: string): Result<Word, OpenError>
    decreases |rest|
  {
    match Find(rest, '{')
    case None => Ok(AsLiteral(rest))
    case Some(open) =>
      var after := rest[open + 1..];
      match Find(after, '}')
      case None => Err(UnterminatedPlaceholder(word))
      case Some(close) =>
        match Named(after[..close])
        case None => Err(UnknownPlaceholder(after[..close]))
        case Some(slot) =>
          match Segments(after[close + 1..], word)
          case Err(e) => Err(e)
          case Ok(tail) => Ok(AsLiteral(rest[..open]) + [Fill(slot)] + tail)
  }

  function Onto(head: Word, r: Result<Word, OpenError>): Result<Word, OpenError> {
    match r
    case Err(e) => Err(e)
    case Ok(tail) => Ok(head + tail)
  }

  lemma OntoOnto(a: Word, b: Word, r: Result<Word, OpenError>)
    ensures Onto(a + b, r) == Onto(a, Onto(b, r))
  {
    if r.Ok? {
      assert a + b + r.value == a + (b + r.value);
    }
  }

  /** `Word::parse`, the single scanner. */
  method ParseWord(word: string) returns (r: Result<Word, OpenError>)
    ensures r == Segments(word, word)
  {
    hide AsLiteral, Named, Find;
    var segments: Word := [];
    var rest := word;
    assert Onto([], Segments(word, word)) == Segments(word, word) by {
      if Segments(word, word).Ok? {
        assert [] + Segments(word, word).value == Segments(word, word).value;
      }
    }
    var open := Find(rest, '{');
    while open.Some?
      invariant open == Find(rest, '{')
      invariant Segments(word, word) == Onto(segments, Segments(rest, word))
      decreases |rest|
    {
      ghost var before := rest;
      var literal, after := rest[..open.value], rest[open.value + 1..];
      var close := Find(after, '}');
      if close.None? {
        return Err(UnterminatedPlaceholder(word));
      }
      var slot := Named(after[..close.value]);
      if slot.None? {
        return Err(UnknownPlaceholder(after[..close.value]));
      }
      rest := after[close.value + 1..];
      var head := AsLiteral(literal) + [Fill(slot.value)];
      assert Segments(before, word) == Onto(head, Segments(rest, word));
      OntoOnto(segments, head, Segments(rest, word));
      segments := segments + head;
      open := Find(rest, '{');
    }
    r := Ok(segments + AsLiteral(rest));
  }

  // ----- Parsing and printing -----

  function PrintSegment(s: Segment): string {
    match s
    case Literal(text) => text
    case Fill(slot) => "{" + NameOf(slot) + "}"
  }

  function Print(w: Word): string {
    if w == [] then [] else PrintSegment(w[0]) + Print(w[1..])
  }

  /** A word as parsing leaves it: no literal is empty, holds a `{`, or follows another. */
  ghost predicate IsNormal(w: Word) {
    && (forall k | 0 <= k < |w| && w[k].Literal? :: w[k].text != [] && '{' !in w[k].text)
    && forall k | 0 < k < |w| :: !(w[k - 1].Literal? && w[k].Literal?)
  }

  lemma {:induction false} PrintConcat(v: Word, w: Word)
    ensures Print(v + w) == Print(v) + Print(w)
  {
    hide PrintSegment;
    if v == [] {
      assert v + w == w;
    } else {
      var rest := v[1..];
      PrintConcat(rest, w);
      var all := v + w;
      assert all[1..] == rest + w && all[0] == v[0];
      assert Print(all) == PrintSegment(v[0]) + Print(rest + w);
    }
  }

  lemma NamesAgree(name: string, slot: Slot)
    ensures Named(name) == Some(slot) <==> NameOf(slot) == name
    ensures '}' !in NameOf(slot)
  {
  }

  lemma NormalLiteral(text: string)
    requires '{' !in text
    ensures IsNormal(AsLiteral(text)) && Print(AsLiteral(text)) == text
  {
    PrintOne(Literal(text));
  }

  lemma PrintOne(s: Segment)
    ensures Print([s]) == PrintSegment(s)
  {
    assert Print([s]) == PrintSegment(s) + Print([s][1..]);
  }

  /** A literal, a slot, and a normal rest. */
  lemma NormalStep(text: string, slot: Slot, tail: Word)
    requires '{' !in text
    ensures IsNormal(AsLiteral(text) + [Fill(slot)] + tail) <==> IsNormal(tail)
    ensures Print(AsLiteral(text) + [Fill(slot)] + tail) == text + ("{" + NameOf(slot) + "}" + Print(tail))
  {
    NormalLiteral(text);
    PrintConcat(AsLiteral(text) + [Fill(slot)], tail);
    PrintConcat(AsLiteral(text), [Fill(slot)]);
    PrintOne(Fill(slot));
    NormalAfter(AsLiteral(text) + [Fill(slot)], tail);
  }

  lemma NormalAfter(head: Word, tail: Word)
    requires IsNormal(head) && head != [] && head[|head| - 1].Fill?
    ensures IsNormal(head + tail) <==> IsNormal(tail)
  {
    var w, n := head + tail, |head|;
    assert forall k | 0 <= k < |tail| :: tail[k] == w[k + n];
    assert forall k | n <= k < |w| :: w[k] == tail[k - n];
    if IsNormal(w) {
      forall k | 0 < k < |tail| ensures !(tail[k - 1].Literal? && tail[k].Literal?) {
        assert w[k + n - 1] == tail[k - 1] && w[k + n] == tail[k];
      }
    }
  }

  lemma FindAt(a: string, c: char, b: string)
    requires forall x <- a :: x != c
    ensures Find(a + [c] + b, c) == Some(|a|)
  {
    if a == [] {
      assert a + [c] + b == [c] + b;
    } else {
      assert a[0] in a && forall x <- a[1..] :: x in a;
      FindAt(a[1..], c, b);
      assert (a + [c] + b)[1..] == a[1..] + [c] + b;
    }
  }

  lemma {:induction false} ParsedPrintsBack(rest: string, word: string)
    requires Segments(rest, word).Ok?
    ensures Print(Segments(rest, word).value) == rest && IsNormal(Segments(rest, word).value)
    decreases |rest|
  {
    hide Print, IsNormal, Named, NameOf, AsLiteral, Find;
    match Find(rest, '{')
    case None =>
      NormalLiteral(rest);
    case Some(open) =>
      var literal, after := rest[..open], rest[open + 1..];
      var close := Find(after, '}').value;
      var slot, tail := Named(after[..close]).value, Segments(after[close + 1..], word).value;
      ParsedPrintsBack(after[close + 1..], word);
      NamesAgree(after[..close], slot);
      NormalStep(literal, slot, tail);
      CutAround(rest, open, close);
  }

  lemma CutAround(rest: string, open: nat, close: nat)
    requires open < |rest| && rest[open] == '{' && open + 1 + close < |rest| && rest[open + 1..][close] == '}'
    ensures rest == rest[..open] + ("{" + rest[open + 1..][..close] + "}" + rest[open + 1..][close + 1..])
  {
    var after := rest[open + 1..];
    assert after == after[..close] + "}" + after[close + 1..];
  }

  lemma SegmentsStep(text: string, slot: Slot, rest: string, word: string)
    requires '{' !in text
    ensures Segments(text + ("{" + NameOf(slot) + "}" + rest), word)
         == Onto(AsLiteral(text) + [Fill(slot)], Segments(rest, word))
  {
    hide Named, NameOf, AsLiteral, Find;
    var name := NameOf(slot);
    NamesAgree(name, slot);
    var all := text + ("{" + name + "}" + rest);
    assert all == text + ['{'] + (name + "}" + rest);
    FindAt(text, '{', name + "}" + rest);
    var after := name + ['}'] + rest;
    FindAt(name, '}', rest);
    assert all[|text| + 1..] == after && after[..|name|] == name && after[|name| + 1..] == rest;
    assert all[..|text|] == text;
  }

  lemma {:induction false} NormalParses(w: Word, word: string)
    requires IsNormal(w)
    ensures Segments(Print(w), word) == Ok(w)
    decreases |w|
  {
    if w != [] {
      var text := if w[0].Literal? then w[0].text else "";
      var n := if w[0].Literal? then 1 else 0;
      assert AsLiteral(text) == w[..n] && '{' !in text;
      if n == |w| {
        assert w[..n] == w;
        NormalLiteral(text);
      } else {
        var slot, tail := w[n].slot, w[n + 1..];
        assert w == AsLiteral(text) + [Fill(slot)] + tail;
        hide IsNormal, Print, AsLiteral, Segments;
        NormalStep(text, slot, tail);
        NormalParses(tail, word);
        SegmentsStep(text, slot, Print(tail), word);
      }
    }
  }

  /** Parsing and printing undo each other: a word parses to exactly the normal segments that print it,
      and is refused when there are none. */
  lemma ParsingInvertsPrinting(word: string, w: Word)
    ensures Segments(word, word) == Ok(w) <==> IsNormal(w) && Print(w) == word
  {
    hide Segments, Print, IsNormal;
    if Segments(word, word) == Ok(w) {
      ParsedPrintsBack(word, word);
    }
    if IsNormal(w) && Print(w) == word {
      NormalParses(w, word);
    }
  }

  // ----- Rendering -----

  /** What the three slots stand for. */
  datatype Values = Values(path: string, line: string, col: string) {
    function Of(slot: Slot): string {
      match slot
      case Path => path
      case Line => line
      case Col => col
    }
  }

  function Render(w: Word, v: Values): string {
    if w == [] then []
    else (match w[0] case Literal(text) => text case Fill(slot) => v.Of(slot)) + Render(w[1..], v)
  }

  /** Filling every slot with its own placeholder prints the word. */
  lemma {:induction false} RenderingPlaceholdersPrints(w: Word)
    ensures Render(w, Values("{path}", "{line}", "{col}")) == Print(w)
  {
    if w != [] {
      RenderingPlaceholdersPrints(w[1..]);
      assert w[0].Fill? ==> "{" + NameOf(w[0].slot) + "}" == Values("{path}", "{line}", "{col}").Of(w[0].slot);
    }
  }

  /** The fixed text between the places the path goes. */
  function Pieces(w: Word, line: string, col: string): (r: seq<string>)
    ensures r != []
  {
    if w == [] then [""]
    else
      var rest := Pieces(w[1..], line, col);
      match w[0]
      case Literal(text) => [text + rest[0]] + rest[1..]
      case Fill(Path) => [""] + rest
      case Fill(Line) => [line + rest[0]] + rest[1..]
      case Fill(Col) => [col + rest[0]] + rest[1..]
  }

  function Join(pieces: seq<string>, path: string): string
    requires pieces != []
  {
    if |pieces| == 1 then pieces[0] else pieces[0] + path + Join(pieces[1..], path)
  }

  lemma JoinFirst(text: string, rest: seq<string>, path: string)
    requires rest != []
    ensures Join([text + rest[0]] + rest[1..], path) == text + Join(rest, path)
  {
    var pieces := [text + rest[0]] + rest[1..];
    if |rest| > 1 {
      assert pieces[1..] == rest[1..];
      assert text + rest[0] + path + Join(rest[1..], path) == text + (rest[0] + path + Join(rest[1..], path));
    }
  }

  /** Whatever a path holds, it is copied as it is into places the template alone fixes, and nothing else
      of the argument depends on it: a path is never read as a template. */
  lemma {:induction false} PathIsCopiedVerbatim(w: Word, v: Values)
    ensures Render(w, v) == Join(Pieces(w, v.line, v.col), v.path)
  {
    if w != [] {
      PathIsCopiedVerbatim(w[1..], v);
      var rest := Pieces(w[1..], v.line, v.col);
      match w[0]
      case Literal(text) => JoinFirst(text, rest, v.path);
      case Fill(Path) =>
        assert ([""] + rest)[1..] == rest;
        assert "" + v.path + Join(rest, v.path) == v.path + Join(rest, v.path);
      case Fill(Line) => JoinFirst(v.line, rest, v.path);
      case Fill(Col) => JoinFirst(v.col, rest, v.path);
    }
  }

  // ----- A whole command -----

  datatype Command = Command(program: string, args: seq<Word>)

  predicate TakesThePath(w: Word) {
    Fill(Path) in w
  }

  predicate AllLiteral(w: Word) {
    forall s <- w :: s.Literal?
  }

  function ParseAll(words: seq<string>): Result<seq<Word>, OpenError> {
    if words == [] then Ok([])
    else
      match Segments(words[0], words[0])
      case Err(e) => Err(e)
      case Ok(w) =>
        match ParseAll(words[1..])
        case Err(e) => Err(e)
        case Ok(rest) => Ok([w] + rest)
  }

  /** `OpenCommand::from_words`. */
  function FromWords(words: seq<string>): Result<Command, OpenError> {
    if words == [] || IsBlank(words[0]) then Err(Empty)
    else
      match Segments(words[0], words[0])
      case Err(e) => Err(e)
      case Ok(program) =>
        if !AllLiteral(program) then Err(PlaceholderInProgram(words[0]))
        else
          match ParseAll(words[1..])
          case Err(e) => Err(e)
          case Ok(args) =>
            if exists w <- args :: TakesThePath(w) then Ok(Command(words[0], args)) else Err(NoPath)
  }

  lemma {:induction false} ParseAllWords(words: seq<string>)
    ensures ParseAll(words).Ok? <==> forall k | 0 <= k < |words| :: Segments(words[k], words[k]).Ok?
    ensures ParseAll(words).Ok? ==>
      && |ParseAll(words).value| == |words|
      && forall k | 0 <= k < |words| :: Segments(words[k], words[k]) == Ok(ParseAll(words).value[k])
  {
    hide Segments;
    if words != [] {
      ParseAllWords(words[1..]);
      if forall k | 0 <= k < |words| :: Segments(words[k], words[k]).Ok? {
        assert forall k | 0 <= k < |words| - 1 :: Segments(words[1..][k], words[1..][k]) == Segments(words[k + 1], words[k + 1]);
      }
    }
  }

  lemma LiteralProgram(word: string)
    ensures (Segments(word, word).Ok? && AllLiteral(Segments(word, word).value)) <==> '{' !in word
  {
    var k := Find(word, '{');
    if k.Some? && Segments(word, word).Ok? {
      var w, n := Segments(word, word).value, |AsLiteral(word[..k.value])|;
      assert w[n].Fill?;
      assert w[n] in w;
    }
  }

  /** A command is accepted exactly when it names a program, the program holds no `{`, every argument
      parses, and one of them takes the path; its program is then the first word as written. */
  lemma AcceptedCommands(words: seq<string>)
    ensures FromWords(words).Ok? <==>
      && words != [] && !IsBlank(words[0]) && '{' !in words[0]
      && (forall k | 1 <= k < |words| :: Segments(words[k], words[k]).Ok?)
      && exists k :: 1 <= k < |words| && TakesThePath(Segments(words[k], words[k]).value)
    ensures FromWords(words).Ok? ==>
      && FromWords(words).value.program == words[0]
      && |FromWords(words).value.args| == |words| - 1
      && forall k | 1 <= k < |words| ::
           IsNormal(FromWords(words).value.args[k - 1]) && Print(FromWords(words).value.args[k - 1]) == words[k]
  {
    hide Segments, AllLiteral, TakesThePath, IsNormal, Print;
    if words != [] {
      LiteralProgram(words[0]);
      ParseAllWords(words[1..]);
      assert forall k | 1 <= k < |words| :: words[k] == words[1..][k - 1];
      forall k | 1 <= k < |words| && Segments(words[k], words[k]).Ok?
        ensures IsNormal(Segments(words[k], words[k]).value) && Print(Segments(words[k], words[k]).value) == words[k]
      {
        ParsedPrintsBack(words[k], words[k]);
      }
    }
  }

  /** `OpenCommand::parse`: a configured line, split on whitespace first. */
  function FromLine(line: string): Result<Command, OpenError> {
    FromWords(Words(line))
  }

  /** The split form reaches exactly the argument lists with no empty word and no whitespace in one; a
      program path with spaces needs the list form. */
  lemma SplitFormReaches(words: seq<string>)
    ensures (exists line :: Words(line) == words) <==> forall w <- words :: IsSolid(w)
    ensures (forall w <- words :: IsSolid(w)) ==> FromLine(JoinWords(words)) == FromWords(words)
  {
    hide FromWords, Words, JoinWords, IsSolid;
    if forall w <- words :: IsSolid(w) {
      JoinedWordsSplitBack(words);
    }
    if line :| Words(line) == words {
      WordsAreSolid(line);
    }
  }

  const NO_POSITION := 1

  function PositionText(n: Option<nat>): string {
    Digits.Render(if n.Some? then n.value else NO_POSITION, 10)
  }

  function RenderAll(args: seq<Word>, v: Values): (r: seq<string>)
    ensures |r| == |args| && forall k | 0 <= k < |args| :: r[k] == Render(args[k], v)
  {
    seq(|args|, k requires 0 <= k < |args| => Render(args[k], v))
  }

  /** `OpenCommand::resolve`: the program and the arguments for one file. */
  function Resolved(c: Command, path: string, line: Option<nat>, col: Option<nat>): (string, seq<string>) {
    (c.program, RenderAll(c.args, Values(path, PositionText(line), PositionText(col))))
  }

  /** What reaches the spawn: the program is the configured first word, there is one argument for each
      other word, each is its template with the path copied into fixed places, and one of them holds the
      whole path. */
  lemma ThePathCannotChangeTheCommand(words: seq<string>, path: string, line: Option<nat>, col: Option<nat>)
    requires FromWords(words).Ok?
    ensures var (c, (program, args)) := (FromWords(words).value, Resolved(FromWords(words).value, path, line, col));
      && program == words[0] && |args| == |words| - 1
      && (forall k | 0 <= k < |args| ::
            args[k] == Join(Pieces(c.args[k], PositionText(line), PositionText(col)), path))
      && exists k :: 0 <= k < |args| && |Pieces(c.args[k], PositionText(line), PositionText(col))| > 1
  {
    hide Segments, Render, Pieces, Join, IsNormal, Print, TakesThePath;
    AcceptedCommands(words);
    var c, v := FromWords(words).value, Values(path, PositionText(line), PositionText(col));
    forall k | 0 <= k < |c.args|
      ensures Render(c.args[k], v) == Join(Pieces(c.args[k], v.line, v.col), path)
    {
      PathIsCopiedVerbatim(c.args[k], v);
    }
    var w :| w in c.args && TakesThePath(w);
    var k :| 0 <= k < |c.args| && c.args[k] == w;
    PiecesOfPath(w, v.line, v.col);
  }

  lemma {:induction false} PiecesOfPath(w: Word, line: string, col: string)
    ensures TakesThePath(w) <==> |Pieces(w, line, col)| > 1
  {
    if w != [] {
      PiecesOfPath(w[1..], line, col);
      assert w == [w[0]] + w[1..];
    }
  }
}
