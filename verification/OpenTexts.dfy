/** What a configured editor command becomes, and how it is refused, read off its words alone. */
module OpenTexts {
  import opened Wrappers
  import opened Chars
  import opened OpenCommand
  import Digits

  ghost predicate Parses(word: string) {
    Segments(word, word).Ok?
  }

  /** What a word is passed on as. */
  function Passed(word: string, path: string, line: Option<nat>, col: Option<nat>): string
    requires Segments(word, word).Ok?
  {
    Resolved(Command("", [Segments(word, word).value]), path, line, col).1[0]
  }

  /** What a number is written as, 1 when there is none. */
  ghost predicate IsWritten(n: Option<nat>, text: string) {
    text == match n case Some(v) => Digits.Render(v, 10) case None => "1"
  }

  lemma OneIsWritten()
    ensures Digits.Render(1, 10) == "1"
  {
  }

  /** How the scanner reads what is left of a word: up to its first `{`, and from there to the first `}`. */
  datatype Form =
    | Plain
    | Open(front: string, after: string)
    | Unknown(front: string, name: string, tail: string)
    | Filled(front: string, slot: Slot, tail: string)

  ghost predicate HasForm(rest: string, f: Form) {
    match f
    case Plain => '{' !in rest
    case Open(front, after) => rest == front + ("{" + after) && '{' !in front && '}' !in after
    case Unknown(front, name, tail) =>
      rest == front + ("{" + (name + "}" + tail)) && '{' !in front && '}' !in name && name !in {"path", "line", "col"}
    case Filled(front, slot, tail) => rest == front + ("{" + NameOf(slot) + "}" + tail) && '{' !in front
  }

  lemma FormOf(rest: string) returns (f: Form)
    ensures HasForm(rest, f)
  {
    hide Find, NameOf, Named;
    var open := Find(rest, '{');
    if open.None? {
      return Plain;
    }
    var front, after := rest[..open.value], rest[open.value + 1..];
    assert rest == front + ("{" + after);
    var close := Find(after, '}');
    if close.None? {
      return Open(front, after);
    }
    var name, tail := after[..close.value], after[close.value + 1..];
    assert after == name + "}" + tail;
    UnknownNames(name);
    if Named(name).None? {
      return Unknown(front, name, tail);
    }
    NamesAgree(name, Named(name).value);
    assert "{" + name + "}" + tail == "{" + (name + "}" + tail);
    f := Filled(front, Named(name).value, tail);
  }

  lemma UnknownNames(name: string)
    ensures Named(name).None? <==> name !in {"path", "line", "col"}
  {
  }

  lemma PlainParses(text: string, word: string)
    requires '{' !in text
    ensures Segments(text, word) == Ok(AsLiteral(text))
  {
  }

  lemma FirstBrace(front: string, after: string)
    requires '{' !in front
    ensures var rest := front + ("{" + after); Find(rest, '{') == Some(|front|) && rest[|front| + 1..] == after && rest[..|front|] == front
  {
    hide Find;
    assert front + ("{" + after) == front + ['{'] + after;
    FindAt(front, '{', after);
  }

  lemma UnterminatedAt(front: string, after: string, word: string)
    requires '{' !in front && '}' !in after
    ensures Segments(front + ("{" + after), word) == Err(UnterminatedPlaceholder(word))
  {
    hide Find, Named;
    FirstBrace(front, after);
  }

  lemma UnknownAt(front: string, name: string, tail: string, word: string)
    requires '{' !in front && '}' !in name && name !in {"path", "line", "col"}
    ensures Segments(front + ("{" + (name + "}" + tail)), word) == Err(UnknownPlaceholder(name))
  {
    hide Find, Named;
    var after := name + ['}'] + tail;
    FirstBrace(front, after);
    FindAt(name, '}', tail);
    assert after[..|name|] == name;
    UnknownNames(name);
  }

  /** What the scanner makes of each form. */
  lemma FormDecides(rest: string, f: Form, word: string)
    requires HasForm(rest, f)
    ensures f.Plain? ==> Segments(rest, word) == Ok(AsLiteral(rest))
    ensures f.Open? ==> Segments(rest, word) == Err(UnterminatedPlaceholder(word))
    ensures f.Unknown? ==> Segments(rest, word) == Err(UnknownPlaceholder(f.name))
    ensures f.Filled? ==>
      |f.tail| < |rest| && Segments(rest, word) == Onto(AsLiteral(f.front) + [Fill(f.slot)], Segments(f.tail, word))
  {
    hide Segments, AsLiteral, NameOf, Onto;
    match f
    case Plain => PlainParses(rest, word);
    case Open(front, after) => UnterminatedAt(front, after, word);
    case Unknown(front, name, tail) => UnknownAt(front, name, tail, word);
    case Filled(front, slot, tail) => SegmentsStep(front, slot, tail, word);
  }

  lemma OntoOk(head: Word, r: Result<Word, OpenError>)
    ensures Onto(head, r).Ok? <==> r.Ok?
    ensures r.Ok? ==> Onto(head, r) == Ok(head + r.value)
    ensures r.Err? ==> Onto(head, r) == r
  {
  }

  lemma {:induction false} WordIsForErrors(rest: string, v: string, w: string)
    ensures Segments(rest, v).Ok? <==> Segments(rest, w).Ok?
    ensures Segments(rest, v).Ok? ==> Segments(rest, v) == Segments(rest, w)
    decreases |rest|
  {
    hide Segments, AsLiteral, HasForm, Onto;
    var f := FormOf(rest);
    FormDecides(rest, f, v);
    FormDecides(rest, f, w);
    if f.Filled? {
      WordIsForErrors(f.tail, v, w);
      OntoOk(AsLiteral(f.front) + [Fill(f.slot)], Segments(f.tail, v));
      OntoOk(AsLiteral(f.front) + [Fill(f.slot)], Segments(f.tail, w));
    }
  }

  lemma {:induction false} FaultsAreOfWords(rest: string, word: string)
    ensures Segments(rest, word).Err? ==> Segments(rest, word).error.UnterminatedPlaceholder? || Segments(rest, word).error.UnknownPlaceholder?
    decreases |rest|
  {
    hide Segments, AsLiteral, HasForm, Onto;
    var f := FormOf(rest);
    FormDecides(rest, f, word);
    if f.Filled? {
      FaultsAreOfWords(f.tail, word);
      OntoOk(AsLiteral(f.front) + [Fill(f.slot)], Segments(f.tail, word));
    }
  }

  lemma Associates(a: string, b: string, c: string)
    ensures a + (b + c) == a + b + c
  {
  }

  /** What is in front of a placeholder is parsed apart from what follows. */
  lemma {:induction false} PlaceholderApart(front: string, after: string, v: string, w: string)
    requires Segments(front, v).Ok?
    ensures Segments(front + ("{" + after), w) == Onto(Segments(front, v).value, Segments("{" + after, w))
    decreases |front|
  {
    hide Segments, AsLiteral, HasForm, Onto, NameOf;
    var f := FormOf(front);
    FormDecides(front, f, v);
    if f.Plain? {
      assert '{' !in front by { PlainHasNone(front, f); }
      PlainFront(front, after, w);
    } else if f.Filled? {
      var head, rest := AsLiteral(f.front) + [Fill(f.slot)], "{" + after;
      OntoOk(head, Segments(f.tail, v));
      PlaceholderApart(f.tail, after, v, w);
      FilledStep(front, f, rest, w);
      OntoOnto(head, Segments(f.tail, v).value, Segments(rest, w));
    }
  }

  lemma PlainHasNone(rest: string, f: Form)
    requires HasForm(rest, f) && f.Plain?
    ensures '{' !in rest
  {
  }

  lemma FilledStep(front: string, f: Form, rest: string, w: string)
    requires HasForm(front, f) && f.Filled?
    ensures Segments(front + rest, w) == Onto(AsLiteral(f.front) + [Fill(f.slot)], Segments(f.tail + rest, w))
  {
    hide Segments, AsLiteral, Onto, NameOf;
    SegmentsStep(f.front, f.slot, f.tail + rest, w);
    var slotText := "{" + NameOf(f.slot) + "}";
    Associates(slotText, f.tail, rest);
    Associates(f.front, slotText + f.tail, rest);
  }

  lemma PlainFront(front: string, after: string, w: string)
    requires '{' !in front
    ensures Segments(front + ("{" + after), w) == Onto(AsLiteral(front), Segments("{" + after, w))
  {
    hide Segments, AsLiteral, HasForm, Onto, NameOf;
    var rest := "{" + after;
    var f := FormOf(rest);
    var g := Moved(front, rest, f);
    FormDecides(rest, f, w);
    FormDecides(front + rest, g, w);
    if f.Filled? {
      AsLiteralOfNothing(f.slot);
      OntoOnto(AsLiteral(front), [Fill(f.slot)], Segments(f.tail, w));
    } else {
      OntoOk(AsLiteral(front), Segments(rest, w));
    }
  }

  lemma AsLiteralOfNothing(slot: Slot)
    ensures AsLiteral("") + [Fill(slot)] == [Fill(slot)]
  {
  }

  lemma EmptyFront(front: string, rest: string)
    requires front <= rest && '{' !in front && rest != "" && rest[0] == '{'
    ensures front == ""
  {
    if front != "" {
      StartsInFront(front, rest);
    }
  }

  lemma StartsInFront(front: string, rest: string)
    requires front <= rest && front != ""
    ensures rest[0] in front
  {
    assert rest[0] == front[0];
  }

  /** The form of what starts with a `{`, behind a front without one. */
  lemma Moved(front: string, rest: string, f: Form) returns (g: Form)
    requires '{' !in front && rest != "" && rest[0] == '{' && HasForm(rest, f)
    ensures HasForm(front + rest, g) && !f.Plain?
    ensures f.Open? ==> g.Open?
    ensures f.Unknown? ==> g.Unknown? && g.name == f.name
    ensures f.Filled? ==> f.front == "" && g == Filled(front, f.slot, f.tail)
  {
    hide NameOf;
    assert rest[0] in rest;
    if !f.Plain? {
      EmptyFront(f.front, rest);
    }
    match f
    case Open(_, after) =>
      assert "" + ("{" + after) == "{" + after;
      g := Open(front, after);
    case Unknown(_, name, tail) =>
      assert "" + ("{" + (name + "}" + tail)) == "{" + (name + "}" + tail);
      g := Unknown(front, name, tail);
    case Filled(_, slot, tail) =>
      assert "" + ("{" + NameOf(slot) + "}" + tail) == "{" + NameOf(slot) + "}" + tail;
      g := Filled(front, slot, tail);
  }

  // ----- Filling slots -----

  lemma {:induction false} RenderConcat(a: Word, b: Word, v: Values)
    ensures Render(a + b, v) == Render(a, v) + Render(b, v)
  {
    if a == [] {
      assert a + b == b;
    } else {
      assert (a + b)[1..] == a[1..] + b;
      RenderConcat(a[1..], b, v);
    }
  }

  lemma RenderOne(s: Segment, v: Values)
    ensures s.Literal? ==> Render([s], v) == s.text
    ensures s.Fill? ==> Render([s], v) == v.Of(s.slot)
  {
    assert Render([s][1..], v) == [];
  }

  function Rendered(word: string, v: Values): string
    requires Segments(word, word).Ok?
  {
    Render(Segments(word, word).value, v)
  }

  lemma SlotIsFilled(before: string, slot: Slot, after: string, v: Values)
    requires Parses(before) && Parses(after)
    ensures Parses(before + ("{" + NameOf(slot) + "}" + after))
    ensures Rendered(before + ("{" + NameOf(slot) + "}" + after), v) == Rendered(before, v) + v.Of(slot) + Rendered(after, v)
  {
    hide Segments, Render, NameOf;
    var rest := NameOf(slot) + "}" + after;
    var word := before + ("{" + rest);
    assert "{" + NameOf(slot) + "}" + after == "{" + rest && "{" + rest == "" + ("{" + NameOf(slot) + "}" + after);
    PlaceholderApart(before, rest, before, word);
    SegmentsStep("", slot, after, word);
    WordIsForErrors(after, after, word);
    var a, b := Segments(before, before).value, Segments(after, after).value;
    assert AsLiteral("") + [Fill(slot)] == [Fill(slot)];
    RenderConcat(a, [Fill(slot)] + b, v);
    RenderConcat([Fill(slot)], b, v);
    RenderOne(Fill(slot), v);
    Associates(Render(a, v), v.Of(slot), Render(b, v));
  }

  lemma PassedIs(word: string, path: string, line: Option<nat>, col: Option<nat>)
    requires Parses(word)
    ensures Passed(word, path, line, col) == Rendered(word, Values(path, PositionText(line), PositionText(col)))
  {
  }

  /** Text without `{` is passed on as it is, and each placeholder is replaced by its value, whatever stands around
      it: the path as given, the line and the column in decimal, or 1 for one not known. */
  lemma PlaceholdersAreFilled(before: string, after: string, path: string, line: Option<nat>, col: Option<nat>, l: string, c: string)
    requires Parses(before) && Parses(after) && IsWritten(line, l) && IsWritten(col, c)
    ensures Parses(before + "{path}" + after) && Parses(before + "{line}" + after) && Parses(before + "{col}" + after)
    ensures Passed(before + "{path}" + after, path, line, col) == Passed(before, path, line, col) + path + Passed(after, path, line, col)
    ensures Passed(before + "{line}" + after, path, line, col) == Passed(before, path, line, col) + l + Passed(after, path, line, col)
    ensures Passed(before + "{col}" + after, path, line, col) == Passed(before, path, line, col) + c + Passed(after, path, line, col)
  {
    OneIsWritten();
    hide Segments, Rendered, Digits.Render, Passed;
    var v := Values(path, PositionText(line), PositionText(col));
    PassedIs(before, path, line, col);
    PassedIs(after, path, line, col);
    SlotIsFilled(before, Path, after, v);
    SlotIsFilled(before, Line, after, v);
    SlotIsFilled(before, Col, after, v);
    Spelled(before, "path", after);
    Spelled(before, "line", after);
    Spelled(before, "col", after);
    assert "{" + "path" + "}" == "{path}" && "{" + "line" + "}" == "{line}" && "{" + "col" + "}" == "{col}";
    PassedIs(before + "{path}" + after, path, line, col);
    PassedIs(before + "{line}" + after, path, line, col);
    PassedIs(before + "{col}" + after, path, line, col);
  }

  lemma Spelled(before: string, name: string, after: string)
    ensures before + ("{" + name + "}" + after) == before + ("{" + name + "}") + after
  {
  }

  lemma PlainIsPassed(text: string, path: string, line: Option<nat>, col: Option<nat>)
    requires '{' !in text
    ensures Parses(text) && Passed(text, path, line, col) == text
  {
    hide Find;
    if text != "" {
      RenderOne(Literal(text), Values(path, PositionText(line), PositionText(col)));
    }
  }

  // ----- Refusals -----

  ghost predicate IsRefused(word: string, fault: OpenError) {
    Segments(word, word) == Err(fault)
  }

  /** A word is refused at its first `{` that starts no placeholder: unterminated without a `}` behind it, and
      otherwise unknown under what stands between. */
  lemma WordIsRefused(before: string, after: string, name: string, rest: string)
    requires Parses(before)
    ensures '}' !in after ==> IsRefused(before + ("{" + after), UnterminatedPlaceholder(before + ("{" + after)))
    ensures after == name + "}" + rest && '}' !in name && name !in {"path", "line", "col"} ==>
      IsRefused(before + ("{" + after), UnknownPlaceholder(name))
  {
    hide Segments;
    var word := before + ("{" + after);
    PlaceholderApart(before, after, before, word);
    OntoOk(Segments(before, before).value, Segments("{" + after, word));
    assert "" + ("{" + after) == "{" + after;
    if '}' !in after {
      UnterminatedAt("", after, word);
    }
    if after == name + "}" + rest && '}' !in name && name !in {"path", "line", "col"} {
      UnknownAt("", name, rest, word);
    }
  }

  /** What stands behind a `{` that starts no placeholder. */
  ghost predicate IsFault(after: string) {
    '}' in after ==> exists name, rest :: after == name + "}" + rest && '}' !in name && name !in {"path", "line", "col"}
  }

  /** And every word refused is of one of these forms. */
  lemma RefusedWord(word: string) returns (before: string, after: string)
    requires !Parses(word)
    ensures word == before + ("{" + after) && Parses(before) && IsFault(after)
  {
    hide IsFault;
    before, after := RefusedFrom(word, word);
    WordIsForErrors(before, word, before);
  }

  lemma {:induction false} RefusedFrom(rest: string, word: string) returns (before: string, after: string)
    requires Segments(rest, word).Err?
    ensures rest == before + ("{" + after) && Segments(before, word).Ok? && IsFault(after)
    decreases |rest|
  {
    hide Segments, AsLiteral, HasForm, Onto, NameOf, IsFault;
    var f := FormOf(rest);
    FormDecides(rest, f, word);
    if f.Filled? {
      var head := AsLiteral(f.front) + [Fill(f.slot)];
      OntoOk(head, Segments(f.tail, word));
      before, after := RefusedFrom(f.tail, word);
      before := FilledFront(rest, f, before, after, word);
    } else if !f.Plain? {
      before, after := FaultOf(rest, f);
      PlainParses(before, word);
    }
  }

  lemma FaultOf(rest: string, f: Form) returns (before: string, after: string)
    requires HasForm(rest, f) && (f.Open? || f.Unknown?)
    ensures rest == before + ("{" + after) && '{' !in before && IsFault(after)
  {
    before, after := f.front, if f.Open? then f.after else f.name + "}" + f.tail;
  }

  lemma FilledFront(rest: string, f: Form, front: string, after: string, word: string) returns (before: string)
    requires HasForm(rest, f) && f.Filled? && f.tail == front + ("{" + after) && Segments(front, word).Ok?
    ensures rest == before + ("{" + after) && Segments(before, word).Ok?
  {
    hide Segments, AsLiteral, Onto, NameOf;
    var slotText := "{" + NameOf(f.slot) + "}";
    before := f.front + (slotText + front);
    SegmentsStep(f.front, f.slot, front, word);
    OntoOk(AsLiteral(f.front) + [Fill(f.slot)], Segments(front, word));
    Associates(slotText, front, "{" + after);
    Associates(f.front, slotText + front, "{" + after);
  }

  /** A whole command is refused for the first of these that holds: no program, a fault in the program, a placeholder
      in it, a fault in an argument, and no argument with the path. */
  lemma CommandIsRefused(words: seq<string>)
    ensures FromWords(words) == Err(Empty) <==> words == [] || IsBlank(words[0])
    ensures words != [] && !IsBlank(words[0]) && !Parses(words[0]) ==> FromWords(words).Err? && FromWords(words).error == Segments(words[0], words[0]).error
    ensures FromWords(words) == Err(PlaceholderInProgram(if words == [] then "" else words[0])) <==>
      words != [] && !IsBlank(words[0]) && '{' in words[0] && Parses(words[0])
    ensures FromWords(words) == Err(NoPath) <==>
      && words != [] && !IsBlank(words[0]) && '{' !in words[0]
      && (forall k | 1 <= k < |words| :: Parses(words[k]))
      && forall k | 1 <= k < |words| :: !TakesThePath(Segments(words[k], words[k]).value)
  {
    hide Segments, TakesThePath, AllLiteral;
    AcceptedCommands(words);
    if words != [] {
      LiteralProgram(words[0]);
      FaultsAreOfWords(words[0], words[0]);
      ParseAllWords(words[1..]);
      FaultsAreOfAll(words[1..]);
      assert forall k | 1 <= k < |words| :: words[k] == words[1..][k - 1];
    }
  }

  lemma {:induction false} FaultsAreOfAll(words: seq<string>)
    ensures ParseAll(words).Err? ==> ParseAll(words).error.UnterminatedPlaceholder? || ParseAll(words).error.UnknownPlaceholder?
  {
    hide Segments;
    if words != [] {
      FaultsAreOfWords(words[0], words[0]);
      FaultsAreOfAll(words[1..]);
    }
  }
}
