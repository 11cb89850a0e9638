/** The colours of the `/color` command, shared by the command typed and the transcript read. */
module ClaudeColor {
  import opened Wrappers
  import opened Chars
  import opened Text

  datatype Color = Red | Blue | Green | Yellow | Purple | Orange | Pink | Cyan | Default

  const ALL: seq<Color> := [Red, Blue, Green, Yellow, Purple, Orange, Pink, Cyan, Default]

  function Name(c: Color): string {
    match c
    case Red => "red"
    case Blue => "blue"
    case Green => "green"
    case Yellow => "yellow"
    case Purple => "purple"
    case Orange => "orange"
    case Pink => "pink"
    case Cyan => "cyan"
    case Default => "default"
  }

  function FindNamed(colors: seq<Color>, name: string): Option<Color> {
    if colors == [] then None
    else if SameIgnoringCase(Name(colors[0]), name) then Some(colors[0])
    else FindNamed(colors[1..], name)
  }

  function FromName(name: string): Option<Color> {
    FindNamed(ALL, Trim(name))
  }

  lemma NamesAreLower(c: Color, k: nat)
    requires k < |Name(c)|
    ensures AsciiLower(Name(c)[k]) == Name(c)[k]
  {
  }

  lemma NamesDiffer(c: Color, d: Color)
    requires Name(c) == Name(d)
    ensures c == d
  {
    assert |Name(c)| == |Name(d)| && Name(c)[0] == Name(d)[0] && Name(c)[1] == Name(d)[1];
  }

  lemma OneColorANamed(c: Color, d: Color, name: string)
    requires SameIgnoringCase(Name(c), name) && SameIgnoringCase(Name(d), name)
    ensures c == d
  {
    hide Name, AsciiLower;
    forall k | 0 <= k < |Name(c)| ensures Name(c)[k] == Name(d)[k] {
      NamesAreLower(c, k);
      NamesAreLower(d, k);
    }
    assert Name(c) == Name(d);
    NamesDiffer(c, d);
  }

  lemma {:induction false} FindNamedIs(colors: seq<Color>, name: string, c: Color)
    requires c in colors
    ensures FindNamed(colors, name) == Some(c) <==> SameIgnoringCase(Name(c), name)
  {
    hide SameIgnoringCase, Name;
    if SameIgnoringCase(Name(colors[0]), name) {
      if SameIgnoringCase(Name(c), name) {
        OneColorANamed(c, colors[0], name);
      }
    } else if c in colors[1..] {
      FindNamedIs(colors[1..], name, c);
    } else {
      FoundIsNamed(colors[1..], name);
    }
  }

  lemma {:induction false} FoundIsNamed(colors: seq<Color>, name: string)
    ensures FindNamed(colors, name).Some? ==> FindNamed(colors, name).value in colors
    ensures FindNamed(colors, name).Some? ==> SameIgnoringCase(Name(FindNamed(colors, name).value), name)
  {
    hide SameIgnoringCase, Name;
    if colors != [] && !SameIgnoringCase(Name(colors[0]), name) {
      FoundIsNamed(colors[1..], name);
    }
  }

  /** A colour is read from exactly the spellings of its own name, in any case and with any padding. */
  lemma NamesReadBack(name: string, c: Color)
    ensures FromName(name) == Some(c) <==> SameIgnoringCase(Name(c), Trim(name))
  {
    hide SameIgnoringCase, Name, Trim;
    assert c in ALL by {
      match c
      case Red => assert ALL[0] == c;
      case Blue => assert ALL[1] == c;
      case Green => assert ALL[2] == c;
      case Yellow => assert ALL[3] == c;
      case Purple => assert ALL[4] == c;
      case Orange => assert ALL[5] == c;
      case Pink => assert ALL[6] == c;
      case Cyan => assert ALL[7] == c;
      case Default => assert ALL[8] == c;
    }
    FindNamedIs(ALL, Trim(name), c);
  }
}
