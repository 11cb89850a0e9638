/** The folder name Claude CLI gives a project path. */
module ProjectPath {
  import opened Digits
  import opened Utf16
  import opened Chars

  const KEPT := 200

  predicate IsAlphanumeric(u: nat) {
    '0' as nat <= u <= '9' as nat || 'A' as nat <= u <= 'Z' as nat || 'a' as nat <= u <= 'z' as nat
  }

  function Sanitized(units: seq<nat>): (s: string)
    ensures |s| == |units|
    ensures forall k | 0 <= k < |s| :: s[k] == if IsAlphanumeric(units[k]) then units[k] as char else '-'
  {
    seq(|units|, k requires 0 <= k < |units| => if IsAlphanumeric(units[k]) then units[k] as char else '-')
  }

  // ----- The hash -----

  const M := 0x1_0000_0000

  /** The signed 32-bit number congruent to `x`: what a wrapping operation leaves. */
  function Wrap(x: int): (r: int)
    ensures -0x8000_0000 <= r < 0x8000_0000
  {
    var r := x % M;
    if r < 0x8000_0000 then r else r - M
  }

  /** The sum of each unit times 31 to the number of units after it. */
  function PowerSum(units: seq<nat>): nat {
    if units == [] then 0 else units[0] * Pow(31, |units| - 1) + PowerSum(units[1..])
  }

  lemma {:induction false} PowerSumAppend(units: seq<nat>, u: nat)
    ensures PowerSum(units + [u]) == 31 * PowerSum(units) + u
  {
    if units == [] {
      assert PowerSum([u][1..]) == 0 && Pow(31, 0) == 1;
      assert [] + [u] == [u];
    } else {
      var n := |units|;
      PowerSumAppend(units[1..], u);
      assert (units + [u])[1..] == units[1..] + [u];
      assert Pow(31, n) == 31 * Pow(31, n - 1);
      Reorder(units[0], Pow(31, n - 1));
    }
  }

  lemma Reorder(a: nat, p: nat)
    ensures a * (31 * p) == 31 * (a * p)
  {
  }

  lemma WrapStep(p: int, u: int)
    ensures Wrap(Wrap(Wrap(Wrap(p) * 32) - Wrap(p)) + u) == Wrap(31 * p + u)
  {
    var h := Wrap(p);
    var a := Wrap(h * 32);
    var b := Wrap(a - h);
    var k := (p - h) / M;
    assert p - h == M * k;
    var l := (h * 32 - a) / M;
    assert h * 32 - a == M * l;
    var m := (a - h - b) / M;
    assert a - h - b == M * m;
    assert 31 * p + u == (b + u) + M * (31 * k + l + m);
    WrapCongruent(b + u, 31 * k + l + m);
  }

  lemma WrapCongruent(x: int, k: int)
    ensures Wrap(x + M * k) == Wrap(x)
  {
    assert (x + M * k) % M == x % M;
  }

  /** The hash loop: a shift, a subtraction and an addition, each wrapping. */
  method Hash(units: seq<nat>) returns (h: int)
    ensures h == Wrap(PowerSum(units))
  {
    h := 0;
    for i := 0 to |units|
      invariant h == Wrap(PowerSum(units[..i]))
    {
      assert units[..i + 1] == units[..i] + [units[i]];
      PowerSumAppend(units[..i], units[i]);
      WrapStep(PowerSum(units[..i]), units[i]);
      h := Wrap(Wrap(Wrap(h * 32) - h) + units[i]);
    }
    assert units[..|units|] == units;
  }

  // ----- Base 36 -----

  function Reversed(s: string): string {
    if s == [] then [] else Reversed(s[1..]) + [s[0]]
  }

  lemma {:induction false} ReversedAppend(s: string, c: char)
    ensures Reversed(s + [c]) == [c] + Reversed(s)
  {
    if s == [] {
      assert [] + [c] == [c];
    } else {
      ReversedAppend(s[1..], c);
      assert (s + [c])[1..] == s[1..] + [c];
    }
  }

  method ToBase36(n0: nat) returns (s: string)
    ensures s == Render(n0, 36)
  {
    if n0 == 0 {
      return "0";
    }
    var n, digits := n0, "";
    assert Render(n0, 36) + [] == Render(n0, 36);
    while n > 0
      invariant n >= 0
      invariant n > 0 ==> Render(n0, 36) == Render(n, 36) + Reversed(digits)
      invariant n == 0 ==> Render(n0, 36) == Reversed(digits)
    {
      var d := DigitChar(n % 36);
      ReversedAppend(digits, d);
      assert Render(n, 36) == (if n < 36 then [] else Render(n / 36, 36)) + [d];
      assert n >= 36 ==> n / 36 > 0;
      digits := digits + [d];
      n := n / 36;
    }
    s := Reversed(digits);
  }

  // ----- The name -----

  function Magnitude(h: int): nat {
    if h < 0 then -h else h
  }

  /** The folder name of a path. */
  function Encoded(path: string): string {
    var units := Units(path);
    if |units| <= KEPT then Sanitized(units)
    else Sanitized(units)[..KEPT] + "-" + Render(Magnitude(Wrap(PowerSum(units))), 36)
  }

  method EncodeProjectPath(path: string) returns (name: string)
    ensures name == Encoded(path)
  {
    var sanitized := Sanitized(Units(path));
    if |sanitized| <= KEPT {
      return sanitized;
    }
    var h := Hash(Units(path));
    var suffix := ToBase36(Magnitude(h));
    name := sanitized[..KEPT] + "-" + suffix;
  }

  // ----- What names are -----

  predicate IsNameChar(c: char) {
    '0' <= c <= '9' || 'A' <= c <= 'Z' || 'a' <= c <= 'z' || c == '-'
  }

  lemma {:induction false} RenderedIsName(n: nat)
    ensures forall k | 0 <= k < |Render(n, 36)| :: IsNameChar(Render(n, 36)[k])
  {
    if n >= 36 {
      RenderedIsName(n / 36);
    }
  }

  lemma PowersOf36()
    ensures Pow(36, 6) == 2176782336
  {
    assert Pow(36, 1) == 36;
    assert Pow(36, 2) == 36 * Pow(36, 1);
    assert Pow(36, 3) == 36 * Pow(36, 2);
    assert Pow(36, 4) == 36 * Pow(36, 3);
    assert Pow(36, 5) == 36 * Pow(36, 4);
    assert Pow(36, 6) == 36 * Pow(36, 5);
  }

  /** The suffix of a long name: one to six digits that read back to the magnitude of the hash. */
  lemma SuffixReadsBack(h: int)
    requires -0x8000_0000 <= h < 0x8000_0000
    ensures var s := Render(Magnitude(h), 36);
      1 <= |s| <= 6 && Value(s, 36) == Magnitude(h) && (s[0] == '0' <==> h == 0)
  {
    hide Pow, Render, Value, IsDigits;
    RenderReadsBack(Magnitude(h), 36);
    RenderLength(Magnitude(h), 36, 6);
    PowersOf36();
  }

  /** Every name is at most 207 letters, digits and dashes: as many as the path's units up to 200 of
      them, and 202 to 207 past that. */
  lemma NamesAreShortAndPlain(path: string)
    ensures forall k | 0 <= k < |Encoded(path)| :: IsNameChar(Encoded(path)[k])
    ensures |Units(path)| <= KEPT ==> |Encoded(path)| == |Units(path)|
    ensures |Units(path)| > KEPT ==> KEPT + 2 <= |Encoded(path)| <= KEPT + 7
  {
    var h := Wrap(PowerSum(Units(path)));
    RenderedIsName(Magnitude(h));
    SuffixReadsBack(h);
    hide Render, Wrap, PowerSum;
  }

  lemma NameIsItsOwnUnits(name: string)
    requires forall k | 0 <= k < |name| :: IsNameChar(name[k])
    ensures |Units(name)| == |name| && Sanitized(Units(name)) == name
  {
    UnitsOfPlain(name);
  }

  /** Encoding a name again changes nothing exactly when the path was short enough to be kept whole, or
      the name happens to hash to the same magnitude as the path. */
  lemma EncodingTwice(path: string)
    ensures Encoded(Encoded(path)) == Encoded(path) <==>
            || |Units(path)| <= KEPT
            || Magnitude(Wrap(PowerSum(Units(Encoded(path))))) == Magnitude(Wrap(PowerSum(Units(path))))
  {
    hide Render, Wrap, PowerSum, Units, Value, IsNameChar;
    var name := Encoded(path);
    NamesAreShortAndPlain(path);
    NameIsItsOwnUnits(name);
    if |Units(path)| > KEPT {
      var g, h := Magnitude(Wrap(PowerSum(Units(name)))), Magnitude(Wrap(PowerSum(Units(path))));
      RenderReadsBack(g, 36);
      RenderReadsBack(h, 36);
      assert name[..KEPT] == Sanitized(Units(path))[..KEPT];
      assert Encoded(name)[KEPT + 1..] == Render(g, 36) && name[KEPT + 1..] == Render(h, 36);
    }
  }

  /** Units that sanitizing makes the same. */
  ghost predicate Alike(u: seq<nat>, v: seq<nat>) {
    |u| == |v| && forall k | 0 <= k < |u| :: if IsAlphanumeric(u[k]) then v[k] == u[k] else !IsAlphanumeric(v[k])
  }

  lemma SanitizedAlike(u: seq<nat>, v: seq<nat>)
    ensures Sanitized(u) == Sanitized(v) <==> Alike(u, v)
  {
    if Sanitized(u) == Sanitized(v) {
      forall k | 0 <= k < |u| ensures if IsAlphanumeric(u[k]) then v[k] == u[k] else !IsAlphanumeric(v[k]) {
        assert Sanitized(u)[k] == Sanitized(v)[k];
      }
    }
  }

  /** Two paths share a name exactly when they agree on every letter and digit kept and on where the units
      kept are neither, and either both are kept whole or both are cut and hash to one magnitude. */
  lemma NamesAgree(p: string, q: string)
    ensures var (u, v) := (Units(p), Units(q));
      Encoded(p) == Encoded(q) <==>
      if |u| <= KEPT || |v| <= KEPT then Alike(u, v)
      else Alike(u[..KEPT], v[..KEPT]) && Magnitude(Wrap(PowerSum(u))) == Magnitude(Wrap(PowerSum(v)))
  {
    hide Render, Wrap, PowerSum, Units, Value, IsNameChar, Alike, Sanitized;
    var u, v := Units(p), Units(q);
    NamesAreShortAndPlain(p);
    NamesAreShortAndPlain(q);
    SanitizedAlike(u, v);
    if |u| > KEPT && |v| > KEPT {
      SanitizedAlike(u[..KEPT], v[..KEPT]);
      KeptUnits(u);
      KeptUnits(v);
      LongNamesAgree(u, v);
    } else {
      AlikeLengths(u, v);
    }
  }

  lemma AlikeLengths(u: seq<nat>, v: seq<nat>)
    ensures Alike(u, v) ==> |u| == |v|
  {
  }

  lemma KeptUnits(u: seq<nat>)
    requires |u| > KEPT
    ensures Sanitized(u)[..KEPT] == Sanitized(u[..KEPT])
  {
  }

  lemma LongNamesAgree(u: seq<nat>, v: seq<nat>)
    requires |u| > KEPT && |v| > KEPT
    ensures var (g, h) := (Magnitude(Wrap(PowerSum(u))), Magnitude(Wrap(PowerSum(v))));
      Sanitized(u)[..KEPT] + "-" + Render(g, 36) == Sanitized(v)[..KEPT] + "-" + Render(h, 36) <==>
      Sanitized(u)[..KEPT] == Sanitized(v)[..KEPT] && g == h
  {
    hide Render, Wrap, PowerSum, Value;
    var g, h := Magnitude(Wrap(PowerSum(u))), Magnitude(Wrap(PowerSum(v)));
    RenderReadsBack(g, 36);
    RenderReadsBack(h, 36);
    var a, b := Sanitized(u)[..KEPT] + "-" + Render(g, 36), Sanitized(v)[..KEPT] + "-" + Render(h, 36);
    assert a[..KEPT] == Sanitized(u)[..KEPT] && b[..KEPT] == Sanitized(v)[..KEPT];
    assert a[KEPT + 1..] == Render(g, 36) && b[KEPT + 1..] == Render(h, 36);
  }

  const KEPT_SIGNS: string := LOWER + UPPER + "0123456789"

  lemma KeptSigns(c: char)
    ensures IsAlphanumeric(c as nat) <==> c in KEPT_SIGNS
  {
    LettersIn(c);
    assert c in KEPT_SIGNS <==> c in LOWER || c in UPPER || c in "0123456789";
  }

  lemma KeptUnit(u: nat)
    requires IsAlphanumeric(u)
    ensures exists c <- KEPT_SIGNS :: c as nat == u
  {
    var c := u as char;
    KeptSigns(c);
    assert c as nat == u;
  }

  /** The first 200 units of a path are named one by one: letters and digits as they are, all else by a dash; and the
      hash of a longer one stands behind one more dash. */
  lemma NameSpelled(path: string, k: nat)
    requires k < |Units(path)| && k < 200
    ensures k < |Encoded(path)|
    ensures if exists c <- KEPT_SIGNS :: c as nat == Units(path)[k] then Encoded(path)[k] as nat == Units(path)[k] else Encoded(path)[k] == '-'
    ensures |Units(path)| > 200 ==> |Encoded(path)| > 200 && Encoded(path)[200] == '-'
  {
    var u := Units(path)[k];
    hide Render, Wrap, PowerSum, Units;
    assert Encoded(path)[k] == Sanitized(Units(path))[k];
    if IsAlphanumeric(u) {
      KeptUnit(u);
    }
    hide IsAlphanumeric;
    if c :| c in KEPT_SIGNS && c as nat == u {
      KeptSigns(c);
    }
  }
}
