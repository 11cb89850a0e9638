/** UTF-16 code units, as JavaScript counts text. */
module Utf16 {
  import opened Sequences

  function CharUnits(c: char): (u: seq<nat>)
    ensures 1 <= |u| <= 2 && forall x <- u :: x < 0x10000
  {
    var v := c as int;
    if v < 0x10000 then [v] else [0xD800 + (v - 0x10000) / 1024, 0xDC00 + (v - 0x10000) % 1024]
  }

  function Units(s: string): (u: seq<nat>)
    ensures |u| >= |s| && forall x <- u :: x < 0x10000
  {
    if s == [] then [] else CharUnits(s[0]) + Units(s[1..])
  }

  lemma {:induction false} UnitsConcat(s: string, t: string)
    ensures Units(s + t) == Units(s) + Units(t)
  {
    hide CharUnits;
    if s == [] {
      assert s + t == t;
    } else {
      UnitsConcat(s[1..], t);
      TailOfConcat(s, t);
      Associative(CharUnits(s[0]), Units(s[1..]), Units(t));
    }
  }

  /** Text without astral characters has one unit a character. */
  lemma {:induction false} UnitsOfPlain(s: string)
    requires forall k | 0 <= k < |s| :: s[k] as int < 0x10000
    ensures |Units(s)| == |s| && forall k | 0 <= k < |s| :: Units(s)[k] == s[k] as int
  {
    if s != [] {
      UnitsOfPlain(s[1..]);
    }
  }

  /** A character past the first 65536 is a high and a low surrogate, ten bits in each. */
  lemma SurrogatePair(c: char)
    requires c as int >= 0x10000
    ensures var u := CharUnits(c);
      && |u| == 2 && 0xD800 <= u[0] < 0xDC00 <= u[1] < 0xE000
      && c as int == 0x10000 + (u[0] - 0xD800) * 0x400 + (u[1] - 0xDC00)
  {
  }
}
