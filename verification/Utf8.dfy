/** UTF-8, as section 3 and section 4 of RFC 3629 define it. A `char` is a Unicode scalar value. */
module Utf8 {
  import opened Wrappers
  import opened Sequences

  type byte = x: int | 0 <= x < 256

  function EncodeChar(c: char): (b: seq<byte>)
    ensures 1 <= |b| <= 4
  {
    var v := c as int;
    if v < 0x80 then [v]
    else if v < 0x800 then [0xC0 + v / 64, 0x80 + v % 64]
    else if v < 0x10000 then [0xE0 + v / 4096, 0x80 + v / 64 % 64, 0x80 + v % 64]
    else [0xF0 + v / 262144, 0x80 + v / 4096 % 64, 0x80 + v / 64 % 64, 0x80 + v % 64]
  }

  function Encode(s: string): seq<byte> {
    if s == [] then [] else EncodeChar(s[0]) + Encode(s[1..])
  }

  predicate IsTail(x: byte) {
    0x80 <= x < 0xC0
  }

  /** The length of the well-formed sequence `b` starts with, 0 when it starts with none. */
  function SequenceLength(b: seq<byte>): (n: nat)
    ensures n <= |b| && n <= 4
  {
    if |b| >= 1 && b[0] < 0x80 then 1
    else if |b| >= 2 && 0xC2 <= b[0] <= 0xDF && IsTail(b[1]) then 2
    else if |b| >= 3 && 0xE0 <= b[0] <= 0xEF && IsTail(b[1]) && IsTail(b[2])
            && (b[0] == 0xE0 ==> b[1] >= 0xA0) && (b[0] == 0xED ==> b[1] < 0xA0) then 3
    else if |b| >= 4 && 0xF0 <= b[0] <= 0xF4 && IsTail(b[1]) && IsTail(b[2]) && IsTail(b[3])
            && (b[0] == 0xF0 ==> b[1] >= 0x90) && (b[0] == 0xF4 ==> b[1] < 0x90) then 4
    else 0
  }

  function DecodeChar(b: seq<byte>): char
    requires SequenceLength(b) > 0
  {
    var n := SequenceLength(b);
    if n == 1 then b[0] as char
    else if n == 2 then Join(b[0] as int - 0xC0, b[1]) as char
    else if n == 3 then Join(Join(b[0] as int - 0xE0, b[1]), b[2]) as char
    else Join(Join(Join(b[0] as int - 0xF0, b[1]), b[2]), b[3]) as char
  }

  /** Six more bits, from a continuation byte. */
  function Join(high: int, tail: byte): int {
    high * 64 + (tail as int - 0x80)
  }

  /** Rust's `String::from_utf8`: the text the bytes spell, or nothing when they are not UTF-8. */
  function Decode(b: seq<byte>): Option<string> {
    if b == [] then Some([])
    else
      var n := SequenceLength(b);
      if n == 0 then None
      else
        match Decode(b[n..])
        case None => None
        case Some(rest) => Some([DecodeChar(b)] + rest)
  }

  predicate Valid(b: seq<byte>) {
    Decode(b).Some?
  }

  /** Rust's `is_char_boundary`. */
  predicate IsBoundary(b: seq<byte>, i: nat) {
    i <= |b| && (i == 0 || i == |b| || !IsTail(b[i]))
  }

  // ----- Encoding and decoding undo each other -----

  lemma SequenceOfChar(c: char, rest: seq<byte>)
    ensures SequenceLength(EncodeChar(c) + rest) == |EncodeChar(c)|
    ensures DecodeChar(EncodeChar(c) + rest) == c
  {
    var v, b := c as int, EncodeChar(c) + rest;
    if 0x800 <= v < 0x10000 {
      assert v / 64 / 64 == v / 4096;
    } else if v >= 0x10000 {
      assert v / 64 / 64 == v / 4096 && v / 4096 / 64 == v / 262144;
    }
  }

  lemma JoinSplits(high: int, tail: byte)
    requires IsTail(tail)
    ensures Join(high, tail) / 64 == high && 0x80 + Join(high, tail) % 64 == tail
  {
  }

  lemma CharOfSequence(b: seq<byte>)
    requires SequenceLength(b) > 0
    ensures EncodeChar(DecodeChar(b)) == b[..SequenceLength(b)]
  {
    var n, v := SequenceLength(b), DecodeChar(b) as int;
    if n == 2 {
      JoinSplits(b[0] as int - 0xC0, b[1]);
    } else if n == 3 {
      var h := Join(b[0] as int - 0xE0, b[1]);
      JoinSplits(b[0] as int - 0xE0, b[1]);
      JoinSplits(h, b[2]);
      assert v / 4096 == v / 64 / 64;
    } else if n == 4 {
      var h := Join(b[0] as int - 0xF0, b[1]);
      var m := Join(h, b[2]);
      JoinSplits(b[0] as int - 0xF0, b[1]);
      JoinSplits(h, b[2]);
      JoinSplits(m, b[3]);
      assert v / 4096 == v / 64 / 64 && v / 262144 == v / 64 / 64 / 64;
    }
  }

  lemma {:induction false} DecodeEncode(s: string)
    ensures Decode(Encode(s)) == Some(s)
  {
    if s != [] {
      SequenceOfChar(s[0], Encode(s[1..]));
      DecodeEncode(s[1..]);
      assert Encode(s)[|EncodeChar(s[0])|..] == Encode(s[1..]);
      assert s == [s[0]] + s[1..];
    }
  }

  lemma {:induction false} EncodeDecode(b: seq<byte>)
    requires Valid(b)
    ensures Encode(Decode(b).value) == b
  {
    hide SequenceLength, DecodeChar, EncodeChar;
    if b != [] {
      var n := SequenceLength(b);
      EncodeDecode(b[n..]);
      CharOfSequence(b);
      assert Decode(b).value[1..] == Decode(b[n..]).value;
      assert b == b[..n] + b[n..];
    }
  }

  lemma {:induction false} EncodeConcat(s: string, t: string)
    ensures Encode(s + t) == Encode(s) + Encode(t)
  {
    hide EncodeChar;
    if s == [] {
      assert s + t == t;
    } else {
      EncodeConcat(s[1..], t);
      TailOfConcat(s, t);
      Associative(EncodeChar(s[0]), Encode(s[1..]), Encode(t));
    }
  }

  // ----- Cutting at a boundary -----

  lemma BoundaryPastSequence(b: seq<byte>, i: nat)
    requires SequenceLength(b) > 0 && IsBoundary(b, i) && i > 0
    ensures SequenceLength(b) <= i && IsBoundary(b[SequenceLength(b)..], i - SequenceLength(b))
    ensures SequenceLength(b[..i]) == SequenceLength(b) && DecodeChar(b[..i]) == DecodeChar(b)
  {
  }

  lemma CutTwice(b: seq<byte>, n: nat, i: nat)
    requires n <= i <= |b|
    ensures b[..i][n..] == b[n..][..i - n] && b[n..][i - n..] == b[i..]
  {
  }

  lemma DecodeStep(b: seq<byte>)
    requires b != []
    ensures var n := SequenceLength(b);
            && (Valid(b) <==> n > 0 && Valid(b[n..]))
            && (Valid(b) ==> Decode(b).value == [DecodeChar(b)] + Decode(b[n..]).value)
  {
  }

  /** Bytes cut at a character boundary are two valid texts. */
  lemma {:induction false} CutAtBoundary(b: seq<byte>, i: nat)
    requires Valid(b) && IsBoundary(b, i)
    ensures Valid(b[..i]) && Valid(b[i..])
    ensures Decode(b).value == Decode(b[..i]).value + Decode(b[i..]).value
    decreases |b|, 1
  {
    if i == 0 {
      assert b[i..] == b && b[..i] == [];
    } else if i == |b| {
      assert b[..i] == b && b[i..] == [];
    } else {
      CutInside(b, i);
    }
  }

  lemma {:induction false} CutInside(b: seq<byte>, i: nat)
    requires Valid(b) && IsBoundary(b, i) && 0 < i < |b|
    ensures Valid(b[..i]) && Valid(b[i..])
    ensures Decode(b).value == Decode(b[..i]).value + Decode(b[i..]).value
    decreases |b|, 0
  {
    DecodeStep(b);
    BoundaryPastSequence(b, i);
    hide Decode, SequenceLength, DecodeChar, IsBoundary;
    var n := SequenceLength(b);
    CutTwice(b, n, i);
    CutAtBoundary(b[n..], i - n);
    DecodeStep(b[..i]);
  }

  /** The byte after an ASCII byte starts a character. */
  lemma {:induction false} AsciiEndsACharacter(b: seq<byte>, i: nat)
    requires Valid(b) && i < |b| && b[i] < 0x80
    ensures IsBoundary(b, i) && IsBoundary(b, i + 1)
  {
    var n := SequenceLength(b);
    if i < n {
      assert i == 0 && n == 1;
      assert Valid(b[1..]);
      assert |b| > 1 ==> SequenceLength(b[1..]) > 0;
    } else {
      AsciiEndsACharacter(b[n..], i - n);
    }
  }

  /** ASCII text is its own bytes. */
  lemma {:induction false} EncodeAscii(s: string)
    requires forall x | 0 <= x < |s| :: s[x] as int < 0x80
    ensures |Encode(s)| == |s| && forall x | 0 <= x < |s| :: Encode(s)[x] == s[x] as int
  {
    if s != [] {
      EncodeAscii(s[1..]);
    }
  }

  /** The characters of the first two and of the last example of section 7 of RFC 3629. */
  lemma KnownCharacters()
    ensures EncodeChar('A') == [0x41] && EncodeChar('\U{391}') == [0xCE, 0x91]
    ensures EncodeChar('\U{2262}') == [0xE2, 0x89, 0xA2] && EncodeChar('\U{D55C}') == [0xED, 0x95, 0x9C]
    ensures EncodeChar('\U{233B4}') == [0xF0, 0xA3, 0x8E, 0xB4]
  {
  }
}
