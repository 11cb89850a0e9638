/** What a located hit covers: the first place of a line that reads as the needle once lowercased. */
module Hits {
  import opened Wrappers
  import opened Utf8
  import opened Text
  import opened Snippets

  /** What each character of a line lowercases to, in its place. */
  ghost predicate IsLowered(lower: string -> string, line: string, parts: seq<string>) {
    |parts| == |line| && Joined(parts) == lower(line) && forall k | 0 <= k < |parts| :: parts[k] != []
  }

  ghost predicate FirstAt(s: string, t: string, k: nat) {
    OccursAt(s, t, k) && forall j | 0 <= j < k :: !OccursAt(s, t, j)
  }

  /** Where the lowercase of character `i` starts, in characters. */
  ghost function Start(parts: seq<string>, i: nat): nat
    requires i <= |parts|
  {
    |Joined(parts[..i])|
  }

  /** The characters from `i` to `j` are those whose lowercase overlaps the `n` characters from `k`. */
  ghost predicate Covers(parts: seq<string>, k: nat, n: nat, i: nat, j: nat) {
    && i < j <= |parts|
    && Start(parts, i) <= k < Start(parts, i + 1)
    && Start(parts, j - 1) < k + n <= Start(parts, j)
  }

  // ----- Every first occurrence is that of some characters -----

  lemma StartNext(parts: seq<string>, i: nat)
    requires i < |parts|
    ensures Start(parts, i + 1) == Start(parts, i) + |parts[i]|
  {
    assert parts[..i + 1][..i] == parts[..i];
  }

  lemma {:induction false} StartsRise(parts: seq<string>, i: nat, j: nat)
    requires i <= j <= |parts| && forall k | 0 <= k < |parts| :: parts[k] != []
    ensures Start(parts, i) + (j - i) <= Start(parts, j)
    decreases j
  {
    hide Start;
    if i < j {
      StartNext(parts, j - 1);
      StartsRise(parts, i, j - 1);
    }
  }

  lemma {:induction false} PartAt(parts: seq<string>, n: nat, x: nat) returns (i: nat)
    requires n <= |parts| && x < Start(parts, n)
    ensures i < n && Start(parts, i) <= x < Start(parts, i + 1)
    decreases n
  {
    assert n > 0;
    StartNext(parts, n - 1);
    if Start(parts, n - 1) <= x {
      i := n - 1;
    } else {
      i := PartAt(parts, n - 1, x);
    }
  }

  /** A needle the lowercased line holds is first held by characters of the line, and only by those. */
  lemma FirstIsCovered(lower: string -> string, line: string, needle: string, parts: seq<string>)
    returns (k: nat, i: nat, j: nat)
    requires needle != [] && Contains(lower(line), needle) && IsLowered(lower, line, parts)
    ensures FirstAt(lower(line), needle, k) && Covers(parts, k, |needle|, i, j)
    ensures forall k', i', j' | FirstAt(lower(line), needle, k') && Covers(parts, k', |needle|, i', j') ::
      k' == k && i' == i && j' == j
  {
    hide Covers;
    k := FindFrom(lower(line), needle, 0).value;
    i, j := SomeCover(lower, line, parts, k, |needle|);
    forall k', i', j' | FirstAt(lower(line), needle, k') && Covers(parts, k', |needle|, i', j')
      ensures k' == k && i' == i && j' == j
    {
      OneCover(parts, k, |needle|, i, j, i', j');
    }
  }

  lemma SomeCover(lower: string -> string, line: string, parts: seq<string>, k: nat, n: nat) returns (i: nat, j: nat)
    requires IsLowered(lower, line, parts) && n > 0 && k + n <= |lower(line)|
    ensures Covers(parts, k, n, i, j)
  {
    assert parts[..|parts|] == parts;
    i := PartAt(parts, |parts|, k);
    var last := PartAt(parts, |parts|, k + n - 1);
    hide Joined;
    j := last + 1;
    if j <= i {
      StartsRise(parts, j, i);
    }
  }

  lemma OneCover(parts: seq<string>, k: nat, n: nat, i: nat, j: nat, i': nat, j': nat)
    requires Covers(parts, k, n, i, j) && Covers(parts, k, n, i', j')
    requires forall x | 0 <= x < |parts| :: parts[x] != []
    ensures i == i' && j == j'
  {
    hide Start;
    if i < i' {
      StartsRise(parts, i + 1, i');
    } else if i' < i {
      StartsRise(parts, i' + 1, i);
    }
    if j < j' {
      StartsRise(parts, j, j' - 1);
    } else if j' < j {
      StartsRise(parts, j', j - 1);
    }
  }

  // ----- What is located -----

  lemma LocatedAtFirst(lower: string -> string, line: string, needle: string, k: nat)
    requires needle != [] && FirstAt(lower(line), needle, k)
    ensures k + |needle| <= |lower(line)|
    ensures FindFrom(Encode(lower(line)), Encode(needle), 0) == Some(Offset(lower(line), k))
    ensures Offset(lower(line), k) + |Encode(needle)| == Offset(lower(line), k + |needle|)
  {
    hide Encode, Offset, FindFrom;
    var low := lower(line);
    var found := FindFrom(Encode(low), Encode(needle), 0);
    CharsFoundAtBytes(low, needle, k);
    var k' := BytesFoundAtChar(low, needle, found.value);
    if k < k' {
      OffsetsRise(low, k, k');
    }
    OffsetsRise(low, k, k + |needle|);
    SliceLength(Encode(low), Offset(low, k), Offset(low, k + |needle|));
  }

  lemma SliceLength<T>(s: seq<T>, a: nat, b: nat)
    requires a <= b <= |s|
    ensures |s[a..b]| == b - a
  {
  }

  /** Lowercasing left the byte offsets of both ends where they were. */
  predicate EndsStay(line: string, low: string, k: nat, n: nat, i: nat, j: nat)
    requires k + n <= |low| && i <= j <= |line|
  {
    Offset(line, i) == Offset(low, k) && Offset(line, j) == Offset(low, k + n)
  }

  /** The range documented is that of the first case-insensitive occurrence. It is the range located exactly
      when lowercasing left the byte offsets of that occurrence's ends where they were, or moved one into a
      character, which makes the whole line the range, and the occurrence is the whole line. */
  lemma LocatedIsTheFirst(lower: string -> string, line: string, needle: string, parts: seq<string>, k: nat, i: nat, j: nat)
    requires needle != [] && IsLowered(lower, line, parts)
    requires FirstAt(lower(line), needle, k) && Covers(parts, k, |needle|, i, j)
    ensures k + |needle| <= |lower(line)|
    ensures var (start, end) := (Offset(lower(line), k), Offset(lower(line), k + |needle|));
      Locate(lower, line, needle) == Some(Hit(Offset(line, i), Offset(line, j))) <==>
      || EndsStay(line, lower(line), k, |needle|, i, j)
      || (i == 0 && j == |line| && !(IsBoundary(Encode(line), start) && IsBoundary(Encode(line), end)))
  {
    hide Encode, Offset, IsBoundary, Locate, Start, FirstAt, Joined;
    LocatedRange(lower, line, needle, k);
    OffsetIsBoundary(line, i);
    OffsetIsBoundary(line, j);
    OffsetIsInjective(line, 0, i);
    OffsetIsInjective(line, |line|, j);
    OffsetEnds(line);
  }

  lemma LocatedRange(lower: string -> string, line: string, needle: string, k: nat)
    requires needle != [] && FirstAt(lower(line), needle, k)
    ensures k + |needle| <= |lower(line)|
    ensures var (start, end) := (Offset(lower(line), k), Offset(lower(line), k + |needle|));
      Locate(lower, line, needle) == Some(
        if IsBoundary(Encode(line), start) && IsBoundary(Encode(line), end) then Hit(start, end) else Hit(0, |Encode(line)|))
  {
    hide Encode, Offset, FindFrom, IsBoundary, FirstAt;
    LocatedAtFirst(lower, line, needle, k);
  }

  lemma OffsetEnds(line: string)
    ensures Offset(line, 0) == 0 && Offset(line, |line|) == |Encode(line)|
  {
    assert line[..0] == [] && line[..|line|] == line;
  }

  // ----- Lowercasing that keeps widths -----

  ghost predicate KeepsWidths(line: string, parts: seq<string>) {
    |parts| == |line| && forall c | 0 <= c < |line| :: |parts[c]| == 1 && |EncodeChar(parts[c][0])| == |EncodeChar(line[c])|
  }

  lemma {:induction false} KeptWidths(line: string, parts: seq<string>, c: nat)
    requires KeepsWidths(line, parts) && c <= |line|
    ensures |Joined(parts[..c])| == c && |Encode(Joined(parts[..c]))| == Offset(line, c)
  {
    hide EncodeChar;
    if c == 0 {
      OffsetEnds(line);
    } else {
      KeptWidths(line, parts, c - 1);
      var p, l := parts[..c], line[..c];
      assert p[..c - 1] == parts[..c - 1] && l == line[..c - 1] + [line[c - 1]];
      assert parts[c - 1] == [parts[c - 1][0]];
      EncodeConcat(Joined(parts[..c - 1]), parts[c - 1]);
      EncodeConcat(line[..c - 1], [line[c - 1]]);
      EncodeOne(parts[c - 1][0]);
      EncodeOne(line[c - 1]);
    }
  }

  lemma {:induction false} JoinedPrefix(parts: seq<string>, c: nat)
    requires c <= |parts|
    ensures Joined(parts[..c]) <= Joined(parts)
    decreases |parts| - c
  {
    if c == |parts| {
      assert parts[..c] == parts;
    } else {
      JoinedPrefix(parts, c + 1);
      assert parts[..c + 1][..c] == parts[..c];
    }
  }

  /** Offsets of the lowercased line are then those of the line. */
  lemma KeptOffset(line: string, low: string, parts: seq<string>, c: nat)
    requires KeepsWidths(line, parts) && low == Joined(parts) && c <= |line|
    ensures |low| == |line| && Start(parts, c) == c && Offset(low, c) == Offset(line, c)
  {
    hide KeepsWidths, Joined, Encode;
    KeptWidths(line, parts, c);
    KeptWidths(line, parts, |line|);
    assert parts[..|line|] == parts by { SameLength(line, parts); }
    SameLength(line, parts);
    JoinedPrefix(parts, c);
    assert low[..c] == Joined(parts[..c]);
  }

  lemma SameLength(line: string, parts: seq<string>)
    requires KeepsWidths(line, parts)
    ensures |parts| == |line|
  {
  }

  /** When every character of the line lowercases to one of its own width, the hit is the first occurrence,
      character for character. */
  lemma KeptWidthsHit(lower: string -> string, line: string, needle: string, parts: seq<string>, k: nat)
    requires needle != [] && IsLowered(lower, line, parts) && KeepsWidths(line, parts) && FirstAt(lower(line), needle, k)
    ensures k + |needle| <= |line|
    ensures Locate(lower, line, needle) == Some(Hit(Offset(line, k), Offset(line, k + |needle|)))
    ensures forall c | 0 <= c < |needle| :: parts[k + c] == [needle[c]]
  {
    hide Encode, Locate, KeepsWidths, Joined, Offset, Start;
    var n, low := |needle|, lower(line);
    KeptOffset(line, low, parts, 0);
    KeptOffset(line, low, parts, k);
    KeptOffset(line, low, parts, k + 1);
    KeptOffset(line, low, parts, k + n - 1);
    KeptOffset(line, low, parts, k + n);
    LocatedIsTheFirst(lower, line, needle, parts, k, k, k + n);
    forall c | 0 <= c < n ensures parts[k + c] == [needle[c]] {
      PartAsChar(line, parts, k + c);
      assert needle[c] == low[k..k + n][c] == low[k + c];
    }
  }

  lemma PartAsChar(line: string, parts: seq<string>, c: nat)
    requires KeepsWidths(line, parts) && c < |line|
    ensures c < |Joined(parts)| && parts[c] == [Joined(parts)[c]]
  {
    KeptWidths(line, parts, c);
    KeptWidths(line, parts, c + 1);
    JoinedPrefix(parts, c + 1);
    assert parts[..c + 1][..c] == parts[..c];
    assert Joined(parts[..c + 1])[c] == Joined(parts)[c];
  }

  // ----- Lowercasing that does not -----

  /** Unicode lowercases a dotted capital I to two characters, of one byte more. A hit behind one on the line is
      shown one byte late, on the character that follows it. */
  lemma HitAfterDottedI(lower: string -> string)
    requires lower("\U{130}xyz") == "i\U{307}xyz"
    ensures Locate(lower, "\U{130}xyz", "x") == Some(Hit(3, 4))
    ensures Encode("\U{130}xyz")[3..4] == Encode("y")
  {
    hide Encode, EncodeChar, Locate, FirstAt, IsBoundary;
    LineBytes();
    LowBytes();
    LowHolds();
    LocatedRange(lower, "\U{130}xyz", "x", 2);
  }

  lemma LineBytes()
    ensures |Encode("\U{130}xyz")| == 5 && Encode("\U{130}xyz")[3..4] == Encode("y")
    ensures IsBoundary(Encode("\U{130}xyz"), 3) && IsBoundary(Encode("\U{130}xyz"), 4)
  {
    var line := "\U{130}xyz";
    assert line == ['\U{130}', 'x', 'y', 'z'];
    BytesOfFour('\U{130}', 'x', 'y', 'z');
    EncodeOne('y');
  }

  lemma LowBytes()
    ensures Offset("i\U{307}xyz", 2) == 3 && Offset("i\U{307}xyz", 3) == 4
  {
    var low := "i\U{307}xyz";
    assert low[..2] == ['i', '\U{307}'] && low[..3] == ['i', '\U{307}'] + ['x'];
    BytesOfTwo('i', '\U{307}');
    EncodeOne('x');
    EncodeConcat(['i', '\U{307}'], ['x']);
  }

  lemma LowHolds()
    ensures FirstAt("i\U{307}xyz", "x", 2)
  {
    var low := "i\U{307}xyz";
    assert low[0..1] == "i" && low[1..2] == "\U{307}" && low[2..3] == "x";
    assert OccursAt(low, "x", 2);
  }

  lemma BytesOfFour(a: char, b: char, c: char, d: char)
    ensures Encode([a, b, c, d]) == EncodeChar(a) + EncodeChar(b) + EncodeChar(c) + EncodeChar(d)
  {
    hide EncodeChar;
    assert [a, b, c, d][1..] == [b, c, d] && [b, c, d][1..] == [c, d];
    BytesOfTwo(c, d);
  }

  lemma BytesOfTwo(a: char, b: char)
    ensures Encode([a, b]) == EncodeChar(a) + EncodeChar(b)
  {
    hide EncodeChar;
    assert [a, b][1..] == [b];
    EncodeOne(b);
  }
}
