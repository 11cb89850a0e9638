/** Where a search hit is in a line, and the part of the line shown around it. Hits are byte ranges, as
    the source keeps them. Lowercasing is Unicode's to define, so it is a parameter. */
module Snippets {
  import opened Wrappers
  import opened Utf8
  import opened Text

  // ----- Characters and their byte offsets -----

  /** The byte offset of character `k`. */
  function Offset(s: string, k: nat): nat
    requires k <= |s|
  {
    |Encode(s[..k])|
  }

  lemma HeadAndTail(a: seq<byte>, b: seq<byte>)
    ensures (a + b)[..|a|] == a && (a + b)[|a|..] == b
  {
  }

  lemma EncodeSplits(s: string, k: nat)
    requires k <= |s|
    ensures Encode(s) == Encode(s[..k]) + Encode(s[k..])
    ensures Offset(s, k) <= |Encode(s)|
    ensures Encode(s)[..Offset(s, k)] == Encode(s[..k]) && Encode(s)[Offset(s, k)..] == Encode(s[k..])
  {
    hide Encode;
    var a, b := s[..k], s[k..];
    assert s == a + b;
    EncodeConcat(a, b);
    HeadAndTail(Encode(a), Encode(b));
  }

  lemma OffsetsRise(s: string, i: nat, j: nat)
    requires i <= j <= |s|
    ensures Offset(s, i) + (j - i) <= Offset(s, j) <= |Encode(s)|
    ensures Encode(s)[Offset(s, i)..Offset(s, j)] == Encode(s[i..j])
  {
    EncodeSplits(s, j);
    EncodeSplits(s[..j], i);
    assert s[..j][..i] == s[..i] && s[..j][i..] == s[i..j];
    EncodedLength(s[i..j]);
    assert Encode(s)[Offset(s, i)..Offset(s, j)] == Encode(s)[..Offset(s, j)][Offset(s, i)..];
  }

  lemma {:induction false} EncodedLength(s: string)
    ensures |Encode(s)| >= |s|
  {
    if s != [] {
      EncodedLength(s[1..]);
    }
  }

  /** A byte offset is a character boundary of encoded text exactly when it is some character's offset. */
  lemma {:induction false} BoundariesAreOffsets(s: string, p: nat)
    requires p <= |Encode(s)| && IsBoundary(Encode(s), p)
    ensures exists k :: 0 <= k <= |s| && Offset(s, k) == p
  {
    if p == 0 {
      assert s[..0] == [] && Offset(s, 0) == 0;
    } else {
      var n := |EncodeChar(s[0])|;
      var rest := s[1..];
      TailsOfChar(s[0]);
      assert p >= n;
      assert IsBoundary(Encode(rest), p - n);
      BoundariesAreOffsets(rest, p - n);
      var k :| 0 <= k <= |rest| && Offset(rest, k) == p - n;
      assert s[..k + 1][1..] == rest[..k];
      assert Offset(s, k + 1) == p;
    }
  }

  lemma TailsOfChar(c: char)
    ensures !Utf8.IsTail(EncodeChar(c)[0])
    ensures forall j | 1 <= j < |EncodeChar(c)| :: Utf8.IsTail(EncodeChar(c)[j])
  {
  }

  lemma OffsetIsBoundary(s: string, k: nat)
    requires k <= |s|
    ensures IsBoundary(Encode(s), Offset(s, k))
  {
    EncodeSplits(s, k);
    if k < |s| {
      TailsOfChar(s[k]);
      assert s[k..][0] == s[k];
      assert Encode(s)[Offset(s, k)] == Encode(s[k..])[0];
    }
  }

  // ----- Searching bytes is searching characters -----

  lemma {:induction false} EncodedPrefix(s: string, t: string)
    requires Encode(t) <= Encode(s)
    ensures t <= s
  {
    if t != [] {
      assert s != [] by { assert |EncodeChar(t[0])| > 0; }
      var n := |EncodeChar(t[0])|;
      SequenceOfChar(t[0], Encode(s)[n..]);
      SequenceOfChar(s[0], Encode(s[1..]));
      assert Encode(s) == EncodeChar(t[0]) + Encode(s)[n..];
      assert t[0] == s[0];
      assert Encode(t)[n..] == Encode(t[1..]) && Encode(s)[n..] == Encode(s[1..]);
      EncodedPrefix(s[1..], t[1..]);
    }
  }

  lemma FirstByte(t: string)
    requires t != []
    ensures Encode(t) != [] && !Utf8.IsTail(Encode(t)[0])
  {
    TailsOfChar(t[0]);
  }

  lemma BytesFoundAtChar(s: string, t: string, p: nat) returns (k: nat)
    requires t != [] && OccursAt(Encode(s), Encode(t), p)
    ensures k <= |s| && Offset(s, k) == p && OccursAt(s, t, k)
  {
    hide Encode, Utf8.IsTail;
    FirstByte(t);
    assert Encode(s)[p] == Encode(t)[0] by {
      assert Encode(s)[p..p + |Encode(t)|][0] == Encode(s)[p];
    }
    BoundariesAreOffsets(s, p);
    k :| 0 <= k <= |s| && Offset(s, k) == p;
    EncodeSplits(s, k);
    assert Encode(s)[p..p + |Encode(t)|] == Encode(s)[p..][..|Encode(t)|];
    EncodedPrefix(s[k..], t);
    assert s[k..k + |t|] == s[k..][..|t|];
  }

  lemma CharsFoundAtBytes(s: string, t: string, k: nat)
    requires k <= |s| && OccursAt(s, t, k)
    ensures OccursAt(Encode(s), Encode(t), Offset(s, k))
  {
    hide Encode;
    OffsetsRise(s, k, k + |t|);
    assert |Encode(t)| == Offset(s, k + |t|) - Offset(s, k);
  }

  /** One text contains another exactly when its bytes contain the other's bytes, and they are found at
      the offset of a character. */
  lemma ByteSearchIsCharSearch(s: string, t: string, p: nat)
    requires t != []
    ensures OccursAt(Encode(s), Encode(t), p) <==> exists k :: 0 <= k <= |s| && Offset(s, k) == p && OccursAt(s, t, k)
  {
    hide Encode, Offset, OccursAt;
    if OccursAt(Encode(s), Encode(t), p) {
      var k := BytesFoundAtChar(s, t, p);
    }
    if k :| 0 <= k <= |s| && Offset(s, k) == p && OccursAt(s, t, k) {
      CharsFoundAtBytes(s, t, k);
    }
  }

  lemma ContainsByBytes(s: string, t: string)
    requires t != []
    ensures FindFrom(Encode(s), Encode(t), 0).Some? <==> Contains(s, t)
  {
    hide Encode, Offset, OccursAt;
    var f := FindFrom(Encode(s), Encode(t), 0);
    if f.Some? {
      ByteSearchIsCharSearch(s, t, f.value);
    }
    if k :| 0 <= k <= |s| && OccursAt(s, t, k) {
      ByteSearchIsCharSearch(s, t, Offset(s, k));
    }
  }

  // ----- The hit, and the window around it -----

  /** A byte range of a line. */
  datatype Hit = Hit(start: nat, end: nat)

  /** `locate`: the first place the lowercased line holds the needle, read as a range of the line itself;
      the whole line when lowercasing moved that range off a character. */
  function Locate(lower: string -> string, line: string, needle: string): Option<Hit> {
    match FindFrom(Encode(lower(line)), Encode(needle), 0)
    case None => None
    case Some(start) =>
      var (bytes, end) := (Encode(line), start + |Encode(needle)|);
      Some(if IsBoundary(bytes, start) && IsBoundary(bytes, end) then Hit(start, end) else Hit(0, |bytes|))
  }

  ghost predicate IsHit(line: string, hit: Hit) {
    hit.start <= hit.end && IsBoundary(Encode(line), hit.start) && IsBoundary(Encode(line), hit.end)
  }

  /** A line is located exactly when its lowercase holds the needle, and always at a range of it. */
  lemma LocatedIsContained(lower: string -> string, line: string, needle: string)
    requires needle != []
    ensures Locate(lower, line, needle).Some? <==> Contains(lower(line), needle)
    ensures Locate(lower, line, needle).Some? ==> IsHit(line, Locate(lower, line, needle).value)
  {
    hide Encode;
    ContainsByBytes(lower(line), needle);
  }

  const MAX_CHARS := 80
  const LEAD_CHARS := 16
  const ELLIPSIS := '\U{2026}'

  /** Every slice point of a line, in order. */
  function Bounds(line: string): (b: seq<nat>)
    ensures |b| == |line| + 1 && forall k | 0 <= k <= |line| :: b[k] == Offset(line, k)
  {
    seq(|line| + 1, k requires 0 <= k <= |line| => Offset(line, k))
  }

  method CollectBounds(line: string) returns (b: seq<nat>)
    ensures b == Bounds(line)
  {
    b := [];
    var at := 0;
    assert line[..0] == [];
    for k := 0 to |line|
      invariant |b| == k && at == Offset(line, k)
      invariant forall j | 0 <= j < k :: b[j] == Offset(line, j)
    {
      b := b + [at];
      assert line[..k + 1] == line[..k] + [line[k]];
      EncodeConcat(line[..k], [line[k]]);
      EncodeOne(line[k]);
      at := at + |EncodeChar(line[k])|;
    }
    b := b + [at];
  }

  lemma EncodeOne(c: char)
    ensures Encode([c]) == EncodeChar(c)
  {
    assert Encode([c][1..]) == [];
  }

  method Position(b: seq<nat>, x: nat, default: nat) returns (k: nat)
    ensures (exists j :: 0 <= j < |b| && b[j] == x) ==> k < |b| && b[k] == x && forall j | 0 <= j < k :: b[j] != x
    ensures (forall j | 0 <= j < |b| :: b[j] != x) ==> k == default
  {
    for i := 0 to |b|
      invariant forall j | 0 <= j < i :: b[j] != x
    {
      if b[i] == x {
        return i;
      }
    }
    k := default;
  }

  /** The characters of a line from `ws` to `we`, an ellipsis at each end that is cut. */
  function Windowed(line: string, ws: nat, we: nat): string
    requires ws <= we <= |line|
  {
    (if ws > 0 then [ELLIPSIS] else []) + line[ws..we] + (if we < |line| then [ELLIPSIS] else [])
  }

  function WindowStart(i: nat): nat {
    if i >= LEAD_CHARS then i - LEAD_CHARS else 0
  }

  function WindowEnd(line: string, i: nat, j: nat): (end: nat)
    requires i <= j <= |line|
    ensures WindowStart(i) <= j <= end <= |line|
  {
    var end := if WindowStart(i) + MAX_CHARS >= j then WindowStart(i) + MAX_CHARS else j;
    if end <= |line| then end else |line|
  }

  /** The text shown for a hit from character `i` to `j`: from 16 characters before it, or the start of the
      line, for 80 characters, or to the end of the hit or of the line. */
  function Snippet(line: string, i: nat, j: nat): string
    requires i <= j <= |line|
  {
    Windowed(line, WindowStart(i), WindowEnd(line, i, j))
  }

  /** `snippet_around`: the text shown for a hit, and the hit's range in it. */
  method SnippetAround(line: string, hit: Hit) returns (text: string, range: Hit, ghost i: nat, ghost j: nat)
    requires IsHit(line, hit)
    ensures i <= j <= |line| && Offset(line, i) == hit.start && Offset(line, j) == hit.end
    ensures text == Snippet(line, i, j) && IsHit(text, range)
    ensures Encode(text)[range.start..range.end] == Encode(line)[hit.start..hit.end]
  {
    hide Encode, IsBoundary, Offset;
    i, j := HitChars(line, hit);
    var bounds := CollectBounds(line);
    var last := |bounds| - 1;
    var si := Position(bounds, hit.start, 0);
    var ei := Position(bounds, hit.end, last);
    OffsetIsInjective(line, i, si);
    OffsetIsInjective(line, j, ei);
    var start := if si >= LEAD_CHARS then si - LEAD_CHARS else 0;
    var end := if start + MAX_CHARS >= ei then start + MAX_CHARS else ei;
    end := if end <= last then end else last;
    WindowKeepsTheHit(line, start, end, i, j);
    var rangeStart := hit.start - bounds[start];
    text := "";
    if start > 0 {
      text := text + [ELLIPSIS];
      rangeStart := rangeStart + |EncodeChar(ELLIPSIS)|;
    }
    text := text + line[start..end];
    if end < last {
      text := text + [ELLIPSIS];
    }
    range := Hit(rangeStart, rangeStart + (hit.end - hit.start));
  }

  /** Only longer lines are documented as windowed. A line of at most 80 characters is shown as it is exactly
      when its hit starts in its first 17 characters; one character on, an ellipsis replaces the first
      character, which changes nothing if that is an ellipsis. */
  lemma ShortLineShownWhole(line: string, i: nat, j: nat)
    requires i <= j <= |line| <= MAX_CHARS
    ensures Snippet(line, i, j) == line <==> i <= LEAD_CHARS || (i == LEAD_CHARS + 1 && line[0] == ELLIPSIS)
  {
    var ws := WindowStart(i);
    assert WindowEnd(line, i, j) == |line|;
    if ws == 0 {
      assert line[0..|line|] == line;
    } else {
      var shown := Snippet(line, i, j);
      assert |shown| == |line| - ws + 1 && shown[0] == ELLIPSIS;
      if ws == 1 {
        assert line == [line[0]] + line[1..|line|];
      }
    }
  }

  lemma ShortLineLosesItsStart()
    ensures Snippet("aaaaaaaaaaaaaaaaax", 17, 18) == "\U{2026}aaaaaaaaaaaaaaaax"
  {
    var line := "aaaaaaaaaaaaaaaaax";
    assert |line| == 18;
    assert line[1..18] == "aaaaaaaaaaaaaaaax";
  }

  /** At most 80 characters are documented as shown. That holds exactly for a line of at most 80 whose hit starts in
      its first 17, and for a line that ends fewer than 80 characters after the window's start when that is later. */
  lemma ShownLength(line: string, i: nat, j: nat)
    requires i <= j <= |line|
    ensures |Snippet(line, i, j)| <= MAX_CHARS <==>
      if i <= LEAD_CHARS then |line| <= MAX_CHARS else |line| - (i - LEAD_CHARS) < MAX_CHARS
    ensures j <= WindowStart(i) + MAX_CHARS ==> |Snippet(line, i, j)| <= MAX_CHARS + 2
  {
  }

  lemma LongLineShowsMore(line: string)
    requires |line| == MAX_CHARS + 1
    ensures |Snippet(line, 0, 1)| == MAX_CHARS + 1
  {
  }

  lemma HitChars(line: string, hit: Hit) returns (i: nat, j: nat)
    requires IsHit(line, hit)
    ensures i <= j <= |line| && Offset(line, i) == hit.start && Offset(line, j) == hit.end
  {
    BoundariesAreOffsets(line, hit.start);
    BoundariesAreOffsets(line, hit.end);
    hide Encode, Offset;
    i :| 0 <= i <= |line| && Offset(line, i) == hit.start;
    j :| 0 <= j <= |line| && Offset(line, j) == hit.end;
    if j < i {
      OffsetsRise(line, j, i);
    }
  }

  lemma OffsetIsInjective(line: string, i: nat, j: nat)
    requires i <= |line| && j <= |line|
    ensures Offset(line, i) == Offset(line, j) <==> i == j
  {
    hide Offset;
    if i < j {
      OffsetsRise(line, i, j);
    } else if j < i {
      OffsetsRise(line, j, i);
    }
  }

  /** Where the hit lies in the window: `i - ws` characters in, past the leading ellipsis. */
  lemma WindowKeepsTheHit(line: string, ws: nat, we: nat, i: nat, j: nat)
    requires ws <= i <= j <= we <= |line|
    ensures var (text, lead) := (Windowed(line, ws, we), if ws > 0 then 1 else 0);
      var (a, b) := (i - ws + lead, j - ws + lead);
      && b <= |text|
      && Offset(line, ws) <= Offset(line, i)
      && Offset(text, a) == Offset(line, i) - Offset(line, ws) + lead * |EncodeChar(ELLIPSIS)|
      && Offset(text, a) <= Offset(text, b)
      && Offset(text, b) - Offset(text, a) == Offset(line, j) - Offset(line, i)
      && Offset(text, b) <= |Encode(text)|
      && IsBoundary(Encode(text), Offset(text, a)) && IsBoundary(Encode(text), Offset(text, b))
      && Offset(line, i) <= Offset(line, j) <= |Encode(line)|
      && Encode(text)[Offset(text, a)..Offset(text, b)] == Encode(line)[Offset(line, i)..Offset(line, j)]
  {
    hide Encode, IsBoundary, Offset, Windowed;
    var text, lead := Windowed(line, ws, we), if ws > 0 then 1 else 0;
    var head: string := if ws > 0 then [ELLIPSIS] else [];
    WindowParts(line, ws, we, i, j);
    HeadLength(ws > 0);
    ShiftedSlice(line, text, head, ws, i, j, i - ws + lead, j - ws + lead);
  }

  lemma HeadLength(cut: bool)
    ensures |Encode(if cut then [ELLIPSIS] else [])| == (if cut then 1 else 0) * |EncodeChar(ELLIPSIS)|
  {
    hide EncodeChar;
    EncodeOne(ELLIPSIS);
  }

  /** A slice of a line moved elsewhere keeps its bytes, at the offset of what now stands before it. */
  lemma ShiftedSlice(line: string, text: string, head: string, ws: nat, i: nat, j: nat, a: nat, b: nat)
    requires ws <= i <= j <= |line| && a <= b <= |text|
    requires text[a..b] == line[i..j] && text[..a] == head + line[ws..i]
    ensures Offset(line, ws) <= Offset(line, i) <= Offset(line, j) <= |Encode(line)|
    ensures Offset(text, a) == |Encode(head)| + Offset(line, i) - Offset(line, ws)
    ensures Offset(text, a) <= Offset(text, b) <= |Encode(text)|
    ensures Offset(text, b) - Offset(text, a) == Offset(line, j) - Offset(line, i)
    ensures IsBoundary(Encode(text), Offset(text, a)) && IsBoundary(Encode(text), Offset(text, b))
    ensures Encode(text)[Offset(text, a)..Offset(text, b)] == Encode(line)[Offset(line, i)..Offset(line, j)]
  {
    hide Encode, IsBoundary, Offset;
    SliceBytes(line, ws, i);
    SliceBytes(line, i, j);
    SliceBytes(text, a, b);
    OffsetIsBoundary(text, a);
    OffsetIsBoundary(text, b);
    OffsetAfter(text, a, head, line[ws..i]);
  }

  /** The bytes of a slice, between the offsets of its ends. */
  lemma SliceBytes(s: string, i: nat, j: nat)
    requires i <= j <= |s|
    ensures Offset(s, i) <= Offset(s, j) <= |Encode(s)|
    ensures Encode(s)[Offset(s, i)..Offset(s, j)] == Encode(s[i..j])
    ensures |Encode(s[i..j])| == Offset(s, j) - Offset(s, i)
  {
    hide Encode, Offset;
    OffsetsRise(s, i, j);
    assert |Encode(s)[Offset(s, i)..Offset(s, j)]| == Offset(s, j) - Offset(s, i);
  }

  lemma OffsetAfter(text: string, a: nat, head: string, mid: string)
    requires a <= |text| && text[..a] == head + mid
    ensures Offset(text, a) == |Encode(head)| + |Encode(mid)|
  {
    hide Encode;
    EncodeConcat(head, mid);
  }

  lemma WindowParts(line: string, ws: nat, we: nat, i: nat, j: nat)
    requires ws <= i <= j <= we <= |line|
    ensures var head: string, text := if ws > 0 then [ELLIPSIS] else [], Windowed(line, ws, we);
      && |head| + (j - ws) <= |text|
      && text[|head| + (i - ws)..|head| + (j - ws)] == line[i..j]
      && text[..|head| + (i - ws)] == head + line[ws..i]
  {
    var head: string := if ws > 0 then [ELLIPSIS] else [];
    var tail: string := if we < |line| then [ELLIPSIS] else [];
    var mid, x, y := line[ws..we], i - ws, j - ws;
    MiddleSlice(head, mid, tail, x, y);
    assert mid[x..y] == line[i..j] by {
      SliceOfSlice(line, ws, we, x, y);
    }
    assert mid[0..x] == line[ws..i] by {
      SliceOfSlice(line, ws, we, 0, x);
    }
  }

  lemma MiddleSlice<T>(head: seq<T>, mid: seq<T>, tail: seq<T>, x: nat, y: nat)
    requires x <= y <= |mid|
    ensures (head + mid + tail)[|head| + x..|head| + y] == mid[x..y]
    ensures (head + mid + tail)[..|head| + x] == head + mid[0..x]
  {
    var front := head + mid;
    PrefixOfConcat(front, tail, |head| + y);
    PrefixOfConcat(front, tail, |head| + x);
    SliceOfPrefix(front + tail, |head| + x, |head| + y);
    SliceOfPrefix(front, |head| + x, |head| + y);
    SliceBehind(head, mid, x, y);
  }

  lemma PrefixOfConcat<T>(a: seq<T>, b: seq<T>, n: nat)
    requires n <= |a|
    ensures (a + b)[..n] == a[..n]
  {
  }

  lemma SliceOfPrefix<T>(s: seq<T>, x: nat, y: nat)
    requires x <= y <= |s|
    ensures s[x..y] == s[..y][x..]
  {
  }

  lemma SliceBehind<T>(a: seq<T>, b: seq<T>, x: nat, y: nat)
    requires x <= y <= |b|
    ensures (a + b)[|a| + x..|a| + y] == b[x..y] && (a + b)[..|a| + x] == a + b[0..x]
  {
  }

  /** What is shown, in characters of the line: from 16 before the hit, for 80 or to the end of the hit, and an ellipsis
      for what is left out at either end. */
  lemma SnippetSpelled(line: string, i: nat, j: nat, ws: nat, we: nat)
    requires i <= j <= |line| && ws <= we <= |line|
    requires if i <= 16 then ws == 0 else ws == i - 16
    requires if ws + 80 >= |line| then we == |line| else if ws + 80 >= j then we == ws + 80 else we == j
    ensures Snippet(line, i, j) == (if ws > 0 then "\U{2026}" else "") + line[ws..we] + (if we < |line| then "\U{2026}" else "")
  {
  }
}
