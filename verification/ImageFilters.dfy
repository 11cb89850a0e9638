/** The two resampling loops, and the choice between them. */
module ImageFilters {
  import opened Machine
  import opened Wrappers
  import opened Image

  const U32_LIMIT := 0x1_0000_0000

  /** The 32-bit products and indices the averaging loops take, at their largest: the source multiplies in
      32 bits, so each must fit. */
  ghost predicate BoxFits(sw: int, sh: int, tw: int, th: int) {
    th > 0 ==>
      && th * sh < U32_LIMIT
      && (tw > 0 ==> tw * sw < U32_LIMIT && sw * sh <= U32_LIMIT && tw * th <= U32_LIMIT)
  }

  /** The same for the nearest filter, whose last row and column read one span less. */
  ghost predicate NearestFits(sw: int, sh: int, tw: int, th: int)
    requires 0 <= sw && 0 <= sh && 0 <= tw && 0 <= th
  {
    th > 0 ==>
      && (th - 1) * sh < U32_LIMIT
      && (tw > 0 ==>
            && (tw - 1) * sw < U32_LIMIT && tw * th <= U32_LIMIT
            && NearestAt(th - 1, sh, th) * sw + NearestAt(tw - 1, sw, tw) < U32_LIMIT)
  }

  /** A frame given by the channels of its pixels, numbered row by row. */
  type Frame = (nat, nat) -> u8

  function FrameBytes(f: Frame, pixels: nat): (out: Bytes)
    ensures |out| == pixels * 4 && forall i | 0 <= i < |out| :: out[i] == f(i / 4, i % 4)
  {
    seq(pixels * 4, i requires 0 <= i < pixels * 4 => f(i / 4, i % 4))
  }

  /** The frame of box means. */
  function Shrunk(src: Bytes, sw: nat, sh: nat, tw: nat, th: nat): Frame {
    (p: nat, c: nat) =>
      if tw == 0 || th == 0 || c >= 4 then 0 else
        BoxMeanIsAByte(src, sw, sh, tw, th, p / tw, p % tw, c);
        BoxMean(src, sw, sh, tw, th, p / tw, p % tw, c) as u8
  }

  /** The source position the nearest filter reads, clamped to the last one. */
  function NearestAt(t: nat, n: nat, m: nat): nat
    requires 0 < m
  {
    var last := if n == 0 then 0 else n - 1;
    if Cut(t, n, m) <= last then Cut(t, n, m) else last
  }

  /** The frame of nearest pixels. */
  function Nearest(src: Bytes, sw: nat, sh: nat, tw: nat, th: nat): Frame {
    (p: nat, c: nat) =>
      if tw == 0 || th == 0 || c >= 4 then 0 else
        var i := NearestAt(p / tw, sh, th) * sw + NearestAt(p % tw, sw, tw);
        if Readable(src, i) then src[i * 4 + c] else 0
  }

  lemma AreaBound(y: int, y0: int, y1: int, x: int, x0: int, x1: int, sw: int, sh: int)
    requires 0 <= y0 <= y < y1 <= sh && 0 <= x0 <= x <= x1 <= sw
    ensures (y - y0) * (x1 - x0) + (x - x0) <= sw * sh
  {
    var w, h := x1 - x0, y - y0;
    assert h * w <= h * sw by { Scale(h, w, sw); }
    assert h * sw + sw <= sw * sh by {
      assert h * sw + sw == sw * (h + 1);
      Scale(sw, h + 1, sh);
    }
  }

  lemma Scale(k: int, a: int, b: int)
    requires 0 <= k && a <= b
    ensures k * a <= k * b
  {
  }

  /** The sums and the count of one box, in 64 bits. */
  method SumBox(src: Bytes, sw: u32, sh: u32, y0: u32, y1: u32, x0: u32, x1: u32)
    returns (sums: seq<u64>, count: u64)
    requires y0 <= y1 <= sh && x0 <= x1 <= sw && sw as int * sh as int <= U32_LIMIT
    ensures |sums| == 4
    ensures count as int == Total(Present(src, sw as int), y0 as int, y1 as int, x0 as int, x1 as int)
    ensures forall c | 0 <= c < 4 ::
      sums[c] as int == Total(Channel(src, sw as int, c), y0 as int, y1 as int, x0 as int, x1 as int)
  {
    sums, count := [0, 0, 0, 0], 0;
    var sy := y0;
    while sy < y1
      invariant y0 <= sy <= y1 && |sums| == 4
      invariant count as int == Total(Present(src, sw as int), y0 as int, sy as int, x0 as int, x1 as int)
      invariant forall c | 0 <= c < 4 ::
        sums[c] as int == Total(Channel(src, sw as int, c), y0 as int, sy as int, x0 as int, x1 as int)
      invariant count as int <= (sy as int - y0 as int) * (x1 as int - x0 as int)
      invariant forall c | 0 <= c < 4 :: sums[c] as int <= 255 * count as int
    {
      ghost var before := (sy as int - y0 as int) * (x1 as int - x0 as int);
      AreaBound(sy as int, y0 as int, y1 as int, x1 as int, x0 as int, x1 as int, sw as int, sh as int);
      sums, count := SumRow(src, sw, sh, sy, x0, x1, sums, count, before);
      assert (sy as int + 1 - y0 as int) * (x1 as int - x0 as int)
          == (sy as int - y0 as int) * (x1 as int - x0 as int) + (x1 as int - x0 as int);
      sy := sy + 1;
    }
  }

  function ChannelRow(src: Bytes, sw: int, c: int, y: int, x0: int, x1: int): int
    requires 0 <= c < 4
  {
    RowTotal(Channel(src, sw, c), y, x0, x1)
  }

  /** The sums with one pixel added, when the buffer holds it. */
  method AddPixel(src: Bytes, ghost sw: int, ghost y: int, ghost x: int, i: int, sums0: seq<u64>, count0: u64)
    returns (sums: seq<u64>, count: u64)
    requires i == y * sw + x && |sums0| == 4 && count0 as int < U32_LIMIT
    requires forall c | 0 <= c < 4 :: sums0[c] as int <= 255 * count0 as int
    ensures |sums| == 4
    ensures count0 <= count <= count0 + 1 && count as int == count0 as int + Present(src, sw)(y, x)
    ensures forall c | 0 <= c < 4 :: sums[c] as int == sums0[c] as int + Channel(src, sw, c)(y, x)
    ensures forall c | 0 <= c < 4 :: sums[c] as int <= 255 * count as int
  {
    sums, count := sums0, count0;
    if Readable(src, i) {
      sums := [sums[0] + src[i * 4] as u64, sums[1] + src[i * 4 + 1] as u64,
               sums[2] + src[i * 4 + 2] as u64, sums[3] + src[i * 4 + 3] as u64];
      count := count + 1;
    }
  }

  lemma RowNext(f: (int, int) -> int, y: int, x0: int, x: int)
    requires x0 <= x
    ensures RowTotal(f, y, x0, x + 1) == RowTotal(f, y, x0, x) + f(y, x)
  {
  }

  lemma RowStart(src: Bytes, sw: int, y: int, x: int)
    ensures RowTotal(Present(src, sw), y, x, x) == 0
    ensures forall c | 0 <= c < 4 :: ChannelRow(src, sw, c, y, x, x) == 0
  {
  }

  lemma ChannelsNext(src: Bytes, sw: int, y: int, x0: int, x: int)
    requires x0 <= x
    ensures forall c | 0 <= c < 4 :: ChannelRow(src, sw, c, y, x0, x + 1) == ChannelRow(src, sw, c, y, x0, x) + Channel(src, sw, c)(y, x)
  {
    hide Channel;
    forall c | 0 <= c < 4
      ensures ChannelRow(src, sw, c, y, x0, x + 1) == ChannelRow(src, sw, c, y, x0, x) + Channel(src, sw, c)(y, x)
    {
      RowNext(Channel(src, sw, c), y, x0, x);
    }
  }

  /** The sums with the pixels of one row added; `before` is how many a box held at most so far. */
  method SumRow(src: Bytes, sw: u32, sh: u32, sy: u32, x0: u32, x1: u32, sums0: seq<u64>, count0: u64, ghost before: int)
    returns (sums: seq<u64>, count: u64)
    requires sy < sh && x0 <= x1 <= sw && sw as int * sh as int <= U32_LIMIT && |sums0| == 4
    requires count0 as int <= before && before + (x1 as int - x0 as int) <= U32_LIMIT
    requires forall c | 0 <= c < 4 :: sums0[c] as int <= 255 * count0 as int
    ensures |sums| == 4
    ensures count as int == count0 as int + RowTotal(Present(src, sw as int), sy as int, x0 as int, x1 as int)
    ensures forall c | 0 <= c < 4 ::
      sums[c] as int == sums0[c] as int + ChannelRow(src, sw as int, c, sy as int, x0 as int, x1 as int)
    ensures count as int <= before + (x1 as int - x0 as int)
    ensures forall c | 0 <= c < 4 :: sums[c] as int <= 255 * count as int
  {
    hide Channel, Present, RowTotal, ChannelRow;
    sums, count := sums0, count0;
    var sx := x0;
    ghost var w: int, y: int, from: int := sw as int, sy as int, x0 as int;
    RowStart(src, w, y, from);
    while sx < x1
      invariant x0 <= sx <= x1 && |sums| == 4
      invariant count as int == count0 as int + RowTotal(Present(src, w), y, from, sx as int)
      invariant forall c | 0 <= c < 4 :: sums[c] as int == sums0[c] as int + ChannelRow(src, w, c, y, from, sx as int)
      invariant count as int <= before + (sx as int - from)
      invariant forall c | 0 <= c < 4 :: sums[c] as int <= 255 * count as int
    {
      PixelIndex(sy as nat, sx as nat, sw as nat, sh as nat);
      RowNext(Present(src, w), y, from, sx as int);
      ChannelsNext(src, w, y, from, sx as int);
      var i := sy * sw + sx;
      sums, count := AddPixel(src, w, y, sx as int, i as int, sums, count);
      sx := sx + 1;
    }
  }

  method CutAt(t: u32, n: u32, m: u32) returns (cut: u32)
    requires 0 < m && t <= m && t as int * n as int < U32_LIMIT
    ensures cut as int == Cut(t as nat, n as nat, m as nat) && cut <= n
  {
    CutsRise(t as nat, m as nat, n as nat, m as nat);
    Spans(0, n as nat, m as nat);
    cut := t * n / m;
  }

  lemma Product(k: int, a: int, b: int, bound: int)
    requires 0 <= k && a <= b && b * k < bound
    ensures a * k < bound
  {
    Scale(k, a, b);
    Commutes(a, k);
    Commutes(b, k);
  }

  ghost predicate Done(out: Bytes, f: Frame, n: nat) {
    && (forall i | 0 <= i < |out| && i < n * 4 :: out[i] == f(i / 4, i % 4))
    && forall i | n * 4 <= i < |out| :: out[i] == 0
  }

  lemma DoneExtends(o: Bytes, out: Bytes, f: Frame, p: nat)
    requires Done(o, f, p) && |out| == |o| && p * 4 + 4 <= |o|
    requires forall i | 0 <= i < |o| && !(p * 4 <= i < p * 4 + 4) :: out[i] == o[i]
    requires forall i | p * 4 <= i < p * 4 + 4 :: out[i] == f(p, i - p * 4)
    ensures Done(out, f, p + 1)
  {
    forall i | 0 <= i < (p + 1) * 4 ensures out[i] == f(i / 4, i % 4) {
      if i >= p * 4 {
        assert i / 4 == p && i % 4 == i - p * 4;
      }
    }
  }

  /** Four bytes written at a pixel. */
  method WritePixel(out: array<u8>, p: nat, pixel: seq<u8>, ghost f: Frame)
    requires |pixel| == 4 && p * 4 + 4 <= out.Length && Done(out[..], f, p)
    requires forall c: nat | c < 4 :: pixel[c] == f(p, c)
    modifies out
    ensures Done(out[..], f, p + 1)
  {
    hide Done;
    ghost var before := out[..];
    out[p * 4] := pixel[0];
    out[p * 4 + 1] := pixel[1];
    out[p * 4 + 2] := pixel[2];
    out[p * 4 + 3] := pixel[3];
    assert forall i | p * 4 <= i < p * 4 + 4 :: out[..][i] == pixel[i - p * 4];
    DoneExtends(before, out[..], f, p);
  }

  lemma SkipPixel(out: Bytes, f: Frame, p: nat)
    requires Done(out, f, p) && p * 4 + 4 <= |out| && forall c: nat | c < 4 :: f(p, c) == 0
    ensures Done(out, f, p + 1)
  {
    DoneExtends(out, out, f, p);
  }

  lemma PixelNumber(ty: u32, tx: u32, tw: u32, th: u32)
    requires tx < tw && ty < th
    ensures var p := ty as int * tw as int + tx as int;
      0 <= p < tw as int * th as int && p / tw as int == ty as int && p % tw as int == tx as int
  {
    PixelIndex(ty as nat, tx as nat, tw as nat, th as nat);
    DivUnique(ty as int * tw as int + tx as int, tw as nat, ty as nat, tx as nat);
  }

  /** The four means of a box as the bytes stored, or nothing for a box with no readable pixel. */
  method Means(src: Bytes, sw: u32, sh: u32, tw: u32, th: u32, ty: u32, tx: u32, y0: u32, y1: u32)
    returns (m: Option<seq<u8>>)
    requires tx < tw && ty < th && BoxFits(sw as int, sh as int, tw as int, th as int)
    requires y0 as int == Cut(ty as nat, sh as nat, th as nat) && y1 as int == Cut(ty as nat + 1, sh as nat, th as nat)
    ensures var (p, f) := (ty as int * tw as int + tx as int, Shrunk(src, sw as nat, sh as nat, tw as nat, th as nat));
      && 0 <= p < tw as int * th as int
      && (m.Some? ==> |m.value| == 4 && forall c: nat | c < 4 :: m.value[c] == f(p, c))
      && (m.None? ==> forall c: nat | c < 4 :: f(p, c) == 0)
  {
    hide Cut, Total;
    PixelNumber(ty, tx, tw, th);
    Spans(ty as nat, sh as nat, th as nat);
    Spans(tx as nat, sw as nat, tw as nat);
    Product(sw as int, tx as int + 1, tw as int, U32_LIMIT);
    Product(sw as int, tx as int, tw as int, U32_LIMIT);
    var x0 := CutAt(tx, sw, tw);
    var x1 := CutAt(tx + 1, sw, tw);
    var sums, count := SumBox(src, sw, sh, y0, y1, x0, x1);
    forall c: nat | c < 4
      ensures count > 0 ==>
        sums[c] as int / count as int
        == BoxMean(src, sw as nat, sh as nat, tw as nat, th as nat, ty as nat, tx as nat, c) <= 255
    {
      BoxMeanIsAByte(src, sw as nat, sh as nat, tw as nat, th as nat, ty as nat, tx as nat, c);
    }
    if count == 0 {
      m := None;
    } else {
      m := Some([MeanByte(sums[0], count), MeanByte(sums[1], count), MeanByte(sums[2], count), MeanByte(sums[3], count)]);
    }
  }

  function MeanByte(sum: u64, count: u64): u8
    requires count > 0 && sum as int / count as int <= 255
  {
    (sum / count) as u8
  }

  /** `resample_box`: no 32-bit product overflows, every write lands in the buffer, and each channel is
      its box's mean. */
  method ResampleBox(src: Bytes, sw: u32, sh: u32, tw: u32, th: u32) returns (out: array<u8>)
    requires BoxFits(sw as int, sh as int, tw as int, th as int)
    ensures fresh(out)
    ensures out[..] == FrameBytes(Shrunk(src, sw as nat, sh as nat, tw as nat, th as nat), tw as nat * th as nat)
  {
    ghost var f := Shrunk(src, sw as nat, sh as nat, tw as nat, th as nat);
    out := new u8[tw as int * th as int * 4](_ => 0);
    hide Shrunk, Cut, Done;
    NothingDone(out[..], f);
    var ty: u32 := 0;
    ghost var row: nat := 0;
    while ty < th
      invariant ty <= th && row == ty as int * tw as int
      invariant Done(out[..], f, row)
    {
      Product(sh as int, ty as int, th as int, U32_LIMIT);
      Product(sh as int, ty as int + 1, th as int, U32_LIMIT);
      var y0 := CutAt(ty, sh, th);
      var y1 := CutAt(ty + 1, sh, th);
      var tx: u32 := 0;
      while tx < tw
        invariant tx <= tw
        invariant Done(out[..], f, row + tx as nat)
      {
        var mean := Means(src, sw, sh, tw, th, ty, tx, y0, y1);
        PixelNumber(ty, tx, tw, th);
        if mean.Some? {
          WritePixel(out, (ty * tw + tx) as nat, mean.value, f);
        } else {
          SkipPixel(out[..], f, row + tx as nat);
        }
        tx := tx + 1;
      }
      NextRow(ty as int, tw as int);
      row := row + tw as int;
      ty := ty + 1;
    }
    Commutes(th as int, tw as int);
    AllDone(out[..], f, tw as nat * th as nat);
  }

  /** `resample_nearest`, with no overflow either. */
  method ResampleNearest(src: Bytes, sw: u32, sh: u32, tw: u32, th: u32) returns (out: array<u8>)
    requires NearestFits(sw as int, sh as int, tw as int, th as int)
    ensures fresh(out)
    ensures out[..] == FrameBytes(Nearest(src, sw as nat, sh as nat, tw as nat, th as nat), tw as nat * th as nat)
  {
    ghost var f := Nearest(src, sw as nat, sh as nat, tw as nat, th as nat);
    out := new u8[tw as int * th as int * 4](_ => 0);
    hide Done, Cut;
    NothingDone(out[..], f);
    var ty: u32 := 0;
    ghost var row: nat := 0;
    while ty < th
      invariant ty <= th && row == ty as int * tw as int
      invariant Done(out[..], f, row)
    {
      Product(sh as int, ty as int, th as int - 1, U32_LIMIT);
      var sy := ClampedCut(ty, sh, th);
      var tx: u32 := 0;
      while tx < tw
        invariant tx <= tw
        invariant Done(out[..], f, row + tx as nat)
      {
        Product(sw as int, tx as int, tw as int - 1, U32_LIMIT);
        var sx := ClampedCut(tx, sw, tw);
        PixelNumber(ty, tx, tw, th);
        SourceIndex(ty as nat, tx as nat, sw as nat, sh as nat, tw as nat, th as nat);
        var i := (sy * sw + sx) as int;
        if Readable(src, i) {
          WritePixel(out, (ty * tw + tx) as nat, src[i * 4..i * 4 + 4], f);
        } else {
          SkipPixel(out[..], f, row + tx as nat);
        }
        tx := tx + 1;
      }
      NextRow(ty as int, tw as int);
      row := row + tw as int;
      ty := ty + 1;
    }
    Commutes(th as int, tw as int);
    AllDone(out[..], f, tw as nat * th as nat);
  }

  lemma NextRow(y: int, w: int)
    ensures (y + 1) * w == y * w + w
  {
  }

  lemma Commutes(a: int, b: int)
    ensures a * b == b * a
  {
  }

  lemma NothingDone(out: Bytes, f: Frame)
    requires forall i | 0 <= i < |out| :: out[i] == 0
    ensures Done(out, f, 0)
  {
  }

  lemma AllDone(out: Bytes, f: Frame, pixels: nat)
    requires |out| == pixels * 4 && Done(out, f, pixels)
    ensures out == FrameBytes(f, pixels)
  {
  }

  method ClampedCut(t: u32, n: u32, m: u32) returns (at: u32)
    requires t < m && t as int * n as int < U32_LIMIT
    ensures at as int == NearestAt(t as nat, n as nat, m as nat)
  {
    at := CutAt(t, n, m);
    var last := if n == 0 then 0 else n - 1;
    if at > last {
      at := last;
    }
  }

  lemma NearestRises(a: nat, b: nat, n: nat, m: nat)
    requires a <= b && m > 0
    ensures NearestAt(a, n, m) <= NearestAt(b, n, m)
  {
    hide Cut;
    CutsRise(a, b, n, m);
  }

  lemma SourceIndex(ty: nat, tx: nat, sw: nat, sh: nat, tw: nat, th: nat)
    requires ty < th && tx < tw && NearestFits(sw, sh, tw, th)
    ensures 0 <= NearestAt(ty, sh, th) * sw <= NearestAt(ty, sh, th) * sw + NearestAt(tx, sw, tw) < U32_LIMIT
  {
    hide NearestAt;
    NearestRises(ty, th - 1, sh, th);
    NearestRises(tx, tw - 1, sw, tw);
    Scale(sw, NearestAt(ty, sh, th), NearestAt(th - 1, sh, th));
    Commutes(sw, NearestAt(ty, sh, th));
    Commutes(sw, NearestAt(th - 1, sh, th));
    Scale(sw, 0, NearestAt(ty, sh, th));
  }

  /** `resample`: averages when both axes shrink or stay, and takes the nearest pixel otherwise. */
  method Resample(src: Bytes, sw: u32, sh: u32, tw: u32, th: u32) returns (out: array<u8>)
    requires tw <= sw && th <= sh ==> BoxFits(sw as int, sh as int, tw as int, th as int)
    requires !(tw <= sw && th <= sh) ==> NearestFits(sw as int, sh as int, tw as int, th as int)
    ensures fresh(out) && out[..] == Resampled(src, sw as nat, sh as nat, tw as nat, th as nat)
  {
    if tw <= sw && th <= sh {
      out := ResampleBox(src, sw, sh, tw, th);
    } else {
      out := ResampleNearest(src, sw, sh, tw, th);
    }
  }

  function Resampled(src: Bytes, sw: nat, sh: nat, tw: nat, th: nat): Bytes {
    FrameBytes(if tw <= sw && th <= sh then Shrunk(src, sw, sh, tw, th) else Nearest(src, sw, sh, tw, th), tw * th)
  }

  // ----- What a resampled frame is -----

  /** Over a whole frame that shrinks, every output channel is its box's mean rounded down. */
  lemma ShrunkIsTheFloorOfTheMean(src: Bytes, sw: nat, sh: nat, tw: nat, th: nat, p: nat, c: nat)
    requires |src| == sw * sh * 4 && 0 < tw <= sw && 0 < th <= sh && p < tw * th && c < 4
    ensures var b := BoxOf(sw, sh, tw, th, p / tw, p % tw);
      var (area, v) := ((b.y1 - b.y0) * (b.x1 - b.x0), Resampled(src, sw, sh, tw, th)[p * 4 + c] as int);
      area > 0 && area * v <= Over(Channel(src, sw, c), b) < area * (v + 1)
  {
    hide Cut, Over;
    var ty, tx := p / tw, p % tw;
    RowOf(p, tw, th);
    BoxIsFull(src, sw, sh, tw, th, ty, tx);
    var b := BoxOf(sw, sh, tw, th, ty, tx);
    BoxMeanIsFloor(src, sw, c, b);
    assert (p * 4 + c) / 4 == p && (p * 4 + c) % 4 == c;
  }

  lemma BoxMeanIsFloor(src: Bytes, sw: nat, c: nat, b: Box)
    requires c < 4 && Over(Present(src, sw), b) > 0
    ensures var (n, s) := (Over(Present(src, sw), b), Over(Channel(src, sw, c), b));
      n * Mean(s, n) <= s < n * (Mean(s, n) + 1)
  {
    ChannelBounds(src, sw, c);
    TotalBounds(Channel(src, sw, c), Present(src, sw), 255, b.y0, b.y1, b.x0, b.x1);
    MeanBounds(Over(Channel(src, sw, c), b), Over(Present(src, sw), b), 255);
  }

  lemma RowOf(p: nat, tw: nat, th: nat)
    requires 0 < tw && p < tw * th
    ensures p / tw < th
  {
    if p / tw >= th {
      MulMono(tw, th, p / tw);
    }
  }

  /** Resampling to the same size changes nothing. */
  lemma SameSizeUntouched(src: Bytes, sw: nat, sh: nat)
    requires |src| == sw * sh * 4
    ensures Resampled(src, sw, sh, sw, sh) == src
  {
    var f := Shrunk(src, sw, sh, sw, sh);
    forall i | 0 <= i < |src| ensures f(i / 4, i % 4) == src[i] {
      SameByte(src, sw, sh, i / 4, i % 4);
    }
  }

  lemma SameByte(src: Bytes, sw: nat, sh: nat, p: nat, c: nat)
    requires |src| == sw * sh * 4 && p < sw * sh && c < 4
    ensures Shrunk(src, sw, sh, sw, sh)(p, c) == src[p * 4 + c]
  {
    PositiveSides(sw, sh);
    RowOf(p, sw, sh);
    QuotientAndRest(p, sw);
    hide BoxMean, Readable;
    SameSizeIsIdentity(src, sw, sh, p / sw, p % sw, c);
  }

  lemma QuotientAndRest(p: nat, w: nat)
    requires w > 0
    ensures p / w * w + p % w == p
  {
  }

  lemma PositiveSides(sw: nat, sh: nat)
    requires sw * sh > 0
    ensures sw > 0 && sh > 0
  {
  }

  /** On an axis that grows, every source position is some target position's nearest. */
  lemma GrowingKeepsEveryPosition(x: nat, n: nat, m: nat) returns (t: nat)
    requires x < n <= m
    ensures t < m && NearestAt(t, n, m) == x
  {
    t := (x * m + n - 1) / n;
    assert x * m + n - 1 == n * t + (x * m + n - 1) % n;
    MulMono(m, x + 1, n);
    if m <= t {
      MulMono(n, m, t);
    }
    assert t * n == m * x + (t * n - x * m);
    DivUnique(t * n, m, x, t * n - x * m);
  }
}
