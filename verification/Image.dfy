/** Resampling an RGBA frame: averaging when it shrinks, the nearest pixel otherwise. */
module Image {
  import opened Machine

  type Bytes = seq<u8>

  // ----- Sums over a rectangle of the source -----

  function RowTotal(f: (int, int) -> int, y: int, x0: int, x1: int): int
    decreases x1 - x0
  {
    if x1 <= x0 then 0 else RowTotal(f, y, x0, x1 - 1) + f(y, x1 - 1)
  }

  function Total(f: (int, int) -> int, y0: int, y1: int, x0: int, x1: int): int
    decreases y1 - y0
  {
    if y1 <= y0 then 0 else Total(f, y0, y1 - 1, x0, x1) + RowTotal(f, y1 - 1, x0, x1)
  }

  // ----- Spans -----

  /** Where the source span of target position `t` begins, on an axis of `n` source and `m` target pixels. */
  function Cut(t: nat, n: nat, m: nat): nat
    requires m > 0
  {
    t * n / m
  }

  lemma DivSteps(a: nat, b: nat, m: nat)
    requires m > 0
    ensures a + m <= b ==> a / m < b / m
    ensures a <= b ==> a / m <= b / m
  {
    var p, q := a / m, b / m;
    assert a == m * p + a % m && b == m * q + b % m;
    if q < p {
      MulMono(m, q + 1, p);
    } else if q == p {
    }
  }

  lemma MulMono(k: nat, a: nat, b: nat)
    requires a <= b
    ensures k * a <= k * b && a * k <= b * k
  {
  }

  /** Spans begin at the first source pixel, end at the last, follow one another, and none is empty when
      the axis does not grow. */
  lemma Spans(t: nat, n: nat, m: nat)
    requires 0 < m && t < m
    ensures Cut(0, n, m) == 0 && Cut(m, n, m) == n
    ensures Cut(t, n, m) <= Cut(t + 1, n, m) <= n
    ensures m <= n ==> Cut(t, n, m) < Cut(t + 1, n, m)
  {
    assert (t + 1) * n == t * n + n;
    DivSteps(t * n, (t + 1) * n, m);
    MulMono(n, t + 1, m);
    DivSteps((t + 1) * n, m * n, m);
    ExactDiv(n, m);
  }

  lemma ExactDiv(n: nat, m: nat)
    requires m > 0
    ensures m * n / m == n
  {
    DivUnique(m * n, m, n, 0);
  }

  lemma DivUnique(p: nat, m: nat, q: nat, r: nat)
    requires p == m * q + r && r < m
    ensures p / m == q && p % m == r
  {
    var d := p / m;
    assert p == m * d + p % m;
    if d < q {
      MulMono(m, d + 1, q);
    } else if q < d {
      MulMono(m, q + 1, d);
    }
  }

  /** Every source position lies in exactly one span. */
  lemma InOneSpan(x: nat, n: nat, m: nat) returns (t: nat)
    requires 0 < m && x < n
    ensures t < m && Cut(t, n, m) <= x < Cut(t + 1, n, m)
    ensures forall u: nat | u < m && Cut(u, n, m) <= x < Cut(u + 1, n, m) :: u == t
  {
    t := 0;
    Spans(0, n, m);
    while Cut(t + 1, n, m) <= x
      invariant t < m && Cut(t, n, m) <= x
      decreases m - t
    {
      t := t + 1;
    }
    forall u: nat | u < m && Cut(u, n, m) <= x < Cut(u + 1, n, m) ensures u == t {
      if u < t {
        CutsRise(u + 1, t, n, m);
      } else if t < u {
        CutsRise(t + 1, u, n, m);
      }
    }
  }

  lemma CutsRise(a: nat, b: nat, n: nat, m: nat)
    requires a <= b && m > 0
    ensures Cut(a, n, m) <= Cut(b, n, m)
  {
    MulMono(n, a, b);
    DivSteps(a * n, b * n, m);
  }

  // ----- The boxes count every source pixel once -----

  /** The sum, over the spans of target positions below `tx`, of a band of rows. */
  function BandTotal(f: (int, int) -> int, y0: int, y1: int, tx: nat, sw: nat, tw: nat): int
    requires tw > 0
  {
    if tx == 0 then 0
    else BandTotal(f, y0, y1, tx - 1, sw, tw) + Total(f, y0, y1, Cut(tx - 1, sw, tw), Cut(tx, sw, tw))
  }

  /** The sum over all boxes of the target rows below `ty`. */
  function BoxesTotal(f: (int, int) -> int, ty: nat, sw: nat, sh: nat, tw: nat, th: nat): int
    requires tw > 0 && th > 0
  {
    if ty == 0 then 0
    else BoxesTotal(f, ty - 1, sw, sh, tw, th) + BandTotal(f, Cut(ty - 1, sh, th), Cut(ty, sh, th), tw, sw, tw)
  }

  lemma {:induction false} RowSplits(f: (int, int) -> int, y: int, a: int, b: int, c: int)
    requires a <= b <= c
    ensures RowTotal(f, y, a, c) == RowTotal(f, y, a, b) + RowTotal(f, y, b, c)
    decreases c - b
  {
    if b < c {
      RowSplits(f, y, a, b, c - 1);
    }
  }

  lemma {:induction false} TotalSplitsAcross(f: (int, int) -> int, y0: int, y1: int, a: int, b: int, c: int)
    requires a <= b <= c
    ensures Total(f, y0, y1, a, c) == Total(f, y0, y1, a, b) + Total(f, y0, y1, b, c)
    decreases y1 - y0
  {
    if y0 < y1 {
      TotalSplitsAcross(f, y0, y1 - 1, a, b, c);
      RowSplits(f, y1 - 1, a, b, c);
    }
  }

  lemma {:induction false} TotalSplitsDown(f: (int, int) -> int, a: int, b: int, c: int, x0: int, x1: int)
    requires a <= b <= c
    ensures Total(f, a, c, x0, x1) == Total(f, a, b, x0, x1) + Total(f, b, c, x0, x1)
    decreases c - b
  {
    if b < c {
      TotalSplitsDown(f, a, b, c - 1, x0, x1);
    }
  }

  lemma {:induction false} BandIsWhole(f: (int, int) -> int, y0: int, y1: int, tx: nat, sw: nat, tw: nat)
    requires tw > 0
    ensures BandTotal(f, y0, y1, tx, sw, tw) == Total(f, y0, y1, 0, Cut(tx, sw, tw))
  {
    hide Cut;
    if tx == 0 {
      Spans(0, sw, tw);
      NothingAcross(f, y0, y1, 0);
    } else {
      BandIsWhole(f, y0, y1, tx - 1, sw, tw);
      CutsRise(tx - 1, tx, sw, tw);
      TotalSplitsAcross(f, y0, y1, 0, Cut(tx - 1, sw, tw), Cut(tx, sw, tw));
    }
  }

  lemma {:induction false} NothingAcross(f: (int, int) -> int, y0: int, y1: int, x: int)
    ensures Total(f, y0, y1, x, x) == 0
    decreases y1 - y0
  {
    if y0 < y1 {
      NothingAcross(f, y0, y1 - 1, x);
    }
  }

  /** Summed over all boxes, anything measured per source pixel gives its sum over the whole source: no
      pixel is missed and none is counted twice. */
  lemma BoxesCountEveryPixelOnce(f: (int, int) -> int, ty: nat, sw: nat, sh: nat, tw: nat, th: nat)
    requires 0 < tw && 0 < th && ty <= th
    ensures BoxesTotal(f, ty, sw, sh, tw, th) == Total(f, 0, Cut(ty, sh, th), 0, sw)
    ensures BoxesTotal(f, th, sw, sh, tw, th) == Total(f, 0, sh, 0, sw)
  {
    hide Cut;
    Spans(0, sh, th);
    Spans(0, sw, tw);
    BoxesUpTo(f, ty, sw, sh, tw, th);
    BoxesUpTo(f, th, sw, sh, tw, th);
  }

  lemma {:induction false} BoxesUpTo(f: (int, int) -> int, ty: nat, sw: nat, sh: nat, tw: nat, th: nat)
    requires 0 < tw && 0 < th
    ensures BoxesTotal(f, ty, sw, sh, tw, th) == Total(f, 0, Cut(ty, sh, th), 0, sw)
  {
    hide Cut;
    Spans(0, sh, th);
    Spans(0, sw, tw);
    if ty > 0 {
      BoxesUpTo(f, ty - 1, sw, sh, tw, th);
      CutsRise(ty - 1, ty, sh, th);
      BandIsWhole(f, Cut(ty - 1, sh, th), Cut(ty, sh, th), tw, sw, tw);
      TotalSplitsDown(f, 0, Cut(ty - 1, sh, th), Cut(ty, sh, th), 0, sw);
    }
  }

  // ----- What the filters compute -----

  /** The four bytes of the pixel at `i`, when the buffer holds them. */
  predicate Readable(src: Bytes, i: int) {
    0 <= i && i * 4 + 4 <= |src|
  }

  /** A channel of a source pixel, nothing for one past the end of a short buffer. */
  function Channel(src: Bytes, sw: int, c: int): (int, int) -> int
    requires 0 <= c < 4
  {
    (y, x) => if Readable(src, y * sw + x) then src[(y * sw + x) * 4 + c] as int else 0
  }

  function Present(src: Bytes, sw: int): (int, int) -> int {
    (y, x) => if Readable(src, y * sw + x) then 1 else 0
  }

  /** A mean rounded down, black for a box with no readable pixel. */
  function Mean(sum: int, count: int): int {
    if count > 0 then sum / count else 0
  }

  /** The rows and columns of the source under one target pixel. */
  datatype Box = Box(y0: nat, y1: nat, x0: nat, x1: nat)

  function BoxOf(sw: nat, sh: nat, tw: nat, th: nat, ty: nat, tx: nat): Box
    requires 0 < tw && 0 < th
  {
    Box(Cut(ty, sh, th), Cut(ty + 1, sh, th), Cut(tx, sw, tw), Cut(tx + 1, sw, tw))
  }

  function Over(f: (int, int) -> int, b: Box): int {
    Total(f, b.y0, b.y1, b.x0, b.x1)
  }

  /** Channel `c` of the mean of the box under target pixel (`tx`, `ty`). */
  function BoxMean(src: Bytes, sw: nat, sh: nat, tw: nat, th: nat, ty: nat, tx: nat, c: int): int
    requires 0 < tw && 0 < th && 0 <= c < 4
  {
    var b := BoxOf(sw, sh, tw, th, ty, tx);
    Mean(Over(Channel(src, sw, c), b), Over(Present(src, sw), b))
  }

  lemma {:induction false} RowBounds(f: (int, int) -> int, g: (int, int) -> int, k: int, y: int, x0: int, x1: int)
    requires forall x :: x0 <= x < x1 ==> 0 <= f(y, x) <= k * g(y, x)
    ensures 0 <= RowTotal(f, y, x0, x1) <= k * RowTotal(g, y, x0, x1)
    decreases x1 - x0
  {
    if x0 < x1 {
      RowBounds(f, g, k, y, x0, x1 - 1);
      assert 0 <= f(y, x1 - 1) <= k * g(y, x1 - 1);
    }
  }

  lemma {:induction false} TotalBounds(f: (int, int) -> int, g: (int, int) -> int, k: int, y0: int, y1: int, x0: int, x1: int)
    requires forall y, x :: y0 <= y < y1 && x0 <= x < x1 ==> 0 <= f(y, x) <= k * g(y, x)
    ensures 0 <= Total(f, y0, y1, x0, x1) <= k * Total(g, y0, y1, x0, x1)
    decreases y1 - y0
  {
    if y0 < y1 {
      TotalBounds(f, g, k, y0, y1 - 1, x0, x1);
      RowBounds(f, g, k, y1 - 1, x0, x1);
    }
  }

  lemma MeanBounds(sum: int, count: int, k: nat)
    requires 0 <= sum <= k * count
    ensures 0 <= Mean(sum, count) <= k
    ensures count > 0 ==> count * Mean(sum, count) <= sum < count * (Mean(sum, count) + 1)
  {
    if count > 0 {
      var q := sum / count;
      assert sum == count * q + sum % count;
      if q > k {
        MulMono(count, k + 1, q);
      }
    }
  }

  lemma ChannelBounds(src: Bytes, sw: int, c: int)
    requires 0 <= c < 4
    ensures forall y, x :: 0 <= Channel(src, sw, c)(y, x) <= 255 * Present(src, sw)(y, x)
  {
    forall y, x ensures 0 <= Channel(src, sw, c)(y, x) <= 255 * Present(src, sw)(y, x) {
      var i := y * sw + x;
      if Readable(src, i) {
        var v := src[i * 4 + c];
        assert 0 <= v as int <= 255;
      }
    }
  }

  /** A mean fits the byte it is stored in. */
  lemma BoxMeanIsAByte(src: Bytes, sw: nat, sh: nat, tw: nat, th: nat, ty: nat, tx: nat, c: int)
    requires 0 < tw && 0 < th && 0 <= c < 4
    ensures 0 <= BoxMean(src, sw, sh, tw, th, ty, tx, c) <= 255
  {
    var b := BoxOf(sw, sh, tw, th, ty, tx);
    ChannelBounds(src, sw, c);
    TotalBounds(Channel(src, sw, c), Present(src, sw), 255, b.y0, b.y1, b.x0, b.x1);
    MeanBounds(Over(Channel(src, sw, c), b), Over(Present(src, sw), b), 255);
  }

  lemma {:induction false} RowOfOnes(f: (int, int) -> int, y: int, x0: int, x1: int)
    requires x0 <= x1 && forall x :: x0 <= x < x1 ==> f(y, x) == 1
    ensures RowTotal(f, y, x0, x1) == x1 - x0
    decreases x1 - x0
  {
    if x0 < x1 {
      RowOfOnes(f, y, x0, x1 - 1);
      assert f(y, x1 - 1) == 1;
    }
  }

  lemma {:induction false} TotalOfOnes(f: (int, int) -> int, y0: int, y1: int, x0: int, x1: int)
    requires y0 <= y1 && x0 <= x1 && forall y, x :: y0 <= y < y1 && x0 <= x < x1 ==> f(y, x) == 1
    ensures Total(f, y0, y1, x0, x1) == (y1 - y0) * (x1 - x0)
    decreases y1 - y0
  {
    if y0 < y1 {
      TotalOfOnes(f, y0, y1 - 1, x0, x1);
      RowOfOnes(f, y1 - 1, x0, x1);
      assert (y1 - y0) * (x1 - x0) == (y1 - 1 - y0) * (x1 - x0) + (x1 - x0);
    }
  }

  lemma PixelIndex(y: nat, x: nat, sw: nat, sh: nat)
    requires y < sh && x < sw
    ensures 0 <= y * sw + x < sw * sh
  {
    MulMono(sw, y + 1, sh);
  }

  /** Over a whole frame no box is empty: a shrinking target always averages real pixels. */
  lemma BoxIsFull(src: Bytes, sw: nat, sh: nat, tw: nat, th: nat, ty: nat, tx: nat)
    requires |src| == sw * sh * 4 && 0 < tw <= sw && 0 < th <= sh && ty < th && tx < tw
    ensures var b := BoxOf(sw, sh, tw, th, ty, tx);
      Over(Present(src, sw), b) == (b.y1 - b.y0) * (b.x1 - b.x0) > 0
  {
    hide Cut;
    Spans(ty, sh, th);
    Spans(tx, sw, tw);
    var b := BoxOf(sw, sh, tw, th, ty, tx);
    AllPresent(src, sw, sh);
    TotalOfOnes(Present(src, sw), b.y0, b.y1, b.x0, b.x1);
    MulMono(b.y1 - b.y0, 1, b.x1 - b.x0);
  }

  lemma AllPresent(src: Bytes, sw: nat, sh: nat)
    requires |src| == sw * sh * 4
    ensures forall y, x :: 0 <= y < sh && 0 <= x < sw ==> Present(src, sw)(y, x) == 1
  {
    forall y, x | 0 <= y < sh && 0 <= x < sw ensures Present(src, sw)(y, x) == 1 {
      IsReadable(src, sw, sh, y, x);
    }
  }

  lemma IsReadable(src: Bytes, sw: nat, sh: nat, y: nat, x: nat)
    requires |src| == sw * sh * 4 && y < sh && x < sw
    ensures Readable(src, y * sw + x)
  {
    PixelIndex(y, x, sw, sh);
    var i, n := y * sw + x, sw * sh;
    assert i * 4 + 4 <= n * 4;
  }

  /** When nothing shrinks, every box is one pixel and its mean is that pixel. */
  lemma SameSizeIsIdentity(src: Bytes, sw: nat, sh: nat, ty: nat, tx: nat, c: int)
    requires |src| == sw * sh * 4 && ty < sh && tx < sw && 0 <= c < 4
    ensures Readable(src, ty * sw + tx)
    ensures BoxMean(src, sw, sh, sw, sh, ty, tx, c) == src[(ty * sw + tx) * 4 + c] as int
  {
    hide Cut;
    CutSame(ty, sh);
    CutSame(ty + 1, sh);
    CutSame(tx, sw);
    CutSame(tx + 1, sw);
    IsReadable(src, sw, sh, ty, tx);
    OnePixel(Channel(src, sw, c), ty, tx);
    OnePixel(Present(src, sw), ty, tx);
  }

  lemma CutSame(t: nat, n: nat)
    requires n > 0
    ensures Cut(t, n, n) == t
  {
    DivUnique(t * n, n, t, 0);
  }

  lemma OnePixel(f: (int, int) -> int, y: int, x: int)
    ensures Total(f, y, y + 1, x, x + 1) == f(y, x)
  {
    assert RowTotal(f, y, x, x) == 0;
    assert RowTotal(f, y, x, x + 1) == f(y, x);
    assert Total(f, y, y, x, x + 1) == 0;
  }
}
