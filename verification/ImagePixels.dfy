/** Which pixels of the source a resampled pixel is made of, by the products of positions and sizes alone. */
module ImagePixels {
  import opened Image
  import opened ImageFilters

  /** The source position whose stretch of the enlarged axis holds a target position. */
  ghost predicate LiesUnder(x: nat, n: nat, t: nat, m: nat) {
    x < n && x * m <= t * n < (x + 1) * m
  }

  lemma CutIs(t: nat, n: nat, m: nat, x: nat)
    requires 0 < m
    ensures Cut(t, n, m) == x <==> x * m <= t * n < (x + 1) * m
    ensures Cut(t, n, m) <= x <==> t * n < (x + 1) * m
  {
    var q := Cut(t, n, m);
    assert t * n == m * q + t * n % m;
    assert (q + 1) * m == m * q + m && (x + 1) * m == x * m + m;
    if q < x {
      MulMono(m, q + 1, x);
    } else {
      MulMono(m, x, q);
      if q > x {
        MulMono(m, x + 1, q);
      }
    }
  }

  lemma NearestIs(t: nat, n: nat, m: nat) returns (x: nat)
    requires t < m && 0 < n
    ensures LiesUnder(x, n, t, m) && NearestAt(t, n, m) == x
  {
    hide Cut;
    x := Cut(t, n, m);
    CutIs(t, n, m, x);
    MulMono(n, t + 1, m);
    assert t * n < m * n;
    CutIs(t, n, m, n - 1);
  }

  lemma PixelOf(ty: nat, tx: nat, tw: nat, th: nat)
    requires ty < th && tx < tw
    ensures var p := ty * tw + tx; p < tw * th && p / tw == ty && p % tw == tx
  {
    PixelIndex(ty, tx, tw, th);
    DivUnique(ty * tw + tx, tw, ty, tx);
  }

  lemma ByteOf(p: nat, c: nat)
    requires c < 4
    ensures (p * 4 + c) / 4 == p && (p * 4 + c) % 4 == c
  {
  }

  /** Where a channel of a pixel lies in a frame `w` wide. */
  function ByteAt(w: nat, y: nat, x: nat, c: nat): nat {
    (y * w + x) * 4 + c
  }

  ghost predicate SameByte(out: Bytes, o: nat, src: Bytes, i: nat) {
    o < |out| && i < |src| && out[o] == src[i]
  }

  lemma CopiedByte(src: Bytes, f: Frame, pixels: nat, p: nat, i: nat, c: nat)
    requires p < pixels && c < 4 && Readable(src, i) && f(p, c) == src[i * 4 + c]
    ensures SameByte(FrameBytes(f, pixels), p * 4 + c, src, i * 4 + c)
  {
    ByteOf(p, c);
  }

  /** A frame that grows on either axis is copied pixel by pixel: each channel of each target pixel is that of the one
      source pixel whose row and whose column, stretched to the target, hold it. */
  lemma GrownPixel(src: Bytes, sw: nat, sh: nat, tw: nat, th: nat, ty: nat, tx: nat, c: nat) returns (y: nat, x: nat)
    requires |src| == sw * sh * 4 > 0 && !(tw <= sw && th <= sh) && ty < th && tx < tw && c < 4
    ensures LiesUnder(y, sh, ty, th) && LiesUnder(x, sw, tx, tw)
    ensures SameByte(Resampled(src, sw, sh, tw, th), ByteAt(tw, ty, tx, c), src, ByteAt(sw, y, x, c))
  {
    PositiveSides(sw, sh);
    y := NearestIs(ty, sh, th);
    x := NearestIs(tx, sw, tw);
    PixelOf(ty, tx, tw, th);
    IsReadable(src, sw, sh, y, x);
    hide NearestAt, Shrunk, SameByte, LiesUnder;
    CopiedByte(src, Nearest(src, sw, sh, tw, th), tw * th, ty * tw + tx, y * sw + x, c);
  }

  /** No other source pixel lies under it. */
  lemma OneLiesUnder(x: nat, y: nat, n: nat, t: nat, m: nat)
    requires LiesUnder(x, n, t, m) && LiesUnder(y, n, t, m)
    ensures x == y
  {
    if x < y {
      MulMono(m, x + 1, y);
    } else if y < x {
      MulMono(m, y + 1, x);
    }
  }

  /** A frame that shrinks is averaged over boxes: a source pixel is in the box of a target pixel exactly when, on each
      axis, its far edge lies past the target's near edge and not past its far one. */
  lemma BoxMembers(sw: nat, sh: nat, tw: nat, th: nat, ty: nat, tx: nat, y: nat, x: nat)
    requires 0 < tw && 0 < th
    ensures var b := BoxOf(sw, sh, tw, th, ty, tx);
      b.y0 <= y < b.y1 && b.x0 <= x < b.x1 <==>
      ty * sh < (y + 1) * th <= (ty + 1) * sh && tx * sw < (x + 1) * tw <= (tx + 1) * sw
  {
    hide Cut;
    CutIs(ty, sh, th, y);
    CutIs(ty + 1, sh, th, y);
    CutIs(tx, sw, tw, x);
    CutIs(tx + 1, sw, tw, x);
  }
}
