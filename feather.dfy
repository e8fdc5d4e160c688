/**
 * The bottom feather: the lowest rows of the portrait fade out linearly, so
 * the figure dissolves into the card instead of ending in a hard edge. Rows
 * from `round(0.78 * height)` down are scaled, the first of them by 1 and the
 * last by 0; only alpha bytes are written and transparent pixels are skipped.
 *
 * The source scales with floating point; here the scale factor is the exact
 * rational (D - k) / D and `Math.round` is half-up rounding of that product.
 */
module Feather {
  import opened Raster

  /** First faded row: `Math.round(height * 0.78)`. */
  function FeatherStart(h: nat): (s: nat)
    ensures s <= h
    ensures h >= 3 ==> s < h
  {
    RoundPercent(h, 78)
  }

  /** The divisor `max(1, featherEnd - featherStart)`, where the last row is `featherEnd = h - 1`. */
  function FeatherSpan(h: nat): (d: nat)
    ensures d >= 1
    ensures FeatherStart(h) < h ==> d >= h - 1 - FeatherStart(h)
  {
    var span := h - 1 - FeatherStart(h);
    if span < 1 then 1 else span
  }

  /**
   * The alpha of a pixel in row `y` after feathering. Above the band, and for
   * transparent pixels, it is the input alpha; inside the band it is the
   * input alpha times (D - k) / D rounded half-up, where k counts rows from the
   * band's first row.
   */
  function FeatherAlpha(a: byte, h: nat, y: nat): (r: byte)
    requires y < h
    ensures r <= a
    ensures FeatherStart(h) <= y && a != 0 ==>
      var d, k := FeatherSpan(h), y - FeatherStart(h);
      2 * d * r - d <= 2 * a * (d - k) < 2 * d * r + d
  {
    if y < FeatherStart(h) || a == 0 then a
    else
      var d, k := FeatherSpan(h), y - FeatherStart(h);
      ScaledAlpha(a, d, k)
  }

  /** `round(a * (d - k) / d)` for 0 <= k <= d, as an exact integer. */
  function ScaledAlpha(a: byte, d: nat, k: nat): (r: byte)
    requires d >= 1 && k <= d
    ensures r <= a
    ensures 2 * d * r - d <= 2 * a * (d - k) < 2 * d * r + d
  {
    ScaledAlphaBounds(a, d, k);
    (2 * a * (d - k) + d) / (2 * d)
  }

  lemma ScaledAlphaBounds(a: nat, d: nat, k: nat)
    requires d >= 1 && k <= d
    ensures var r := (2 * a * (d - k) + d) / (2 * d);
      && 0 <= r <= a
      && 2 * d * r - d <= 2 * a * (d - k) < 2 * d * r + d
  {
    var m := 2 * d;
    var p := 2 * a * (d - k);
    DivBracket(p + d, m);
    assert p <= 2 * a * d by {
      MulMonotone(d - k, d, 2 * a);
    }
    assert m * (a + 1) == 2 * a * d + m;
    QuotientAtMost(p + d, m, a);
  }

  lemma QuotientAtMost(n: int, m: int, a: int)
    requires m > 0 && 0 <= n < m * (a + 1)
    ensures 0 <= n / m <= a
  {
    DivBracket(n, m);
    if n / m > a {
      MulMonotone(a + 1, n / m, m);
    }
  }

  /** Byte `i` of the feathered buffer. */
  function FeatheredByte(px: seq<byte>, w: nat, h: nat, i: int): byte
    requires |px| == w * h * 4 && 0 <= i < |px|
  {
    if i % 4 == AlphaOffset then FeatherAlpha(px[i], h, Row(w, h, i / 4)) else px[i]
  }

  /**
   * The whole feathered buffer. Colour bytes are kept, no alpha grows, and a
   * transparent pixel stays transparent.
   */
  function Feathered(px: seq<byte>, w: nat, h: nat): (r: seq<byte>)
    requires |px| == w * h * 4
    ensures |r| == |px|
    ensures forall i :: 0 <= i < |px| && i % 4 != AlphaOffset ==> r[i] == px[i]
    ensures forall i :: 0 <= i < |px| ==> r[i] <= px[i]
    ensures forall i :: 0 <= i < |px| && px[i] == 0 ==> r[i] == 0
  {
    seq(|px|, i requires 0 <= i < |px| => FeatheredByte(px, w, h, i))
  }

  /** The first `n` pixels of `pixels` are feathered from `px`; the rest still hold `px`. */
  ghost predicate FeatheredUpTo(pixels: array<byte>, px: seq<byte>, w: nat, h: nat, n: int)
    requires |px| == w * h * 4
    reads pixels
  {
    && pixels.Length == |px|
    && forall i :: 0 <= i < |px| ==> pixels[i] == if i / 4 < n then FeatheredByte(px, w, h, i) else px[i]
  }

  /** Nothing is feathered yet, but nothing above the band needs to be. */
  lemma UntouchedAboveBand(pixels: array<byte>, px: seq<byte>, w: nat, h: nat)
    requires |px| == w * h * 4 && pixels[..] == px
    ensures FeatheredUpTo(pixels, px, w, h, FeatherStart(h) * w)
  {
    forall i | 0 <= i < |px| && i / 4 < FeatherStart(h) * w
      ensures FeatheredByte(px, w, h, i) == px[i]
    {
      RowBefore(w, h, i / 4, FeatherStart(h));
    }
  }

  /** Once every row is done the buffer is the feathered one. */
  lemma AllRowsFeathered(pixels: array<byte>, px: seq<byte>, w: nat, h: nat)
    requires |px| == w * h * 4 && FeatheredUpTo(pixels, px, w, h, h * w)
    ensures pixels[..] == Feathered(px, w, h)
  {
    forall i | 0 <= i < |px| ensures pixels[i] == Feathered(px, w, h)[i] {
      assert i / 4 < w * h;
    }
  }

  /**
   * Fade the bottom rows of a decoded RGBA buffer in place, one row at a time
   * from `featherStart` to the last row.
   */
  method ApplyBottomFeather(pixels: array<byte>, w: nat, h: nat)
    requires pixels.Length == w * h * 4
    modifies pixels
    ensures pixels[..] == Feathered(old(pixels[..]), w, h)
  {
    ghost var px := pixels[..];
    var featherStart := RoundPercent(h, 78);
    var featherEnd := h - 1;
    UntouchedAboveBand(pixels, px, w, h);
    for y := featherStart to h
      invariant FeatheredUpTo(pixels, px, w, h, y * w)
    {
      var span := if featherEnd - featherStart < 1 then 1 else featherEnd - featherStart;
      FadeRow(pixels, w, h, y, span, y - featherStart, px);
    }
    AllRowsFeathered(pixels, px, w, h);
  }

  /** One pass of the row loop: scale every visible pixel of row `y`. */
  method FadeRow(pixels: array<byte>, w: nat, h: nat, y: nat, span: nat, k: nat, ghost px: seq<byte>)
    requires |px| == w * h * 4 && y < h
    requires FeatheredUpTo(pixels, px, w, h, y * w)
    requires span == FeatherSpan(h) && k == y - FeatherStart(h) && FeatherStart(h) <= y
    modifies pixels
    ensures FeatheredUpTo(pixels, px, w, h, (y + 1) * w)
  {
    ghost var rowStart := y * w;
    for x := 0 to w
      invariant FeatheredUpTo(pixels, px, w, h, rowStart + x)
    {
      FadePixel(pixels, w, h, x, y, span, k, px);
    }
    assert (y + 1) * w == rowStart + w;
  }

  /** One step of the row loop: scale the alpha of pixel (x, y) unless it is transparent. */
  method FadePixel(pixels: array<byte>, w: nat, h: nat, x: nat, y: nat, span: nat, k: nat, ghost px: seq<byte>)
    requires |px| == w * h * 4 && InGrid(w, h, x, y)
    requires FeatheredUpTo(pixels, px, w, h, Idx(w, h, x, y))
    requires span == FeatherSpan(h) && k == y - FeatherStart(h) && FeatherStart(h) <= y
    modifies pixels
    ensures FeatheredUpTo(pixels, px, w, h, Idx(w, h, x, y) + 1)
  {
    var id := Idx(w, h, x, y);
    var idx := id * 4;
    var a := pixels[idx + 3];
    assert Row(w, h, id) == y && (idx + 3) / 4 == id;
    if a != 0 {
      pixels[idx + 3] := ScaledAlpha(a, span, k);
    }
  }

  // ---------------------------------------------------------------------------
  // What the feather promises
  // ---------------------------------------------------------------------------

  /** Every pixel above the band keeps its alpha. */
  lemma RowsAboveBandKept(px: seq<byte>, w: nat, h: nat, i: int)
    requires |px| == w * h * 4 && 0 <= i < |px| && i / 4 < FeatherStart(h) * w
    ensures Feathered(px, w, h)[i] == px[i]
  {
    RowBefore(w, h, i / 4, FeatherStart(h));
  }

  /** The band's first row is scaled by exactly 1. */
  lemma {:induction false} FirstBandRowKept(a: byte, h: nat)
    requires FeatherStart(h) < h
    ensures FeatherAlpha(a, h, FeatherStart(h)) == a
  {
    if a != 0 {
      var d := FeatherSpan(h);
      DivUnique(2 * a * d + d, 2 * d, a, d);
    }
  }

  /** Once the band is more than one row deep, the last row becomes fully transparent. */
  lemma {:induction false} LastRowCleared(a: byte, h: nat)
    requires FeatherStart(h) < h - 1
    ensures FeatherAlpha(a, h, h - 1) == 0
  {
    if a != 0 {
      var d := FeatherSpan(h);
      assert d == h - 1 - FeatherStart(h);
      DivUnique(d, 2 * d, 0, d);
    }
  }

  /**
   * For heights 3 to 6 the band is the last row alone: it is scaled by 1, so
   * the bottom edge keeps its alpha instead of fading out.
   */
  lemma SingleRowBandKept(a: byte, h: nat)
    requires 3 <= h <= 6
    ensures FeatherStart(h) == h - 1
    ensures FeatherAlpha(a, h, h - 1) == a
  {
    FirstBandRowKept(a, h);
  }

  /** For one input alpha, going down the band never makes a pixel more opaque. */
  lemma {:induction false} FeatherMonotone(a: byte, h: nat, y1: nat, y2: nat)
    requires y1 <= y2 < h
    ensures FeatherAlpha(a, h, y2) <= FeatherAlpha(a, h, y1)
  {
    var s := FeatherStart(h);
    if y1 >= s && a != 0 {
      var d := FeatherSpan(h);
      ScaledAlphaMonotone(a, d, y1 - s, y2 - s);
    }
  }

  /** A later row of the band is scaled by a smaller factor. */
  lemma ScaledAlphaMonotone(a: byte, d: nat, k1: nat, k2: nat)
    requires d >= 1 && k1 <= k2 <= d
    ensures ScaledAlpha(a, d, k2) <= ScaledAlpha(a, d, k1)
  {
    var m1, m2 := d - k1, d - k2;
    MulMonotone(m2, m1, 2 * a);
    DivMonotone(2 * a * m2 + d, 2 * a * m1 + d, 2 * d);
  }

  lemma DivMonotone(m: int, n: int, d: int)
    requires m <= n && d > 0
    ensures m / d <= n / d
  {
    if m / d > n / d {
      MulMonotone(n / d + 1, m / d, d);
    }
  }

  /** Every pixel of the last row ends transparent when the band is more than one row deep. */
  lemma LastRowTransparent(px: seq<byte>, w: nat, h: nat, x: int)
    requires |px| == w * h * 4 && 0 <= x < w && FeatherStart(h) < h - 1
    ensures 4 * Idx(w, h, x, h - 1) + 3 < |px|
    ensures Feathered(px, w, h)[4 * Idx(w, h, x, h - 1) + 3] == 0
  {
    var p := Idx(w, h, x, h - 1);
    var n := w * h;
    assert p < n && |px| == 4 * n;
    var i := 4 * p + 3;
    assert i % 4 == 3 && i / 4 == p;
    assert Row(w, h, p) == h - 1;
    LastRowCleared(px[i], h);
    assert Feathered(px, w, h)[i] == FeatheredByte(px, w, h, i);
  }

}
