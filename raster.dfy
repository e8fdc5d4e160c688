/**
 * Raw raster conventions shared by the pixel stages: a decoded image is a flat
 * byte buffer of `width * height` pixels, four bytes (R, G, B, A) per pixel,
 * rows stored top to bottom; pixel (x, y) has index `y * width + x`.
 */
module Raster {

  /** One unsigned 8-bit sample, as held by a Uint8Array. */
  type byte = x: int | 0 <= x < 256

  /** Every decoded buffer carries an alpha channel, so four channels per pixel. */
  const Channels: nat := 4

  /** Offset of the alpha sample inside a pixel. */
  const AlphaOffset: nat := 3

  /** A decoded RGBA raster together with its dimensions. */
  datatype Image = Image(width: nat, height: nat, data: seq<byte>)
  {
    ghost predicate Valid() {
      |data| == width * height * Channels
    }
  }

  /** A value that may be missing, or an image-library step that may fail. */
  datatype Option<T> = None | Some(value: T)

  /** A grid cell (x, y). */
  type Cell = (int, int)

  predicate InGrid(w: int, h: int, x: int, y: int) {
    0 <= x < w && 0 <= y < h
  }

  /**
   * Row-major index of a cell. Distinct cells get distinct indices, since the
   * row and column can be read back from the index.
   */
  function Idx(w: int, h: int, x: int, y: int): (i: int)
    requires InGrid(w, h, x, y)
    ensures 0 <= i < w * h
    ensures i / w == y && i % w == x
  {
    RowMajor(w, h, x, y);
    y * w + x
  }

  /** The row holding pixel `p`; a `w`-wide image with `p` pixels before it has a row to hold it. */
  function Row(w: nat, h: nat, p: int): (y: nat)
    requires 0 <= p < w * h
    ensures w > 0 && y < h
    ensures y * w <= p < y * w + w
  {
    IdxOfIndex(w, h, p);
    p / w
  }

  /** A pixel that comes before row `s` lies in a row above `s`. */
  lemma RowBefore(w: nat, h: nat, p: int, s: int)
    requires 0 <= p < w * h && p < s * w
    ensures Row(w, h, p) < s
  {
    var y := Row(w, h, p);
    if y >= s {
      MulMonotone(s, y, w);
    }
  }

  /** A pixel at or after the start of row `s` lies in row `s` or below. */
  lemma RowAfter(w: nat, h: nat, p: int, s: int)
    requires 0 <= p < w * h && s * w <= p
    ensures s <= Row(w, h, p)
  {
    var y := Row(w, h, p);
    if y < s {
      MulMonotone(y + 1, s, w);
    }
  }

  /**
   * `Math.round(n * p / 100)` for a whole `n` and a whole percentage `p`:
   * the nearest integer to n·p/100, halves rounded up.
   */
  function RoundPercent(n: nat, p: nat): (r: nat)
    ensures 100 * r - 50 <= p * n < 100 * r + 50
  {
    (p * n + 50) / 100
  }

  /** Rounding a larger share of the same whole never gives less. */
  lemma RoundPercentMonotone(n: nat, p: nat, q: nat)
    requires p <= q
    ensures RoundPercent(n, p) <= RoundPercent(n, q)
  {
    MulMonotone(p, q, n);
  }

  /** Row and column of a pixel index, the inverse of `Idx`. */
  lemma IdxOfIndex(w: nat, h: nat, i: int)
    requires 0 <= i < w * h
    ensures w > 0 && InGrid(w, h, i % w, i / w) && Idx(w, h, i % w, i / w) == i
  {
    assert w != 0;
    var x, y := i % w, i / w;
    assert i == y * w + x;
    if y >= h {
      MulMonotone(h, y, w);
      assert false;
    }
  }

  lemma RowMajor(w: int, h: int, x: int, y: int)
    requires InGrid(w, h, x, y)
    ensures 0 <= y * w + x < w * h
    ensures (y * w + x) / w == y && (y * w + x) % w == x
  {
    MulMonotone(y, h - 1, w);
    assert (h - 1) * w == h * w - w;
    DivUnique(y * w + x, w, y, x);
  }

  /** The quotient brackets the dividend. */
  lemma DivBracket(n: int, m: int)
    requires m > 0
    ensures m * (n / m) <= n < m * (n / m) + m
  {
    assert n == m * (n / m) + n % m;
  }

  lemma DivUnique(n: int, d: int, q: int, r: int)
    requires d > 0 && 0 <= r < d && n == q * d + r
    ensures n / d == q && n % d == r
  {
    var q', r' := n / d, n % d;
    assert (q - q') * d == r' - r;
    if q - q' >= 1 {
      MulMonotone(1, q - q', d);
    } else if q' - q >= 1 {
      MulMonotone(1, q' - q, d);
    }
  }

  lemma MulMonotone(a: int, b: int, c: int)
    requires a <= b && c >= 0
    ensures a * c <= b * c
  {
    assert b * c - a * c == (b - a) * c;
  }
}
