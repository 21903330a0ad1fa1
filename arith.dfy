/** Integer facts shared by the models: Euclidean division pinned down by
    quotient and remainder, and the bounds of rows laid out in a flat
    buffer. */
module Arith {

  lemma MulSmallZero(k: int, d: int)
    requires d > 0 && -d < k * d < d
    ensures k == 0
  {
    assert k >= 1 ==> k * d == d + (k - 1) * d && (k - 1) * d >= 0;
    assert k <= -1 ==> k * d == -d - (-k - 1) * d && (-k - 1) * d >= 0;
  }

  /** Quotient and remainder are determined by `a == q * d + r`, `0 <= r < d`. */
  lemma DivModUnique(a: int, d: int, q: int, r: int)
    requires d > 0 && 0 <= r < d && a == q * d + r
    ensures a / d == q && a % d == r
  {
    var k := a / d - q;
    assert a == d * (a / d) + a % d;
    assert k * d == r - a % d;
    MulSmallZero(k, d);
  }

  /** r rows of `width` pixels end before row `n` starts. */
  lemma RowSpan(r: int, n: int, width: int)
    requires 0 <= r < n && 0 <= width
    ensures 0 <= r * width && r * width + width <= n * width
  {
    MulMono(0, r, width);
    MulMono(r + 1, n, width);
    assert (r + 1) * width == r * width + width;
  }

  /** Multiplying by a non-negative factor keeps the order. */
  lemma {:induction false} MulMono(a: int, b: int, c: int)
    requires 0 <= a <= b && 0 <= c
    ensures a * c <= b * c
    decreases b - a
  {
    if a < b {
      MulMono(a, b - 1, c);
      assert b * c == (b - 1) * c + c;
    }
  }

  /** Pixel (r, c) of a `width`-wide block of `bpp`-byte pixels starts at
      `r * width * bpp + c * bpp` and ends inside a block of `height` rows. */
  lemma PixelOffset(r: int, c: int, width: int, height: int, bpp: int)
    requires 0 <= r < height && 0 <= c < width && 0 <= bpp
    ensures r * width * bpp + c * bpp == (r * width + c) * bpp
    ensures 0 <= (r * width + c) * bpp && (r * width + c) * bpp + bpp <= height * width * bpp
  {
    RowSpan(r, height, width);
    MulMono(r * width + c + 1, height * width, bpp);
    assert (r * width + c + 1) * bpp == (r * width + c) * bpp + bpp;
  }

  /** Row r + 1 of a `width`-wide block of `bpp`-byte pixels starts one row
      of bytes after row r, and no later than the end of `height` rows. */
  lemma RowOffset(r: int, width: int, height: int, bpp: int)
    requires 0 <= r < height && 0 <= width && 0 <= bpp
    ensures r * width * bpp + width * bpp == (r + 1) * width * bpp
    ensures 0 <= r * width * bpp && (r + 1) * width * bpp <= height * width * bpp
  {
    var w := width * bpp;
    assert (r + 1) * width == r * width + width;
    assert (r * width + width) * bpp == r * width * bpp + w;
    assert r * width * bpp == r * w;
    assert height * width * bpp == height * w;
    MulMono(r + 1, height, w);
  }

  /** A product of non-negative numbers that is positive has positive factors. */
  lemma PositiveFactor(a: int, b: int)
    requires 0 <= a && 0 <= b && a * b > 0
    ensures a >= 1 && b >= 1
  {
  }

  /** Pixel c of a row of a `width`-wide block of `bpp`-byte pixels whose
      first pixel has number n0 = r * width: its column and row, and the
      bounds of its bytes within the row. */
  lemma ColumnStep(n0: int, r: int, c: int, width: int, bpp: int)
    requires n0 == r * width && 0 <= r && 0 <= c < width && 0 <= bpp
    ensures (n0 + c) % width == c && (n0 + c) / width == r
    ensures (c + 1) * bpp == c * bpp + bpp && (c + 1) * bpp <= width * bpp
  {
    DivModUnique(n0 + c, width, r, c);
    MulMono(c + 1, width, bpp);
  }

  /** The bytes of pixel i of `total` pixels of `bpp` bytes each. */
  lemma PixelSlot(i: int, total: int, bpp: int)
    requires 0 <= i < total && 0 <= bpp
    ensures 0 <= i * bpp && i * bpp + bpp == (i + 1) * bpp && (i + 1) * bpp <= total * bpp
  {
    MulMono(0, i, bpp);
    MulMono(i + 1, total, bpp);
  }

  /** A negative multiple of a positive d is at most -d. */
  lemma NegativeMultiple(q: int, d: int)
    requires d > 0
    ensures q < 0 ==> q * d <= -d
  {
    if q < 0 {
      MulMono(1, -q, d);
    }
  }

  lemma DivModBounds(a: int, d: int)
    requires a >= 0 && d > 0
    ensures 0 <= a % d < d && 0 <= a / d <= a
  {
    NegativeMultiple(a / d, d);
    assert a / d >= 0;
    MulMono(1, d, a / d);
  }
}
