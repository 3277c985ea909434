/** Facts about the row-major pixel index `y * w + x` that the solver does not find on its own. */
module Arith {

  /** Euclidean division is determined by quotient and remainder. */
  lemma DivModUnique(n: int, d: int, q: int, r: int)
    requires 0 < d && 0 <= r < d && n == q * d + r
    ensures n / d == q && n % d == r
  {
    var q', r' := n / d, n % d;
    assert (q - q') * d == r' - r;
    if q' < q {
      MulAtLeast(q - q', d);
    } else if q < q' {
      MulAtLeast(q' - q, d);
    }
  }

  lemma MulAtLeast(a: int, d: int)
    requires 1 <= a && 0 < d
    ensures d <= a * d
  {
  }

  lemma MulMono(a: int, b: int, c: nat)
    requires a <= b
    ensures a * c <= b * c
  {
  }

  /** Pixel (x, y) of a w-by-h image has a linear index below w*h, and back. */
  lemma IndexOf(w: nat, h: nat, x: nat, y: nat)
    requires x < w && y < h
    ensures y * w + x < w * h
    ensures (y * w + x) / w == y && (y * w + x) % w == x
  {
    MulMono(y + 1, h, w);
    DivModUnique(y * w + x, w, y, x);
  }

  /** Every linear index below w*h is the index of a pixel inside the image. */
  lemma CoordsOf(w: nat, h: nat, p: nat)
    requires p < w * h
    ensures 0 < w && p % w < w && p / w < h
    ensures p == (p / w) * w + p % w
  {
    if p / w >= h {
      MulMono(h, p / w, w);
    }
  }

  /** The pixels before column x of row y number at most w*h. */
  lemma PrefixBound(w: nat, h: nat, x: nat, y: nat)
    requires (x <= w && y < h) || (x == 0 && y <= h)
    ensures y * w + x <= w * h
  {
    MulMono(y, h, w);
    if y < h {
      MulMono(y + 1, h, w);
    }
  }

  /** The linear index of the first pixel of row y + 1 follows the last pixel of row y. */
  lemma NextRow(w: nat, y: nat)
    ensures y * w + w == (y + 1) * w
  {
  }

  /** A quotient is at most c when the dividend is below c + 1 times the divisor. */
  lemma DivAtMost(s: nat, n: nat, c: nat)
    requires 0 < n && s < (c + 1) * n
    ensures 0 <= s / n <= c
  {
    if s / n > c {
      MulMono(c + 1, s / n, n);
    }
  }

  /** The mean of n values that are each at most 255 is at most 255. */
  lemma MeanAtMost255(s: nat, n: nat)
    requires 0 < n && s <= 255 * n
    ensures 0 <= s / n <= 255
  {
    DivAtMost(s, n, 255);
  }

  /** A block of f consecutive cells starting at f*i fits below n when i < n / f. */
  lemma BlockInside(n: nat, f: nat, i: nat)
    requires 0 < f && i < n / f
    ensures f * i + f <= n
  {
    MulMono(i + 1, n / f, f);
  }

  /** One more row of n cells of value d adds n * d to the block total. */
  lemma AddRow(d: nat, n: nat, m: nat)
    requires 0 < m
    ensures d * (n * (m - 1)) + n * d == d * (n * m)
  {
  }
}
