/** Facts about nonlinear integer arithmetic that the solver does not find alone. */
module Arith {

  /** Euclidean division and remainder are determined by their defining equation. */
  lemma DivModUnique(a: int, m: int, q: int, r: int)
    requires m > 0 && 0 <= r < m && a == q * m + r
    ensures a / m == q && a % m == r
  {
    var q' := a / m;
    var r' := a % m;
    assert a == q' * m + r';
    if q' != q {
      var d := if q' > q then q' - q else q - q';
      assert d * m == (if q' > q then r - r' else r' - r) by {
        assert (q' - q) * m == q' * m - q * m;
      }
      MulAtLeast(d, m);
    }
  }

  lemma MulAtLeast(d: int, m: int)
    requires d >= 1 && m > 0
    ensures d * m >= m
  {
  }

  lemma MulMonotone(a: int, b: int, m: int)
    requires a <= b && m >= 0
    ensures a * m <= b * m
  {
    assert b * m - a * m == (b - a) * m;
  }

  lemma ModOfMultiple(a: int, k: int, m: int)
    requires m > 0
    ensures (a + k * m) % m == a % m
  {
    var q := a / m;
    var r := a % m;
    assert a + k * m == (q + k) * m + r;
    DivModUnique(a + k * m, m, q + k, r);
  }

  /** Mixed-radix digits: `q * m + r` with `r < m` and `q < n` stays below `n * m`. */
  lemma DigitsBelow(q: int, r: int, m: int, n: int)
    requires 0 <= q < n && 0 <= r < m
    ensures 0 <= q * m + r < n * m
  {
    MulMonotone(q + 1, n, m);
    MulMonotone(0, q, m);
  }

  /** Splitting `i < n * m` into its quotient and remainder by `m`. */
  lemma SplitBelow(i: int, m: int, n: int)
    requires 0 <= i < n * m && m >= 0 && n >= 0
    ensures m > 0
    ensures i == (i / m) * m + i % m
    ensures 0 <= i / m < n && 0 <= i % m < m
  {
    if i / m >= n {
      MulMonotone(n, i / m, m);
    }
  }

  /** Skipping `y` whole rows of `w` cells of `ch` bytes, each row padded to
      `R` bytes, is skipping `y` padded rows. */
  lemma RowMajor(start: int, x: int, y: int, w: int, ch: int, R: int)
    ensures start + (y * w + x) * ch + y * (R - w * ch) == start + y * R + x * ch
  {
    assert (y * w + x) * ch == (y * w) * ch + x * ch;
    assert (y * w) * ch == y * (w * ch);
    assert y * (R - w * ch) == y * R - y * (w * ch);
  }

  lemma MulSucc(y: int, w: int)
    ensures y * w + w == (y + 1) * w
  {
  }

  /** Cell (x, y) of `ch` bytes in rows of `w` cells padded to `R` bytes ends
      no later than the last cell of row h-1, which ends within h rows. */
  lemma CellBelowLast(start: int, x: int, y: int, w: int, h: int, ch: int, R: int)
    requires 0 <= x < w && 0 <= y < h && ch >= 0 && w * ch <= R
    ensures start <= start + y * R + x * ch
    ensures start + y * R + x * ch + ch <= start + (h - 1) * R + w * ch <= start + R * h
  {
    MulMonotone(0, y, R);
    MulMonotone(0, x, ch);
    MulMonotone(y, h - 1, R);
    MulSucc(x, ch);
    MulMonotone(x + 1, w, ch);
    MulSucc(h - 1, R);
    assert (h - 1) * R + R == R * h;
  }

  /** The padding of a row of `w` pixels of `d` bits rounded up to whole
      32-bit words, for the two depths the library supports. */
  lemma RowPadding(d: int, w: int)
    requires w >= 0
    ensures var R := ((d * w + 31) / 32) * 4;
      (d == 24 || d == 32) ==>
      R % 4 == 0 && 0 <= R - w * (d / 8) <= 3 &&
      (d == 32 ==> R - w * (d / 8) == 0) && (d == 24 ==> R - w * (d / 8) == w % 4)
  {
    var q := (d * w + 31) / 32;
    DivModUnique(q * 4, 4, q, 0);
    if d == 32 {
      DivModUnique(32 * w + 31, 32, w, 31);
    } else if d == 24 {
      var m, j := w / 4, w % 4;
      assert w == 4 * m + j;
      var r := [31, 23, 15, 7][j];
      assert 24 * w + 31 == 32 * (3 * m + j) + r;
      DivModUnique(24 * w + 31, 32, 3 * m + j, r);
      assert q * 4 == 12 * m + 4 * j;
    }
  }
}
