/** Integer facts about row-major indexing that the solver does not find
    by itself (they involve products of two variables). */
module Arith {

  lemma {:induction false} MulAtLeast(d: int, w: int)
    requires d >= 1 && w >= 0
    ensures d * w >= w
  {
    if d > 1 {
      MulAtLeast(d - 1, w);
      assert d * w == (d - 1) * w + w;
    }
  }

  lemma MulMono(a: int, b: int, w: int)
    requires a <= b && w >= 0
    ensures a * w <= b * w
  {
    if a < b {
      MulAtLeast(b - a, w);
      assert b * w - a * w == (b - a) * w;
    }
  }

  /** Division and remainder are determined by any decomposition with an
      in-range remainder. */
  lemma DivModUnique(k: int, w: int, q: int, r: int)
    requires w >= 1 && k == q * w + r && 0 <= r < w
    ensures k / w == q && k % w == r
  {
    var q', r' := k / w, k % w;
    assert k == q' * w + r';
    var d := q - q';
    assert d * w == q * w - q' * w;
    assert d * w == r' - r;
    if d >= 1 {
      MulAtLeast(d, w);
    } else if d <= -1 {
      MulAtLeast(-d, w);
    }
  }

  /** Row `row`, column `col` of a w-wide row-major buffer sits at index
      row * w + col, and that index decodes back to the pair. */
  lemma RowMajorSplit(row: int, col: int, w: int)
    requires w >= 1 && 0 <= col < w
    ensures (row * w + col) / w == row && (row * w + col) % w == col
  {
    DivModUnique(row * w + col, w, row, col);
  }

  /** An in-range pair lands inside a w-by-h buffer. */
  lemma RowMajorBound(row: int, col: int, w: int, h: int)
    requires w >= 1 && 0 <= row < h && 0 <= col < w
    ensures 0 <= row * w + col < w * h
  {
    MulMono(row, h - 1, w);
    MulMono(0, row, w);
    assert (h - 1) * w + w == w * h;
  }

  /** Adding the modulus does not change the residue. */
  lemma ModShift(a: int, n: int)
    requires n >= 1
    ensures (a + n) % n == a % n
  {
    DivModUnique(a, n, (a + n) / n - 1, (a + n) % n);
  }

  /** Index k of a w-wide buffer is row k / w, column k % w. */
  lemma IndexSplit(k: int, w: int)
    requires w >= 1
    ensures k == (k / w) * w + k % w && 0 <= k % w < w
  {
  }

  /** i * w computed by repeated addition: the offset of row i in a
      w-wide row-major buffer, as a row-by-row loop reaches it. */
  function RowOffset(i: nat, w: nat): nat
  {
    if i == 0 then 0 else RowOffset(i - 1, w) + w
  }

  lemma {:induction false} RowOffsetIsProduct(i: nat, w: nat)
    ensures RowOffset(i, w) == i * w
  {
    if i > 0 {
      RowOffsetIsProduct(i - 1, w);
    }
  }

  /** A row before the last ends no later than the buffer. */
  lemma {:induction false} RowOffsetFits(i: nat, w: nat, h: nat)
    requires i < h
    ensures RowOffset(i, w) + w <= RowOffset(h, w)
    decreases h
  {
    if i + 1 < h {
      RowOffsetFits(i, w, h - 1);
    }
  }
}
