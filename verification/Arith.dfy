/** The few facts about products and Euclidean division that indexing into rows of pixels needs. */
module Arith {
  lemma MulMono(a: int, b: int, m: int)
    requires a <= b && 0 <= m
    ensures a * m <= b * m
  {
  }

  lemma MulAdd(a: int, b: int, m: int)
    ensures (a + b) * m == a * m + b * m
  {
  }

  lemma MulSwap(a: int, b: int, c: int)
    ensures a * b * c == a * c * b && a * (b * c) == a * b * c
  {
  }

  /** Quotient and remainder are determined by the decomposition. */
  lemma DivMod(i: int, m: int, q: int, r: int)
    requires 0 <= r < m && i == q * m + r
    ensures i / m == q && i % m == r
  {
    var q', r' := i / m, i % m;
    assert i == q' * m + r' && 0 <= r' < m;
    if q < q' {
      MulMono(q + 1, q', m);
      MulAdd(q, 1, m);
      assert false;
    }
    if q' < q {
      MulMono(q' + 1, q, m);
      MulAdd(q', 1, m);
      assert false;
    }
  }

  /** Position `col` of row `row` in an area of `rows` rows of `width`. */
  lemma InArea(row: int, col: int, width: int, rows: int)
    requires 0 <= row < rows && 0 <= col < width
    ensures 0 <= row * width + col < rows * width
    ensures row * width + col + 1 <= rows * width
  {
    MulMono(0, row, width);
    MulMono(row + 1, rows, width);
    MulAdd(row, 1, width);
  }

  /** A position in an area has its row and column in range. */
  lemma RowInRange(i: int, width: int, rows: int)
    requires 0 <= i < rows * width && 0 < width
    ensures 0 <= i / width < rows && i == (i / width) * width + i % width
  {
    if i / width >= rows {
      MulMono(rows, i / width, width);
      assert false;
    }
  }

  /** `n` items of `size` each: a product kept folded where only its steps matter. */
  function Product(size: nat, n: nat): nat { size * n }

  lemma ProductStep(size: nat, n: nat)
    requires 0 < n
    ensures Product(size, n) == size + Product(size, n - 1)
  {
    MulAdd(1, n - 1, size);
  }

  lemma ProductZero(size: nat)
    ensures Product(size, 0) == 0
  {
  }
}
