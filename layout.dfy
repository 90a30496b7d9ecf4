/** Flat row-major storage of a matrix: element (r, s) of a matrix with `cols`
    columns lives at offset r * cols + s of one contiguous buffer. */
module RowMajor {

  /** The offset of element (r, s); it decodes back to its row and column. */
  function Idx(cols: nat, r: nat, s: nat): (p: nat)
    requires s < cols
    ensures p / cols == r && p % cols == s
  {
    Decode(cols, r, s);
    r * cols + s
  }

  lemma Decode(cols: nat, r: nat, s: nat)
    requires s < cols
    ensures (r * cols + s) / cols == r && (r * cols + s) % cols == s
  {
    var p := r * cols + s;
    var q, t := p / cols, p % cols;
    assert p == q * cols + t;
    if q < r {
      assert (q + 1) * cols <= r * cols by { MulLeq(q + 1, r, cols); }
      assert false;
    } else if q > r {
      assert (r + 1) * cols <= q * cols by { MulLeq(r + 1, q, cols); }
      assert false;
    }
  }

  lemma MulLeq(x: nat, y: nat, c: nat)
    requires x <= y
    ensures x * c <= y * c
  {
    assert y * c == x * c + (y - x) * c;
  }

  /** Every element of a rows-by-cols matrix lies inside a buffer of rows * cols elements. */
  lemma InBuffer(rows: nat, cols: nat, r: nat, s: nat)
    requires r < rows && s < cols
    ensures Idx(cols, r, s) < rows * cols
  {
    MulLeq(r + 1, rows, cols);
  }

  /** `InBuffer` for all elements at once. */
  lemma AllInBuffer(rows: nat, cols: nat)
    ensures forall r, s :: 0 <= r < rows && 0 <= s < cols ==> Idx(cols, r, s) < rows * cols
  {
    forall r, s | 0 <= r < rows && 0 <= s < cols
      ensures Idx(cols, r, s) < rows * cols
    {
      InBuffer(rows, cols, r, s);
    }
  }

  /** Every offset below rows * cols is the offset of exactly the element its
      quotient and remainder name. */
  lemma Split(rows: nat, cols: nat, p: nat)
    requires p < rows * cols
    ensures cols > 0 && p / cols < rows && Idx(cols, p / cols, p % cols) == p
  {
    if cols > 0 && p / cols >= rows {
      MulLeq(rows, p / cols, cols);
    }
  }
}
