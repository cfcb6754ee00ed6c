/** Facts about non-negative integer division that the dither and layout proofs use. */
module Arithmetic {

  /** `d*q <= n` exactly when `q <= n / d`, for positive `d`. */
  lemma MulLeIffLeDiv(q: int, n: int, d: int)
    requires 0 < d
    ensures d * q <= n <==> q <= n / d
  {
    var k := n / d;
    assert n == d * k + n % d && 0 <= n % d < d;
    if q <= k {
      assert d * q <= d * k;
    } else {
      assert d * q >= d * (k + 1) == d * k + d;
    }
  }

  lemma DivMonotone(a: int, b: int, d: int)
    requires a <= b && 0 < d
    ensures a / d <= b / d
  {
    assert d * (a / d) <= a;
    MulLeIffLeDiv(a / d, b, d);
  }

  /** `(d*k + m) / d == k + m / d`, for positive `d`. */
  lemma DivAddMultiple(k: int, m: int, d: int)
    requires 0 < d
    ensures (d * k + m) / d == k + m / d
  {
    var q := k + m / d;
    assert d * q == d * k + d * (m / d);
    assert d * q <= d * k + m;
    MulLeIffLeDiv(q, d * k + m, d);
    assert d * (q + 1) == d * q + d > d * k + m;
    MulLeIffLeDiv(q + 1, d * k + m, d);
  }

  /** `d*l >= n` exactly when `l >= ceil(n / d)`, for positive `d`. */
  lemma CeilDivIff(l: int, n: int, d: int)
    requires 0 < d
    ensures d * l >= n <==> l >= (n + d - 1) / d
  {
    MulLeIffLeDiv(l + 1, n + d - 1, d);
    assert d * (l + 1) == d * l + d;
  }

  /** Byte `byte < rs` of row `line` sits at offset `line*rs + byte`, and division recovers both. */
  lemma RowColumn(line: nat, byte: nat, rs: nat)
    requires byte < rs
    ensures (line * rs + byte) / rs == line && (line * rs + byte) % rs == byte
  {
    assert line * rs == rs * line;
    DivAddMultiple(line, byte, rs);
    assert byte / rs == 0;
  }

  /** An offset below `rows*rs` lies on a row below `rows`. */
  lemma RowOf(i: nat, rs: nat, rows: nat)
    requires 0 < rs && i < rows * rs
    ensures i / rs < rows
  {
    assert rows * rs == rs * rows;
    MulLeIffLeDiv(rows, i, rs);
  }

  /** Row `line < rows` ends at or before offset `rows*rs`. */
  lemma RowInFrame(line: nat, rs: nat, rows: nat)
    requires line < rows
    ensures line * rs + rs <= rows * rs
  {
    assert (rows - line - 1) * rs >= 0;
    assert rows * rs == line * rs + rs + (rows - line - 1) * rs;
  }
}
