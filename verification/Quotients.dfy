/**
 Facts about rounding division by a positive number.
 */
module Quotients {

  lemma DivAtLeast(x: int, y: int, q: int)
    requires 0 < y
    ensures q <= x / y <==> q * y <= x
  {
    var d := x / y;
    assert d * y <= x < d * y + y;
    if q <= d {
      assert q * y <= d * y;
    } else {
      assert (d + 1) * y <= q * y;
    }
  }

  lemma DivIs(x: int, y: int, q: int)
    requires 0 < y && q * y <= x < q * y + y
    ensures x / y == q
  {
    DivAtLeast(x, y, q);
    DivAtLeast(x, y, q + 1);
    assert (q + 1) * y == q * y + y;
  }

  lemma DivBounds(x: int, y: int) returns (q: int)
    requires 0 < y
    ensures q == x / y && q * y <= x < q * y + y
  {
    q := x / y;
  }

  lemma DivShift(x: int, y: int, k: int)
    requires 0 < y
    ensures (x + k * y) / y == x / y + k
  {
    var q := DivBounds(x, y);
    assert (q + k) * y == q * y + k * y;
    DivIs(x + k * y, y, q + k);
  }

  lemma DivMonotone(x: int, x': int, y: int)
    requires 0 < y && x <= x'
    ensures x / y <= x' / y
  {
    var q := DivBounds(x, y);
    DivAtLeast(x', y, q);
  }

  lemma RemainderIs(x: int, y: int)
    requires 0 < y
    ensures x % y == x - (x / y) * y
  {
  }

  lemma Distribute(j: int, k: int, y: int)
    ensures (j + k) * y == j * y + k * y
  {
  }
}
