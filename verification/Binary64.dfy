/**
 The binary64 floating point of IEEE 754 for numbers that are not negative, as far as parsing,
 multiplying and converting to an integer go: exact results rounded to 53 bits, half to even.
 */
module Binary64 {

  const MANTISSA := 0x20_0000_0000_0000 // 2 to the 53rd
  const LEAST_EXPONENT := -1074
  const GREATEST_EXPONENT := 971

  // x times 2 to the e.
  function Scale(x: real, e: int): real
    decreases if e < 0 then -e else e
  {
    if e == 0 then x else if e > 0 then Scale(2.0 * x, e - 1) else Scale(x / 2.0, e + 1)
  }

  function Pow2(e: int): real {
    Scale(1.0, e)
  }

  // The exponent of the last place of x: the least one, from e on, with which 53 bits reach x.
  function Exponent(x: real, e: int): int
    decreases GREATEST_EXPONENT - e
  {
    if e >= GREATEST_EXPONENT || x < Pow2(e + 53) then e else Exponent(x, e + 1)
  }

  function Nearest(x: real): int {
    var below := x.Floor;
    var rest := x - below as real;
    if rest < 0.5 || (rest == 0.5 && below % 2 == 0) then below else below + 1
  }

  function Round(x: real): real {
    var e := Exponent(x, LEAST_EXPONENT);
    Scale(Nearest(Scale(x, -e)) as real, e)
  }

  // A rounded number, unless it is too large for the format.
  function Float64(x: real): (bool, real) {
    (Round(x) < Pow2(1024), Round(x))
  }

  // A product of floats as an integer; beyond 64 bits the conversion yields the least integer on
  // common hardware.
  function Product64(v: real, unit: int): int {
    var x := Round(v * Round(unit as real));
    if x < Pow2(63) then x.Floor else -0x8000_0000_0000_0000
  }

  // ----- What fits into 53 bits is not rounded -----

  lemma {:induction false} ExponentIs(x: real, e: int)
    ensures var r := Exponent(x, e); e <= r && (r == e || Pow2(r + 52) <= x)
    decreases GREATEST_EXPONENT - e
  {
    if e < GREATEST_EXPONENT && Pow2(e + 53) <= x { ExponentIs(x, e + 1); }
  }

  lemma {:induction false} ScaleOnce(x: real, e: int)
    ensures Scale(2.0 * x, e) == Scale(x, e + 1)
    decreases if e < 0 then -e else e
  {
    if e < 0 {
      ScaleOnce(x / 2.0, e + 1);
    }
  }

  lemma {:induction false} ScaleTwice(x: real, a: int, b: int)
    ensures Scale(Scale(x, a), b) == Scale(x, a + b)
    decreases if a < 0 then -a else a
  {
    if a > 0 {
      ScaleTwice(2.0 * x, a - 1, b);
      ScaleOnce(x, a - 1 + b);
    } else if a < 0 {
      ScaleTwice(x / 2.0, a + 1, b);
      ScaleOnce(x / 2.0, a + b);
    }
  }

  lemma {:induction false} ScaleKeepsOrder(x: real, y: real, e: int)
    ensures x < y <==> Scale(x, e) < Scale(y, e)
    decreases if e < 0 then -e else e
  {
    if e > 0 {
      ScaleKeepsOrder(2.0 * x, 2.0 * y, e - 1);
    } else if e < 0 {
      ScaleKeepsOrder(x / 2.0, y / 2.0, e + 1);
    }
  }

  // Two to the e times k, as an integer.
  function Shifted(k: int, e: nat): int
    decreases e
  {
    if e == 0 then k else Shifted(2 * k, e - 1)
  }

  lemma {:induction false} ScaleOfInteger(k: int, e: nat)
    ensures Scale(k as real, e) == Shifted(k, e) as real
    decreases e
  {
    if e > 0 { ScaleOfInteger(2 * k, e - 1); }
  }

  lemma {:induction false} PowersGrow(a: int, b: int)
    requires a <= b
    ensures Pow2(a) <= Pow2(b)
    decreases b - a
  {
    if a < b {
      PowersGrow(a, b - 1);
      ScaleTwice(1.0, 1, b - 1);
      ScaleKeepsOrder(1.0, 2.0, b - 1);
    }
  }

  lemma ShiftedByFour(k: int, e: nat)
    ensures Shifted(k, e + 4) == Shifted(16 * k, e)
  {
    assert Shifted(k, e + 4) == Shifted(2 * k, e + 3) == Shifted(4 * k, e + 2) == Shifted(8 * k, e + 1);
  }

  lemma ShiftedBySixteen(k: int, e: nat)
    ensures Shifted(k, e + 16) == Shifted(0x1_0000 * k, e)
  {
    ShiftedByFour(k, e + 12);
    ShiftedByFour(16 * k, e + 8);
    ShiftedByFour(256 * k, e + 4);
    ShiftedByFour(4096 * k, e);
  }

  lemma Mantissa()
    ensures Pow2(53) == MANTISSA as real
  {
    ScaleOfInteger(1, 53);
    ShiftedBySixteen(1, 37);
    ShiftedBySixteen(0x1_0000, 21);
    ShiftedBySixteen(0x1_0000_0000, 5);
    ShiftedByFour(0x1_0000_0000_0000, 1);
    assert Shifted(0x10_0000_0000_0000, 1) == Shifted(MANTISSA, 0);
  }

  lemma TooLarge(m: nat, j: int, e: int)
    requires m < MANTISSA && e > j
    ensures Scale(m as real, j) < Pow2(e + 52)
  {
    Mantissa();
    ScaleKeepsOrder(m as real, Pow2(53), j);
    ScaleTwice(1.0, 53, j);
    PowersGrow(53 + j, e + 52);
  }

  lemma NearestOfInteger(k: int)
    ensures Nearest(k as real) == k
  {
  }

  // A 53-bit integer times a power of two is represented exactly.
  lemma RoundExact(m: nat, j: nat)
    requires m < MANTISSA
    ensures Round(Scale(m as real, j)) == Scale(m as real, j)
  {
    var x := Scale(m as real, j);
    var e := Exponent(x, LEAST_EXPONENT);
    ExponentIs(x, LEAST_EXPONENT);
    if e > j {
      TooLarge(m, j, e);
      assert false;
    }
    ScaleTwice(m as real, j, -e);
    ScaleOfInteger(m, j - e);
    NearestOfInteger(Shifted(m, j - e));
    ScaleTwice(x, -e, e);
  }

  lemma WholeExact(n: nat)
    requires n < MANTISSA
    ensures Round(n as real) == n as real
  {
    RoundExact(n, 0);
  }

  // A product that 53 bits and a power of two can hold, within 64 bits, comes out exactly.
  lemma ProductExact(n: nat, unit: nat, w: nat, m: nat, j: nat)
    requires unit < MANTISSA && m < MANTISSA
    requires w == n * unit == Shifted(m, j) && w < 0x8000_0000_0000_0000
    ensures Product64(n as real, unit) == w
  {
    WholeExact(unit);
    ProductOfIntegers(n, unit);
    WholeRounded(w, m, j);
    TwoTo63();
  }

  lemma ProductOfIntegers(n: nat, unit: nat)
    ensures n as real * unit as real == (n * unit) as real
  {
  }

  lemma WholeRounded(w: nat, m: nat, j: nat)
    requires m < MANTISSA && w == Shifted(m, j)
    ensures Round(w as real) == w as real
  {
    ScaleOfInteger(m, j);
    RoundExact(m, j);
  }

  lemma TwoTo63()
    ensures Pow2(63) == 0x8000_0000_0000_0000 as real
  {
    ScaleOfInteger(1, 63);
    ShiftedBySixteen(1, 47);
    ShiftedBySixteen(0x1_0000, 31);
    ShiftedBySixteen(0x1_0000_0000, 15);
    ShiftedByFour(0x1_0000_0000_0000, 11);
    ShiftedByFour(0x10_0000_0000_0000, 7);
    ShiftedByFour(0x100_0000_0000_0000, 3);
    var k := 0x1000_0000_0000_0000;
    ShiftedOnce(k, 2);
    ShiftedOnce(2 * k, 1);
    ShiftedOnce(4 * k, 0);
    assert Shifted(8 * k, 0) == 8 * k;
  }

  lemma ShiftedOnce(k: int, e: nat)
    ensures Shifted(k, e + 1) == Shifted(2 * k, e)
  {
  }

  // 53 bits are not enough for every integer: the first that is lost.
  lemma FirstInexact()
    ensures Round((MANTISSA + 1) as real) == MANTISSA as real
  {
    var x := (MANTISSA + 1) as real;
    Mantissa();
    ScaleTwice(1.0, 53, 1);
    ExponentAt(x, LEAST_EXPONENT, 1);
    assert Scale(x, -1) == x / 2.0;
    assert Nearest(x / 2.0) == MANTISSA / 2;
    assert Scale((MANTISSA / 2) as real, 1) == MANTISSA as real;
  }

  lemma {:induction false} ExponentAt(x: real, e: int, r: int)
    requires e <= r < GREATEST_EXPONENT && Pow2(r + 52) <= x < Pow2(r + 53)
    ensures Exponent(x, e) == r
    decreases r - e
  {
    if e < r {
      PowersGrow(e + 53, r + 52);
      ExponentAt(x, e + 1, r);
    }
  }
}
