/**
 64-bit machine words and their bits.
 */
module Words {

  // The 64 bits of a word, bit 0 first.
  type Word = w: seq<bool> | |w| == 64 witness seq(64, _ => false)

  const ZERO: Word := seq(64, _ => false)

  function Or(w: Word, v: Word): Word {
    seq(64, i requires 0 <= i < 64 => w[i] || v[i])
  }

  function Half(w: bv64): bv64 {
    w >> 1
  }

  predicate BitAt(w: bv64, i: nat) {
    if i == 0 then w & 1 == 1 else BitAt(Half(w), i - 1)
  }

  function Bits(w: bv64): Word {
    seq(64, i requires 0 <= i < 64 => BitAt(w, i))
  }

  // ----- Or -----

  lemma ShiftedOr(w: bv64, v: bv64, u: bv64)
    requires u == w | v
    ensures Half(u) == Half(w) | Half(v)
    ensures u & 1 == 1 <==> w & 1 == 1 || v & 1 == 1
  {
  }

  lemma {:induction false} OrAt(w: bv64, v: bv64, u: bv64, i: nat)
    requires u == w | v
    ensures BitAt(u, i) <==> BitAt(w, i) || BitAt(v, i)
    decreases i
  {
    ShiftedOr(w, v, u);
    if i > 0 { OrAt(Half(w), Half(v), Half(u), i - 1); }
  }

  lemma {:induction false} ZeroAt(i: nat)
    ensures !BitAt(0, i)
  {
    if i > 0 {
      assert Half(0) == 0;
      ZeroAt(i - 1);
    }
  }

  // ----- A single bit -----

  // The word has bit i and no other.
  predicate IsMask(m: bv64, i: nat) {
    if i == 0 then m == 1 else m & 1 == 0 && IsMask(Half(m), i - 1)
  }

  lemma ShiftedMask(b: bv6)
    requires b != 0
    ensures Half((1 as bv64) << b) == (1 as bv64) << (b - 1)
    ensures ((1 as bv64) << b) & 1 == 0
  {
  }

  lemma {:induction false} ShiftIsMask(b: bv6)
    ensures IsMask((1 as bv64) << b, b as int)
    decreases b
  {
    if b == 0 {
      assert (1 as bv64) << (0 as bv6) == 1;
    } else {
      ShiftedMask(b);
      ShiftIsMask(b - 1);
      assert b as int == (b - 1) as int + 1;
    }
  }

  lemma {:induction false} MaskAt(m: bv64, off: nat, i: nat)
    requires IsMask(m, off)
    ensures BitAt(m, i) <==> i == off
    decreases off
  {
    if off == 0 {
      assert Half(1) == 0;
      if i > 0 { ZeroAt(i - 1); }
    } else if i > 0 {
      MaskAt(Half(m), off - 1, i - 1);
    }
  }

  lemma ShiftedAnd(w: bv64, m: bv64, x: bv64)
    requires m & 1 == 0 && x == w & m
    ensures Half(x) == Half(w) & Half(m)
    ensures x == 0 <==> Half(x) == 0
  {
  }

  lemma {:induction false} TestAt(w: bv64, m: bv64, x: bv64, off: nat)
    requires IsMask(m, off) && x == w & m
    ensures x != 0 <==> BitAt(w, off)
    decreases off
  {
    if off == 0 {
      LowBit(w, x);
    } else {
      ShiftedAnd(w, m, x);
      TestAt(Half(w), Half(m), Half(x), off - 1);
    }
  }

  lemma LowBit(w: bv64, x: bv64)
    requires x == w & 1
    ensures x != 0 <==> x == 1
  {
  }

  // ----- The operations -----

  // 1 << off
  method Shift(off: nat) returns (m: bv64)
    requires off < 64
    ensures IsMask(m, off)
  {
    var b := off as bv6;
    assert b as int == off;
    m := (1 as bv64) << b;
    ShiftIsMask(b);
  }

  // w | v
  method OrWords(w: bv64, v: bv64) returns (r: bv64)
    ensures Bits(r) == Or(Bits(w), Bits(v))
  {
    r := w | v;
    forall i | 0 <= i < 64 ensures Bits(r)[i] == Or(Bits(w), Bits(v))[i] { OrAt(w, v, r, i); }
  }

  // w | 1 << off
  method SetBit(w: bv64, off: nat) returns (r: bv64)
    requires off < 64
    ensures Bits(r) == Bits(w)[off := true]
  {
    var m := Shift(off);
    r := w | m;
    forall i | 0 <= i < 64 ensures Bits(r)[i] == Bits(w)[off := true][i] {
      OrAt(w, m, r, i);
      MaskAt(m, off, i);
    }
  }

  // w & (1 << off) != 0
  method TestBit(w: bv64, off: nat) returns (on: bool)
    requires off < 64
    ensures on <==> Bits(w)[off]
  {
    var m := Shift(off);
    TestAt(w, m, w & m, off);
    on := w & m != 0;
  }

  lemma ZeroBits()
    ensures Bits(0) == ZERO
  {
    forall i | 0 <= i < 64 ensures Bits(0)[i] == ZERO[i] { ZeroAt(i); }
  }

  // ----- The bits determine the word -----

  // Nothing is left after n shifts.
  predicate Fits(w: bv64, n: nat) {
    if n == 0 then w == 0 else Fits(Half(w), n - 1)
  }

  function Right4(w: bv64): bv64 {
    w >> 4
  }

  function Right16(w: bv64): bv64 {
    w >> 16
  }

  lemma FourHalves(w: bv64)
    ensures Half(Half(Half(Half(w)))) == Right4(w)
  {
  }

  lemma FitsByFour(w: bv64, n: nat)
    ensures Fits(w, n + 4) <==> Fits(Right4(w), n)
  {
    var a := Half(w);
    var b := Half(a);
    var c := Half(b);
    FourHalves(w);
    assert Fits(w, n + 4) <==> Fits(a, n + 3);
    assert Fits(a, n + 3) <==> Fits(b, n + 2);
    assert Fits(b, n + 2) <==> Fits(c, n + 1);
  }

  lemma SixteenHalves(w: bv64)
    ensures Right4(Right4(Right4(Right4(w)))) == Right16(w)
  {
  }

  lemma FitsBySixteen(w: bv64, n: nat)
    ensures Fits(w, n + 16) <==> Fits(Right16(w), n)
  {
    var a := Right4(w);
    var b := Right4(a);
    var c := Right4(b);
    FitsByFour(w, n + 12);
    FitsByFour(a, n + 8);
    FitsByFour(b, n + 4);
    FitsByFour(c, n);
    SixteenHalves(w);
  }

  lemma NothingLeft(w: bv64)
    ensures Right16(Right16(Right16(Right16(w)))) == 0
  {
  }

  lemma EveryWordFits(w: bv64)
    ensures Fits(w, 64)
  {
    var a := Right16(w);
    var b := Right16(a);
    var c := Right16(b);
    FitsBySixteen(w, 48);
    FitsBySixteen(a, 32);
    FitsBySixteen(b, 16);
    FitsBySixteen(c, 0);
    NothingLeft(w);
  }

  lemma FromHalves(w: bv64, v: bv64)
    requires Half(w) == Half(v) && (w & 1 == 1 <==> v & 1 == 1)
    ensures w == v
  {
  }

  lemma {:induction false} SameBitsSameWord(w: bv64, v: bv64, n: nat)
    requires Fits(w, n) && Fits(v, n) && forall i :: 0 <= i < n ==> (BitAt(w, i) <==> BitAt(v, i))
    ensures w == v
    decreases n
  {
    if n > 0 {
      forall i | 0 <= i < n - 1 ensures BitAt(Half(w), i) <==> BitAt(Half(v), i) {
        assert BitAt(w, i + 1) <==> BitAt(v, i + 1);
      }
      SameBitsSameWord(Half(w), Half(v), n - 1);
      assert BitAt(w, 0) <==> BitAt(v, 0);
      FromHalves(w, v);
    }
  }

  lemma BitsDetermine(w: bv64, v: bv64)
    requires Bits(w) == Bits(v)
    ensures w == v
  {
    EveryWordFits(w);
    EveryWordFits(v);
    forall i | 0 <= i < 64 ensures BitAt(w, i) <==> BitAt(v, i) { assert Bits(w)[i] == Bits(v)[i]; }
    SameBitsSameWord(w, v, 64);
  }
}
