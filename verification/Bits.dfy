/** Bitwise AND and OR of unsigned words, bit by bit, and the arithmetic they amount to
    for the masks and shifts the kernel uses. */
module Bits {

  function And(a: nat, b: nat): nat {
    if a == 0 || b == 0 then 0
    else 2 * And(a / 2, b / 2) + (if a % 2 == 1 && b % 2 == 1 then 1 else 0)
  }

  function Or(a: nat, b: nat): nat {
    if a == 0 then b
    else if b == 0 then a
    else 2 * Or(a / 2, b / 2) + (if a % 2 == 1 || b % 2 == 1 then 1 else 0)
  }

  function Pow2(k: nat): (r: nat)
    ensures r > 0
  {
    if k == 0 then 1 else 2 * Pow2(k - 1)
  }

  lemma {:induction false} AndAssociates(a: nat, b: nat, c: nat)
    ensures And(And(a, b), c) == And(a, And(b, c))
  {
    if a != 0 && b != 0 && c != 0 {
      AndAssociates(a / 2, b / 2, c / 2);
    }
  }

  lemma {:induction false} AndCommutes(a: nat, b: nat)
    ensures And(a, b) == And(b, a)
  {
    if a != 0 && b != 0 {
      AndCommutes(a / 2, b / 2);
    }
  }

  /** Words with no bit in common: OR is addition. */
  lemma {:induction false} OrOfDisjoint(a: nat, b: nat)
    requires And(a, b) == 0
    ensures Or(a, b) == a + b
  {
    if a != 0 && b != 0 {
      OrOfDisjoint(a / 2, b / 2);
    }
  }

  /** A word inside a mask and a word outside it: OR is addition. */
  lemma OrAcrossMask(a: nat, b: nat, mask: nat)
    requires And(a, mask) == a && And(b, mask) == 0
    ensures Or(And(a, mask), b) == a + b
  {
    AndAssociates(a, mask, b);
    AndCommutes(mask, b);
    OrOfDisjoint(a, b);
  }

  /** Masking with k low ones is the remainder modulo 2^k. */
  lemma {:induction false} AndLowOnes(a: nat, k: nat)
    ensures And(a, Pow2(k) - 1) == a % Pow2(k)
  {
    if k > 0 {
      var p := Pow2(k - 1);
      ModDouble(a, p);
      AndLowOnes(a / 2, k - 1);
      if a > 0 {
        AndOdd(a, p - 1);
      }
    }
  }

  lemma AndOdd(a: nat, b: nat)
    ensures And(a, 2 * b + 1) == 2 * And(a / 2, b) + a % 2
  {
    if a != 0 {
      var c := 2 * b + 1;
      assert c / 2 == b && c % 2 == 1;
      assert And(a, c) == 2 * And(a / 2, c / 2) + (if a % 2 == 1 && c % 2 == 1 then 1 else 0);
    }
  }

  lemma AndEven(a: nat, b: nat)
    ensures And(a, 2 * b) == 2 * And(a / 2, b)
  {
    if a != 0 && b != 0 {
      var c := 2 * b;
      assert c / 2 == b && c % 2 == 0;
      assert And(a, c) == 2 * And(a / 2, c / 2) + (if a % 2 == 1 && c % 2 == 1 then 1 else 0);
    }
  }

  lemma ModDouble(a: nat, p: nat)
    requires p > 0
    ensures a % (2 * p) == 2 * (a / 2 % p) + a % 2
    ensures a / (2 * p) == a / 2 / p
  {
    var q, r := a / 2 / p, a / 2 % p;
    assert a == 2 * (q * p + r) + a % 2;
    assert q * (2 * p) == 2 * (q * p);
    ModUnique(a, 2 * p, q, 2 * r + a % 2);
  }

  lemma ModUnique(a: nat, m: nat, q: int, r: nat)
    requires m > 0 && r < m && a == q * m + r
    ensures a % m == r && a / m == q
  {
    var d := a / m - q;
    assert d * m == (a / m) * m - q * m;
    MultipleBound(d, m);
  }

  lemma MultipleBound(d: int, m: nat)
    requires m > 0
    ensures d >= 1 ==> d * m >= m
    ensures d <= -1 ==> d * m <= -(m as int)
  {
  }

  function Shl(x: nat, k: nat): nat {
    if k == 0 then x else 2 * Shl(x, k - 1)
  }

  function Shr(x: nat, k: nat): nat {
    if k == 0 then x else Shr(x / 2, k - 1)
  }

  /** A mask shifted left by k sees only the bits of a from k upwards. */
  lemma {:induction false} AndShifted(a: nat, b: nat, k: nat)
    ensures And(a, Shl(b, k)) == Shl(And(Shr(a, k), b), k)
  {
    if k > 0 {
      AndShifted(a / 2, b, k - 1);
      AndEven(a, Shl(b, k - 1));
    }
  }

  /** A word shifted left by k and a word below 2^k: OR is addition. */
  lemma {:induction false} OrAboveBelow(hi: nat, lo: nat, k: nat)
    requires lo < Pow2(k)
    ensures Or(Shl(hi, k), lo) == Shl(hi, k) + lo
  {
    if k > 0 {
      OrAboveBelow(hi, lo / 2, k - 1);
      var h := Shl(hi, k - 1);
      assert 2 * h / 2 == h && 2 * h % 2 == 0;
    }
  }

  /** OR commutes with shifting. */
  lemma {:induction false} OrShifted(a: nat, b: nat, k: nat)
    ensures Or(Shl(a, k), Shl(b, k)) == Shl(Or(a, b), k)
  {
    if k > 0 {
      OrShifted(a, b, k - 1);
      var x, y := Shl(a, k - 1), Shl(b, k - 1);
      assert 2 * x / 2 == x && 2 * y / 2 == y && 2 * x % 2 == 0 && 2 * y % 2 == 0;
    }
  }

  lemma ShiftThree(x: nat, k: nat)
    requires k >= 3
    ensures Shl(x, k) == 8 * Shl(x, k - 3)
    ensures Shr(x, k) == Shr(x / 8, k - 3)
  {
    assert Shl(x, k) == 2 * Shl(x, k - 1) && Shl(x, k - 1) == 2 * Shl(x, k - 2);
    assert Shr(x, k) == Shr(x / 2, k - 1) == Shr(x / 2 / 2, k - 2);
  }

  lemma ShiftSix(x: nat, k: nat)
    requires k >= 6
    ensures Shl(x, k) == 64 * Shl(x, k - 6)
    ensures Shr(x, k) == Shr(x / 64, k - 6)
  {
    ShiftThree(x, k);
    ShiftThree(x, k - 3);
    ShiftThree(x / 8, k - 3);
    assert x / 8 / 8 == x / 64;
  }

  lemma ShlNine(x: nat)
    ensures Shl(x, 9) == 512 * x
  {
    ShiftSix(x, 9);
    ShiftThree(x, 3);
  }

  lemma ShlTwelve(x: nat)
    ensures Shl(x, 12) == 4096 * x
  {
    ShiftSix(x, 12);
    ShiftSix(x, 6);
  }

  lemma ShrTwelve(x: nat)
    ensures Shr(x, 12) == x / 4096
  {
    ShiftSix(x, 12);
    ShiftSix(x / 64, 6);
    assert x / 64 / 64 == x / 4096;
  }

  lemma Pow40()
    ensures Pow2(40) == 0x100_0000_0000
  {
    assert Pow2(8) == 256;
    assert Pow2(16) == 0x1_0000;
    assert Pow2(24) == 0x100_0000;
    assert Pow2(32) == 0x1_0000_0000;
  }
}
