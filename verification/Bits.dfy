/**
  Bitwise operations on unsigned words held as natural numbers, with the facts
  that turn masks and shifts by powers of two into division and remainder.
*/
module Bits {

  function Pow2(k: nat): (p: nat)
    ensures p > 0
  {
    if k == 0 then 1 else 2 * Pow2(k - 1)
  }

  lemma PowerValues()
    ensures Pow2(12) == 0x1000 && Pow2(32) == 0x1_0000_0000 && Pow2(40) == 0x100_0000_0000
  {
    assert Pow2(6) == 0x40;
    assert Pow2(12) == 0x1000;
    assert Pow2(18) == 0x4_0000;
    assert Pow2(24) == 0x100_0000;
    assert Pow2(30) == 0x4000_0000;
    assert Pow2(35) == 0x8_0000_0000;
  }

  datatype Op = And | Or | AndNot

  function Bit(op: Op, x: bool, y: bool): bool {
    match op
    case And => x && y
    case Or => x || y
    case AndNot => x && !y
  }

  /** The operation applied to every bit position of the two words. */
  function Bitwise(op: Op, a: nat, b: nat): nat
    decreases a + b
  {
    if a == 0 && b == 0 then 0
    else 2 * Bitwise(op, a / 2, b / 2) + (if Bit(op, a % 2 == 1, b % 2 == 1) then 1 else 0)
  }

  function BitAnd(a: nat, b: nat): nat { Bitwise(And, a, b) }

  function BitOr(a: nat, b: nat): nat { Bitwise(Or, a, b) }

  /** `a & !b`. */
  function BitClear(a: nat, b: nat): nat { Bitwise(AndNot, a, b) }

  lemma Step(op: Op, a: nat, b: nat)
    ensures Bitwise(op, a, b) == 2 * Bitwise(op, a / 2, b / 2) + (if Bit(op, a % 2 == 1, b % 2 == 1) then 1 else 0)
  {
  }

  lemma DivModUnique(a: nat, n: nat, q: nat, r: nat)
    requires n > 0 && a == q * n + r && r < n
    ensures a / n == q && a % n == r
  {
    var d := a / n - q;
    assert d * n == r - a % n;
  }

  /** Dividing by `2 * n` is halving and then dividing by `n`. */
  lemma HalveDivision(a: nat, n: nat)
    requires n > 0
    ensures a / (2 * n) == a / 2 / n
    ensures a % (2 * n) == 2 * (a / 2 % n) + a % 2
  {
    var q, r := a / 2 / n, a / 2 % n;
    assert a / 2 == q * n + r;
    assert a == q * (2 * n) + (2 * r + a % 2);
    DivModUnique(a, 2 * n, q, 2 * r + a % 2);
  }

  lemma {:induction false} Identities(a: nat)
    ensures BitAnd(a, 0) == 0 && BitAnd(0, a) == 0
    ensures BitOr(a, 0) == a && BitOr(0, a) == a
    ensures BitClear(a, 0) == a && BitClear(0, a) == 0
  {
    if a > 0 { Identities(a / 2); }
  }

  lemma {:induction false} AndOnes(m: nat, a: nat)
    ensures BitAnd(a, Pow2(m) - 1) == a % Pow2(m)
  {
    if m == 0 {
      Identities(a);
    } else {
      assert (Pow2(m) - 1) / 2 == Pow2(m - 1) - 1 && (Pow2(m) - 1) % 2 == 1;
      HalveDivision(a, Pow2(m - 1));
      AndOnes(m - 1, a / 2);
    }
  }

  function Shl(a: nat, k: nat): nat {
    if k == 0 then a else 2 * Shl(a, k - 1)
  }

  lemma {:induction false} ShlIsTimes(a: nat, k: nat)
    ensures Shl(a, k) == a * Pow2(k)
  {
    if k > 0 {
      ShlIsTimes(a, k - 1);
      assert 2 * (a * Pow2(k - 1)) == a * Pow2(k);
    }
  }

  /** A mask of `m` ones starting at bit `k` keeps that field and nothing else. */
  lemma {:induction false} AndField(k: nat, m: nat, a: nat)
    ensures BitAnd(a, Shl(Pow2(m) - 1, k)) == Shl(a / Pow2(k) % Pow2(m), k)
  {
    if k == 0 {
      AndOnes(m, a);
    } else {
      HalveDivision(a, Pow2(k - 1));
      AndField(k - 1, m, a / 2);
      assert Shl(Pow2(m) - 1, k) / 2 == Shl(Pow2(m) - 1, k - 1);
    }
  }

  /** Flag bits below bit `k` combine among themselves and leave the rest of the word alone. */
  lemma {:induction false} LowBitsOnly(op: Op, k: nat, a: nat, low: nat, mask: nat)
    requires op != And
    requires a % Pow2(k) == 0 && low < Pow2(k) && mask < Pow2(k)
    ensures Bitwise(op, a + low, mask) == a + Bitwise(op, low, mask)
  {
    if k == 0 {
      Identities(a);
    } else {
      HalveDivision(a, Pow2(k - 1));
      assert (a + low) / 2 == a / 2 + low / 2;
      LowBitsOnly(op, k - 1, a / 2, low / 2, mask / 2);
    }
  }
}
