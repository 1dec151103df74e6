/** Bytes and Python's `^` on non-negative integers. */
module Bits {

  type byte = x: int | 0 <= x < 256

  function Pow2(n: nat): (p: nat)
    ensures p > 0
  {
    if n == 0 then 1 else 2 * Pow2(n - 1)
  }

  /** Bitwise exclusive or of two non-negative integers, bit by bit from the low end. */
  function Xor(a: nat, b: nat): nat
    decreases a + b
  {
    if a == 0 && b == 0 then 0 else (a + b) % 2 + 2 * Xor(a / 2, b / 2)
  }

  /** The low bit of `a ^ b` is the parity of `a + b`; the rest is the xor of the halves. */
  lemma {:induction false} XorSplit(a: nat, b: nat)
    ensures Xor(a, b) % 2 == (a + b) % 2
    ensures Xor(a, b) / 2 == Xor(a / 2, b / 2)
  {
    if a != 0 || b != 0 {
      var h := Xor(a / 2, b / 2);
      assert Xor(a, b) == (a + b) % 2 + 2 * h;
    }
  }

  lemma {:induction false} XorZero(a: nat)
    ensures Xor(a, 0) == a
  {
    if a != 0 {
      XorZero(a / 2);
    }
  }

  /** `(a ^ b) ^ b == a`. */
  lemma {:induction false} XorSelfInverse(a: nat, b: nat)
    ensures Xor(Xor(a, b), b) == a
    decreases a + b
  {
    if a != 0 || b != 0 {
      var x := Xor(a, b);
      var y := Xor(x, b);
      XorSplit(a, b);
      XorSplit(x, b);
      XorSelfInverse(a / 2, b / 2);
      ParityCancel(a, b, x);
      HalvesDetermine(y, a);
    }
  }

  lemma ParityCancel(a: nat, b: nat, x: nat)
    requires x % 2 == (a + b) % 2
    ensures (x + b) % 2 == a % 2
  {
  }

  lemma HalvesDetermine(x: nat, y: nat)
    requires x / 2 == y / 2 && x % 2 == y % 2
    ensures x == y
  {
  }

  /** Two values below `2^n` have their exclusive or below `2^n`. */
  lemma {:induction false} XorBounded(a: nat, b: nat, n: nat)
    requires a < Pow2(n) && b < Pow2(n)
    ensures Xor(a, b) < Pow2(n)
  {
    if n > 0 && (a != 0 || b != 0) {
      XorBounded(a / 2, b / 2, n - 1);
    }
  }

  /** `x` shifted right by `n` bits, Python's `x >> n`. */
  function Shr(x: nat, n: nat): nat {
    if n == 0 then x else Shr(x / 2, n - 1)
  }

  /** Exclusive or with a value below `2^n` leaves every bit from `n` upward alone. */
  lemma {:induction false} XorKeepsHighBits(a: nat, b: nat, n: nat)
    requires b < Pow2(n)
    ensures Shr(Xor(a, b), n) == Shr(a, n)
  {
    if n == 0 {
      XorZero(a);
    } else {
      XorSplit(a, b);
      XorKeepsHighBits(a / 2, b / 2, n - 1);
    }
  }

  lemma ShrSeven(x: nat)
    ensures Shr(x, 7) == x / 128
  {
    var x1 := x / 2;
    var x2 := x1 / 2;
    var x3 := x2 / 2;
    var x4 := x3 / 2;
    var x5 := x4 / 2;
    var x6 := x5 / 2;
    assert Shr(x6, 1) == x6 / 2;
    assert Shr(x5, 2) == Shr(x6, 1);
    assert Shr(x4, 3) == Shr(x5, 2);
    assert Shr(x3, 4) == Shr(x4, 3);
    assert Shr(x2, 5) == Shr(x3, 4);
    assert Shr(x1, 6) == Shr(x2, 5);
    assert Shr(x, 7) == Shr(x1, 6);
  }
}
