/** Machine words as natural numbers: exclusive or, trailing zeros, powers of two. */
module Bits {

  function Pow2(k: nat): (r: nat)
    ensures r >= 1
  {
    if k == 0 then 1 else 2 * Pow2(k - 1)
  }

  function Xor(a: nat, b: nat): nat
    decreases a + b
  {
    if a == 0 && b == 0 then 0 else (a % 2 + b % 2) % 2 + 2 * Xor(a / 2, b / 2)
  }

  /** Number of trailing zero bits. */
  function Ctz(x: nat): nat
    requires x > 0
  {
    if x % 2 == 1 then 0 else 1 + Ctz(x / 2)
  }

  lemma {:induction false} XorSelf(a: nat)
    ensures Xor(a, a) == 0
  {
    if a > 0 {
      XorSelf(a / 2);
    }
  }

  lemma {:induction false} XorZeroIffEqual(a: nat, b: nat)
    ensures Xor(a, b) == 0 <==> a == b
    decreases a + b
  {
    if a > 0 || b > 0 {
      XorZeroIffEqual(a / 2, b / 2);
    }
  }

  lemma XorStep(a: nat, b: nat)
    ensures Xor(a, b) == (a % 2 + b % 2) % 2 + 2 * Xor(a / 2, b / 2)
  {
  }

  lemma {:induction false} XorHalf(a: nat, b: nat)
    ensures Xor(a, b) % 2 == (a % 2 + b % 2) % 2
    ensures Xor(a, b) / 2 == Xor(a / 2, b / 2)
  {
    hide Xor;
    XorStep(a, b);
    Halved((a % 2 + b % 2) % 2, Xor(a / 2, b / 2));
  }

  lemma Halved(bit: nat, z: nat)
    requires bit < 2
    ensures (bit + 2 * z) % 2 == bit && (bit + 2 * z) / 2 == z
  {
  }

  /** Applying the same mask twice undoes it. */
  lemma {:induction false} XorCancel(a: nat, b: nat)
    ensures Xor(Xor(a, b), b) == a
    decreases a + b
  {
    if a > 0 || b > 0 {
      var x := Xor(a, b);
      XorHalf(a, b);
      XorHalf(x, b);
      XorCancel(a / 2, b / 2);
      hide Xor;
      assert Xor(x / 2, b / 2) == a / 2;
      Parity(a % 2, b % 2);
    }
  }

  lemma Parity(p: nat, q: nat)
    requires p < 2 && q < 2
    ensures ((p + q) % 2 + q) % 2 == p
  {
  }

  lemma Pow2Mul(k: nat, a: nat)
    ensures Pow2(k + 1) * a == 2 * (Pow2(k) * a)
  {
    assert Pow2(k + 1) == 2 * Pow2(k);
    assert (2 * Pow2(k)) * a == 2 * (Pow2(k) * a);
  }

  /** Low and high parts are combined independently. */
  lemma {:induction false} XorSplit(a: nat, b: nat, c: nat, d: nat, k: nat)
    requires c < Pow2(k) && d < Pow2(k)
    ensures Xor(Pow2(k) * a + c, Pow2(k) * b + d) == Pow2(k) * Xor(a, b) + Xor(c, d)
    ensures Xor(c, d) < Pow2(k)
    decreases k
  {
    hide Pow2;
    hide Xor;
    Pow2Step(k);
    if k == 0 {
      XorZero();
    } else {
      var p := Pow2(k - 1);
      HalfOf(a, c, k);
      HalfOf(b, d, k);
      Pow2Mul(k - 1, Xor(a, b));
      XorSplit(a, b, c / 2, d / 2, k - 1);
      XorJoin(Pow2(k) * a + c, Pow2(k) * b + d, p * a + c / 2, p * b + d / 2, p * Xor(a, b), c, d);
    }
  }

  lemma Pow2Step(k: nat)
    ensures Pow2(k) == if k == 0 then 1 else 2 * Pow2(k - 1)
  {
  }

  lemma XorZero()
    ensures Xor(0, 0) == 0
  {
  }

  lemma XorJoin(x: nat, y: nat, u: nat, v: nat, h: nat, c: nat, d: nat)
    requires x / 2 == u && y / 2 == v && x % 2 == c % 2 && y % 2 == d % 2
    requires Xor(u, v) == h + Xor(c / 2, d / 2)
    ensures Xor(x, y) == 2 * h + Xor(c, d) && Xor(c, d) <= 2 * Xor(c / 2, d / 2) + 1
  {
    hide Xor;
    hide Odd;
    XorParts(x, y, c % 2, d % 2, u, v);
    XorParts(c, d, c % 2, d % 2, c / 2, d / 2);
  }

  function Odd(p: nat, q: nat): (r: nat)
    ensures r < 2
  {
    (p + q) % 2
  }

  lemma XorParts(a: nat, b: nat, p: nat, q: nat, u: nat, v: nat)
    requires a % 2 == p && b % 2 == q && a / 2 == u && b / 2 == v
    ensures Xor(a, b) == Odd(p, q) + 2 * Xor(u, v)
  {
    hide Xor;
    XorStep(a, b);
  }

  lemma HalfOf(a: nat, c: nat, k: nat)
    requires k > 0
    ensures (Pow2(k) * a + c) / 2 == Pow2(k - 1) * a + c / 2
    ensures (Pow2(k) * a + c) % 2 == c % 2
  {
    Pow2Mul(k - 1, a);
  }

  lemma {:induction false} CtzSplit(a: nat, c: nat, k: nat)
    requires c < Pow2(k) && Pow2(k) * a + c > 0
    ensures c > 0 ==> Ctz(Pow2(k) * a + c) == Ctz(c) < k
    ensures c == 0 ==> a > 0 && Ctz(Pow2(k) * a + c) == k + Ctz(a)
    decreases k
  {
    if k > 0 {
      HalfOf(a, c, k);
      if c % 2 == 0 {
        CtzSplit(a, c / 2, k - 1);
      }
    }
  }

  lemma XorByte(a: nat, b: nat, c: nat, d: nat)
    requires c < 256 && d < 256
    ensures Xor(256 * a + c, 256 * b + d) == 256 * Xor(a, b) + Xor(c, d)
    ensures Xor(c, d) < 256
  {
    assert Pow2(8) == 256;
    XorSplit(a, b, c, d, 8);
  }

  lemma CtzByte(a: nat, c: nat)
    requires c < 256 && 256 * a + c > 0
    ensures c > 0 ==> Ctz(256 * a + c) < 8
    ensures c == 0 ==> a > 0 && Ctz(256 * a + c) == 8 + Ctz(a)
  {
    assert Pow2(8) == 256;
    CtzSplit(a, c, 8);
  }

  lemma DivMod(i: nat, d: nat, D: nat)
    requires d < D
    ensures (D * i + d) / D == i && (D * i + d) % D == d
  {
    var x := D * i + d;
    assert x == D * (x / D) + x % D;
    if x / D < i {
      MulLe(x / D, i - 1, D);
    } else if x / D > i {
      MulLe(i + 1, x / D, D);
    }
  }

  lemma MulLe(a: int, b: int, D: nat)
    requires a <= b
    ensures D * a <= D * b && a * D <= b * D
  {
    assert D * (b - a) >= 0;
    assert D * b - D * a == D * (b - a);
  }
}
