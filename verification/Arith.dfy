/** Division, powers of two and the bitwise and of unsigned numbers. */
module Arith {

  lemma {:induction false} AtLeastOnce(q: int, b: nat)
    requires q >= 1
    ensures q * b >= b
  {
    if q > 1 { AtLeastOnce(q - 1, b); }
  }

  lemma DivModUnique(a: int, b: int, q: int, r: int)
    requires b > 0 && a == q * b + r && 0 <= r < b
    ensures a / b == q && a % b == r
  {
    var d := a / b - q;
    assert a == (a / b) * b + a % b;
    assert d * b == r - a % b by { assert d * b == (a / b) * b - q * b; }
    if d >= 1 { AtLeastOnce(d, b); }
  }

  lemma Multiples(q: nat, b: nat)
    requires b > 0
    ensures (q * b) / b == q && (q * b) % b == 0
  {
    DivModUnique(q * b, b, q, 0);
  }

  lemma Quotient(x: nat, b: nat)
    requires b > 0
    ensures x - x % b == (x / b) * b <= x
    ensures x / b > 0 <==> x >= b
  {
    assert x == (x / b) * b + x % b;
  }

  lemma {:induction false} MulMonotone(a: nat, b: nat, c: nat)
    requires a <= b
    ensures a * c <= b * c
  {
    if a < b { MulMonotone(a, b - 1, c); assert b * c == (b - 1) * c + c; }
  }

  function Pow2(k: nat): (p: nat)
    ensures p > 0
  {
    if k == 0 then 1 else 2 * Pow2(k - 1)
  }

  /** Bitwise and. */
  function And(a: nat, b: nat): nat
    decreases a
  {
    if a == 0 || b == 0 then 0 else 2 * And(a / 2, b / 2) + (a % 2) * (b % 2)
  }

  lemma LowBits(x: nat, half: nat, p: nat)
    requires half > 0 && p == 2 * half
    ensures x % p == 2 * ((x / 2) % half) + x % 2
  {
    var q, r := (x / 2) / half, (x / 2) % half;
    assert x / 2 == q * half + r;
    assert q * (2 * half) == 2 * (q * half);
    DivModUnique(x, 2 * half, q, 2 * r + x % 2);
  }

  lemma {:induction false} Pow2Monotone(k: nat, w: nat)
    requires k <= w
    ensures Pow2(k) <= Pow2(w)
  {
    if k < w { Pow2Monotone(k, w - 1); }
  }

  /** x without its k low bits. */
  function ClearLow(x: nat, k: nat): nat {
    if k == 0 then x else 2 * ClearLow(x / 2, k - 1)
  }

  lemma {:induction false} ClearLowIsRoundDown(x: nat, k: nat)
    ensures ClearLow(x, k) == x - x % Pow2(k)
  {
    if k > 0 {
      ClearLowIsRoundDown(x / 2, k - 1);
      var h, p := Pow2(k - 1), Pow2(k);
      assert p == 2 * h;
      LowBits(x, h, p);
    }
  }

  /** The w-bit complement of Pow2(k) - 1 clears the low k bits. */
  lemma {:induction false} AndClearsLowBits(x: nat, k: nat, w: nat)
    requires k <= w && x < Pow2(w)
    ensures Pow2(k) <= Pow2(w) && And(x, Pow2(w) - Pow2(k)) == ClearLow(x, k)
  {
    Pow2Monotone(k, w);
    if k == 0 {
      AndAllOnes(x, w);
    } else if k < w {
      AndClearsLowBits(x / 2, k - 1, w - 1);
      AndEven(x, Pow2(w - 1) - Pow2(k - 1));
    } else {
      BelowPow2(x, k);
    }
  }

  lemma {:induction false} BelowPow2(x: nat, k: nat)
    requires x < Pow2(k)
    ensures ClearLow(x, k) == 0
  {
    if k > 0 { BelowPow2(x / 2, k - 1); }
  }

  lemma AndEven(x: nat, m: nat)
    ensures And(x, 2 * m) == 2 * And(x / 2, m)
  {
    assert (2 * m) / 2 == m && (2 * m) % 2 == 0;
  }

  lemma {:induction false} AndAllOnes(x: nat, w: nat)
    requires x < Pow2(w)
    ensures And(x, Pow2(w) - 1) == x
  {
    if w > 0 && x > 0 {
      AndAllOnes(x / 2, w - 1);
      assert (Pow2(w) - 1) / 2 == Pow2(w - 1) - 1 && (Pow2(w) - 1) % 2 == 1;
    }
  }
}
