/** Powers of two. */
module Bits {
  function Pow2(n: nat): (p: nat)
    ensures p > 0
  {
    if n == 0 then 1 else 2 * Pow2(n - 1)
  }

  lemma {:induction false} Pow2Add(m: nat, n: nat)
    ensures Pow2(m + n) == Pow2(m) * Pow2(n)
  {
    if m > 0 {
      Pow2Add(m - 1, n);
      DoubleProduct(Pow2(m - 1), Pow2(n));
    }
  }

  lemma DoubleProduct(a: nat, b: nat)
    ensures 2 * (a * b) == (2 * a) * b
  {
  }

  lemma Pow2Plus7(n: nat)
    ensures Pow2(n + 7) == 128 * Pow2(n)
  {
    Pow2Add(n, 7);
    assert Pow2(7) == 128 by {
      assert Pow2(3) == 8;
      assert Pow2(5) == 4 * Pow2(3);
      assert Pow2(7) == 4 * Pow2(5);
    }
  }

  lemma {:induction false} Pow2Monotone(m: nat, n: nat)
    requires m <= n
    ensures Pow2(m) <= Pow2(n)
  {
    if m < n {
      Pow2Monotone(m, n - 1);
    }
  }

  /** The low seven bits of `b` put above the `shift` bits of `out`. */
  function WithBits(out: nat, b: nat, shift: nat): nat {
    out + b % 128 * Pow2(shift)
  }

  /** Putting seven more bits above `out`. */
  lemma Shift7(out: nat, low: nat, tail: nat, scale: nat)
    requires out < scale && low < 128
    ensures 0 <= low * scale && out + low * scale < 128 * scale
    ensures out + (low + 128 * tail) * scale == out + low * scale + tail * (128 * scale)
  {
    assert low * scale <= 127 * scale;
  }

  function ShiftRight(x: nat, n: nat): nat {
    if n == 0 then x else ShiftRight(x / 2, n - 1)
  }

  function ShiftLeft(x: nat, n: nat): nat {
    if n == 0 then x else 2 * ShiftLeft(x, n - 1)
  }

  /** The low `n` bits of `x`. */
  function LowBits(x: nat, n: nat): nat {
    if n == 0 then 0 else x % 2 + 2 * LowBits(x / 2, n - 1)
  }

  lemma {:induction false} ShiftRightIs(x: nat, n: nat)
    ensures ShiftRight(x, n) == x / Pow2(n)
  {
    if n > 0 {
      ShiftRightIs(x / 2, n - 1);
      HalfAndPower(x, Pow2(n - 1));
    }
  }

  lemma {:induction false} ShiftLeftIs(x: nat, n: nat)
    ensures ShiftLeft(x, n) == x * Pow2(n)
  {
    if n > 0 {
      ShiftLeftIs(x, n - 1);
      DoubleProduct(Pow2(n - 1), x);
    }
  }

  lemma {:induction false} LowBitsAre(x: nat, n: nat)
    ensures LowBits(x, n) == x % Pow2(n)
  {
    if n > 0 {
      LowBitsAre(x / 2, n - 1);
      HalfAndPower(x, Pow2(n - 1));
    }
  }

  lemma Shifts(x: nat, n: nat)
    ensures ShiftRight(x, n) == x / Pow2(n) && ShiftLeft(x, n) == x * Pow2(n) && LowBits(x, n) == x % Pow2(n)
  {
    ShiftRightIs(x, n);
    ShiftLeftIs(x, n);
    LowBitsAre(x, n);
  }

  lemma Strict(a: nat, q: nat, m: nat, b: nat)
    requires a < q && b < m
    ensures a * m + b < q * m
  {
    var more := q - a - 1;
    assert q * m == a * m + m + more * m;
  }

  lemma DivUnique(x: nat, m: nat, q: nat, r: nat)
    requires m > 0 && x == q * m + r && r < m
    ensures x / m == q && x % m == r
  {
    var a, b := x / m, x % m;
    assert x == a * m + b;
    if a < q {
      Strict(a, q, m, b);
    } else if q < a {
      Strict(q, a, m, r);
    }
  }

  /** Dividing by twice a number is halving first. */
  lemma HalfAndPower(x: nat, p: nat)
    requires p > 0
    ensures x / (2 * p) == x / 2 / p && x % (2 * p) == x % 2 + 2 * (x / 2 % p)
  {
    var h := x / 2;
    var q, r := h / p, h % p;
    assert h == q * p + r;
    assert x == q * (2 * p) + (x % 2 + 2 * r);
    DivUnique(x, 2 * p, q, x % 2 + 2 * r);
  }
}
