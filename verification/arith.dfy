/** Integer facts about powers, division and remainder used by the digit arithmetic. */
module Arith {

  /** b raised to the e-th power. */
  function Pow(b: int, e: nat): (r: int)
    ensures b > 0 ==> r > 0
  {
    if e == 0 then 1 else b * Pow(b, e - 1)
  }

  lemma MulAssociates(a: int, b: int, c: int)
    ensures a * (b * c) == (a * b) * c
  {
  }

  lemma MulCommutes(a: int, b: int)
    ensures a * b == b * a
  {
  }

  lemma {:induction false} PowAdd(b: int, e1: nat, e2: nat)
    ensures Pow(b, e1 + e2) == Pow(b, e1) * Pow(b, e2)
    decreases e2
  {
    if e2 > 0 {
      var x, y := Pow(b, e1), Pow(b, e2 - 1);
      PowAdd(b, e1, e2 - 1);
      assert Pow(b, e1 + e2) == b * (x * y);
      MulAssociates(b, x, y);
      MulCommutes(b, x);
      MulAssociates(x, b, y);
      assert Pow(b, e2) == b * y;
    }
  }

  lemma MulLeft(k: int, a: int, b: int)
    requires k >= 0 && a <= b
    ensures k * a <= k * b
  {
  }

  lemma {:induction false} PowMonotone(b: int, e1: nat, e2: nat)
    requires b >= 1 && e1 <= e2
    ensures Pow(b, e1) <= Pow(b, e2)
    decreases e2
  {
    if e1 < e2 {
      PowMonotone(b, e1, e2 - 1);
      var y := Pow(b, e2 - 1);
      assert Pow(b, e2) == b * y;
      MulLeft(y, 1, b);
      MulCommutes(y, b);
    }
  }

  lemma PowTenFour()
    ensures Pow(10, 4) == 10000
  {
  }

  /** At most four decimal digits stay below ten thousand. */
  lemma PowTenAtMostFour(e: nat)
    requires e <= 4
    ensures Pow(10, e) <= 10000
  {
    PowMonotone(10, e, 4);
    PowTenFour();
  }

  /** A power of ten thousand is a power of ten with four times the exponent. */
  lemma {:induction false} PowTenThousand(i: nat)
    ensures Pow(10000, i) == Pow(10, 4 * i)
  {
    if i > 0 {
      PowTenThousand(i - 1);
      PowAdd(10, 4, 4 * (i - 1));
      assert Pow(10, 4) == 10000;
      assert 4 + 4 * (i - 1) == 4 * i;
    }
  }

  lemma MulAtLeast(k: int, m: int)
    requires k >= 1 && m > 0
    ensures k * m >= m
  {
    MulLeft(m, 1, k);
    MulCommutes(m, k);
  }

  lemma MulSubtract(a: int, b: int, m: int)
    ensures a * m - b * m == (a - b) * m
  {
  }

  /** Quotient and remainder are determined by n == q * m + r with 0 <= r < m. */
  lemma DivModUnique(n: int, m: int, q: int, r: int)
    requires m > 0 && 0 <= r < m && n == q * m + r
    ensures n / m == q && n % m == r
  {
    var q', r' := n / m, n % m;
    assert n == q' * m + r';
    MulSubtract(q, q', m);
    MulSubtract(q', q, m);
    if q' < q {
      MulAtLeast(q - q', m);
    } else if q' > q {
      MulAtLeast(q' - q, m);
    }
  }

  /** Dividing by a then by b is dividing by a * b. */
  lemma DivDiv(n: int, a: int, b: int)
    requires n >= 0 && a > 0 && b > 0
    ensures n / a / b == n / (a * b)
  {
    var q, r := n / a, n % a;
    var q2, r2 := q / b, q % b;
    assert n == q * a + r;
    assert q == q2 * b + r2;
    DivDivAlgebra(a, b, q2, r2, r);
    DivModUnique(n, a * b, q2, a * r2 + r);
  }

  lemma DivDivAlgebra(a: int, b: int, q2: int, r2: int, r: int)
    requires a > 0 && 0 <= r2 < b && 0 <= r < a
    ensures (q2 * b + r2) * a + r == q2 * (a * b) + (a * r2 + r)
    ensures 0 <= a * r2 + r < a * b
  {
    MulLeft(a, r2, b - 1);
    assert a * (b - 1) == a * b - a;
  }

  /** A number below the modulus is its own remainder and has quotient zero. */
  lemma SmallDivMod(n: int, m: int)
    requires 0 <= n < m
    ensures n / m == 0 && n % m == n
  {
    DivModUnique(n, m, 0, n);
  }

  lemma MulCongruent(k: int, a: int, b: int)
    requires a == b
    ensures k * a == k * b
  {
  }

  /** k * a + k == k * (a + 1). */
  lemma MulStep(k: int, a: int)
    ensures k * a + k == k * (a + 1)
  {
  }

  /** The j-th decimal digit of n (j = 0 for the ones), by repeated division by ten. */
  function DigitAt(n: nat, j: nat): (d: int)
    ensures 0 <= d <= 9
  {
    if j == 0 then n % 10 else DigitAt(n / 10, j - 1)
  }

  /** The j-th decimal digit is (n / 10^j) % 10. */
  lemma {:induction false} DigitAtPow(n: nat, j: nat)
    ensures DigitAt(n, j) == (n / Pow(10, j)) % 10
  {
    if j > 0 {
      DigitAtPow(n / 10, j - 1);
      var p := Pow(10, j - 1);
      assert Pow(10, j) == 10 * p;
      DivDiv(n, 10, p);
    }
  }

  /** Every digit at or above the length of n's spelling is zero. */
  lemma {:induction false} DigitAtBeyond(n: nat, j: nat)
    requires n < Pow(10, j)
    ensures DigitAt(n, j) == 0
  {
    if j > 0 {
      assert Pow(10, j) == 10 * Pow(10, j - 1);
      DigitAtBeyond(n / 10, j - 1);
    }
  }
}
