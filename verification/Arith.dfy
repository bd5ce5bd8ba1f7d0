/** Small facts of nonlinear arithmetic, each proved once. */
module Arith {

  lemma MulGe(d: nat, q: nat)
    requires d >= 1
    ensures d * q >= q
  {}

  lemma MulNonNeg(a: nat, b: nat)
    ensures a * b >= 0
  {}

  lemma DivMod(a: int, d: int)
    requires d > 0
    ensures a == d * (a / d) + a % d && 0 <= a % d < d
  {}

  lemma DivNonNeg(a: nat, d: nat)
    requires d > 0
    ensures a / d >= 0
  {}

  lemma DivShrinks(a: nat, d: nat)
    requires d > 0
    ensures 0 <= a / d <= a
  {
    DivMod(a, d);
    DivNonNeg(a, d);
    MulGe(d, a / d);
  }

  // ---------- Powers of two ----------

  function Pow2(n: nat): (p: nat)
    ensures p >= 1
  {
    if n == 0 then 1 else 2 * Pow2(n - 1)
  }

  lemma {:induction false} Pow2Add(a: nat, b: nat)
    ensures Pow2(a + b) == Pow2(a) * Pow2(b)
  {
    if a > 0 { Pow2Add(a - 1, b); MulAssoc(2, Pow2(a - 1), Pow2(b)); }
  }

  lemma Pow2Next(n: nat)
    ensures Pow2(n + 1) == 2 * Pow2(n) && Pow2(0) == 1
  {}

  lemma {:induction false} Pow2Grows(a: nat, b: nat)
    requires a < b
    ensures Pow2(a) < Pow2(b)
  {
    if a < b - 1 { Pow2Grows(a, b - 1); }
  }

  lemma MulAssoc(a: int, b: int, c: int)
    ensures (a * b) * c == a * (b * c)
  {}

  lemma MulDist(a: int, b: int, c: int)
    ensures (a + b) * c == a * c + b * c && a * (b + c) == a * b + a * c
  {}

  lemma MulLe(a: int, b: int, c: nat)
    requires a <= b
    ensures a * c <= b * c
  {}

  lemma MulLt(a: int, b: int, c: int)
    requires a < b && c > 0
    ensures a * c < b * c
  {}

  /** The quotient and the remainder are the only decomposition. */
  lemma DivUnique(a: int, d: int, q: int, r: int)
    requires d > 0 && a == q * d + r && 0 <= r < d
    ensures a / d == q && a % d == r
  {
    DivMod(a, d);
    if a / d < q { MulLe(a / d + 1, q, d); MulDist(a / d, 1, d); }
    if a / d > q { MulLe(q + 1, a / d, d); MulDist(q, 1, d); }
  }

  // ---------- Powers ----------

  function Pow(b: nat, n: nat): nat {
    if n == 0 then 1 else MulNonNeg(b, Pow(b, n - 1)); b * Pow(b, n - 1)
  }

  lemma {:induction false} PowPositive(b: nat, n: nat)
    requires b >= 1
    ensures Pow(b, n) >= 1
  {
    if n > 0 { PowPositive(b, n - 1); MulLe(1, b, Pow(b, n - 1)); }
  }

  lemma {:induction false} PowAdd(b: nat, m: nat, n: nat)
    ensures Pow(b, m + n) == Pow(b, m) * Pow(b, n)
  {
    if m > 0 {
      PowAdd(b, m - 1, n);
      MulAssoc(b, Pow(b, m - 1), Pow(b, n));
    }
  }

  lemma {:induction false} PowTimes(b: nat, m: nat, n: nat)
    ensures m * n >= 0 && Pow(b, m * n) == Pow(Pow(b, m), n)
  {
    MulNonNeg(m, n);
    if n > 0 {
      PowTimes(b, m, n - 1);
      MulDist(m, n - 1, 1);
      assert m * n == m + m * (n - 1);
      PowAdd(b, m, m * (n - 1));
    }
  }

  lemma {:induction false} PowBase(a: nat, b: nat, n: nat)
    requires a <= b
    ensures Pow(a, n) <= Pow(b, n)
  {
    if n > 0 {
      PowBase(a, b, n - 1);
      MulLe(a, b, Pow(a, n - 1));
      MulLe(Pow(a, n - 1), Pow(b, n - 1), b);
    }
  }

  lemma {:induction false} PowBaseStrict(a: nat, b: nat, n: nat)
    requires a < b && n > 0
    ensures Pow(a, n) < Pow(b, n)
  {
    PowBase(a, b, n - 1);
    PowPositive(b, n - 1);
    MulLt(a, b, Pow(b, n - 1));
    MulLe(Pow(a, n - 1), Pow(b, n - 1), a);
  }

  lemma PowGrows(b: nat, m: nat, n: nat)
    requires b >= 1 && m <= n
    ensures Pow(b, m) <= Pow(b, n)
  {
    hide Pow;
    PowAdd(b, m, n - m);
    PowPositive(b, n - m);
    MulGe(Pow(b, n - m), Pow(b, m));
  }
}
