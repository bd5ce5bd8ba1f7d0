/**
 The number a little-endian sequence of 32-bit limbs stands for, and what single steps of carry propagation do to
 it.  Bitwise `|` on naturals is defined here and is addition where no bit overlaps.
 */
module Limbs {
  import opened Arith

  const BASE := 0x1_0000_0000

  predicate Bounded(s: seq<nat>) {
    forall i :: 0 <= i < |s| ==> s[i] < BASE
  }

  /** The weight of limb `i`. */
  function W(i: nat): (p: nat)
    ensures p >= 1
  {
    Pow2(32 * i)
  }

  function Val(s: seq<nat>): nat {
    if s == [] then 0 else Val(s[..|s| - 1]) + s[|s| - 1] * W(|s| - 1)
  }

  lemma Pow2Of32()
    ensures Pow2(8) == 0x100 && Pow2(16) == 0x1_0000 && Pow2(24) == 0x100_0000 && Pow2(32) == BASE
  {
    assert Pow2(4) == 16;
    Pow2Add(4, 4);
    Pow2Add(8, 8);
    Pow2Add(8, 16);
    Pow2Add(16, 16);
  }

  lemma WNext(i: nat)
    ensures W(i + 1) == BASE * W(i)
  {
    Pow2Add(32, 32 * i);
    Pow2Of32();
    assert 32 * (i + 1) == 32 + 32 * i;
  }

  lemma WAdd(i: nat, j: nat)
    ensures W(i + j) == W(i) * W(j)
  {
    Pow2Add(32 * i, 32 * j);
  }

  lemma ValNext(s: seq<nat>, i: nat)
    requires i < |s|
    ensures Val(s[..i + 1]) == Val(s[..i]) + s[i] * W(i)
  {
    assert s[..i + 1][..i] == s[..i];
  }

  lemma {:induction false} ValBound(s: seq<nat>)
    requires Bounded(s)
    ensures Val(s) < W(|s|)
  {
    if s != [] {
      var n := |s| - 1;
      ValBound(s[..n]);
      WNext(n);
      MulLe(s[n], BASE - 1, W(n));
      MulDist(BASE - 1, 1, W(n));
    }
  }

  /** Changing one limb changes the value by the difference times its weight. */
  lemma {:induction false} ValUpdate(s: seq<nat>, i: nat, v: nat)
    requires i < |s|
    ensures Val(s[i := v]) == Val(s) + (v - s[i]) * W(i)
  {
    var n, t := |s| - 1, s[i := v];
    if i == n {
      assert t[..n] == s[..n];
      MulDist(v - s[i], s[i], W(i));
    } else {
      ValUpdate(s[..n], i, v);
      assert t[..n] == s[..n][i := v];
    }
  }

  lemma Factor(c: int, v: int, x: int, y: int)
    ensures c * (v + x * y) == c * v + x * (c * y)
  {}

  /** The value splits at any limb. */
  lemma {:induction false} ValSplit(s: seq<nat>, k: nat)
    requires k <= |s|
    ensures Val(s) == Val(s[..k]) + W(k) * Val(s[k..])
  {
    if k == |s| {
      assert s[..k] == s;
    } else {
      var n := |s| - 1;
      ValSplit(s[..n], k);
      assert s[..n][..k] == s[..k] && s[..n][k..] == s[k..][..n - k];
      WAdd(k, n - k);
      Factor(W(k), Val(s[k..][..n - k]), s[n], W(n - k));
    }
  }

  lemma {:induction false} ValZeros(k: nat)
    ensures Val(seq(k, _ => 0)) == 0
  {
    if k > 0 {
      ValZeros(k - 1);
      assert seq(k, _ => 0)[..k - 1] == seq(k - 1, _ => 0);
    }
  }

  /** Splitting a sum into digit and carry keeps it. */
  lemma Carry(n: nat, i: nat)
    ensures (n % BASE) * W(i) + (n / BASE) * W(i + 1) == n * W(i)
  {
    WNext(i);
    var d, c, w := n % BASE, n / BASE, W(i);
    MulAssoc(c, BASE, w);
    MulDist(d, c * BASE, w);
  }

  /** The value of `n` limbs is the sum modulo the weight of limb `n`. */
  lemma Wraps(v: nat, q: int, m: nat, total: int)
    requires v < m && total == v + q * m
    ensures total % m == v
  {
    DivUnique(total, m, q, v);
  }

  // ---------- Bitwise or ----------

  function Or(a: nat, b: nat): nat {
    if a == 0 then b else if b == 0 then a
    else 2 * Or(a / 2, b / 2) + (if a % 2 == 1 || b % 2 == 1 then 1 else 0)
  }

  lemma {:induction false} OrIsAdd(a: nat, b: nat, k: nat)
    requires a < Pow2(k) && b % Pow2(k) == 0
    ensures Or(a, b) == a + b
  {
    if a > 0 && b > 0 {
      var h, q := Pow2(k - 1), b / Pow2(k);
      DivMod(b, Pow2(k));
      MulAssoc(2, h, q);
      assert b == 2 * (h * q);
      DivUnique(h * q, h, q, 0);
      OrIsAdd(a / 2, b / 2, k - 1);
    }
  }

  lemma {:induction false} OrCommutes(a: nat, b: nat)
    ensures Or(a, b) == Or(b, a)
  {
    if a > 0 && b > 0 { OrCommutes(a / 2, b / 2); }
  }

  /** Setting a bit that is clear adds its value. */
  lemma {:induction false} OrBit(c: nat, k: nat)
    requires (c / Pow2(k)) % 2 == 0
    ensures Or(c, Pow2(k)) == c + Pow2(k)
  {
    if k > 0 && c > 0 {
      HalfDiv(c, Pow2(k - 1));
      OrBit(c / 2, k - 1);
    }
  }

  lemma HalfDiv(c: nat, p: nat)
    requires p > 0
    ensures c / (2 * p) == (c / 2) / p
  {
    var q, r := (c / 2) / p, (c / 2) % p;
    DivMod(c / 2, p);
    assert q * (2 * p) == 2 * (p * q);
    DivUnique(c, 2 * p, q, 2 * r + c % 2);
  }
}
