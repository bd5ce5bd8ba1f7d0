/** What shifting limb by limb does to the value: multiplication and exact division by a power of two. */
module Shifts {
  import opened Arith
  import opened Limbs

  // ---------- Left ----------

  /** `(x << s)` in a 32-bit limb. */
  function LowPart(x: nat, s: nat): nat
    requires s < 32
  {
    (x * Pow2(s)) % BASE
  }

  /** The bits of `x << s` that spill into the next limb. */
  function HighPart(x: nat, s: nat): nat
    requires s < 32
  {
    if s == 0 then 0 else Rest(x, 32 - s)
  }

  function Spill(a: seq<nat>, s: nat, m: nat): nat
    requires s < 32 && m <= |a|
  {
    if m == 0 then 0 else HighPart(a[m - 1], s)
  }

  function ShlLimb(a: seq<nat>, s: nat, m: nat): nat
    requires s < 32 && m < |a|
  {
    Or(Spill(a, s, m), LowPart(a[m], s))
  }

  lemma Pow2Split(s: nat)
    requires s <= 32
    ensures Pow2(s) * Pow2(32 - s) == BASE
  {
    Pow2Add(s, 32 - s);
    Pow2Of32();
  }

  /** The two parts of a shifted limb make up the product; the low part leaves room for a spill. */
  lemma Parts(x: nat, s: nat)
    requires s < 32 && x < BASE
    ensures HighPart(x, s) * BASE + LowPart(x, s) == x * Pow2(s)
    ensures LowPart(x, s) % Pow2(s) == 0 && HighPart(x, s) < Pow2(s)
    ensures LowPart(x, s) == (x % Pow2(32 - s)) * Pow2(s)
  {
    hide Pow2;
    var p, q := Pow2(s), Pow2(32 - s);
    Pow2Split(s);
    Pow2Next(0);
    DivMod(x, q);
    DivNonNeg(x, q);
    if s == 0 { DivUnique(x, BASE, 0, x); }
    PartsAt(x, p, q, x / q, x % q);
  }

  lemma PartsAt(x: nat, p: nat, q: nat, h: nat, l: nat)
    requires p >= 1 && q >= 1 && p * q == BASE && x == q * h + l && l < q && x < BASE
    ensures (x * p) % BASE == l * p && h * BASE + l * p == x * p && (l * p) % p == 0 && h < p
  {
    MulDist(q * h, l, p);
    MulAssoc(h, q, p);
    assert x * p == h * BASE + l * p by { MulAssoc(q, h, p); }
    MulLt(l, q, p);
    DivUnique(x * p, BASE, h, l * p);
    DivUnique(l * p, p, l, 0);
    if h >= p { MulLe(p, h, q); assert false; }
  }

  lemma {:induction false} ShlPrefix(a: seq<nat>, s: nat, t: seq<nat>, i: nat)
    requires s < 32 && Bounded(a) && i <= |a| == |t| && forall m :: 0 <= m < |a| ==> t[m] == ShlLimb(a, s, m)
    ensures Val(t[..i]) + Spill(a, s, i) * W(i) == Val(a[..i]) * Pow2(s)
  {
    hide W, HighPart, LowPart;
    if i > 0 {
      var n := i - 1;
      ShlPrefix(a, s, t, n);
      Parts(a[n], s);
      if n > 0 { Parts(a[n - 1], s); }
      OrIsAdd(Spill(a, s, n), LowPart(a[n], s), s);
      ValNext(t, n);
      ValNext(a, n);
      WNext(n);
      ShlSum(Val(t[..n]), Spill(a, s, n), LowPart(a[n], s), HighPart(a[n], s), W(n), Val(a[..n]), a[n], Pow2(s));
    }
  }

  lemma ShlSum(v: int, sp: int, lo: int, hi: int, w: int, u: int, x: int, p: int)
    requires v + sp * w == u * p && hi * BASE + lo == x * p
    ensures v + (sp + lo) * w + hi * (BASE * w) == (u + x * w) * p
  {
    MulDist(sp, lo, w);
    MulAssoc(hi, BASE, w);
    MulDist(hi * BASE, lo, w);
    MulDist(u, x * w, p);
    MulAssoc(x, p, w);
    MulAssoc(x, w, p);
  }

  lemma ShlBounded(a: seq<nat>, s: nat, m: nat)
    requires s < 32 && Bounded(a) && m < |a|
    ensures ShlLimb(a, s, m) < BASE
  {
    hide HighPart, LowPart;
    Parts(a[m], s);
    if m > 0 { Parts(a[m - 1], s); }
    OrIsAdd(Spill(a, s, m), LowPart(a[m], s), s);
    var p, q := Pow2(s), Pow2(32 - s);
    Pow2Split(s);
    DivMod(a[m], q);
    MulLe(a[m] % q, q - 1, p);
    MulDist(q, -1, p);
  }

  /** The whole left shift: `k` limbs and `s` bits. */
  lemma {:induction false} ShlValue(a: seq<nat>, k: nat, s: nat, r: seq<nat>)
    requires s < 32 && Bounded(a) && |r| == |a| && Bounded(r)
    requires forall j :: 0 <= j < |r| ==> r[j] == if j < k then 0 else ShlLimb(a, s, j - k)
    ensures Val(r) == (Val(a) * Pow2(32 * k + s)) % W(|a|)
  {
    hide W, ShlLimb, Spill, Val, Pow2;
    if k >= |a| {
      assert r == seq(|a|, _ => 0);
      ValZeros(|a|);
      ShlNone(a, k, s);
    } else {
      ValBound(r);
      Pow2Add(32 * k, s);
      WIs(k);
      var n := |a| - k;
      var t := seq(|a|, m requires 0 <= m < |a| => ShlLimb(a, s, m));
      ShlPrefix(a, s, t, n);
      ValSplit(a, n);
      ValSplit(r, k);
      assert r[..k] == seq(k, _ => 0) && r[k..] == t[..n];
      ValZeros(k);
      WAdd(k, n);
      var q := Spill(a, s, n) + Val(a[n..]) * Pow2(s);
      ShlTotal(Val(t[..n]), Spill(a, s, n), W(n), W(k), Val(a[..n]), Val(a[n..]), Pow2(s));
      Wraps(Val(r), q, W(|a|), Val(a) * (W(k) * Pow2(s)));
    }
  }

  lemma ShlNone(a: seq<nat>, k: nat, s: nat)
    requires Bounded(a) && k >= |a|
    ensures (Val(a) * Pow2(32 * k + s)) % W(|a|) == 0
  {
    hide W, Val, Pow2;
    ValBound(a);
    Pow2Add(32 * k, s);
    WIs(k);
    WAdd(|a|, k - |a|);
    ShlAll(Val(a), W(|a|), W(k - |a|), Pow2(s));
    Wraps(0, Val(a) * W(k - |a|) * Pow2(s), W(|a|), Val(a) * (W(k) * Pow2(s)));
  }

  lemma WIs(k: nat)
    ensures W(k) == Pow2(32 * k)
  {}

  lemma ShlAll(v: int, w: int, x: int, p: int)
    ensures v * ((w * x) * p) == (v * x * p) * w
  {}

  lemma ShlTotal(t: int, sp: int, wn: int, wk: int, lo: int, hi: int, p: int)
    requires t + sp * wn == lo * p
    ensures (lo + wn * hi) * (wk * p) == wk * t + (sp + hi * p) * (wk * wn)
  {
    calc {
      (lo + wn * hi) * (wk * p);
      lo * p * wk + wn * hi * wk * p;
      (t + sp * wn) * wk + wn * hi * wk * p;
      wk * t + (sp + hi * p) * (wk * wn);
    }
  }

  // ---------- Right ----------

  function Low(x: nat, s: nat): nat {
    x % Pow2(s)
  }

  function Rest(x: nat, s: nat): nat {
    DivNonNeg(x, Pow2(s));
    x / Pow2(s)
  }

  lemma LowRest(x: nat, s: nat)
    ensures x == Pow2(s) * Rest(x, s) + Low(x, s) && Low(x, s) < Pow2(s)
  {
    DivMod(x, Pow2(s));
  }

  lemma RestUnique(x: nat, s: nat, q: nat, l: nat)
    requires x == q * Pow2(s) + l && l < Pow2(s)
    ensures Rest(x, s) == q
  {
    DivUnique(x, Pow2(s), q, l);
  }

  function UpperLimb(a: seq<nat>, m: nat): nat {
    if m < |a| then a[m] else 0
  }

  /** Limb `m` of `a >> s`: the rest of limb `m` below the low bits of the next one. */
  function ShrLimb(a: seq<nat>, s: nat, m: nat): nat
    requires s < 32 && m < |a|
  {
    Or(Rest(a[m], s), if s == 0 then 0 else (UpperLimb(a, m + 1) * Pow2(32 - s)) % BASE)
  }

  /** Shifting the low bits of a limb to its top. */
  lemma TopBits(x: nat, s: nat)
    requires s <= 32
    ensures (x * Pow2(32 - s)) % BASE == (x % Pow2(s)) * Pow2(32 - s)
  {
    hide Pow2;
    var p, q := Pow2(s), Pow2(32 - s);
    Pow2Split(s);
    DivMod(x, p);
    var h, l := x / p, x % p;
    MulNonNeg(l, q);
    MulDist(p * h, l, q);
    assert p * h * q == h * BASE by { TopBitsMul(p, h, q); }
    MulLt(l, p, q);
    DivUnique(x * q, BASE, h, l * q);
  }

  lemma TopBitsMul(p: int, h: int, q: int)
    ensures p * h * q == h * (p * q)
  {}

  lemma ShrLimbIs(a: seq<nat>, s: nat, m: nat)
    requires s < 32 && Bounded(a) && m < |a|
    ensures ShrLimb(a, s, m) == Rest(a[m], s) + Low(UpperLimb(a, m + 1), s) * Pow2(32 - s)
    ensures ShrLimb(a, s, m) < BASE
  {
    hide UpperLimb, Pow2, Or;
    var u := UpperLimb(a, m + 1);
    TopBits(u, s);
    DivMod(u, Pow2(s));
    Pow2Next(0);
    ShrOr(a[m], u % Pow2(s), s);
  }

  /** The rest of one limb and the low bits of the next do not overlap. */
  lemma ShrOr(x: nat, l: nat, s: nat)
    requires s <= 32 && x < BASE && l < Pow2(s)
    ensures var r, t := x / Pow2(s), l * Pow2(32 - s); r >= 0 && t >= 0 && Or(r, t) == r + t < BASE
  {
    hide Pow2, Or;
    var p, q := Pow2(s), Pow2(32 - s);
    Pow2Split(s);
    DivNonNeg(x, p);
    MulNonNeg(l, q);
    QuotientBelow(x, p, q);
    DivUnique(l * q, q, l, 0);
    OrIsAdd(x / p, l * q, 32 - s);
    MulLe(l, p - 1, q);
    MulDist(p, -1, q);
  }

  lemma QuotientBelow(x: nat, p: nat, q: nat)
    requires p > 0 && x < p * q
    ensures x / p < q
  {
    DivMod(x, p);
    if x / p >= q {
      MulLe(q, x / p, p);
      assert false;
    }
  }

  lemma {:induction false} ShrPrefix(a: seq<nat>, s: nat, t: seq<nat>, i: nat)
    requires s < 32 && Bounded(a) && i <= |a| == |t| && forall m :: 0 <= m < |a| ==> t[m] == ShrLimb(a, s, m)
    ensures Val(t[..i]) * Pow2(s) + Low(UpperLimb(a, 0), s) == Val(a[..i]) + Low(UpperLimb(a, i), s) * W(i)
  {
    hide W, ShrLimb, Low, Rest;
    var p := Pow2(s);
    if i == 0 {
      assert W(0) == 1 by { WZero(); }
    } else {
      var n := i - 1;
      ShrPrefix(a, s, t, n);
      ShrLimbIs(a, s, n);
      ValNext(t, n);
      ValNext(a, n);
      WNext(n);
      LowRest(a[n], s);
      Pow2Split(s);
      ShrSum(Val(t[..n]), Rest(a[n], s), Low(UpperLimb(a, i), s), Pow2(32 - s), W(n), p, Low(UpperLimb(a, 0), s),
          Val(a[..n]), a[n], Low(a[n], s));
    }
  }

  lemma WZero()
    ensures W(0) == 1
  {}

  lemma ShrSum(v: int, h: int, u: int, q: int, w: int, p: int, l0: int, av: int, x: int, l: int)
    requires v * p + l0 == av + l * w && x == p * h + l && p * q == BASE
    ensures (v + (h + u * q) * w) * p + l0 == av + x * w + u * (BASE * w)
  {
    calc {
      (v + (h + u * q) * w) * p + l0;
      v * p + (p * h) * w + u * (p * q) * w + l0;
      av + l * w + (p * h) * w + u * BASE * w;
      { MulDist(p * h, l, w); }
      av + x * w + u * (BASE * w);
    }
  }

  /** The whole right shift. */
  lemma ShrValue(a: seq<nat>, k: nat, s: nat, r: seq<nat>)
    requires s < 32 && Bounded(a) && |r| == |a|
    requires forall j :: 0 <= j < |r| ==> r[j] == if j + k < |a| then ShrLimb(a, s, j + k) else 0
    ensures Val(r) == Rest(Val(a), 32 * k + s)
  {
    if k >= |a| { ShrNone(a, k, s, r); } else { ShrSome(a, k, s, r); }
  }

  lemma WeightBelow(n: nat, k: nat, s: nat)
    requires n <= k
    ensures W(n) <= Pow2(32 * k + s)
  {
    hide W, Pow2;
    Pow2Add(32 * k, s);
    WIs(k);
    WAdd(n, k - n);
    MulGe(W(k - n), W(n));
    MulGe(Pow2(s), W(k));
  }

  lemma {:induction false} ShrNone(a: seq<nat>, k: nat, s: nat, r: seq<nat>)
    requires Bounded(a) && |r| == |a| <= k && forall j :: 0 <= j < |r| ==> r[j] == 0
    ensures Val(r) == Rest(Val(a), 32 * k + s)
  {
    hide Val, W, Rest, Pow2;
    assert r == seq(|a|, _ => 0);
    ValZeros(|a|);
    ValBound(a);
    WeightBelow(|a|, k, s);
    RestUnique(Val(a), 32 * k + s, 0, Val(a));
  }

  lemma {:induction false} ShrSome(a: seq<nat>, k: nat, s: nat, r: seq<nat>)
    requires s < 32 && Bounded(a) && |r| == |a| && k < |a|
    requires forall j :: 0 <= j < |r| ==> r[j] == if j + k < |a| then ShrLimb(a, s, j + k) else 0
    ensures Val(r) == Rest(Val(a), 32 * k + s)
  {
    hide Val, W, ShrLimb, Low, Rest, UpperLimb, Pow2;
    var l := Low(UpperLimb(a[k..], 0), s);
    ShrTop(a, k, s, r);
    LowRest(UpperLimb(a[k..], 0), s);
    ValSplit(a, k);
    ValBound(a[..k]);
    Pow2Add(32 * k, s);
    WIs(k);
    ShrTotal(Val(r), Pow2(s), l, W(k), Val(a[..k]));
    RestUnique(Val(a), 32 * k + s, Val(r), Val(a[..k]) + W(k) * l);
  }

  lemma ShrTop(a: seq<nat>, k: nat, s: nat, r: seq<nat>)
    requires s < 32 && Bounded(a) && |r| == |a| && k < |a|
    requires forall j :: 0 <= j < |r| ==> r[j] == if j + k < |a| then ShrLimb(a, s, j + k) else 0
    ensures Val(a[k..]) == Val(r) * Pow2(s) + Low(UpperLimb(a[k..], 0), s)
  {
    hide Val, W, ShrLimb, Low;
    var n, u := |a| - k, a[k..];
    var t := seq(n, m requires 0 <= m < n => ShrLimb(u, s, m));
    forall j | 0 <= j < n ensures r[j] == t[j] { ShrDrop(a, k, s, j); }
    ShrPrefix(u, s, t, n);
    assert t[..n] == t && u[..n] == u && r[..n] == t && r[n..] == seq(k, _ => 0);
    ValSplit(r, n);
    ValZeros(k);
    LowZero(s);
  }

  lemma LowZero(s: nat)
    ensures Low(0, s) == 0
  {}

  lemma ShrDrop(a: seq<nat>, k: nat, s: nat, j: nat)
    requires s < 32 && j + k < |a|
    ensures ShrLimb(a[k..], s, j) == ShrLimb(a, s, j + k)
  {}

  lemma ShrTotal(t: nat, p: nat, l: nat, w: nat, lo: nat)
    requires l < p && lo < w
    ensures lo + w * (t * p + l) == t * (w * p) + (lo + w * l) && lo + w * l < w * p
  {
    MulLe(l, p - 1, w);
    MulDist(p, -1, w);
  }
}
