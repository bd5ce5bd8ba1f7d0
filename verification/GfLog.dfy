/**
 Discrete logarithms in GF(1024) (bech32.cpp, GenerateGFTables): every nonzero element is exactly one power of e, the
 nonzero symbols are the powers divisible by 33, and a polynomial has no more roots than its degree.
 */
module GfLog {
  import opened Arith
  import opened Bech32
  import opened Gf1024
  import opened Bch

  // ---------- Sums ----------

  lemma XorBack(a: bv32, b: bv32)
    ensures Xor(a, Xor(a, b)) == b && Xor(Xor(a, b), b) == a
  {
    hide Xor;
    XorAssoc(a, a, b);
    XorAssoc(a, b, b);
    XorUnits(a);
    XorUnits(b);
  }

  /** A term may change sides. */
  lemma XorMove(a: bv32, b: bv32, c: bv32)
    requires Xor(a, b) == c
    ensures a == Xor(c, b) && b == Xor(a, c)
  {
    hide Xor;
    XorBack(a, b);
  }

  lemma XorMiddle(a: bv32, b: bv32, c: bv32)
    ensures Xor(Xor(a, b), Xor(b, c)) == Xor(a, c)
  {
    hide Xor;
    XorAssoc(a, b, Xor(b, c));
    XorBack(b, c);
  }

  // ---------- Exponents ----------

  /** Exponents count modulo 1023. */
  lemma RaisePeriod(n: nat, v: bv32)
    requires v < 1024
    ensures Raise(n, v) == Raise(n % 1023, v)
  {
    hide Raise;
    var q, r := n / 1023, n % 1023;
    DivMod(n, 1023);
    Turns(v);
    FixedMultiple(1023, q, v);
    RaiseAdd(r, 1023 * q, v);
  }

  lemma RaiseSame(m: nat, n: nat, v: bv32)
    requires v < 1024 && m % 1023 == n % 1023
    ensures Raise(m, v) == Raise(n, v)
  {
    hide Raise;
    RaisePeriod(m, v);
    RaisePeriod(n, v);
  }

  lemma RaiseInjective(n: nat, u: bv32, v: bv32)
    requires u < 1024 && v < 1024 && Raise(n, u) == Raise(n, v)
    ensures u == v
  {
    hide Raise, Xor;
    RaiseLinear(n, u, v);
    XorUnits(Raise(n, u));
    XorSmall(u, v);
    RaiseFacts(n, Xor(u, v));
    XorZero(u, v);
  }

  lemma ExpFacts(n: nat)
    ensures 0 < Exp(n) < 1024
  {
    hide Raise;
    RaiseFacts(n, 1);
  }

  lemma ExpDistinct(m: nat, n: nat)
    requires m < 1023 && n < 1023 && Exp(m) == Exp(n)
    ensures m == n
  {
    hide Raise;
    if m < n { SamePower(n, m, 1); }
    if n < m { SamePower(m, n, 1); }
  }

  lemma RaiseExp(m: nat, n: nat)
    ensures Raise(m, Exp(n)) == Exp(m + n)
  {
    hide Raise;
    RaiseAdd(m, n, 1);
  }

  // ---------- Logarithms ----------

  /** The first `n` powers of e, as numbers. */
  ghost function Powers(n: nat): set<int> {
    if n == 0 then {} else Powers(n - 1) + {Exp(n - 1) as int}
  }

  lemma {:induction false} PowersHas(n: nat, x: int) returns (k: nat)
    requires x in Powers(n)
    ensures k < n && Exp(k) as int == x
  {
    hide Exp;
    if x == Exp(n - 1) as int { k := n - 1; } else { k := PowersHas(n - 1, x); }
  }

  lemma {:induction false} PowersSize(n: nat)
    requires n <= 1023
    ensures |Powers(n)| == n
  {
    hide Exp;
    if n > 0 {
      PowersSize(n - 1);
      var x := Exp(n - 1) as int;
      if x in Powers(n - 1) {
        var k := PowersHas(n - 1, x);
        SameNumber(Exp(k), Exp(n - 1));
        ExpDistinct(k, n - 1);
        assert false;
      }
    }
  }

  lemma NumberBack(a: bv32)
    ensures a as int as bv32 == a
  {}

  lemma SameNumber(a: bv32, b: bv32)
    requires a as int == b as int
    ensures a == b
  {
    NumberBack(a);
    NumberBack(b);
  }

  lemma NumberBounds(u: bv32)
    requires 0 < u < 1024
    ensures 0 < u as int <= 1023
  {}

  ghost function Numbers(n: nat): (r: set<int>)
    ensures |r| == n && forall k :: k in r <==> 0 < k <= n
  {
    if n == 0 then {} else Numbers(n - 1) + {n}
  }

  lemma {:induction false} SameSize(a: set<int>, b: set<int>)
    requires a <= b && |a| == |b|
    ensures a == b
  {
    if exists x :: x in a {
      var x :| x in a;
      SameSize(a - {x}, b - {x});
    } else {
      assert a == {};
    }
  }

  predicate IsLog(u: bv32, k: nat) {
    k < 1023 && Exp(k) == u
  }

  /** e is primitive: every nonzero element is one of its powers. */
  lemma Primitive(u: bv32)
    requires 0 < u < 1024
    ensures exists k: nat :: IsLog(u, k)
  {
    hide Exp, Powers;
    PowersSize(1023);
    forall x | x in Powers(1023) ensures x in Numbers(1023) {
      var i := PowersHas(1023, x);
      ExpFacts(i);
      NumberBounds(Exp(i));
    }
    SameSize(Powers(1023), Numbers(1023));
    NumberBounds(u);
    var k := PowersHas(1023, u as int);
    SameNumber(Exp(k), u);
    assert IsLog(u, k);
  }

  /** The logarithm of a nonzero element. */
  ghost function Log(u: bv32): (k: nat)
    requires 0 < u < 1024
    ensures IsLog(u, k)
  {
    Primitive(u);
    var k: nat :| IsLog(u, k);
    k
  }

  lemma LogUnique(u: bv32, k: nat)
    requires 0 < u < 1024 && IsLog(u, k)
    ensures Log(u) == k
  {
    hide Exp;
    ExpDistinct(Log(u), k);
  }

  // ---------- Polynomials ----------

  /** The value at e^a of the polynomial with the given coefficients, highest first. */
  ghost function Eval(cs: seq<bv32>, a: nat): bv32 {
    if cs == [] then 0 else Xor(Raise(a, Eval(cs[..|cs| - 1], a)), cs[|cs| - 1])
  }

  ghost predicate Elements(cs: seq<bv32>) {
    forall i :: 0 <= i < |cs| ==> cs[i] < 1024
  }

  lemma {:induction false} EvalSmall(cs: seq<bv32>, a: nat)
    requires Elements(cs)
    ensures Eval(cs, a) < 1024
  {
    hide Xor, Raise;
    if cs != [] {
      var n := |cs| - 1;
      EvalSmall(cs[..n], a);
      RaiseFacts(a, Eval(cs[..n], a));
      XorSmall(Raise(a, Eval(cs[..n], a)), cs[n]);
    }
  }

  /** The quotient of the division by x - e^a. */
  ghost function Quotient(cs: seq<bv32>, a: nat): (q: seq<bv32>)
    requires |cs| > 0
    ensures |q| == |cs| - 1
  {
    if |cs| == 1 then [] else Quotient(cs[..|cs| - 1], a) + [Eval(cs[..|cs| - 1], a)]
  }

  lemma {:induction false} QuotientElements(cs: seq<bv32>, a: nat)
    requires |cs| > 0 && Elements(cs)
    ensures Elements(Quotient(cs, a))
  {
    hide Eval;
    if |cs| > 1 {
      QuotientElements(cs[..|cs| - 1], a);
      EvalSmall(cs[..|cs| - 1], a);
    }
  }

  /** Dividing: the value at e^b, from the quotient and the value at e^a. */
  lemma {:induction false} Division(cs: seq<bv32>, a: nat, b: nat)
    requires |cs| > 0 && Elements(cs)
    ensures var q := Eval(Quotient(cs, a), b);
      Eval(cs, b) == Xor(Xor(Raise(b, q), Raise(a, q)), Eval(cs, a))
  {
    hide Xor, Raise;
    var n := |cs| - 1;
    var ds, c := cs[..n], cs[n];
    if n == 0 {
      assert cs == [c];
      EvalOne(c, a);
      EvalOne(c, b);
      RaiseFacts(a, 0);
      RaiseFacts(b, 0);
      XorUnits(0);
      XorUnits(c);
    } else {
      Division(ds, a, b);
      var q, d := Eval(Quotient(ds, a), b), Eval(ds, a);
      assert Quotient(cs, a)[..n - 1] == Quotient(ds, a);
      DivisionStep(a, b, q, d, c);
    }
  }

  lemma EvalOne(c: bv32, a: nat)
    ensures Eval([c], a) == c
  {
    hide Xor, Raise;
    assert [c][..0] == [];
    RaiseFacts(a, 0);
    XorUnits(c);
  }

  lemma DivisionStep(a: nat, b: nat, q: bv32, d: bv32, c: bv32)
    ensures var w, r := Xor(Xor(Raise(b, q), Raise(a, q)), d), Xor(Raise(b, q), d);
      Xor(Raise(b, w), c) == Xor(Xor(Raise(b, r), Raise(a, r)), Xor(Raise(a, d), c))
  {
    hide Xor, Raise;
    var aq, bq := Raise(a, q), Raise(b, q);
    RaiseSwap(a, b, q);
    RaiseLinear(b, Xor(bq, aq), d);
    RaiseLinear(b, bq, aq);
    RaiseLinear(b, bq, d);
    RaiseLinear(a, bq, d);
    var x, y, z, t := Raise(b, bq), Raise(b, aq), Raise(b, d), Raise(a, d);
    Regroup(x, z, y, t);
    XorAssoc(Xor(x, y), Xor(z, t), Xor(t, c));
    XorMiddle(z, t, c);
    XorAssoc(Xor(x, y), z, c);
  }

  ghost predicate Different(xs: seq<nat>) {
    (forall i :: 0 <= i < |xs| ==> xs[i] < 1023) && forall i, j :: 0 <= i < j < |xs| ==> xs[i] != xs[j]
  }

  /** A polynomial with as many roots as coefficients is zero. */
  lemma {:induction false} TooManyRoots(cs: seq<bv32>, roots: seq<nat>)
    requires Elements(cs) && |roots| == |cs| && Different(roots)
    requires forall i :: 0 <= i < |cs| ==> Eval(cs, roots[i]) == 0
    ensures AllZero(cs)
    decreases |cs|
  {
    hide Xor, Raise, Eval, Quotient;
    if cs != [] {
      var n := |cs| - 1;
      var a, qs := roots[n], Quotient(cs, roots[n]);
      QuotientElements(cs, a);
      forall i | 0 <= i < n ensures Eval(qs, roots[i]) == 0 {
        var b := roots[i];
        var u := Eval(qs, b);
        Division(cs, a, b);
        EvalSmall(qs, b);
        XorUnits(Xor(Raise(b, u), Raise(a, u)));
        XorZero(Raise(b, u), Raise(a, u));
        if a < b { SamePower(b, a, u); } else { SamePower(a, b, u); }
      }
      TooManyRoots(qs, roots[..n]);
      PartialZero(cs, a);
    }
  }

  /** If all partial values are zero, so are the coefficients. */
  lemma {:induction false} PartialZero(cs: seq<bv32>, a: nat)
    requires |cs| > 0 && AllZero(Quotient(cs, a)) && Eval(cs, a) == 0
    ensures AllZero(cs)
  {
    hide Xor, Raise;
    var n := |cs| - 1;
    if n == 0 {
      assert cs == [cs[0]];
      EvalOne(cs[0], a);
    } else {
      var q := Quotient(cs, a);
      assert q[n - 1] == 0 && q[..n - 1] == Quotient(cs[..n], a);
      PartialZero(cs[..n], a);
      RaiseFacts(a, 0);
      XorUnits(cs[n]);
      assert cs == cs[..n] + [cs[n]];
    }
  }

  // ---------- Conjugates ----------

  /** The 32nd power, a linear map. */
  function Conjugate(v: bv32): bv32 {
    Ten(v, 1, 612, 106, 237, 154, 897, 268, 515, 199, 741)
  }

  lemma HighLinear(v: bv32, w: bv32)
    ensures High(Xor(v, w)) == Xor(High(v), High(w))
  {}

  lemma ConjugateLinear(v: bv32, w: bv32)
    ensures Conjugate(Xor(v, w)) == Xor(Conjugate(v), Conjugate(w))
  {
    hide Xor, Five, High;
    XorUnits(0);
    HighLinear(v, w);
    FiveLinear(0, 0, v, w, 1, 612, 106, 237, 154);
    FiveLinear(Five(0, v, 1, 612, 106, 237, 154), Five(0, w, 1, 612, 106, 237, 154), High(v), High(w),
        897, 268, 515, 199, 741);
  }

  lemma ConjugatePlus(x: bv32, v: bv32, bit: bv32, k: bv32)
    ensures Conjugate(Plus(x, v, bit, k)) == Plus(Conjugate(x), v, bit, Conjugate(k))
  {
    hide Conjugate, Plus, Xor;
    PlusCases(x, v, bit, k);
    PlusCases(Conjugate(x), v, bit, Conjugate(k));
    ConjugateLinear(x, k);
  }

  lemma ConjugateFive(x: bv32, v: bv32, k0: bv32, k1: bv32, k2: bv32, k3: bv32, k4: bv32)
    ensures Conjugate(Five(x, v, k0, k1, k2, k3, k4))
         == Five(Conjugate(x), v, Conjugate(k0), Conjugate(k1), Conjugate(k2), Conjugate(k3), Conjugate(k4))
  {
    hide Conjugate, Plus;
    ConjugatePlus(x, v, 1, k0);
    var x1 := Plus(x, v, 1, k0);
    ConjugatePlus(x1, v, 2, k1);
    var x2 := Plus(x1, v, 2, k1);
    ConjugatePlus(x2, v, 4, k2);
    var x3 := Plus(x2, v, 4, k2);
    ConjugatePlus(x3, v, 8, k3);
    ConjugatePlus(Plus(x3, v, 8, k3), v, 16, k4);
  }

  lemma ConjugateLow()
    ensures Conjugate(0) == 0 && Conjugate(1) == 1 && Conjugate(333) == 333 && Conjugate(643) == 643
    ensures Conjugate(615) == 615 && Conjugate(290) == 290
  {}

  /** Symbols are their own conjugates. */
  lemma ConjugateSymbol(v: bv32)
    ensures Conjugate(Embed(v)) == Embed(v)
  {
    hide Conjugate, Five;
    ConjugateLow();
    ConjugateFive(0, v, 1, 333, 643, 615, 290);
  }

  lemma ConjugatesOfPowers()
    ensures Conjugate(2) == 612 && Conjugate(4) == 106 && Conjugate(8) == 237 && Conjugate(16) == 154
    ensures Conjugate(32) == 897 && Conjugate(64) == 268 && Conjugate(128) == 515 && Conjugate(256) == 199
    ensures Conjugate(512) == 741 && Conjugate(0x225) == 271
  {}

  lemma Times32()
    ensures Mul(612, 612) == 106 && Mul(612, 106) == 237 && Mul(612, 237) == 154 && Mul(612, 154) == 897
    ensures Mul(612, 897) == 268 && Mul(612, 268) == 515 && Mul(612, 515) == 199 && Mul(612, 199) == 741
    ensures Mul(612, 741) == 271 && Mul(612, 1) == 612
  {}

  /** Multiplication by e goes over into multiplication by its conjugate e^32. */
  lemma ConjugateTimesE(v: bv32)
    requires v < 1024
    ensures Conjugate(TimesE(v)) == Raise(32, Conjugate(v))
  {
    hide TimesE, Five, Raise, High, Mul, Conjugate;
    MulOne(v);
    MulTimesE(1, v);
    ExpStart();
    TimesTwo(v);
    ConjugateTen(v);
    RaiseTen(v);
  }

  lemma TimesTwo(v: bv32)
    requires v < 1024
    ensures TimesE(1) == 2 && Mul(2, v) == Ten(v, 2, 4, 8, 16, 32, 64, 128, 256, 512, 0x225)
  {
    assert TimesE(1) == 2 && TimesE(2) == 4 && TimesE(4) == 8 && TimesE(8) == 16 && TimesE(16) == 32;
    assert TimesE(32) == 64 && TimesE(64) == 128 && TimesE(128) == 256 && TimesE(256) == 512 && TimesE(512) == 0x225;
    hide TimesE, Five, High;
  }

  lemma ConjugateTen(v: bv32)
    ensures Conjugate(Ten(v, 2, 4, 8, 16, 32, 64, 128, 256, 512, 0x225))
         == Ten(v, 612, 106, 237, 154, 897, 268, 515, 199, 741, 271)
  {
    hide Conjugate, Five, High;
    ConjugateLow();
    ConjugatesOfPowers();
    ConjugateFive(0, v, 2, 4, 8, 16, 32);
    ConjugateFive(Five(0, v, 2, 4, 8, 16, 32), High(v), 64, 128, 256, 512, 0x225);
  }

  lemma RaiseTen(v: bv32)
    ensures Raise(32, Conjugate(v)) == Ten(v, 612, 106, 237, 154, 897, 268, 515, 199, 741, 271)
  {
    hide Raise, Five, High, Mul;
    Power32();
    RaisesBy32();
    RaiseFive(32, 0, v, 1, 612, 106, 237, 154);
    RaiseFive(32, Five(0, v, 1, 612, 106, 237, 154), High(v), 897, 268, 515, 199, 741);
  }

  lemma Power32()
    ensures Raise(32, 1) == 612 && Raise(32, 0) == 0
  {
    hide Raise, Mul;
    SmallPowers();
    Square8();
    ExpAdd(8, 8);
    Square16();
    ExpAdd(16, 16);
    RaiseFacts(32, 0);
  }

  lemma RaisesBy32()
    ensures Raise(32, 612) == 106 && Raise(32, 106) == 237 && Raise(32, 237) == 154 && Raise(32, 154) == 897
    ensures Raise(32, 897) == 268 && Raise(32, 268) == 515 && Raise(32, 515) == 199 && Raise(32, 199) == 741
    ensures Raise(32, 741) == 271
  {
    hide Raise, Mul;
    Power32();
    Times32();
    RaiseIsMul(32, 612);
    RaiseIsMul(32, 106);
    RaiseIsMul(32, 237);
    RaiseIsMul(32, 154);
    RaiseIsMul(32, 897);
    RaiseIsMul(32, 268);
    RaiseIsMul(32, 515);
    RaiseIsMul(32, 199);
    RaiseIsMul(32, 741);
  }

  lemma {:induction false} ConjugateRaise(n: nat, v: bv32)
    requires v < 1024
    ensures Conjugate(Raise(n, v)) == Raise(32 * n, Conjugate(v))
  {
    hide Conjugate, TimesE;
    if n == 0 {
      RaiseNone(Conjugate(v));
    } else {
      ConjugateRaise(n - 1, v);
      RaiseFacts(n - 1, v);
      ConjugateTimesE(Raise(n - 1, v));
      RaiseAdd(32, 32 * (n - 1), Conjugate(v));
    }
  }

  /** A polynomial with symbols for coefficients takes conjugate values at conjugate places. */
  lemma {:induction false} EvalConjugate(cs: seq<bv32>, a: nat)
    requires Elements(cs) && forall i :: 0 <= i < |cs| ==> Conjugate(cs[i]) == cs[i]
    ensures Eval(cs, 32 * a) == Conjugate(Eval(cs, a))
  {
    hide Conjugate, Raise, Xor;
    if cs == [] {
      ConjugateLow();
    } else {
      var n := |cs| - 1;
      EvalConjugate(cs[..n], a);
      EvalSmall(cs[..n], a);
      ConjugateRaise(a, Eval(cs[..n], a));
      ConjugateLinear(Raise(a, Eval(cs[..n], a)), cs[n]);
    }
  }

  lemma {:induction false} EvalSame(cs: seq<bv32>, a: nat, b: nat)
    requires Elements(cs) && a % 1023 == b % 1023
    ensures Eval(cs, a) == Eval(cs, b)
  {
    hide Raise, Xor;
    if cs != [] {
      var n := |cs| - 1;
      EvalSame(cs[..n], a, b);
      EvalSmall(cs[..n], a);
      RaiseSame(a, b, Eval(cs[..n], a));
    }
  }

  // ---------- Symbols ----------

  function Embedded(vs: seq<bv32>): (r: seq<bv32>)
    ensures |r| == |vs|
  {
    seq(|vs|, i requires 0 <= i < |vs| => Embed(vs[i]))
  }

  lemma {:induction false} ValueIsEval(j: nat, vs: seq<bv32>)
    ensures Value(j, 0, vs) == Eval(Embedded(vs), Turned(j, 1))
  {
    hide Raise, Xor, Embed;
    if vs != [] {
      var n := |vs| - 1;
      ValueIsEval(j, vs[..n]);
      assert Embedded(vs)[..n] == Embedded(vs[..n]);
    }
  }

  /** Besides the three consecutive roots the generator has their conjugates: zero at three places, zero everywhere. */
  lemma ValuesDetermine(s: bv32)
    requires s < 0x4000_0000 && ValueOf(0, s) == 0 && ValueOf(1, s) == 0 && ValueOf(2, s) == 0
    ensures s == 0
  {
    hide Value, Eval, Embed, Unpack, Poly, Conjugate;
    var vs := Unpack(s);
    var cs := Embedded(vs);
    UnpackSymbols(s);
    forall i | 0 <= i < |cs| ensures cs[i] < 1024 && Conjugate(cs[i]) == cs[i] && (cs[i] == 0 <==> vs[i] == 0) {
      EmbedFacts(vs[i]);
      ConjugateSymbol(vs[i]);
    }
    ValueIsEval(0, vs);
    ValueIsEval(1, vs);
    ValueIsEval(2, vs);
    ConjugateLow();
    EvalConjugate(cs, 997);
    EvalConjugate(cs, 998);
    EvalConjugate(cs, 999);
    EvalSame(cs, 32 * 997, 191);
    EvalSame(cs, 32 * 998, 223);
    EvalSame(cs, 32 * 999, 255);
    TooManyRoots(cs, [997, 998, 999, 191, 223, 255]);
    PolyUnpack(s);
    WindowState(vs);
  }

  /** The powers of two in GF(32). */
  function SmallPower(i: nat): bv32 {
    if i == 0 then 1 else Twice(SmallPower(i - 1))
  }

  lemma {:induction false} SmallPowerEmbeds(i: nat)
    ensures 0 < SmallPower(i) < 32 && Embed(SmallPower(i)) == Exp(99 * i)
  {
    hide Twice, Embed, Raise;
    if i == 0 {
      FirstPower();
    } else {
      SmallPowerEmbeds(i - 1);
      var v := SmallPower(i - 1);
      TwiceIs(v);
      EmbedTwice(v);
      RaiseExp(99, 99 * (i - 1));
      ExpFacts(99 * i);
      EmbedZero();
    }
  }

  lemma FirstPower()
    ensures Embed(1) == 1 && Exp(0) == 1
  {}

  lemma Doublings()
    ensures Twice(1) == 2 && Twice(2) == 4 && Twice(4) == 8 && Twice(8) == 16 && Twice(16) == 9
    ensures Twice(9) == 18 && Twice(18) == 13 && Twice(13) == 26 && Twice(26) == 29 && Twice(29) == 19
    ensures Twice(19) == 15 && Twice(15) == 30 && Twice(30) == 21 && Twice(21) == 3 && Twice(3) == 6
    ensures Twice(6) == 12 && Twice(12) == 24 && Twice(24) == 25 && Twice(25) == 27 && Twice(27) == 31
    ensures Twice(31) == 23 && Twice(23) == 7 && Twice(7) == 14 && Twice(14) == 28 && Twice(28) == 17
    ensures Twice(17) == 11 && Twice(11) == 22 && Twice(22) == 5 && Twice(5) == 10 && Twice(10) == 20
    ensures Twice(20) == 1
  {}

  /** Every nonzero symbol is a power of two. */
  lemma SmallPowers31()
    ensures SmallPower(0) == 1 && SmallPower(1) == 2 && SmallPower(2) == 4 && SmallPower(3) == 8 && SmallPower(4) == 16
    ensures SmallPower(5) == 9 && SmallPower(6) == 18 && SmallPower(7) == 13
    ensures SmallPower(8) == 26 && SmallPower(9) == 29
    ensures SmallPower(10) == 19 && SmallPower(11) == 15
    ensures SmallPower(12) == 30 && SmallPower(13) == 21 && SmallPower(14) == 3
    ensures SmallPower(15) == 6 && SmallPower(16) == 12 && SmallPower(17) == 24
    ensures SmallPower(18) == 25 && SmallPower(19) == 27
    ensures SmallPower(20) == 31 && SmallPower(21) == 23
    ensures SmallPower(22) == 7 && SmallPower(23) == 14 && SmallPower(24) == 28
    ensures SmallPower(25) == 17 && SmallPower(26) == 11
    ensures SmallPower(27) == 22 && SmallPower(28) == 5 && SmallPower(29) == 10
    ensures SmallPower(30) == 20 && SmallPower(31) == 1
  {
    hide Twice;
    Doublings();
  }

  lemma SymbolLog(d: bv32) returns (i: nat)
    requires 0 < d < 32
    ensures i < 31 && SmallPower(i) == d
  {
    SmallPowers31();
    hide SmallPower;
    i := if d == 1 then 0 else if d == 2 then 1 else if d == 4 then 2 else if d == 8 then 3 else if d == 16 then 4
         else if d == 9 then 5 else if d == 18 then 6 else if d == 13 then 7 else if d == 26 then 8
         else if d == 29 then 9 else if d == 19 then 10 else if d == 15 then 11 else if d == 30 then 12
         else if d == 21 then 13 else if d == 3 then 14 else if d == 6 then 15 else if d == 12 then 16
         else if d == 24 then 17 else if d == 25 then 18 else if d == 27 then 19 else if d == 31 then 20
         else if d == 23 then 21 else if d == 7 then 22 else if d == 14 then 23 else if d == 28 then 24
         else if d == 17 then 25 else if d == 11 then 26 else if d == 22 then 27 else if d == 5 then 28
         else if d == 10 then 29 else 30;
  }

  lemma SymbolPower(k: nat)
    ensures 0 < SmallPower(21 * k) < 32 && Embed(SmallPower(21 * k)) == Exp(33 * k)
  {
    hide Embed, Raise, SmallPower;
    SmallPowerEmbeds(21 * k);
    assert 99 * (21 * k) == 33 * k + 1023 * (2 * k);
    ModPlus(33 * k, 2 * k);
    RaiseSame(99 * (21 * k), 33 * k, 1);
  }

  lemma Divisible(i: int, l: int)
    requires (99 * i) % 1023 == l % 1023
    ensures l % 33 == 0
  {
    var a, b := l / 1023, (99 * i) / 1023;
    DivMod(l, 1023);
    DivMod(99 * i, 1023);
    DivUnique(l, 33, 31 * a - 31 * b + 3 * i, 0);
  }

  /** The nonzero symbols are the powers of e whose exponent 33 divides. */
  lemma SymbolIff(l: nat)
    ensures (exists d: bv32 :: 0 < d < 32 && Embed(d) == Exp(l)) <==> l % 33 == 0
  {
    hide Embed, Exp, SmallPower;
    if l % 33 == 0 {
      var k := l / 33;
      DivMod(l, 33);
      SymbolPower(k);
      assert Embed(SmallPower(21 * k)) == Exp(l);
    }
    if d: bv32 :| 0 < d < 32 && Embed(d) == Exp(l) {
      var i := SymbolLog(d);
      SmallPowerEmbeds(i);
      ExpMod(99 * i, l);
      Divisible(i, l);
    }
  }

  lemma ModPlus(n: int, k: int)
    ensures (n + 1023 * k) % 1023 == n % 1023
  {
    DivMod(n, 1023);
    DivUnique(n + 1023 * k, 1023, n / 1023 + k, n % 1023);
  }

  lemma ExpMod(m: nat, n: nat)
    requires Exp(m) == Exp(n)
    ensures m % 1023 == n % 1023
  {
    hide Raise;
    RaisePeriod(m, 1);
    RaisePeriod(n, 1);
    ExpDistinct(m % 1023, n % 1023);
  }

  /** `x` is the value at the first root of one wrong symbol at place `p`. */
  ghost predicate ErrorAt(x: bv32, p: nat, d: bv32) {
    0 < d < 32 && x == Raise(997 * p, Embed(d))
  }

  lemma ErrorAtIff(x: bv32, l: nat, p: nat)
    requires x == Exp(l)
    ensures (exists d :: ErrorAt(x, p, d)) <==> (l + 26 * p) % 33 == 0
  {
    hide Embed, Raise;
    SymbolIff(l + 26 * p);
    RaiseExp(26 * p, l);
    ExpFacts(l);
    if d :| ErrorAt(x, p, d) {
      EmbedFacts(d);
      RaiseAdd(26 * p, 997 * p, Embed(d));
      RaiseSame(1023 * p, 0, Embed(d));
      RaiseNone(Embed(d));
    }
    if d: bv32 :| 0 < d < 32 && Embed(d) == Exp(l + 26 * p) {
      RaiseAdd(997 * p, 26 * p, x);
      RaiseSame(1023 * p, 0, x);
      RaiseNone(x);
      assert ErrorAt(x, p, d);
    }
  }
}
