/**
 The field GF(1024) behind the Bech32 code (bech32.cpp, GenerateGFTables and the comment on PolyMod).  A field
 element is a number below 1024, bit `k` being the coefficient of e^k.  No power of the primitive element e below the
 1023rd fixes a nonzero element, so three equations with consecutive powers of e have only the zero solution.
 */
module Gf1024 {
  import opened Arith
  import opened Bech32

  // ---------- Sums and products ----------

  /** `x`, with `k` added if the bit is set in `v`. */
  function Plus(x: bv32, v: bv32, bit: bv32, k: bv32): bv32 {
    if v & bit != 0 then x ^ k else x
  }

  lemma PlusCases(x: bv32, v: bv32, bit: bv32, k: bv32)
    ensures Plus(x, v, bit, k) == if v & bit != 0 then Xor(x, k) else x
  {}

  lemma PlusIs(x: bv32, v: bv32, bit: bv32, k: bv32)
    ensures Plus(x, v, bit, k) == Xor(x, Pick(v, bit, k))
  {
    hide Plus, Xor;
    PlusCases(x, v, bit, k);
    XorUnits(x);
  }

  function Doubled(v: bv32): bv32 {
    (v & 0x1ff) << 1
  }

  /** Multiplication by e; the tenth power of e is 0x225. */
  function TimesE(v: bv32): bv32 {
    Plus(Doubled(v), v, 0x200, 0x225)
  }

  lemma DoubledLinear(a: bv32, b: bv32)
    ensures Doubled(Xor(a, b)) == Xor(Doubled(a), Doubled(b))
  {}

  lemma NinthBit(a: bv32, b: bv32)
    ensures Xor(a, b) & 0x200 != 0 <==> (a & 0x200 != 0) != (b & 0x200 != 0)
  {}

  lemma NinthPick(a: bv32, b: bv32)
    ensures Pick(Xor(a, b), 0x200, 0x225) == Xor(Pick(a, 0x200, 0x225), Pick(b, 0x200, 0x225))
  {
    hide Xor;
    NinthBit(a, b);
    XorUnits(0x225);
    XorUnits(0);
  }

  lemma TimesELinear(a: bv32, b: bv32)
    ensures TimesE(Xor(a, b)) == Xor(TimesE(a), TimesE(b))
  {
    hide Xor, Pick, Plus, Doubled;
    PlusIs(Doubled(a), a, 0x200, 0x225);
    PlusIs(Doubled(b), b, 0x200, 0x225);
    PlusIs(Doubled(Xor(a, b)), Xor(a, b), 0x200, 0x225);
    DoubledLinear(a, b);
    NinthPick(a, b);
    Regroup(Doubled(a), Doubled(b), Pick(a, 0x200, 0x225), Pick(b, 0x200, 0x225));
  }

  lemma TimesEFacts(v: bv32)
    ensures TimesE(v) < 1024 && TimesE(0) == 0 && (v < 1024 && TimesE(v) == 0 ==> v == 0)
  {}

  /** The sum of `x` and the elements that the lowest five bits of `v` select. */
  function Five(x: bv32, v: bv32, k0: bv32, k1: bv32, k2: bv32, k3: bv32, k4: bv32): bv32 {
    Plus(Plus(Plus(Plus(Plus(x, v, 1, k0), v, 2, k1), v, 4, k2), v, 8, k3), v, 16, k4)
  }

  lemma PlusLinear(x: bv32, y: bv32, v: bv32, w: bv32, bit: bv32, k: bv32)
    requires bit == 1 || bit == 2 || bit == 4 || bit == 8 || bit == 16
    ensures Plus(Xor(x, y), Xor(v, w), bit, k) == Xor(Plus(x, v, bit, k), Plus(y, w, bit, k))
  {
    hide Xor, Pick, Plus;
    PlusIs(x, v, bit, k);
    PlusIs(y, w, bit, k);
    PlusIs(Xor(x, y), Xor(v, w), bit, k);
    AddPick(x, y, v, w, bit, k);
  }

  lemma FiveLinear(x: bv32, y: bv32, v: bv32, w: bv32, k0: bv32, k1: bv32, k2: bv32, k3: bv32, k4: bv32)
    ensures Five(Xor(x, y), Xor(v, w), k0, k1, k2, k3, k4)
         == Xor(Five(x, v, k0, k1, k2, k3, k4), Five(y, w, k0, k1, k2, k3, k4))
  {
    hide Xor, Plus;
    PlusLinear(x, y, v, w, 1, k0);
    var x1, y1 := Plus(x, v, 1, k0), Plus(y, w, 1, k0);
    PlusLinear(x1, y1, v, w, 2, k1);
    var x2, y2 := Plus(x1, v, 2, k1), Plus(y1, w, 2, k1);
    PlusLinear(x2, y2, v, w, 4, k2);
    var x3, y3 := Plus(x2, v, 4, k2), Plus(y2, w, 4, k2);
    PlusLinear(x3, y3, v, w, 8, k3);
    PlusLinear(Plus(x3, v, 8, k3), Plus(y3, w, 8, k3), v, w, 16, k4);
  }

  lemma PlusTimesE(x: bv32, v: bv32, bit: bv32, k: bv32)
    ensures TimesE(Plus(x, v, bit, k)) == Plus(TimesE(x), v, bit, TimesE(k))
  {
    hide TimesE, Plus, Xor;
    PlusCases(x, v, bit, k);
    PlusCases(TimesE(x), v, bit, TimesE(k));
    TimesELinear(x, k);
  }

  lemma FiveTimesE(x: bv32, v: bv32, k0: bv32, k1: bv32, k2: bv32, k3: bv32, k4: bv32)
    ensures TimesE(Five(x, v, k0, k1, k2, k3, k4))
         == Five(TimesE(x), v, TimesE(k0), TimesE(k1), TimesE(k2), TimesE(k3), TimesE(k4))
  {
    hide Plus, TimesE;
    PlusTimesE(x, v, 1, k0);
    var x1 := Plus(x, v, 1, k0);
    PlusTimesE(x1, v, 2, k1);
    var x2 := Plus(x1, v, 2, k1);
    PlusTimesE(x2, v, 4, k2);
    var x3 := Plus(x2, v, 4, k2);
    PlusTimesE(x3, v, 8, k3);
    PlusTimesE(Plus(x3, v, 8, k3), v, 16, k4);
  }

  function High(v: bv32): bv32 {
    v >> 5
  }

  /** The sum of the elements that the lowest ten bits of `v` select. */
  function Ten(v: bv32, k0: bv32, k1: bv32, k2: bv32, k3: bv32, k4: bv32,
               k5: bv32, k6: bv32, k7: bv32, k8: bv32, k9: bv32): bv32 {
    Five(Five(0, v, k0, k1, k2, k3, k4), High(v), k5, k6, k7, k8, k9)
  }

  /** The product of two field elements. */
  function Mul(a: bv32, v: bv32): bv32 {
    var a1 := TimesE(a); var a2 := TimesE(a1); var a3 := TimesE(a2); var a4 := TimesE(a3); var a5 := TimesE(a4);
    var a6 := TimesE(a5); var a7 := TimesE(a6); var a8 := TimesE(a7); var a9 := TimesE(a8);
    Ten(v, a, a1, a2, a3, a4, a5, a6, a7, a8, a9)
  }

  lemma MulTimesE(a: bv32, v: bv32)
    ensures TimesE(Mul(a, v)) == Mul(TimesE(a), v)
  {
    TimesEFacts(0);
    hide Five, TimesE, High;
    var a1 := TimesE(a); var a2 := TimesE(a1); var a3 := TimesE(a2); var a4 := TimesE(a3); var a5 := TimesE(a4);
    var a6 := TimesE(a5); var a7 := TimesE(a6); var a8 := TimesE(a7); var a9 := TimesE(a8);
    FiveTimesE(0, v, a, a1, a2, a3, a4);
    FiveTimesE(Five(0, v, a, a1, a2, a3, a4), High(v), a5, a6, a7, a8, a9);
  }

  lemma PlusColumns(x: bv32, y: bv32, v: bv32, bit: bv32, k: bv32, l: bv32)
    ensures Plus(Xor(x, y), v, bit, Xor(k, l)) == Xor(Plus(x, v, bit, k), Plus(y, v, bit, l))
  {
    hide Plus, Xor;
    PlusCases(x, v, bit, k);
    PlusCases(y, v, bit, l);
    PlusCases(Xor(x, y), v, bit, Xor(k, l));
    Regroup(x, y, k, l);
  }

  lemma FiveColumns(x: bv32, y: bv32, v: bv32, k0: bv32, k1: bv32, k2: bv32, k3: bv32, k4: bv32,
                    l0: bv32, l1: bv32, l2: bv32, l3: bv32, l4: bv32)
    ensures Five(Xor(x, y), v, Xor(k0, l0), Xor(k1, l1), Xor(k2, l2), Xor(k3, l3), Xor(k4, l4))
         == Xor(Five(x, v, k0, k1, k2, k3, k4), Five(y, v, l0, l1, l2, l3, l4))
  {
    hide Xor, Plus;
    PlusColumns(x, y, v, 1, k0, l0);
    var x1, y1 := Plus(x, v, 1, k0), Plus(y, v, 1, l0);
    PlusColumns(x1, y1, v, 2, k1, l1);
    var x2, y2 := Plus(x1, v, 2, k1), Plus(y1, v, 2, l1);
    PlusColumns(x2, y2, v, 4, k2, l2);
    var x3, y3 := Plus(x2, v, 4, k2), Plus(y2, v, 4, l2);
    PlusColumns(x3, y3, v, 8, k3, l3);
    PlusColumns(Plus(x3, v, 8, k3), Plus(y3, v, 8, l3), v, 16, k4, l4);
  }

  /** Products distribute over sums. */
  lemma MulAdd(a: bv32, b: bv32, v: bv32)
    ensures Mul(Xor(a, b), v) == Xor(Mul(a, v), Mul(b, v))
  {
    hide Xor, TimesE, Five, High;
    var a1 := TimesE(a); var a2 := TimesE(a1); var a3 := TimesE(a2); var a4 := TimesE(a3); var a5 := TimesE(a4);
    var a6 := TimesE(a5); var a7 := TimesE(a6); var a8 := TimesE(a7); var a9 := TimesE(a8);
    var b1 := TimesE(b); var b2 := TimesE(b1); var b3 := TimesE(b2); var b4 := TimesE(b3); var b5 := TimesE(b4);
    var b6 := TimesE(b5); var b7 := TimesE(b6); var b8 := TimesE(b7); var b9 := TimesE(b8);
    TimesELinear(a, b);
    TimesELinear(a1, b1);
    TimesELinear(a2, b2);
    TimesELinear(a3, b3);
    TimesELinear(a4, b4);
    TimesELinear(a5, b5);
    TimesELinear(a6, b6);
    TimesELinear(a7, b7);
    TimesELinear(a8, b8);
    XorUnits(0);
    FiveColumns(0, 0, v, a, a1, a2, a3, a4, b, b1, b2, b3, b4);
    FiveColumns(Five(0, v, a, a1, a2, a3, a4), Five(0, v, b, b1, b2, b3, b4), High(v), a5, a6, a7, a8, a9, b5, b6, b7,
        b8, b9);
  }

  lemma LowBits(v: bv32)
    ensures Five(0, v, 1, 2, 4, 8, 16) == v & 31
  {}

  lemma AllBits(v: bv32)
    requires v < 1024
    ensures Five(v & 31, High(v), 32, 64, 128, 256, 512) == v
  {}

  lemma MulOne(v: bv32)
    requires v < 1024
    ensures Mul(1, v) == v
  {
    assert TimesE(1) == 2 && TimesE(2) == 4 && TimesE(4) == 8 && TimesE(8) == 16 && TimesE(16) == 32;
    assert TimesE(32) == 64 && TimesE(64) == 128 && TimesE(128) == 256 && TimesE(256) == 512;
    hide TimesE, Five, High;
    LowBits(v);
    AllBits(v);
  }

  // ---------- Powers of e ----------

  /** e^n times `v`. */
  function Raise(n: nat, v: bv32): bv32 {
    if n == 0 then v else TimesE(Raise(n - 1, v))
  }

  lemma {:induction false} RaiseLinear(n: nat, a: bv32, b: bv32)
    ensures Raise(n, Xor(a, b)) == Xor(Raise(n, a), Raise(n, b))
  {
    hide Xor, TimesE;
    if n > 0 {
      RaiseLinear(n - 1, a, b);
      TimesELinear(Raise(n - 1, a), Raise(n - 1, b));
    }
  }

  lemma {:induction false} RaiseFacts(n: nat, v: bv32)
    requires v < 1024
    ensures Raise(n, v) < 1024 && (Raise(n, v) == 0 <==> v == 0)
  {
    hide TimesE;
    if n > 0 {
      RaiseFacts(n - 1, v);
      TimesEFacts(Raise(n - 1, v));
    }
  }

  lemma {:induction false} RaiseAdd(m: nat, n: nat, v: bv32)
    ensures Raise(m + n, v) == Raise(m, Raise(n, v))
    decreases m
  {
    hide TimesE;
    if m > 0 { RaiseAdd(m - 1, n, v); }
  }

  lemma {:induction false} RaiseIsMul(n: nat, v: bv32)
    requires v < 1024
    ensures Raise(n, v) == Mul(Raise(n, 1), v)
  {
    hide TimesE, Mul;
    if n == 0 {
      MulOne(v);
    } else {
      RaiseIsMul(n - 1, v);
      MulTimesE(Raise(n - 1, 1), v);
    }
  }

  /** The power e^n itself. */
  function Exp(n: nat): bv32 {
    Raise(n, 1)
  }

  lemma ExpAdd(m: nat, n: nat)
    ensures Exp(m + n) == Mul(Exp(m), Exp(n))
  {
    hide TimesE, Mul, Raise;
    RaiseAdd(m, n, 1);
    RaiseFacts(n, 1);
    RaiseIsMul(m, Raise(n, 1));
  }

  lemma ExpStart()
    ensures Exp(1) == 2
  {
    assert Raise(0, 1) == 1;
  }

  lemma ExpNext(n: nat)
    ensures Exp(n + 1) == TimesE(Exp(n))
  {}

  lemma Square1()
    ensures Mul(2, 2) == 4
  {}

  lemma Square2()
    ensures Mul(4, 4) == 16
  {}

  lemma Square4()
    ensures Mul(16, 16) == 256
  {}

  lemma Square5()
    ensures Mul(32, 32) == 549
  {}

  lemma Square10()
    ensures Mul(549, 549) == 656
  {}

  lemma Square8()
    ensures Mul(256, 256) == 41
  {}

  lemma Square16()
    ensures Mul(41, 41) == 612
  {}

  lemma Square21()
    ensures Mul(773, 773) == 156
  {}

  lemma Square42()
    ensures Mul(156, 156) == 211
  {}

  lemma Product85And8()
    ensures Mul(422, 256) == 217
  {}

  lemma Square85()
    ensures Mul(422, 422) == 923
  {}

  lemma Square170()
    ensures Mul(923, 923) == 75
  {}

  lemma Square341()
    ensures Mul(150, 150) == 151
  {}

  lemma Product682And341()
    ensures Mul(151, 150) == 1
  {}

  lemma Product682And170()
    ensures Mul(151, 923) == 319
  {}

  lemma Product852And93()
    ensures Mul(319, 217) == 925
  {}

  lemma Product945And42()
    ensures Mul(925, 156) == 662
  {}

  lemma Product987And10()
    ensures Mul(662, 549) == 13
  {}

  lemma SmallPowers()
    ensures Exp(5) == 32 && Exp(8) == 256 && Exp(10) == 549 && Exp(21) == 773
  {
    hide Exp, Mul;
    ExpStart();
    Square1();
    ExpAdd(1, 1);
    Square2();
    ExpAdd(2, 2);
    ExpNext(4);
    assert TimesE(16) == 32;
    Square4();
    ExpAdd(4, 4);
    Square5();
    ExpAdd(5, 5);
    Square10();
    ExpAdd(10, 10);
    ExpNext(20);
    assert TimesE(656) == 773;
  }

  lemma Power33()
    ensures Exp(33) == 749
  {
    hide Exp, Mul;
    SmallPowers();
    Square8();
    ExpAdd(8, 8);
    Square16();
    ExpAdd(16, 16);
    ExpNext(32);
    assert TimesE(612) == 749;
  }

  lemma MiddlePowers()
    ensures Exp(42) == 156 && Exp(85) == 422 && Exp(93) == 217
  {
    hide Exp, Mul;
    SmallPowers();
    Square21();
    ExpAdd(21, 21);
    Square42();
    ExpAdd(42, 42);
    ExpNext(84);
    assert TimesE(211) == 422;
    Product85And8();
    ExpAdd(85, 8);
  }

  lemma LargePowers()
    ensures Exp(170) == 923 && Exp(341) == 150 && Exp(682) == 151 && Exp(1023) == 1
  {
    hide Exp, Mul;
    MiddlePowers();
    Square85();
    ExpAdd(85, 85);
    Square170();
    ExpAdd(170, 170);
    ExpNext(340);
    assert TimesE(75) == 150;
    Square341();
    ExpAdd(341, 341);
    Product682And341();
    ExpAdd(682, 341);
  }

  lemma Power997()
    ensures Exp(997) == 13
  {
    hide Exp, Mul;
    SmallPowers();
    MiddlePowers();
    LargePowers();
    Product682And170();
    ExpAdd(682, 170);
    Product852And93();
    ExpAdd(852, 93);
    Product945And42();
    ExpAdd(945, 42);
    Product987And10();
    ExpAdd(987, 10);
  }

  // ---------- The order of e ----------

  /** Multiplying by e^d leaves `v` as it is. */
  predicate Fixed(d: nat, v: bv32) {
    Raise(d, v) == v
  }

  lemma {:induction false} FixedMultiple(d: nat, k: nat, v: bv32)
    requires Fixed(d, v)
    ensures d * k >= 0 && Fixed(d * k, v)
    decreases k
  {
    if k > 0 {
      FixedMultiple(d, k - 1, v);
      RaiseAdd(d, d * (k - 1), v);
      assert d + d * (k - 1) == d * k;
    }
  }

  /** 1023 steps come back to the start, and a third, an eleventh or a thirty-first of them never do. */
  lemma Turns(v: bv32)
    requires v < 1024
    ensures Fixed(1023, v)
    ensures Fixed(33, v) || Fixed(93, v) || Fixed(341, v) ==> v == 0
  {
    hide Raise, Mul;
    LargePowers();
    MiddlePowers();
    Power33();
    RaiseIsMul(33, v);
    RaiseIsMul(93, v);
    RaiseIsMul(341, v);
    RaiseIsMul(1023, v);
    MulOne(v);
    if v != 0 { NoThirtyFirst(v); NoEleventh(v); NoThird(v); }
  }

  lemma NoThirtyFirst(v: bv32)
    requires v < 1024 && v != 0
    ensures Mul(749, v) != v
  {
    assert TimesE(749) == 1023 && TimesE(1023) == 475 && TimesE(475) == 950 && TimesE(950) == 329 && TimesE(329) == 658;
    assert TimesE(658) == 769 && TimesE(769) == 39 && TimesE(39) == 78 && TimesE(78) == 156;
    hide TimesE;
  }

  lemma NoEleventh(v: bv32)
    requires v < 1024 && v != 0
    ensures Mul(217, v) != v
  {
    assert TimesE(217) == 434 && TimesE(434) == 868 && TimesE(868) == 237 && TimesE(237) == 474 && TimesE(474) == 948;
    assert TimesE(948) == 333 && TimesE(333) == 666 && TimesE(666) == 785 && TimesE(785) == 7;
    hide TimesE;
  }

  lemma NoThird(v: bv32)
    requires v < 1024 && v != 0
    ensures Mul(150, v) != v
  {
    assert TimesE(150) == 300 && TimesE(300) == 600 && TimesE(600) == 661 && TimesE(661) == 783 && TimesE(783) == 59;
    assert TimesE(59) == 118 && TimesE(118) == 236 && TimesE(236) == 472 && TimesE(472) == 944;
    hide TimesE;
  }

  lemma FixedMinus(m: nat, n: nat, v: bv32)
    requires Fixed(m + n, v) && Fixed(n, v)
    ensures Fixed(m, v)
  {
    RaiseAdd(m, n, v);
  }

  /** If `d` is invertible modulo `p`, what `d` fixes is fixed by a p-th of a turn. */
  lemma FixedPart(d: nat, p: nat, part: nat, z: nat, t: nat, v: bv32)
    requires v < 1024 && Fixed(d, v) && p * part == 1023 && d * z == p * t + 1
    ensures Fixed(part, v)
  {
    hide Fixed;
    Turns(v);
    FixedMultiple(d, z * part, v);
    FixedMultiple(1023, t, v);
    assert d * (z * part) == part + 1023 * t by {
      MulAssoc(d, z, part);
      MulAssoc(p, part, t);
      MulAssoc(p, t, part);
    }
    FixedMinus(part, 1023 * t, v);
  }

  /** The inverse of a small number modulo 11, and what it exceeds one by. */
  function InverseMod11(r: nat): (nat, nat) {
    match r
    case 1 => (1, 0) case 2 => (6, 1) case 3 => (4, 1) case 4 => (3, 1) case _ => (9, 4)
  }

  function InverseMod31(r: nat): (nat, nat) {
    match r
    case 1 => (1, 0) case 2 => (16, 1) case 3 => (21, 2) case 4 => (8, 1) case 5 => (25, 4) case 6 => (26, 5)
    case 7 => (9, 2) case 8 => (4, 1) case 9 => (7, 2) case 10 => (28, 9) case 11 => (17, 6) case 12 => (13, 5)
    case 13 => (12, 5) case 14 => (20, 9) case _ => (29, 14)
  }

  lemma SmallInverse(r: nat, p: nat) returns (z: nat, s: nat)
    requires p == 3 || p == 11 || p == 31
    requires 0 < r && 2 * r < p
    ensures r * z == p * s + 1 && z <= p
  {
    if p == 3 {
      z, s := 1, 0;
    } else if p == 11 {
      z, s := InverseMod11(r).0, InverseMod11(r).1;
    } else {
      z, s := InverseMod31(r).0, InverseMod31(r).1;
    }
  }

  lemma Mirrored(r: int, y: int, s: int, p: int)
    requires (p - r) * y == p * s + 1
    ensures r * (p - y) == p * (r - y + s) + 1
  {
    MulDist(p, -r, y);
    MulDist(r, -y, p);
    assert p * (r - y + s) == p * r - p * y + p * s;
    assert r * (p - y) == r * p - r * y;
  }

  lemma WithQuotient(d: int, p: int, q: int, r: int, z: int, s: int)
    requires d == p * q + r && r * z == p * s + 1
    ensures d * z == p * (q * z + s) + 1
  {
    MulDist(p * q, r, z);
    MulAssoc(p, q, z);
    MulDist(q * z, s, p);
  }

  lemma Inverse(d: nat, p: nat) returns (z: nat, t: int)
    requires p == 3 || p == 11 || p == 31
    requires d % p != 0
    ensures d * z == p * t + 1
  {
    var q, r := d / p, d % p;
    DivMod(d, p);
    var s: int;
    if 2 * r < p {
      z, s := SmallInverse(r, p);
    } else {
      var y, u := SmallInverse(p - r, p);
      Mirrored(r, y, u, p);
      z, s := p - y, r - y + u;
    }
    WithQuotient(d, p, q, r, z, s);
    t := q * z + s;
  }

  lemma NotAllDivide(d: nat)
    requires 0 < d < 1023
    ensures d % 3 != 0 || d % 11 != 0 || d % 31 != 0
  {
    var c := d / 31;
    if d % 31 == 0 {
      assert d == 31 * c && c < 33;
      if d % 11 == 0 {
        assert (9 * c) % 11 == 0;
        assert c == 11 || c == 22;
      }
    }
  }

  /** No power of e between the first and the 1022nd fixes anything but zero. */
  lemma OrderOfE(d: nat, v: bv32)
    requires 0 < d < 1023 && v < 1024 && Fixed(d, v)
    ensures v == 0
  {
    hide Fixed, Raise;
    Turns(v);
    NotAllDivide(d);
    var p := if d % 3 != 0 then 3 else if d % 11 != 0 then 11 else 31;
    var z, t := Inverse(d, p);
    if t >= 0 {
      FixedPart(d, p, if p == 3 then 341 else if p == 11 then 93 else 33, z, t, v);
    } else {
      MulNonNeg(d, z);
      assert false;
    }
  }

  // ---------- Three unknowns, three equations ----------

  lemma XorSmall(a: bv32, b: bv32)
    requires a < 1024 && b < 1024
    ensures Xor(a, b) < 1024
  {}

  lemma Cross(a: bv32, b: bv32, x: bv32, y: bv32)
    requires Xor(a, b) == Xor(x, y)
    ensures Xor(x, a) == Xor(y, b)
  {
    hide Xor;
    Regroup(x, a, y, b);
    XorUnits(Xor(x, y));
    XorZero(Xor(x, a), Xor(y, b));
  }

  /** Powers of e that differ in their effect on `u` are different powers. */
  lemma SamePower(m: nat, n: nat, u: bv32)
    requires n < m < 1023 && u < 1024 && Raise(m, u) == Raise(n, u)
    ensures u == 0
  {
    hide Xor, Raise;
    var x := Raise(m - n, u);
    RaiseAdd(n, m - n, u);
    RaiseLinear(n, x, u);
    RaiseFacts(m - n, u);
    XorSmall(x, u);
    XorUnits(Raise(n, u));
    RaiseFacts(n, Xor(x, u));
    XorZero(x, u);
    OrderOfE(m - n, u);
  }

  lemma NoThree(m: nat, n: nat, a: bv32, b: bv32, c: bv32)
    requires a < 1024 && b < 1024 && 0 < m < 1023 && (b == 0 || 0 < n < m)
    requires Xor(Xor(a, b), c) == 0
    requires Xor(Xor(Raise(m, a), Raise(n, b)), c) == 0
    requires Xor(Xor(Raise(2 * m, a), Raise(2 * n, b)), c) == 0
    ensures a == 0 && b == 0 && c == 0
  {
    hide Xor, Raise;
    var a1, b1 := Raise(m, a), Raise(n, b);
    XorZero(Xor(a, b), c);
    XorZero(Xor(a1, b1), c);
    Cross(a, b, a1, b1);
    var u := Xor(a1, a);
    RaiseFacts(m, a);
    RaiseFacts(n, b);
    XorSmall(a1, a);
    if b == 0 {
      XorUnits(0);
    } else {
      XorZero(Xor(Raise(2 * m, a), Raise(2 * n, b)), c);
      RaiseAdd(m, m, a);
      RaiseAdd(n, n, b);
      Cross(a1, b1, Raise(m, a1), Raise(n, b1));
      RaiseLinear(m, a1, a);
      RaiseLinear(n, b1, b);
      SamePower(m, n, u);
      XorZero(b1, b);
      OrderOfE(n, b);
    }
    XorZero(a1, a);
    OrderOfE(m, a);
    XorUnits(0);
  }
}
