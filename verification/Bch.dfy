/**
 The distance of the Bech32 code (bech32.cpp, the comment on PolyMod): up to three wrong symbols within a window of
 1023 change the checksum.  The generator has three consecutive powers of a primitive element of GF(1024) as roots,
 so a list with checksum zero has value zero at each of them.
 */
module Bch {
  import opened Bech32
  import opened Gf1024

  // ---------- Symbols as field elements ----------

  /** A symbol, an element of GF(32), in GF(1024). */
  function Embed(v: bv32): bv32 {
    Five(0, v, 1, 333, 643, 615, 290)
  }

  lemma EmbedFacts(v: bv32)
    requires v < 32
    ensures Embed(v) < 1024 && (Embed(v) == 0 <==> v == 0)
  {}

  /** Twice a symbol, in GF(32). */
  function Twice(v: bv32): bv32 {
    Xor((v & 15) << 1, Pick(v, 16, 9))
  }

  /** The product of `k` and a symbol, in GF(32). */
  function Scale(k: bv32, a: bv32): bv32 {
    Five(0, a, k, Twice(k), Twice(Twice(k)), Twice(Twice(Twice(k))), Twice(Twice(Twice(Twice(k)))))
  }

  /** The element a * e + b of GF(1024), for symbols `a` and `b`. */
  function Pair(a: bv32, b: bv32): bv32 {
    Xor(TimesE(Embed(a)), Embed(b))
  }

  lemma EmbedPlus(x: bv32, v: bv32, bit: bv32, k: bv32)
    ensures Embed(Plus(x, v, bit, k)) == Plus(Embed(x), v, bit, Embed(k))
  {
    hide Five, Plus, Xor;
    PlusCases(x, v, bit, k);
    PlusCases(Embed(x), v, bit, Embed(k));
    XorUnits(0);
    FiveLinear(0, 0, x, k, 1, 333, 643, 615, 290);
  }

  lemma EmbedZero()
    ensures Embed(0) == 0
  {}

  lemma EmbedFive(v: bv32, k0: bv32, k1: bv32, k2: bv32, k3: bv32, k4: bv32)
    ensures Embed(Five(0, v, k0, k1, k2, k3, k4)) == Five(0, v, Embed(k0), Embed(k1), Embed(k2), Embed(k3), Embed(k4))
  {
    EmbedZero();
    hide Plus, Embed;
    EmbedPlus(0, v, 1, k0);
    var x1 := Plus(0, v, 1, k0);
    EmbedPlus(x1, v, 2, k1);
    var x2 := Plus(x1, v, 2, k1);
    EmbedPlus(x2, v, 4, k2);
    var x3 := Plus(x2, v, 4, k2);
    EmbedPlus(x3, v, 8, k3);
    EmbedPlus(Plus(x3, v, 8, k3), v, 16, k4);
  }

  lemma ScaleColumns()
    ensures Twice(9) == 18 && Twice(18) == 13 && Twice(13) == 26 && Twice(26) == 29
    ensures Twice(23) == 7 && Twice(7) == 14 && Twice(14) == 28 && Twice(28) == 17
  {}

  lemma Embeds9()
    ensures Embed(9) == 614 && Embed(18) == 111 && Embed(13) == 229 && Embed(26) == 520 && Embed(29) == 455
  {}

  lemma Embeds23()
    ensures Embed(23) == 749 && Embed(7) == 975 && Embed(14) == 425 && Embed(28) == 454 && Embed(17) == 291
  {}

  lemma ExtensionColumns()
    ensures TimesE(614) == 745 && TimesE(111) == 222 && TimesE(229) == 458 && TimesE(520) == 565 && TimesE(455) == 910
    ensures TimesE(TimesE(1)) == 4 && TimesE(TimesE(333)) == 785 && TimesE(TimesE(643)) == 99
    ensures TimesE(TimesE(615)) == 1011 && TimesE(TimesE(290)) == 685
    ensures Xor(745, 749) == 4 && Xor(222, 975) == 785 && Xor(458, 425) == 99
    ensures Xor(565, 454) == 1011 && Xor(910, 291) == 685
  {}

  /** The square of e is 9e + 23. */
  lemma EmbedScaled(a: bv32)
    ensures TimesE(TimesE(Embed(a))) == Xor(TimesE(Embed(Scale(9, a))), Embed(Scale(23, a)))
  {
    ScaleColumns();
    Embeds9();
    Embeds23();
    ExtensionColumns();
    TimesEFacts(0);
    hide Xor, TimesE, Five, Twice;
    XorUnits(0);
    EmbedFive(a, 9, 18, 13, 26, 29);
    EmbedFive(a, 23, 7, 14, 28, 17);
    FiveTimesE(0, a, 614, 111, 229, 520, 455);
    FiveColumns(0, 0, a, 745, 222, 458, 565, 910, 749, 975, 425, 454, 291);
    FiveTimesE(0, a, 1, 333, 643, 615, 290);
    FiveTimesE(0, a, TimesE(1), TimesE(333), TimesE(643), TimesE(615), TimesE(290));
  }

  /** Multiplication by e in the pairs of GF(32) elements that the tables are made of. */
  lemma ExtensionRule(a: bv32, b: bv32)
    ensures TimesE(Pair(a, b)) == Pair(Xor(Scale(9, a), b), Scale(23, a))
  {
    hide Xor, TimesE, Five, Scale;
    EmbedScaled(a);
    var x, y := Embed(Scale(9, a)), Embed(b);
    XorUnits(0);
    FiveLinear(0, 0, Scale(9, a), b, 1, 333, 643, 615, 290);
    TimesELinear(TimesE(Embed(a)), y);
    TimesELinear(x, y);
    var p, q, r := TimesE(x), TimesE(y), Embed(Scale(23, a));
    XorAssoc(p, q, r);
    XorCommutes(q, r);
    XorAssoc(p, r, q);
  }

  /** Multiplying once per symbol and `n` symbols long: the exponent for the root e^(997 + j). */
  function Turned(j: nat, n: nat): nat {
    997 * n + if j == 0 then 0 else if j == 1 then n else 2 * n
  }

  /** The value at the root e^(997 + j) of the polynomial with the given symbols, first symbol first. */
  function Value(j: nat, acc: bv32, vs: seq<bv32>): bv32 {
    if vs == [] then acc
    else Xor(Raise(Turned(j, 1), Value(j, acc, vs[..|vs| - 1])), Embed(vs[|vs| - 1]))
  }

  lemma {:induction false} ValueLinear(j: nat, a: bv32, b: bv32, v: seq<bv32>, w: seq<bv32>)
    requires |v| == |w|
    ensures Value(j, Xor(a, b), XorAll(v, w)) == Xor(Value(j, a, v), Value(j, b, w))
  {
    hide Xor, Raise, Five;
    if v != [] {
      var n := |v| - 1;
      ValueLinear(j, a, b, v[..n], w[..n]);
      assert XorAll(v, w)[..n] == XorAll(v[..n], w[..n]);
      var x, y := Value(j, a, v[..n]), Value(j, b, w[..n]);
      RaiseLinear(Turned(j, 1), x, y);
      XorUnits(0);
      FiveLinear(0, 0, v[n], w[n], 1, 333, 643, 615, 290);
      Regroup(Raise(Turned(j, 1), x), Raise(Turned(j, 1), y), Embed(v[n]), Embed(w[n]));
    }
  }

  lemma {:induction false} ValueConcat(j: nat, acc: bv32, a: seq<bv32>, b: seq<bv32>)
    ensures Value(j, acc, a + b) == Value(j, Value(j, acc, a), b)
  {
    hide Xor, Raise, Embed;
    if b == [] {
      assert a + b == a;
    } else {
      var n := |b| - 1;
      ValueConcat(j, acc, a, b[..n]);
      assert (a + b)[..|a| + n] == a + b[..n];
    }
  }

  /** What comes before a list is multiplied once per symbol of it. */
  lemma {:induction false} ValueFrom(j: nat, acc: bv32, vs: seq<bv32>)
    ensures Value(j, acc, vs) == Xor(Raise(Turned(j, |vs|), acc), Value(j, 0, vs))
  {
    hide Xor, Embed;
    if vs == [] {
      XorUnits(acc);
    } else {
      hide Raise;
      var n := |vs| - 1;
      ValueFrom(j, acc, vs[..n]);
      var x, y, e := Raise(Turned(j, n), acc), Value(j, 0, vs[..n]), Embed(vs[n]);
      RaiseLinear(Turned(j, 1), x, y);
      RaiseAdd(Turned(j, 1), Turned(j, n), acc);
      assert Turned(j, 1) + Turned(j, n) == Turned(j, n + 1);
      XorAssoc(Raise(Turned(j, 1), x), Raise(Turned(j, 1), y), e);
    }
  }

  lemma {:induction false} ValueZeros(j: nat, zs: seq<bv32>)
    requires AllZero(zs)
    ensures Value(j, 0, zs) == 0
  {
    hide Xor, Raise, Embed;
    if zs != [] {
      ValueZeros(j, zs[..|zs| - 1]);
      RaiseFacts(Turned(j, 1), 0);
      EmbedFacts(0);
      XorUnits(0);
    }
  }

  // ---------- The value of a state ----------

  /** A state is a polynomial with six coefficients, highest first. */
  function ValueOf(j: nat, s: bv32): bv32 {
    Value(j, 0, Unpack(s))
  }

  lemma FirstLinear(a: bv32, b: bv32)
    ensures Unpacked(Xor(a, b), 0) == Xor(Unpacked(a, 0), Unpacked(b, 0))
  {}

  lemma SecondLinear(a: bv32, b: bv32)
    ensures Unpacked(Xor(a, b), 1) == Xor(Unpacked(a, 1), Unpacked(b, 1))
  {}

  lemma ThirdLinear(a: bv32, b: bv32)
    ensures Unpacked(Xor(a, b), 2) == Xor(Unpacked(a, 2), Unpacked(b, 2))
  {}

  lemma FourthLinear(a: bv32, b: bv32)
    ensures Unpacked(Xor(a, b), 3) == Xor(Unpacked(a, 3), Unpacked(b, 3))
  {}

  lemma FifthLinear(a: bv32, b: bv32)
    ensures Unpacked(Xor(a, b), 4) == Xor(Unpacked(a, 4), Unpacked(b, 4))
  {}

  lemma SixthLinear(a: bv32, b: bv32)
    ensures Unpacked(Xor(a, b), 5) == Xor(Unpacked(a, 5), Unpacked(b, 5))
  {}

  lemma UnpackLinear(a: bv32, b: bv32)
    ensures Unpack(Xor(a, b)) == XorAll(Unpack(a), Unpack(b))
  {
    hide Xor, Unpacked;
    var x, y := Unpack(Xor(a, b)), XorAll(Unpack(a), Unpack(b));
    FirstLinear(a, b);
    SecondLinear(a, b);
    ThirdLinear(a, b);
    FourthLinear(a, b);
    FifthLinear(a, b);
    SixthLinear(a, b);
    forall i | 0 <= i < 6 ensures x[i] == y[i] {}
  }

  lemma ValueOfLinear(j: nat, a: bv32, b: bv32)
    ensures ValueOf(j, Xor(a, b)) == Xor(ValueOf(j, a), ValueOf(j, b))
  {
    hide Xor, Value, Unpacked;
    UnpackLinear(a, b);
    XorUnits(0);
    ValueLinear(j, 0, 0, Unpack(a), Unpack(b));
  }

  lemma UnpackedZero(i: nat)
    requires i < 6
    ensures Unpacked(0, i) == 0
  {
    if i == 0 {} else if i == 1 {} else if i == 2 {} else if i == 3 {} else if i == 4 {} else {}
  }

  lemma ValueOfZero(j: nat)
    ensures ValueOf(j, 0) == 0
  {
    hide Value, Unpacked;
    forall i | 0 <= i < 6 ensures Unpack(0)[i] == 0 { UnpackedZero(i); }
    ValueZeros(j, Unpack(0));
  }

  lemma ShiftedCoefficient(s: bv32, v: bv32, i: nat)
    requires v < 32 && i < 5
    ensures Unpacked(Xor(Lift(s), v), i) == Unpacked(s, i + 1)
  {
    if i == 0 {} else if i == 1 {} else if i == 2 {} else if i == 3 {} else {}
  }

  lemma ShiftedEnds(s: bv32, v: bv32)
    requires s < 0x4000_0000 && v < 32
    ensures Unpacked(s, 0) == Top(s) < 32 && Unpacked(Xor(Lift(s), v), 5) == v
  {}

  /** Shifting a symbol in drops the first coefficient and appends the symbol. */
  lemma UnpackShift(s: bv32, v: bv32)
    requires s < 0x4000_0000 && v < 32
    ensures [Top(s)] + Unpack(Xor(Lift(s), v)) == Unpack(s) + [v]
  {
    hide Xor, Lift, Top, Unpacked;
    ShiftedEnds(s, v);
    var x, y := [Top(s)] + Unpack(Xor(Lift(s), v)), Unpack(s) + [v];
    forall i | 0 <= i < 7 ensures x[i] == y[i] {
      if 0 < i < 6 { ShiftedCoefficient(s, v, i - 1); }
    }
  }

  // ---------- The generator at the roots ----------

  /** Multiplication by the first root, e^997 = 1 + e^2 + e^3. */
  function ByRoot(x: bv32): bv32 {
    Xor(Xor(x, TimesE(TimesE(x))), TimesE(TimesE(TimesE(x))))
  }

  function AtRoot(j: nat, x: bv32): bv32 {
    if j == 0 then ByRoot(x) else if j == 1 then TimesE(ByRoot(x)) else TimesE(TimesE(ByRoot(x)))
  }

  lemma RootSum()
    ensures Xor(Xor(1, TimesE(TimesE(1))), TimesE(TimesE(TimesE(1)))) == 13
  {}

  lemma FirstRoot(x: bv32)
    requires x < 1024
    ensures Raise(997, x) == ByRoot(x)
  {
    hide Raise, Mul, TimesE, Xor;
    Power997();
    RaiseIsMul(997, x);
    RootSum();
    var a, b := TimesE(TimesE(1)), TimesE(TimesE(TimesE(1)));
    MulAdd(Xor(1, a), b, x);
    MulAdd(1, a, x);
    MulOne(x);
    MulTimesE(1, x);
    MulTimesE(TimesE(1), x);
    MulTimesE(a, x);
  }

  lemma RootIs(j: nat, x: bv32)
    requires j < 3 && x < 1024
    ensures Raise(Turned(j, 1), x) == AtRoot(j, x) < 1024
  {
    hide Raise, TimesE, ByRoot;
    RaiseFacts(Turned(j, 1), x);
    RaiseNext(997, x);
    RaiseNext(998, x);
    FirstRoot(x);
  }

  lemma RaiseNext(n: nat, x: bv32)
    ensures Raise(n + 1, x) == TimesE(Raise(n, x))
  {}

  /** The value of six symbols, by Horner's rule. */
  function Horner(j: nat, d: seq<bv32>): bv32
    requires |d| == 6
  {
    var h1 := Xor(AtRoot(j, Embed(d[0])), Embed(d[1]));
    var h2 := Xor(AtRoot(j, h1), Embed(d[2]));
    var h3 := Xor(AtRoot(j, h2), Embed(d[3]));
    var h4 := Xor(AtRoot(j, h3), Embed(d[4]));
    Xor(AtRoot(j, h4), Embed(d[5]))
  }

  lemma ValueNext(j: nat, vs: seq<bv32>, n: nat)
    requires j < 3 && n < |vs| && Symbols(vs) && Value(j, 0, vs[..n]) < 1024
    ensures Value(j, 0, vs[..n + 1]) == Xor(AtRoot(j, Value(j, 0, vs[..n])), Embed(vs[n])) < 1024
  {
    hide Xor, AtRoot, Raise, Embed;
    assert vs[..n + 1][..n] == vs[..n];
    RootIs(j, Value(j, 0, vs[..n]));
    EmbedFacts(vs[n]);
    XorSmall(AtRoot(j, Value(j, 0, vs[..n])), Embed(vs[n]));
  }

  lemma ValueIsHorner(j: nat, d: seq<bv32>)
    requires j < 3 && |d| == 6 && Symbols(d)
    ensures Value(j, 0, d) == Horner(j, d)
  {
    hide Xor, AtRoot, Raise, Embed;
    assert Value(j, 0, d[..0]) == 0;
    ValueNext(j, d, 0);
    ZeroAtRoot(j);
    XorUnits(Embed(d[0]));
    hide Value;
    ValueNext(j, d, 1);
    ValueNext(j, d, 2);
    ValueNext(j, d, 3);
    ValueNext(j, d, 4);
    ValueNext(j, d, 5);
    assert d[..6] == d;
  }

  lemma ZeroAtRoot(j: nat)
    requires j < 3
    ensures AtRoot(j, 0) == 0
  {
    hide AtRoot, Raise;
    RootIs(j, 0);
    RaiseFacts(Turned(j, 1), 0);
  }

  function SixTimes(j: nat, x: bv32): bv32 {
    AtRoot(j, AtRoot(j, AtRoot(j, AtRoot(j, AtRoot(j, AtRoot(j, x))))))
  }

  lemma SixTurns(j: nat, x: bv32)
    requires j < 3 && x < 1024
    ensures Raise(Turned(j, 6), x) == SixTimes(j, x)
  {
    hide AtRoot, Raise;
    var x1 := AtRoot(j, x); var x2 := AtRoot(j, x1); var x3 := AtRoot(j, x2);
    var x4 := AtRoot(j, x3); var x5 := AtRoot(j, x4);
    RootIs(j, x);
    RootIs(j, x1);
    RootIs(j, x2);
    RootIs(j, x3);
    RootIs(j, x4);
    RootIs(j, x5);
    var k := Turned(j, 1);
    RaiseAdd(k, k, x);
    RaiseAdd(k, Turned(j, 2), x);
    RaiseAdd(k, Turned(j, 3), x);
    RaiseAdd(k, Turned(j, 4), x);
    RaiseAdd(k, Turned(j, 5), x);
  }

  lemma DigitsEmbedded()
    ensures Embed(29) == 455 && Embed(22) == 748 && Embed(20) == 929 && Embed(21) == 928 && Embed(18) == 111
  {}

  lemma HornerAt0()
    ensures Horner(0, [29, 22, 20, 21, 29, 18]) == SixTimes(0, 1)
  {
    hide AtRoot, Embed, Xor;
    DigitsEmbedded();
    HornerProducts0();
    HornerSums0();
    SixProducts0();
  }

  lemma HornerSums0()
    ensures Xor(652, 748) == 96 && Xor(736, 929) == 321
    ensures Xor(519, 928) == 423 && Xor(108, 455) == 427 && Xor(48, 111) == 95
  {}

  lemma HornerProducts0()
    ensures AtRoot(0, 455) == 652 && AtRoot(0, 96) == 736 && AtRoot(0, 321) == 519
    ensures AtRoot(0, 423) == 108 && AtRoot(0, 427) == 48
  {}

  lemma SixProducts0()
    ensures AtRoot(0, 1) == 13 && AtRoot(0, 13) == 81 && AtRoot(0, 81) == 925
    ensures AtRoot(0, 925) == 1018 && AtRoot(0, 1018) == 313 && AtRoot(0, 313) == 95
  {}

  lemma HornerAt1()
    ensures Horner(1, [29, 22, 20, 21, 29, 18]) == SixTimes(1, 1)
  {
    hide AtRoot, Embed, Xor;
    DigitsEmbedded();
    HornerProducts1();
    HornerSums1();
    SixProducts1();
  }

  lemma HornerSums1()
    ensures Xor(829, 748) == 465 && Xor(705, 929) == 352
    ensures Xor(369, 928) == 721 && Xor(856, 455) == 671 && Xor(881, 111) == 798
  {}

  lemma HornerProducts1()
    ensures AtRoot(1, 455) == 829 && AtRoot(1, 465) == 705 && AtRoot(1, 352) == 369
    ensures AtRoot(1, 721) == 856 && AtRoot(1, 671) == 881
  {}

  lemma SixProducts1()
    ensures AtRoot(1, 1) == 26 && AtRoot(1, 26) == 324 && AtRoot(1, 324) == 601
    ensures AtRoot(1, 601) == 706 && AtRoot(1, 706) == 726 && AtRoot(1, 726) == 798
  {}

  lemma HornerAt2()
    ensures Horner(2, [29, 22, 20, 21, 29, 18]) == SixTimes(2, 1)
  {
    hide AtRoot, Embed, Xor;
    DigitsEmbedded();
    HornerProducts2();
    HornerSums2();
    SixProducts2();
  }

  lemma HornerSums2()
    ensures Xor(95, 748) == 691 && Xor(274, 929) == 691 && Xor(274, 928) == 690
    ensures Xor(294, 455) == 225 && Xor(847, 111) == 800
  {}

  lemma HornerProducts2()
    ensures AtRoot(2, 455) == 95 && AtRoot(2, 691) == 274 && AtRoot(2, 691) == 274
    ensures AtRoot(2, 690) == 294 && AtRoot(2, 225) == 847
  {}

  lemma SixProducts2()
    ensures AtRoot(2, 1) == 52 && AtRoot(2, 52) == 821 && AtRoot(2, 821) == 51
    ensures AtRoot(2, 51) == 953 && AtRoot(2, 953) == 983 && AtRoot(2, 983) == 800
  {}

  lemma GeneratorAt(j: nat)
    requires j < 3
    ensures Value(j, 0, [29, 22, 20, 21, 29, 18]) == Raise(Turned(j, 6), 1)
  {
    hide Horner, SixTimes, Raise, Value;
    ValueIsHorner(j, [29, 22, 20, 21, 29, 18]);
    SixTurns(j, 1);
    if j == 0 {
      HornerAt0();
    } else if j == 1 {
      HornerAt1();
    } else {
      HornerAt2();
    }
  }

  // ---------- Doubled symbols ----------

  lemma {:induction false} RaiseFive(n: nat, x: bv32, v: bv32, k0: bv32, k1: bv32, k2: bv32, k3: bv32, k4: bv32)
    ensures Raise(n, Five(x, v, k0, k1, k2, k3, k4))
         == Five(Raise(n, x), v, Raise(n, k0), Raise(n, k1), Raise(n, k2), Raise(n, k3), Raise(n, k4))
  {
    hide Five, TimesE;
    if n > 0 {
      RaiseFive(n - 1, x, v, k0, k1, k2, k3, k4);
      FiveTimesE(Raise(n - 1, x), v, Raise(n - 1, k0), Raise(n - 1, k1), Raise(n - 1, k2), Raise(n - 1, k3),
          Raise(n - 1, k4));
    }
  }

  lemma TwiceIs(v: bv32)
    requires v < 32
    ensures Twice(v) < 32 && Embed(Twice(v)) == Five(0, v, 333, 643, 615, 290, 614)
  {}

  /** The element two of GF(32) is e^99. */
  lemma DoubledPowers()
    ensures Exp(99) == 333
  {
    hide Exp, Mul;
    Power33();
    Square33();
    ExpAdd(33, 33);
    Product66And33();
    ExpAdd(66, 33);
  }

  lemma Square33()
    ensures Mul(749, 749) == 424
  {}

  lemma Product66And33()
    ensures Mul(424, 749) == 333
  {}

  lemma DoubledFirst()
    ensures Mul(333, 1) == 333 && Mul(333, 333) == 643
  {}

  lemma DoubledSecond()
    ensures Mul(333, 643) == 615
  {}

  lemma DoubledThird()
    ensures Mul(333, 615) == 290
  {}

  lemma DoubledFourth()
    ensures Mul(333, 290) == 614
  {}

  lemma DoubledProducts()
    ensures Raise(99, 1) == 333 && Raise(99, 333) == 643 && Raise(99, 643) == 615 && Raise(99, 615) == 290
    ensures Raise(99, 290) == 614
  {
    hide Raise, Mul;
    DoubledPowers();
    DoubledFirst();
    DoubledSecond();
    DoubledThird();
    DoubledFourth();
    RaiseIsMul(99, 1);
    RaiseIsMul(99, 333);
    RaiseIsMul(99, 643);
    RaiseIsMul(99, 615);
    RaiseIsMul(99, 290);
  }

  lemma EmbedTwice(v: bv32)
    requires v < 32
    ensures Embed(Twice(v)) == Raise(99, Embed(v))
  {
    hide Five, Raise;
    TwiceIs(v);
    DoubledProducts();
    RaiseFacts(99, 0);
    RaiseFive(99, 0, v, 1, 333, 643, 615, 290);
  }

  lemma RaiseSwap(m: nat, n: nat, v: bv32)
    ensures Raise(m, Raise(n, v)) == Raise(n, Raise(m, v))
  {
    RaiseAdd(m, n, v);
    RaiseAdd(n, m, v);
  }

  lemma {:induction false} ValueTwice(j: nat, v: seq<bv32>, w: seq<bv32>)
    requires |v| == |w| && Symbols(v) && forall i :: 0 <= i < |v| ==> w[i] == Twice(v[i])
    ensures Value(j, 0, w) == Raise(99, Value(j, 0, v))
  {
    hide Xor, Raise, Embed, Twice;
    if v == [] {
      RaiseFacts(99, 0);
    } else {
      var n, k := |v| - 1, Turned(j, 1);
      ValueTwice(j, v[..n], w[..n]);
      var x := Value(j, 0, v[..n]);
      RaiseSwap(k, 99, x);
      EmbedTwice(v[n]);
      RaiseLinear(99, Raise(k, x), Embed(v[n]));
    }
  }

  function Generator(b: nat): bv32 {
    if b == 0 then 0x3b6a57b2 else if b == 1 then 0x26508e6d else if b == 2 then 0x1ea119fa
    else if b == 3 then 0x3d4233dd else 0x2a1462b3
  }

  function GeneratorDigits(b: nat): seq<bv32> {
    if b == 0 then [29, 22, 20, 21, 29, 18] else if b == 1 then [19, 5, 1, 3, 19, 13]
    else if b == 2 then [15, 10, 2, 6, 15, 26] else if b == 3 then [30, 20, 4, 12, 30, 29] else [21, 1, 8, 24, 21, 19]
  }

  lemma GeneratorDigit(b: nat, i: nat)
    requires b < 5 && i < 6
    ensures Unpacked(Generator(b), i) == GeneratorDigits(b)[i] < 32
  {
    if i == 0 {} else if i == 1 {} else if i == 2 {} else if i == 3 {} else if i == 4 {} else {}
  }

  lemma GeneratorTwice(b: nat, i: nat)
    requires 0 < b < 5 && i < 6
    ensures GeneratorDigits(b)[i] == Twice(GeneratorDigits(b - 1)[i])
  {
    if i == 0 {} else if i == 1 {} else if i == 2 {} else if i == 3 {} else if i == 4 {} else {}
  }

  function SymbolBit(b: nat): bv32 {
    if b == 0 then 1 else if b == 1 then 333 else if b == 2 then 643 else if b == 3 then 615 else 290
  }

  /** The constant for bit `b` has the value of that bit times x^6 at every root. */
  lemma {:induction false} GeneratorRoots(j: nat, b: nat)
    requires j < 3 && b < 5
    ensures ValueOf(j, Generator(b)) == Raise(Turned(j, 6), SymbolBit(b))
    decreases b
  {
    hide Raise, Value, Unpacked, Mul, Twice;
    var d := GeneratorDigits(b);
    forall i | 0 <= i < 6 ensures Unpack(Generator(b))[i] == d[i] { GeneratorDigit(b, i); }
    assert Unpack(Generator(b)) == d;
    if b == 0 {
      GeneratorAt(j);
    } else {
      var c := GeneratorDigits(b - 1);
      forall i | 0 <= i < 6 ensures d[i] == Twice(c[i]) && Unpack(Generator(b - 1))[i] == c[i] < 32 {
        GeneratorTwice(b, i);
        GeneratorDigit(b - 1, i);
      }
      assert Unpack(Generator(b - 1)) == c;
      GeneratorRoots(j, b - 1);
      ValueTwice(j, c, d);
      RaiseSwap(99, Turned(j, 6), SymbolBit(b - 1));
      NextBit(b);
    }
  }

  lemma NextBit(b: nat)
    requires 0 < b < 5
    ensures Raise(99, SymbolBit(b - 1)) == SymbolBit(b)
  {
    hide Raise;
    DoubledProducts();
  }

  // ---------- One step of the checksum, seen at a root ----------

  lemma AddGenerator(j: nat, d: bv32, t: bv32, bit: bv32, k: bv32)
    ensures ValueOf(j, Xor(d, Pick(t, bit, k))) == Plus(ValueOf(j, d), t, bit, ValueOf(j, k))
  {
    hide Xor, ValueOf, Plus;
    ValueOfLinear(j, d, Pick(t, bit, k));
    ValueOfZero(j);
    PlusIs(ValueOf(j, d), t, bit, ValueOf(j, k));
  }

  lemma FiveFrom(x: bv32, v: bv32, k0: bv32, k1: bv32, k2: bv32, k3: bv32, k4: bv32)
    ensures Five(x, v, k0, k1, k2, k3, k4) == Xor(x, Five(0, v, k0, k1, k2, k3, k4))
  {
    FiveNone(x, k0, k1, k2, k3, k4);
    hide Xor, Five;
    XorUnits(x);
    XorUnits(v);
    FiveLinear(x, 0, 0, v, k0, k1, k2, k3, k4);
  }

  lemma FiveNone(x: bv32, k0: bv32, k1: bv32, k2: bv32, k3: bv32, k4: bv32)
    ensures Five(x, 0, k0, k1, k2, k3, k4) == x
  {}

  lemma StepValue(j: nat, s: bv32, v: bv32)
    requires j < 3
    ensures ValueOf(j, Step(s, v)) == Xor(ValueOf(j, Xor(Lift(s), v)), Raise(Turned(j, 6), Embed(Top(s))))
  {
    hide Xor, Lift, Top, Pick, Plus, ValueOf, Raise;
    var d0, t := Xor(Lift(s), v), Top(s);
    var d1 := Xor(d0, Pick(t, 1, 0x3b6a57b2));
    var d2 := Xor(d1, Pick(t, 2, 0x26508e6d));
    var d3 := Xor(d2, Pick(t, 4, 0x1ea119fa));
    var d4 := Xor(d3, Pick(t, 8, 0x3d4233dd));
    AddGenerator(j, d0, t, 1, 0x3b6a57b2);
    AddGenerator(j, d1, t, 2, 0x26508e6d);
    AddGenerator(j, d2, t, 4, 0x1ea119fa);
    AddGenerator(j, d3, t, 8, 0x3d4233dd);
    AddGenerator(j, d4, t, 16, 0x2a1462b3);
    GeneratorRoots(j, 0);
    GeneratorRoots(j, 1);
    GeneratorRoots(j, 2);
    GeneratorRoots(j, 3);
    GeneratorRoots(j, 4);
    var n := Turned(j, 6);
    RaiseFacts(n, 0);
    FiveFrom(ValueOf(j, d0), t, Raise(n, 1), Raise(n, 333), Raise(n, 643), Raise(n, 615), Raise(n, 290));
    RaiseFive(n, 0, t, 1, 333, 643, 615, 290);
  }

  /** Appending a symbol multiplies the value by the root and adds the symbol. */
  lemma StepAtRoot(j: nat, s: bv32, v: bv32)
    requires j < 3 && s < 0x4000_0000 && v < 32
    ensures ValueOf(j, Step(s, v)) == Xor(Raise(Turned(j, 1), ValueOf(j, s)), Embed(v))
  {
    hide Xor, Lift, Top, Raise, Embed, Step, Unpacked;
    StepValue(j, s, v);
    UnpackShift(s, v);
    var d := Unpack(Xor(Lift(s), v));
    assert (Unpack(s) + [v])[..6] == Unpack(s);
    assert Value(j, 0, Unpack(s) + [v]) == Xor(Raise(Turned(j, 1), ValueOf(j, s)), Embed(v));
    ValueConcat(j, 0, [Top(s)], d);
    SingleValue(j, Top(s));
    hide Value;
    ValueFrom(j, Embed(Top(s)), d);
    XorCommutes(Raise(Turned(j, 6), Embed(Top(s))), Value(j, 0, d));
  }

  lemma SingleValue(j: nat, v: bv32)
    ensures Value(j, 0, [v]) == Embed(v)
  {
    hide Xor, Raise, Embed;
    assert [v][..0] == [];
    RaiseFacts(Turned(j, 1), 0);
    XorUnits(Embed(v));
  }

  /** A list whose checksum from zero is zero has value zero at the three roots. */
  lemma {:induction false} ChecksumAtRoot(j: nat, vs: seq<bv32>)
    requires j < 3 && Symbols(vs)
    ensures Poly(0, vs) < 0x4000_0000 && ValueOf(j, Poly(0, vs)) == Value(j, 0, vs)
  {
    hide Xor, Step, Raise, Embed, ValueOf;
    if vs == [] {
      ValueOfZero(j);
    } else {
      var n := |vs| - 1;
      ChecksumAtRoot(j, vs[..n]);
      StepBounded(Poly(0, vs[..n]), vs[n]);
      StepAtRoot(j, Poly(0, vs[..n]), vs[n]);
    }
  }

  // ---------- Three errors ----------

  /** The lists differ at most at the places `p`, `q` and `r`, which lie within 1023 consecutive ones. */
  ghost predicate Within(v: seq<bv32>, w: seq<bv32>, p: nat, q: nat, r: nat) {
    && |v| == |w| && p <= q <= r < |v| && r - p < 1023 && Symbols(v) && Symbols(w)
    && forall i :: 0 <= i < |v| && i != p && i != q && i != r ==> v[i] == w[i]
  }

  lemma ErrorNext(j: nat, acc: bv32, zs: seq<bv32>, x: bv32)
    requires AllZero(zs)
    ensures Value(j, acc, zs + [x]) == Xor(Raise(Turned(j, |zs| + 1), acc), Embed(x))
  {
    hide Xor, Raise, Embed;
    assert (zs + [x])[..|zs|] == zs;
    ValueFrom(j, acc, zs);
    ValueZeros(j, zs);
    XorUnits(Raise(Turned(j, |zs|), acc));
    RaiseAdd(Turned(j, 1), Turned(j, |zs|), acc);
    assert Turned(j, 1) + Turned(j, |zs|) == Turned(j, |zs| + 1);
  }

  /** `Raise` by the exponent of the `j`-th root, in terms of the first root. */
  lemma TurnedSplit(j: nat, m: nat, x: bv32)
    requires j < 3
    ensures Raise(Turned(j, m), x) == Raise(j * m, Raise(997 * m, x))
  {
    hide Raise;
    RaiseAdd(j * m, 997 * m, x);
  }

  /** The value of a list that is zero but at its last place and two others. */
  lemma {:induction false} SparseValue(j: nat, e: seq<bv32>, p: nat, q: nat)
    requires p < q < |e| - 1 && forall i :: 0 <= i < |e| - 1 && i != p && i != q ==> e[i] == 0
    ensures var r := |e| - 1;
      Value(j, 0, e) == Xor(Xor(Raise(Turned(j, r - p), Embed(e[p])), Raise(Turned(j, r - q), Embed(e[q]))),
          Embed(e[r]))
  {
    hide Xor, Raise, Embed, Value;
    var r := |e| - 1;
    var a, b := Embed(e[p]), Embed(e[q]);
    var u, v, w := e[..p], e[p + 1..q], e[q + 1..r];
    assert e == ((u + [e[p]]) + (v + [e[q]])) + (w + [e[r]]);
    ValueConcat(j, 0, (u + [e[p]]) + (v + [e[q]]), w + [e[r]]);
    ValueConcat(j, 0, u + [e[p]], v + [e[q]]);
    ErrorNext(j, 0, u, e[p]);
    RaiseFacts(Turned(j, |u| + 1), 0);
    XorUnits(a);
    ErrorNext(j, a, v, e[q]);
    var x := Raise(Turned(j, q - p), a);
    ErrorNext(j, Xor(x, b), w, e[r]);
    RaiseLinear(Turned(j, r - q), x, b);
    RaiseAdd(Turned(j, r - q), Turned(j, q - p), a);
    assert Turned(j, r - q) + Turned(j, q - p) == Turned(j, r - p);
  }

  /** A checksum of zero leaves no room for three errors. */
  lemma SparseIsZero(e: seq<bv32>, p: nat, q: nat)
    requires p < q < |e| - 1 < p + 1023 && Symbols(e) && Poly(0, e) == 0
    requires forall i :: 0 <= i < |e| - 1 && i != p && i != q ==> e[i] == 0
    ensures AllZero(e)
  {
    hide Xor, Raise, Embed, Poly, Value, ValueOf, Turned;
    var r := |e| - 1;
    var m, n := r - p, r - q;
    EmbedFacts(e[p]);
    EmbedFacts(e[q]);
    EmbedFacts(e[r]);
    var a, b, c := Raise(997 * m, Embed(e[p])), Raise(997 * n, Embed(e[q])), Embed(e[r]);
    RaiseFacts(997 * m, Embed(e[p]));
    RaiseFacts(997 * n, Embed(e[q]));
    Equation(0, e, p, q);
    Equation(1, e, p, q);
    Equation(2, e, p, q);
    RaiseNone(a);
    RaiseNone(b);
    NoThree(m, n, a, b, c);
  }

  lemma RaiseNone(v: bv32)
    ensures Raise(0, v) == v
  {}

  lemma Equation(j: nat, e: seq<bv32>, p: nat, q: nat)
    requires j < 3 && p < q < |e| - 1 && Symbols(e) && Poly(0, e) == 0
    requires forall i :: 0 <= i < |e| - 1 && i != p && i != q ==> e[i] == 0
    ensures var r := |e| - 1;
      Xor(Xor(Raise(j * (r - p), Raise(997 * (r - p), Embed(e[p]))),
          Raise(j * (r - q), Raise(997 * (r - q), Embed(e[q])))),
          Embed(e[r])) == 0
  {
    hide Xor, Raise, Embed, Poly, Value, ValueOf;
    var r := |e| - 1;
    ChecksumAtRoot(j, e);
    ValueOfZero(j);
    SparseValue(j, e, p, q);
    TurnedSplit(j, r - p, Embed(e[p]));
    TurnedSplit(j, r - q, Embed(e[q]));
  }

  lemma ErrorsOf(v: seq<bv32>, w: seq<bv32>)
    requires |v| == |w| && Symbols(v) && Symbols(w)
    ensures var e := XorAll(v, w); Symbols(e) && forall i :: 0 <= i < |v| ==> (e[i] == 0 <==> v[i] == w[i])
  {
    hide Xor;
    forall i | 0 <= i < |v| ensures Xor(v[i], w[i]) < 32 && (Xor(v[i], w[i]) == 0 <==> v[i] == w[i]) {
      XorSymbol(v[i], w[i]);
      XorZero(v[i], w[i]);
    }
  }

  /** Equal checksums mean that the difference has checksum zero up to its last error. */
  lemma DifferenceChecksum(c: bv32, v: seq<bv32>, w: seq<bv32>, r: nat)
    requires |v| == |w| && r < |v| && Symbols(v) && Symbols(w) && Poly(c, v) == Poly(c, w)
    requires forall i :: r < i < |v| ==> v[i] == w[i]
    ensures Poly(0, XorAll(v, w)[..r + 1]) == 0
  {
    hide Xor, Poly, ValueOf, Value;
    var e := XorAll(v, w);
    var f := e[..r + 1];
    ErrorsOf(v, w);
    XorUnits(c);
    PolyLinear(c, c, v, w);
    XorUnits(Poly(c, v));
    assert e == f + e[r + 1..];
    PolyConcat(0, f, e[r + 1..]);
    ChecksumAtRoot(0, f);
    ZerosKeep(Poly(0, f), e[r + 1..]);
  }

  /** Up to three wrong symbols within a window of 1023 always change the checksum. */
  lemma ThreeErrorsDetected(c: bv32, v: seq<bv32>, w: seq<bv32>, p: nat, q: nat, r: nat)
    requires Within(v, w, p, q, r) && v != w
    ensures Poly(c, v) != Poly(c, w)
  {
    hide Xor, Poly;
    if r - p < 6 {
      BurstDetected(c, v, w, p, r - p + 1);
    } else if Poly(c, v) == Poly(c, w) {
      var e := XorAll(v, w);
      ErrorsOf(v, w);
      DifferenceChecksum(c, v, w, r);
      SparseIsZero(e[..r + 1], p, if p < q < r then q else p + 1);
      assert false;
    }
  }

  /** Changing up to three values within a window of 1023 of a valid list never gives a valid list of that encoding. */
  lemma ThreeSubstitutionsDetected(e: Encoding, hrp: string, v: seq<bv32>, w: seq<bv32>, p: nat, q: nat, r: nat)
    requires Within(v, w, p, q, r) && v != w && State(hrp, v) == Constant(e)
    ensures State(hrp, w) != Constant(e)
  {
    hide Poly, Expand;
    ThreeErrorsDetected(Poly(1, Expand(hrp)), v, w, p, q, r);
  }
}
