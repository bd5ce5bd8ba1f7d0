/**
 The tables of powers and logarithms (bech32.cpp, GenerateGFTables).  There an element of GF(1024) is coded as two
 symbols, a * e + b as 32a + b; `Element` is the element that a code stands for.
 */
module GfTables {
  import opened Arith
  import opened Bech32
  import opened Gf1024
  import opened Bch
  import opened GfLog

  // ---------- Codes ----------

  function Element(s: bv32): bv32 {
    Pair(s >> 5, s & 31)
  }

  function Code(a: bv32, b: bv32): bv32 {
    (a << 5) | b
  }

  lemma CodeParts(a: bv32, b: bv32)
    requires a < 32 && b < 32
    ensures Code(a, b) < 1024 && Code(a, b) >> 5 == a && Code(a, b) & 31 == b
  {}

  lemma PartsCode(s: bv32)
    requires s < 1024
    ensures s >> 5 < 32 && s & 31 < 32 && Code(s >> 5, s & 31) == s
  {}

  lemma PartsLinear(s: bv32, t: bv32)
    ensures Xor(s, t) >> 5 == Xor(s >> 5, t >> 5) && Xor(s, t) & 31 == Xor(s & 31, t & 31)
  {}

  lemma EmbedLinear(v: bv32, w: bv32)
    ensures Embed(Xor(v, w)) == Xor(Embed(v), Embed(w))
  {
    hide Xor, Five;
    XorUnits(0);
    FiveLinear(0, 0, v, w, 1, 333, 643, 615, 290);
  }

  /** Adding codes adds elements. */
  lemma ElementLinear(s: bv32, t: bv32)
    ensures Element(Xor(s, t)) == Xor(Element(s), Element(t))
  {
    hide Xor, Embed, TimesE;
    var a, b, c, d := s >> 5, s & 31, t >> 5, t & 31;
    PartsLinear(s, t);
    EmbedLinear(a, c);
    EmbedLinear(b, d);
    TimesELinear(Embed(a), Embed(c));
    Regroup(TimesE(Embed(a)), Embed(b), TimesE(Embed(c)), Embed(d));
  }

  lemma ElementSmall(s: bv32)
    requires s < 1024
    ensures Element(s) < 1024
  {
    hide Xor, Embed, TimesE;
    PartsCode(s);
    EmbedFacts(s >> 5);
    EmbedFacts(s & 31);
    TimesEFacts(Embed(s >> 5));
    XorSmall(TimesE(Embed(s >> 5)), Embed(s & 31));
  }

  /** Only zero stands for zero: e is not a quotient of symbols. */
  lemma ElementZero(s: bv32)
    requires s < 1024
    ensures Element(s) == 0 <==> s == 0
  {
    hide Xor, Embed, TimesE, Exp, Code;
    var a, b := s >> 5, s & 31;
    PartsCode(s);
    EmbedFacts(a);
    EmbedFacts(b);
    XorZero(TimesE(Embed(a)), Embed(b));
    TimesEFacts(Embed(a));
    ZeroCode();
    if a != 0 && Element(s) == 0 {
      var k := Log(Embed(a));
      SymbolIff(k);
      ExpNext(k);
      SymbolIff(k + 1);
      assert false;
    }
  }

  lemma ZeroCode()
    ensures Code(0, 0) == 0
  {}

  lemma ElementInjective(s: bv32, t: bv32)
    requires s < 1024 && t < 1024 && Element(s) == Element(t)
    ensures s == t
  {
    hide Element, Xor;
    ElementLinear(s, t);
    XorUnits(Element(s));
    XorSmall(s, t);
    ElementZero(Xor(s, t));
    XorZero(s, t);
  }

  // ---------- Filling the tables ----------

  /** An element as an index. */
  function Index(v: bv32): (i: nat) {
    v as int
  }

  lemma SmallIndex(v: bv32)
    requires 0 < v < 32
    ensures 0 < Index(v) < 32
  {}

  lemma ElementIndex(v: bv32)
    requires v < 1024
    ensures Index(v) < 1024 && (Index(v) == 0 <==> v == 0)
  {}

  lemma IndexDistinct(v: bv32, w: bv32)
    requires Index(v) == Index(w)
    ensures v == w
  {
    SameNumber(v, w);
  }

  /** The first `n` powers are filled in, and `log` leads back from each. */
  ghost predicate Filled(exp: seq<bv32>, log: seq<int>, n: nat) {
    && n <= |exp| && |log| > 0 && log[0] == -1
    && forall k :: 0 <= k < n ==> 0 < Index(exp[k]) < |log| && log[Index(exp[k])] == k
  }

  lemma FilledNext(exp: seq<bv32>, log: seq<int>, n: nat, v: bv32)
    requires Filled(exp, log, n) && n < |exp| && 0 < Index(v) < |log| && forall k :: 0 <= k < n ==> exp[k] != v
    ensures Filled(exp[n := v], log[Index(v) := n], n + 1)
  {
    hide Index;
    var e, l := exp[n := v], log[Index(v) := n];
    forall k | 0 <= k < n + 1 ensures 0 < Index(e[k]) < |l| && l[Index(e[k])] == k {
      if k < n && Index(exp[k]) == Index(v) { IndexDistinct(exp[k], v); }
    }
  }

  // ---------- GF(32) ----------

  ghost predicate SmallLogged(log: seq<int>, d: bv32)
    requires |log| == 32
  {
    Index(d) < 32 && 0 <= log[Index(d)] < 31 && SmallPower(log[Index(d)]) == d
  }

  ghost predicate SmallTables(exp: seq<bv32>, log: seq<int>) {
    && |exp| == 31 && |log| == 32 && log[0] == -1
    && (forall i :: 0 <= i < 31 ==> exp[i] == SmallPower(i))
    && forall d: bv32 :: 0 < d < 32 ==> SmallLogged(log, d)
  }

  lemma Doubling(v: bv32)
    requires v < 32
    ensures Twice(v) == if (v << 1) & 32 != 0 then (v << 1) ^ 41 else v << 1
  {}

  lemma SmallPowerDistinct(i: nat, k: nat)
    requires i < 31 && k < 31 && SmallPower(i) == SmallPower(k)
    ensures i == k
  {
    hide Embed, Exp, SmallPower;
    SmallPowerEmbeds(i);
    SmallPowerEmbeds(k);
    ExpMod(99 * i, 99 * k);
    SmallRemainders(i, k);
  }

  lemma SmallRemainders(i: nat, k: nat)
    requires i < 31 && k < 31 && (99 * i) % 1023 == (99 * k) % 1023
    ensures i == k
  {
    var a, b := (99 * i) / 1023, (99 * k) / 1023;
    DivMod(99 * i, 1023);
    DivMod(99 * k, 1023);
    assert 3 * (i - k) == 31 * (a - b);
  }

  method GenerateSmallTables() returns (exp: seq<bv32>, log: seq<int>)
    ensures SmallTables(exp, log)
  {
    hide Twice, SmallPower, Index, Filled, SmallLogged;
    var e, l := new bv32[31], new int[32];
    e[0], l[0] := 1, -1;
    l[1] := 0;
    SmallStart(e[..], l[..]);
    var v: bv32 := 1;
    for i := 1 to 31
      invariant v == SmallPower(i - 1) && Filled(e[..], l[..], i)
      invariant forall k :: 0 <= k < i ==> e[k] == SmallPower(k)
    {
      SmallNext(i);
      Doubling(v);
      v := v << 1;
      if v & 32 != 0 { v := v ^ 41; }
      forall k | 0 <= k < i ensures e[k] != v {
        if e[k] == v { SmallPowerDistinct(k, i); }
      }
      FilledNext(e[..], l[..], i, v);
      ghost var e0, l0 := e[..], l[..];
      e[i] := v;
      l[Index(v)] := i;
      assert e[..] == e0[i := v] && l[..] == l0[Index(v) := i];
    }
    exp, log := e[..], l[..];
    SmallDone(exp, log);
  }

  lemma SmallStart(exp: seq<bv32>, log: seq<int>)
    requires |exp| == 31 && |log| == 32 && exp[0] == 1 && log[0] == -1 && log[1] == 0
    ensures SmallPower(0) == 1 && Filled(exp, log, 1)
  {
    assert Index(1) == 1;
  }

  lemma SmallNext(i: nat)
    requires i > 0
    ensures SmallPower(i - 1) < 32 && SmallPower(i) == Twice(SmallPower(i - 1)) && 0 < Index(SmallPower(i)) < 32
  {
    SmallPowerEmbeds(i - 1);
    SmallPowerEmbeds(i);
    SmallIndex(SmallPower(i));
  }

  lemma SmallDone(exp: seq<bv32>, log: seq<int>)
    requires |exp| == 31 && |log| == 32 && Filled(exp, log, 31) && forall k :: 0 <= k < 31 ==> exp[k] == SmallPower(k)
    ensures SmallTables(exp, log)
  {
    hide SmallPower, Index;
    forall d: bv32 | 0 < d < 32 ensures SmallLogged(log, d) {
      var i := SymbolLog(d);
      assert exp[i] == d;
    }
  }

  lemma ScaleTwice9(a: bv32)
    requires a < 32
    ensures Scale(9, Twice(a)) == Twice(Scale(9, a))
  {}

  lemma ScaleTwice23(a: bv32)
    requires a < 32
    ensures Scale(23, Twice(a)) == Twice(Scale(23, a))
  {}

  lemma ScaleOne()
    ensures Scale(9, 1) == 9 && Scale(23, 1) == 23 && Scale(9, 0) == 0 && Scale(23, 0) == 0
  {}

  /** 9 is the fifth power of two, 23 the twenty-first. */
  lemma {:induction false} ScaleIs(i: nat)
    ensures Scale(9, SmallPower(i)) == SmallPower(i + 5) && Scale(23, SmallPower(i)) == SmallPower(i + 21)
  {
    hide Twice, Scale;
    if i == 0 {
      SmallPowers31();
      ScaleOne();
    } else {
      ScaleIs(i - 1);
      SmallPowerEmbeds(i - 1);
      ScaleTwice9(SmallPower(i - 1));
      ScaleTwice23(SmallPower(i - 1));
    }
  }

  lemma {:induction false} SmallPeriod(n: nat)
    ensures SmallPower(n + 31) == SmallPower(n)
  {
    hide Twice;
    if n == 0 { SmallPowers31(); } else { SmallPeriod(n - 1); }
  }

  lemma Factors()
    ensures SmallPower(5) == 9 && SmallPower(21) == 23
  {
    hide SmallPower;
    SmallPowers31();
  }

  lemma {:induction false} ProductIs(k: bv32, m: nat, a: bv32, i: nat)
    requires (k == 9 || k == 23) && m < 31 && i < 31 && SmallPower(m) == k && SmallPower(i) == a
    ensures SmallPower((i + m) % 31) == Scale(k, a) < 32
  {
    hide SmallPower, Scale;
    Factors();
    SmallPowerDistinct(m, if k == 9 then 5 else 21);
    ScaleIs(i);
    SmallPowerEmbeds(i + m);
    if i + m >= 31 { SmallPeriod(i + m - 31); }
  }

  /** A product looked up in the tables. */
  method Product(exp: seq<bv32>, log: seq<int>, k: bv32, a: bv32) returns (r: bv32)
    requires SmallTables(exp, log) && (k == 9 || k == 23) && a < 32
    ensures r == Scale(k, a) && r < 32
  {
    hide SmallPower, Scale, Index;
    ScaleOne();
    if a == 0 { return 0; }
    assert SmallLogged(log, a) && SmallLogged(log, k);
    var i, m := log[Index(a)], log[Index(k)];
    ProductIs(k, m, a, i);
    r := exp[(i + m) % 31];
  }

  // ---------- GF(1024) ----------

  ghost predicate Logged(log: seq<int>, s: bv32)
    requires |log| == 1024
  {
    Index(s) < 1024 && 0 <= log[Index(s)] && IsLog(Element(s), log[Index(s)])
  }

  /** `exp` holds the powers of e, and `log` the logarithm of every nonzero element. */
  ghost predicate Tables(exp: seq<bv32>, log: seq<int>) {
    && |exp| == 1023 && |log| == 1024 && log[0] == -1
    && (forall k :: 0 <= k < 1023 ==> exp[k] < 1024 && Element(exp[k]) == Exp(k))
    && forall s: bv32 :: 0 < s < 1024 ==> Logged(log, s)
  }

  /** One step of the table: e times an element. */
  lemma NextElement(v: bv32, a: bv32, b: bv32)
    requires v < 1024 && a < 32 && b < 32 && a == Xor(Scale(9, v >> 5), v & 31) && b == Scale(23, v >> 5)
    ensures Code(a, b) < 1024 && Element(Code(a, b)) == TimesE(Element(v))
  {
    hide Scale, TimesE, Embed, Xor, Pair, Code;
    ExtensionRule(v >> 5, v & 31);
    CodeParts(a, b);
  }

  /** The next entry, by products in GF(32). */
  method TimesByTables(exp32: seq<bv32>, log32: seq<int>, v: bv32) returns (w: bv32)
    requires SmallTables(exp32, log32) && v < 1024
    ensures w < 1024 && Element(w) == TimesE(Element(v))
  {
    hide Element, Scale, SmallTables, TimesE, Code, Xor;
    var v0, v1 := v & 31, v >> 5;
    PartsCode(v);
    var v0n := Product(exp32, log32, 23, v1);
    var v1n := Product(exp32, log32, 9, v1);
    SymbolSum(v1n, v0);
    v1n := v1n ^ v0;
    NextElement(v, v1n, v0n);
    w := Code(v1n, v0n);
  }

  method GenerateGFTables() returns (exp: seq<bv32>, log: seq<int>)
    ensures Tables(exp, log)
  {
    hide Index, Filled, Logged, Element, Exp, SmallTables, TimesE;
    var exp32, log32 := GenerateSmallTables();
    var e, l := new bv32[1023], new int[1024];
    e[0], l[0] := 1, -1;
    l[1] := 0;
    TableStart(e[..], l[..]);
    var v: bv32 := 1;
    for i := 1 to 1023
      invariant v < 1024 && Element(v) == Exp(i - 1) && Filled(e[..], l[..], i)
      invariant forall k :: 0 <= k < i ==> e[k] < 1024 && Element(e[k]) == Exp(k)
    {
      v := TimesByTables(exp32, log32, v);
      TableNext(v, i);
      forall k | 0 <= k < i ensures e[k] != v {
        if e[k] == v { ExpDistinct(k, i); }
      }
      FilledNext(e[..], l[..], i, v);
      ghost var e0, l0 := e[..], l[..];
      e[i] := v;
      l[Index(v)] := i;
      assert e[..] == e0[i := v] && l[..] == l0[Index(v) := i];
    }
    exp, log := e[..], l[..];
    TablesDone(exp, log);
  }

  lemma SymbolSum(a: bv32, b: bv32)
    requires a < 32 && b < 32
    ensures a ^ b == Xor(a, b) < 32
  {}

  lemma TableStart(exp: seq<bv32>, log: seq<int>)
    requires |exp| == 1023 && |log| == 1024 && exp[0] == 1 && log[0] == -1 && log[1] == 0
    ensures Element(1) == Exp(0) && Filled(exp, log, 1)
  {
    assert Index(1) == 1;
    assert Raise(0, 1) == 1;
    EmbedZero();
  }

  lemma TableNext(v: bv32, i: nat)
    requires i > 0 && v < 1024 && Element(v) == TimesE(Exp(i - 1))
    ensures Element(v) == Exp(i) && 0 < Index(v) < 1024
  {
    hide Exp, Element, TimesE, Index;
    ExpNext(i - 1);
    ExpFacts(i);
    ElementZero(v);
    ElementIndex(v);
  }

  lemma TablesDone(exp: seq<bv32>, log: seq<int>)
    requires |exp| == 1023 && |log| == 1024 && Filled(exp, log, 1023)
    requires forall k :: 0 <= k < 1023 ==> exp[k] < 1024 && Element(exp[k]) == Exp(k)
    ensures Tables(exp, log)
  {
    hide Element, Exp, Index;
    forall s: bv32 | 0 < s < 1024 ensures Logged(log, s) {
      ElementSmall(s);
      ElementZero(s);
      var k := Log(Element(s));
      ElementInjective(s, exp[k]);
      assert Index(exp[k]) == Index(s);
    }
  }
}
