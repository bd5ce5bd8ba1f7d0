/**
 The syndrome of a residue (bech32.cpp, GenerateSyndromeConstants and Syndrome): its values at the three roots, coded
 and packed in one number.
 */
module Syndromes {
  import opened Bech32
  import opened Gf1024
  import opened Bch
  import opened GfLog
  import opened GfTables
  import opened ErrorLocator

  // ---------- Packing ----------

  /** The `j`-th group of ten bits. */
  function Group(c: bv32, j: nat): bv32 {
    if j == 0 then c & 0x3ff else if j == 1 then (c >> 10) & 0x3ff else c >> 20
  }

  function Packed(c0: bv32, c1: bv32, c2: bv32): bv32 {
    (c2 << 20) | (c1 << 10) | c0
  }

  lemma PackedGroups(c0: bv32, c1: bv32, c2: bv32)
    requires c0 < 1024 && c1 < 1024 && c2 < 1024
    ensures var c := Packed(c0, c1, c2); c < 0x4000_0000 && Group(c, 0) == c0 && Group(c, 1) == c1 && Group(c, 2) == c2
  {}

  lemma GroupLinear(c: bv32, d: bv32, j: nat)
    ensures Group(Xor(c, d), j) == Xor(Group(c, j), Group(d, j))
  {
    if j == 0 {} else if j == 1 {} else {}
  }

  // ---------- Bits ----------

  function Up(b: bv32): bv32 {
    b << 1
  }

  /** `1 << n`. */
  function BitAt(n: nat): bv32 {
    if n == 0 then 1 else Up(BitAt(n - 1))
  }

  predicate IsBit(bit: bv32) {
    bit != 0 && bit & (bit - 1) == 0
  }

  /** The bits of `r` below a bit. */
  function Below(r: bv32, bit: bv32): bv32 {
    r & (bit - 1)
  }

  lemma BelowNext(r: bv32, bit: bv32)
    requires IsBit(bit) && bit < 0x4000_0000
    ensures Below(r, bit << 1) == Xor(Below(r, bit), r & bit) && IsBit(bit << 1) && (r & bit == 0 || r & bit == bit)
  {}

  lemma BelowAll(r: bv32)
    requires r < 0x4000_0000
    ensures Below(r, 0x4000_0000) == r && Below(r, 32) == r & 31 && IsBit(32)
  {}

  lemma SmallBits(s: nat)
    requires s < 5
    ensures 0 < BitAt(s) < 32
  {
    if s == 0 {} else if s == 1 {} else if s == 2 {} else if s == 3 {} else {}
  }

  lemma LowSymbol(d: bv32)
    requires d < 32
    ensures Step(0, d) == d
  {}

  lemma {:induction false} WrongLast(d: bv32)
    requires d < 32
    ensures Wrong(0, d) == d
  {
    hide Step;
    var vs: seq<bv32> := [d] + Zeros(0);
    assert |vs| == 1 && vs[..|vs| - 1] == [] && vs[|vs| - 1] == d;
    assert Poly(0, vs[..|vs| - 1]) == 0;
    assert Poly(0, vs) == Step(0, d);
    LowSymbol(d);
  }

  lemma {:induction false} WrongNext(k: nat, d: bv32)
    ensures Wrong(k + 1, d) == Step(Wrong(k, d), 0)
  {
    hide Step;
    var vs := [d] + Zeros(k + 1);
    assert vs[..|vs| - 1] == [d] + Zeros(k) && vs[|vs| - 1] == 0;
  }

  /** `b` takes no more than `k` symbols. */
  predicate Fits(b: bv32, k: nat) {
    b < Limit(k)
  }

  lemma FitsSymbol(s: nat)
    requires s < 5
    ensures Fits(BitAt(s), 1) && BitAt(s) < 32
  {
    SmallBits(s);
  }

  function Shift(b: bv32): bv32 {
    b << 5
  }

  lemma FitsShift(b: bv32, k: nat)
    requires 1 <= k <= 5 && Fits(b, k)
    ensures Fits(Shift(b), k + 1) && b < 0x200_0000
  {
    if k == 1 {} else if k == 2 {} else if k == 3 {} else if k == 4 {} else {}
  }

  lemma StepShift(b: bv32)
    requires b < 0x200_0000
    ensures Step(b, 0) == Shift(b)
  {
    hide Step, Xor;
    StepSmall(b, 0);
    XorUnits(Shift(b));
  }

  lemma FitsAll(b: bv32, k: nat)
    requires 1 <= k <= 6 && Fits(b, k)
    ensures b < 0x4000_0000
  {}

  /** A symbol at one of the last six places is just shifted. */
  lemma {:induction false} WrongShift(k: nat, s: nat)
    requires k <= 5 && s < 5
    ensures Wrong(k, BitAt(s)) == BitAt(5 * k + s) && Fits(BitAt(5 * k + s), k + 1)
  {
    hide Step, BitAt, Fits, Wrong, Shift;
    FitsSymbol(s);
    if k == 0 {
      WrongLast(BitAt(s));
    } else {
      WrongShift(k - 1, s);
      WrongNext(k - 1, BitAt(s));
      FitsShift(Wrong(k - 1, BitAt(s)), k);
      StepShift(Wrong(k - 1, BitAt(s)));
      BitAtFive(5 * (k - 1) + s);
    }
  }

  lemma {:induction false} BitNext(n: nat)
    ensures BitAt(n + 1) == Up(BitAt(n))
  {}

  lemma FiveUp(b: bv32)
    ensures Up(Up(Up(Up(Up(b))))) == Shift(b)
  {}

  lemma BitAtFive(n: nat)
    ensures BitAt(n + 5) == Shift(BitAt(n))
  {
    hide BitAt, Shift, Up;
    BitNext(n);
    BitNext(n + 1);
    BitNext(n + 2);
    BitNext(n + 3);
    BitNext(n + 4);
    FiveUp(BitAt(n));
  }

  // ---------- The constants ----------

  /** `c` holds the values of the residue `r` at the three roots. */
  ghost predicate Holds(c: bv32, r: bv32) {
    c < 0x4000_0000 && forall j :: 0 <= j < 3 ==> Element(Group(c, j)) == ValueOf(j, r)
  }

  lemma ElementOfSymbol(d: bv32)
    requires d < 32
    ensures Element(d) == Embed(d)
  {
    hide Embed, TimesE, Xor;
    SymbolParts(d);
    EmbedZero();
    TimesEFacts(0);
    XorUnits(Embed(d));
  }

  lemma SymbolParts(d: bv32)
    requires d < 32
    ensures d >> 5 == 0 && d & 31 == d
  {}

  /** The value at one root of a bit of the symbol at place `k`. */
  lemma BitValue(j: nat, k: nat, s: nat, b: nat)
    requires j < 3 && k <= 5 && s < 5 && IsLog(Embed(BitAt(s)), b)
    ensures ValueOf(j, BitAt(5 * k + s)) == Exp(j * k + (997 * k + b))
  {
    hide Exp, ValueOf, Wrong, BitAt, Embed;
    SmallBits(s);
    WrongShift(k, s);
    WrongValue(j, k, BitAt(s));
    RaiseExp(997 * k, b);
    RaiseExp(j * k, 997 * k + b);
  }

  lemma LookedUp(exp: seq<bv32>, log: seq<int>, j: nat, k: nat, s: nat)
    requires Tables(exp, log) && j < 3 && 1 <= k <= 5 && s < 5
    ensures 0 <= Index(BitAt(s)) < 1024 && 0 <= log[Index(BitAt(s))]
    ensures var c := exp[((997 + j) * k + log[Index(BitAt(s))]) % 1023];
      c < 1024 && Element(c) == ValueOf(j, BitAt(5 * k + s))
  {
    hide Element, Exp, Index, ValueOf, BitAt, Embed;
    SmallBits(s);
    assert Logged(log, BitAt(s));
    ElementOfSymbol(BitAt(s));
    var b := log[Index(BitAt(s))];
    var n := (997 + j) * k + b;
    BitValue(j, k, s, b);
    assert j * k + (997 * k + b) == n;
    ExpSame(n % 1023, n);
  }

  method GenerateSyndromeConstants(exp: seq<bv32>, log: seq<int>) returns (consts: seq<bv32>)
    requires Tables(exp, log)
    ensures |consts| == 25 && forall i :: 0 <= i < 25 ==> Holds(consts[i], BitAt(5 + i))
  {
    hide Holds, BitAt, Index, Tables;
    consts := [];
    for k := 1 to 6
      invariant |consts| == 5 * (k - 1) && forall i :: 0 <= i < |consts| ==> Holds(consts[i], BitAt(5 + i))
    {
      for shift := 0 to 5
        invariant |consts| == 5 * (k - 1) + shift
        invariant forall i :: 0 <= i < |consts| ==> Holds(consts[i], BitAt(5 + i))
      {
        var c := SyndromeConstant(exp, log, k, shift);
        consts := consts + [c];
      }
    }
  }

  method SyndromeConstant(exp: seq<bv32>, log: seq<int>, k: nat, shift: nat) returns (c: bv32)
    requires Tables(exp, log) && 1 <= k <= 5 && shift < 5
    ensures Holds(c, BitAt(5 * k + shift))
  {
    hide BitAt, Index, Element, ValueOf, Packed, Holds, Tables;
    TableSizes(exp, log);
    LookedUp(exp, log, 0, k, shift);
    LookedUp(exp, log, 1, k, shift);
    LookedUp(exp, log, 2, k, shift);
    var b := log[Index(BitAt(shift))];
    var c0, c1, c2 := exp[(997 * k + b) % 1023], exp[(998 * k + b) % 1023], exp[(999 * k + b) % 1023];
    HoldsPacked(c0, c1, c2, BitAt(5 * k + shift));
    c := Packed(c0, c1, c2);
  }

  lemma TableSizes(exp: seq<bv32>, log: seq<int>)
    requires Tables(exp, log)
    ensures |exp| == 1023 && |log| == 1024
  {}

  lemma HoldsPacked(c0: bv32, c1: bv32, c2: bv32, r: bv32)
    requires c0 < 1024 && c1 < 1024 && c2 < 1024
    requires Element(c0) == ValueOf(0, r) && Element(c1) == ValueOf(1, r) && Element(c2) == ValueOf(2, r)
    ensures Holds(Packed(c0, c1, c2), r)
  {
    hide Packed, Group, Element, ValueOf;
    PackedGroups(c0, c1, c2);
  }

  // ---------- The syndrome ----------

  lemma HoldsSum(c: bv32, r: bv32, d: bv32, s: bv32)
    requires Holds(c, r) && Holds(d, s)
    ensures Holds(Xor(c, d), Xor(r, s))
  {
    hide Xor, Element, Group, ValueOf;
    XorBound(c, d);
    forall j | 0 <= j < 3 ensures Element(Group(Xor(c, d), j)) == ValueOf(j, Xor(r, s)) {
      GroupLinear(c, d, j);
      ElementLinear(Group(c, j), Group(d, j));
      ValueOfLinear(j, r, s);
    }
  }

  lemma HoldsLow(d: bv32)
    requires d < 32
    ensures Holds(d ^ (d << 10) ^ (d << 20), d)
  {
    hide Element, ValueOf;
    LowGroups(d);
    ElementOfSymbol(d);
    forall j | 0 <= j < 3 ensures ValueOf(j, d) == Embed(d) { LowValue(j, d); }
  }

  lemma LowGroups(d: bv32)
    requires d < 32
    ensures var c := d ^ (d << 10) ^ (d << 20);
      c < 0x4000_0000 && Group(c, 0) == d && Group(c, 1) == d && Group(c, 2) == d
  {}

  lemma LowValue(j: nat, d: bv32)
    requires j < 3 && d < 32
    ensures ValueOf(j, d) == Embed(d)
  {
    hide ValueOf, Embed, Raise, Wrong;
    WrongValue(j, 0, d);
    WrongLast(d);
    RaiseNone(Embed(d));
    assert j * 0 == 0;
  }

  method Syndrome(residue: bv32, consts: seq<bv32>) returns (result: bv32)
    requires residue < 0x4000_0000
    requires |consts| == 25 && forall i :: 0 <= i < 25 ==> Holds(consts[i], BitAt(5 + i))
    ensures Holds(result, residue)
  {
    hide Holds, BitAt, IsBit, Below;
    var low := residue & 0x1f;
    result := low ^ (low << 10) ^ (low << 20);
    SyndromeStart(residue);
    var bit: bv32 := 32;
    for i := 0 to 25
      invariant bit == BitAt(5 + i) && IsBit(bit) && Holds(result, Below(residue, bit))
    {
      BitBound(5 + i);
      BelowNext(residue, bit);
      BitNext(5 + i);
      SyndromeStep(result, Below(residue, bit), consts[i], bit, residue & bit);
      if residue & bit != 0 { result := result ^ consts[i]; }
      bit := bit << 1;
    }
    TopBit();
    BelowAll(residue);
  }

  lemma SyndromeStart(residue: bv32)
    requires residue < 0x4000_0000
    ensures var d := residue & 31; Holds(d ^ (d << 10) ^ (d << 20), Below(residue, 32)) && IsBit(32) && BitAt(5) == 32
  {
    hide Holds;
    BelowAll(residue);
    assert BitAt(5) == 32 by { BitAtFive(0); }
    SymbolOf(residue);
    HoldsLow(residue & 31);
  }

  lemma SymbolOf(residue: bv32)
    ensures residue & 31 < 32
  {}

  lemma SyndromeStep(c: bv32, r: bv32, d: bv32, bit: bv32, on: bv32)
    requires Holds(c, r) && Holds(d, bit) && (on == 0 || on == bit)
    ensures Holds(if on != 0 then c ^ d else c, Xor(r, on))
  {
    hide Holds;
    HoldsSum(c, r, d, bit);
    XorUnits(r);
  }

  lemma BitBound(n: nat)
    requires 5 <= n < 30
    ensures BitAt(n) < 0x4000_0000
  {
    hide BitAt, Fits;
    WrongShift(n / 5, n % 5);
    FitsAll(BitAt(n), n / 5 + 1);
  }

  lemma TopBit()
    ensures BitAt(30) == 0x4000_0000
  {
    hide BitAt;
    assert BitAt(0) == 1 by { FirstBit(); }
    BitAtFive(0);
    BitAtFive(5);
    BitAtFive(10);
    BitAtFive(15);
    BitAtFive(20);
    BitAtFive(25);
  }

  lemma FirstBit()
    ensures BitAt(0) == 1
  {}
}
