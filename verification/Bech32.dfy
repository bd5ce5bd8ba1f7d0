/**
 Bech32 and Bech32m strings (bech32.cpp; section Bech32 of BIP 173, section Bech32m of BIP 350).  The checksum step
 is linear and loses nothing, which gives the round trip, the uniqueness of checksums and the detection of errors.
 */
module Bech32 {

  // ---------- One step of the checksum ----------

  function Xor(a: bv32, b: bv32): bv32 {
    a ^ b
  }

  /** The constant `k` if the bit is set in `c`. */
  function Pick(c: bv32, bit: bv32, k: bv32): bv32 {
    if c & bit != 0 then k else 0
  }

  function Lift(c: bv32): bv32 {
    (c & 0x1ff_ffff) << 5
  }

  function Top(c: bv32): bv32 {
    c >> 25
  }

  /** Append the symbol `v`: multiply by x, add, and reduce by the generator. */
  function Step(c: bv32, v: bv32): bv32 {
    var d0 := Xor(Lift(c), v);
    var d1 := Xor(d0, Pick(Top(c), 1, 0x3b6a57b2));
    var d2 := Xor(d1, Pick(Top(c), 2, 0x26508e6d));
    var d3 := Xor(d2, Pick(Top(c), 4, 0x1ea119fa));
    var d4 := Xor(d3, Pick(Top(c), 8, 0x3d4233dd));
    Xor(d4, Pick(Top(c), 16, 0x2a1462b3))
  }

  lemma Regroup(a: bv32, b: bv32, p: bv32, q: bv32)
    ensures Xor(Xor(a, b), Xor(p, q)) == Xor(Xor(a, p), Xor(b, q))
  {
    hide Xor;
    XorAssoc(Xor(a, b), p, q);
    XorAssoc(a, b, p);
    XorCommutes(b, p);
    XorAssoc(a, p, b);
    XorAssoc(Xor(a, p), b, q);
  }

  lemma XorAssoc(a: bv32, b: bv32, c: bv32)
    ensures Xor(Xor(a, b), c) == Xor(a, Xor(b, c))
  {}

  lemma XorCommutes(a: bv32, b: bv32)
    ensures Xor(a, b) == Xor(b, a)
  {}

  lemma BitOf(a: bv32, b: bv32, bit: bv32)
    requires bit == 1 || bit == 2 || bit == 4 || bit == 8 || bit == 16
    ensures Xor(a, b) & bit != 0 <==> (a & bit != 0) != (b & bit != 0)
  {
    if bit == 1 {} else if bit == 2 {} else if bit == 4 {} else if bit == 8 {} else {}
  }

  lemma XorUnits(k: bv32)
    ensures Xor(k, k) == 0 && Xor(k, 0) == k && Xor(0, k) == k
  {}

  lemma PickLinear(a: bv32, b: bv32, bit: bv32, k: bv32)
    requires bit == 1 || bit == 2 || bit == 4 || bit == 8 || bit == 16
    ensures Pick(Xor(a, b), bit, k) == Xor(Pick(a, bit, k), Pick(b, bit, k))
  {
    hide Xor;
    BitOf(a, b, bit);
    XorUnits(k);
    XorUnits(0);
  }

  lemma LiftLinear(a: bv32, b: bv32)
    ensures Lift(Xor(a, b)) == Xor(Lift(a), Lift(b)) && Top(Xor(a, b)) == Xor(Top(a), Top(b))
  {}

  lemma AddPick(s: bv32, t: bv32, a: bv32, b: bv32, bit: bv32, k: bv32)
    requires bit == 1 || bit == 2 || bit == 4 || bit == 8 || bit == 16
    ensures Xor(Xor(s, t), Pick(Xor(a, b), bit, k)) == Xor(Xor(s, Pick(a, bit, k)), Xor(t, Pick(b, bit, k)))
  {
    hide Xor, Pick;
    PickLinear(a, b, bit, k);
    Regroup(s, t, Pick(a, bit, k), Pick(b, bit, k));
  }

  lemma StepLinear(c: bv32, d: bv32, v: bv32, w: bv32)
    ensures Step(Xor(c, d), Xor(v, w)) == Xor(Step(c, v), Step(d, w))
  {
    hide Lift, Pick, Xor, Top;
    LiftLinear(c, d);
    var a, b := Top(c), Top(d);
    Regroup(Lift(c), Lift(d), v, w);
    var s, t := Xor(Lift(c), v), Xor(Lift(d), w);
    AddPick(s, t, a, b, 1, 0x3b6a57b2);
    var s1, t1 := Xor(s, Pick(a, 1, 0x3b6a57b2)), Xor(t, Pick(b, 1, 0x3b6a57b2));
    AddPick(s1, t1, a, b, 2, 0x26508e6d);
    var s2, t2 := Xor(s1, Pick(a, 2, 0x26508e6d)), Xor(t1, Pick(b, 2, 0x26508e6d));
    AddPick(s2, t2, a, b, 4, 0x1ea119fa);
    var s3, t3 := Xor(s2, Pick(a, 4, 0x1ea119fa)), Xor(t2, Pick(b, 4, 0x1ea119fa));
    AddPick(s3, t3, a, b, 8, 0x3d4233dd);
    var s4, t4 := Xor(s3, Pick(a, 8, 0x3d4233dd)), Xor(t3, Pick(b, 8, 0x3d4233dd));
    AddPick(s4, t4, a, b, 16, 0x2a1462b3);
  }

  lemma StepKeepsNonZero(c: bv32)
    requires c < 0x4000_0000 && c != 0
    ensures Step(c, 0) != 0
  {}

  lemma StepBounded(c: bv32, v: bv32)
    requires v < 32
    ensures Step(c, v) < 0x4000_0000
  {}

  lemma StepSmall(c: bv32, v: bv32)
    requires c < 0x200_0000
    ensures Step(c, v) == Xor(Lift(c), v) && Lift(c) == c << 5
  {
    hide Xor, Lift;
    NoTop(c);
    XorUnits(Xor(Lift(c), v));
  }

  lemma NoTop(c: bv32)
    requires c < 0x200_0000
    ensures Top(c) == 0 && Lift(c) == c << 5
  {}

  lemma NonZero(c: bv32, v: bv32)
    requires c < 0x200_0000 && v < 32 && (c != 0 || v != 0)
    ensures Xor(c << 5, v) != 0
  {}

  // ---------- The checksum of a list ----------

  function Poly(c: bv32, vs: seq<bv32>): bv32 {
    if vs == [] then c else Step(Poly(c, vs[..|vs| - 1]), vs[|vs| - 1])
  }

  method PolyMod(vs: seq<bv32>) returns (c: bv32)
    ensures c == Poly(1, vs)
  {
    c := 1;
    for i := 0 to |vs|
      invariant c == Poly(1, vs[..i])
    {
      assert vs[..i + 1][..i] == vs[..i];
      c := PolyStep(c, vs[i]);
    }
    assert vs[..|vs|] == vs;
  }

  method PolyStep(c: bv32, v: bv32) returns (d: bv32)
    ensures d == Step(c, v)
  {
    hide Xor, Lift, Top;
    var c0 := Top(c);
    d := Xor(Lift(c), v);
    XorUnits(d);
    if c0 & 1 != 0 { d := Xor(d, 0x3b6a57b2); }
    XorUnits(d);
    if c0 & 2 != 0 { d := Xor(d, 0x26508e6d); }
    XorUnits(d);
    if c0 & 4 != 0 { d := Xor(d, 0x1ea119fa); }
    XorUnits(d);
    if c0 & 8 != 0 { d := Xor(d, 0x3d4233dd); }
    XorUnits(d);
    if c0 & 16 != 0 { d := Xor(d, 0x2a1462b3); }
  }

  lemma {:induction false} PolyConcat(c: bv32, a: seq<bv32>, b: seq<bv32>)
    ensures Poly(c, a + b) == Poly(Poly(c, a), b)
  {
    hide Step;
    if b == [] {
      assert a + b == a;
    } else {
      var n := |b| - 1;
      PolyConcat(c, a, b[..n]);
      assert (a + b)[..|a| + n] == a + b[..n];
    }
  }

  function XorAll(v: seq<bv32>, w: seq<bv32>): seq<bv32>
    requires |v| == |w|
  {
    seq(|v|, i requires 0 <= i < |v| => Xor(v[i], w[i]))
  }

  /** The checksum is linear. */
  lemma {:induction false} PolyLinear(c: bv32, d: bv32, v: seq<bv32>, w: seq<bv32>)
    requires |v| == |w|
    ensures Poly(Xor(c, d), XorAll(v, w)) == Xor(Poly(c, v), Poly(d, w))
  {
    hide Step, Xor;
    if v != [] {
      var n := |v| - 1;
      PolyLinear(c, d, v[..n], w[..n]);
      assert XorAll(v, w)[..n] == XorAll(v[..n], w[..n]);
      StepLinear(Poly(c, v[..n]), Poly(d, w[..n]), v[n], w[n]);
    }
  }

  // ---------- Errors are detected ----------

  ghost predicate Symbols(vs: seq<bv32>) {
    forall i :: 0 <= i < |vs| ==> vs[i] < 32
  }

  ghost predicate AllZero(vs: seq<bv32>) {
    forall i :: 0 <= i < |vs| ==> vs[i] == 0
  }

  /** The bound on the state after `j` symbols from zero. */
  function Limit(j: nat): bv32 {
    if j == 0 then 1 else if j == 1 then 0x20 else if j == 2 then 0x400 else if j == 3 then 0x8000
    else if j == 4 then 0x10_0000 else if j == 5 then 0x200_0000 else 0x4000_0000
  }

  lemma ShiftIn(c: bv32, v: bv32, j: nat)
    requires j <= 5 && c < Limit(j) && v < 32
    ensures Step(c, v) < Limit(j + 1) && (Step(c, v) == 0 <==> c == 0 && v == 0)
  {
    assert c < 0x200_0000;
    StepSmall(c, v);
    ShiftedBound(c, v, j);
    if c != 0 || v != 0 { NonZero(c, v); } else { XorUnits(0); }
  }

  lemma ShiftedBound(c: bv32, v: bv32, j: nat)
    requires j <= 5 && c < Limit(j) && v < 32
    ensures Xor(c << 5, v) < Limit(j + 1)
  {
    if j == 0 {} else if j == 1 {} else if j == 2 {} else if j == 3 {} else if j == 4 {} else {}
  }

  /** Up to six symbols are shifted in as they are. */
  lemma {:induction false} WindowState(x: seq<bv32>)
    requires |x| <= 6 && Symbols(x)
    ensures Poly(0, x) < Limit(|x|) && (Poly(0, x) == 0 <==> AllZero(x))
  {
    hide Step, Limit;
    if x == [] {
      assert Limit(0) == 1 by { LimitZero(); }
    } else {
      var n := |x| - 1;
      WindowState(x[..n]);
      ShiftIn(Poly(0, x[..n]), x[n], n);
    }
  }

  lemma LimitZero()
    ensures Limit(0) == 1 && Limit(6) == 0x4000_0000
  {}

  lemma LimitTop(j: nat)
    requires j <= 6
    ensures Limit(j) <= 0x4000_0000
  {}

  lemma {:induction false} ZerosKeep(c: bv32, zs: seq<bv32>)
    requires c < 0x4000_0000 && AllZero(zs)
    ensures Poly(c, zs) < 0x4000_0000 && (Poly(c, zs) == 0 <==> c == 0)
  {
    hide Step;
    if zs != [] {
      var d := Poly(c, zs[..|zs| - 1]);
      ZerosKeep(c, zs[..|zs| - 1]);
      StepBounded(d, 0);
      if d != 0 { StepKeepsNonZero(d); } else { StepZero(); }
    }
  }

  lemma StepZero()
    ensures Step(0, 0) == 0
  {}

  /** The two lists differ, and only within `k` consecutive places from `p` on. */
  ghost predicate Burst(v: seq<bv32>, w: seq<bv32>, p: nat, k: nat) {
    && |v| == |w| && p + k <= |v| && v != w
    && Symbols(v[p..p + k]) && Symbols(w[p..p + k])
    && forall i :: 0 <= i < |v| && !(p <= i < p + k) ==> v[i] == w[i]
  }

  /** Errors within six consecutive symbols always change the checksum, whatever the length. */
  lemma BurstDetected(c: bv32, v: seq<bv32>, w: seq<bv32>, p: nat, k: nat)
    requires k <= 6 && Burst(v, w, p, k)
    ensures Poly(c, v) != Poly(c, w)
  {
    hide Step, Xor, Poly;
    var e := XorAll(v, w);
    XorUnits(c);
    PolyLinear(c, c, v, w);
    assert e == e[..p] + (e[p..p + k] + e[p + k..]);
    PolyConcat(0, e[..p], e[p..p + k] + e[p + k..]);
    XorSame(v, w, p, k);
    ZerosKeep(0, e[..p]);
    PolyConcat(0, e[p..p + k], e[p + k..]);
    WindowState(e[p..p + k]);
    LimitTop(k);
    ZerosKeep(Poly(0, e[p..p + k]), e[p + k..]);
    if Poly(c, v) == Poly(c, w) { XorUnits(Poly(c, v)); }
  }

  lemma XorSame(v: seq<bv32>, w: seq<bv32>, p: nat, k: nat)
    requires Burst(v, w, p, k)
    ensures var e := XorAll(v, w);
      Symbols(e[p..p + k]) && !AllZero(e[p..p + k]) && AllZero(e[..p]) && AllZero(e[p + k..])
  {
    hide Xor;
    var e := XorAll(v, w);
    forall i | 0 <= i < |v| ensures e[i] == 0 <==> v[i] == w[i] { XorZero(v[i], w[i]); }
    var f := e[p..p + k];
    forall i | 0 <= i < |f| ensures f[i] < 32 {
      assert v[p..p + k][i] < 32 && w[p..p + k][i] < 32;
      XorSymbol(v[p + i], w[p + i]);
    }
    var i :| 0 <= i < |v| && v[i] != w[i];
    assert f[i - p] != 0;
  }

  lemma XorZero(a: bv32, b: bv32)
    ensures Xor(a, b) == 0 <==> a == b
  {
    hide Xor;
    XorAssoc(a, b, b);
    XorUnits(b);
    XorUnits(a);
  }

  lemma XorSymbol(a: bv32, b: bv32)
    requires a < 32 && b < 32
    ensures Xor(a, b) < 32
  {}

  // ---------- Making and checking checksums ----------

  datatype Encoding = BECH32 | BECH32M

  datatype Verdict = Invalid | Valid(encoding: Encoding)

  function Constant(e: Encoding): bv32 {
    if e.BECH32? then 1 else 0x2bc830a3
  }

  const SIX_ZEROS: seq<bv32> := [0, 0, 0, 0, 0, 0]

  /** Six symbols packed into 30 bits, the first one highest. */
  function Unpacked(m: bv32, i: nat): bv32
    requires i < 6
  {
    if i == 0 then (m >> 25) & 31 else if i == 1 then (m >> 20) & 31 else if i == 2 then (m >> 15) & 31
    else if i == 3 then (m >> 10) & 31 else if i == 4 then (m >> 5) & 31 else m & 31
  }

  function Unpack(m: bv32): (r: seq<bv32>)
    ensures |r| == 6
  {
    seq(6, i requires 0 <= i < 6 => Unpacked(m, i))
  }

  lemma UnpackSymbols(m: bv32)
    ensures Symbols(Unpack(m))
  {
    forall i | 0 <= i < 6 ensures Unpack(m)[i] < 32 { UnpackedSymbol(m, i); }
  }

  lemma UnpackedSymbol(m: bv32, i: nat)
    requires i < 6
    ensures Unpacked(m, i) < 32
  {
    if i == 0 {} else if i == 1 {} else if i == 2 {} else if i == 3 {} else if i == 4 {} else {}
  }

  function Join(c: bv32, v: bv32): bv32 {
    (c << 5) ^ v
  }

  /** The leading groups of a packed number, one more at a time. */
  lemma Groups(m: bv32) returns (c1: bv32, c2: bv32, c3: bv32, c4: bv32, c5: bv32)
    requires m < 0x4000_0000
    ensures c1 < 0x200_0000 && c2 < 0x200_0000 && c3 < 0x200_0000 && c4 < 0x200_0000 && c5 < 0x200_0000
    ensures Join(0, Unpacked(m, 0)) == c1 && Join(c1, Unpacked(m, 1)) == c2 && Join(c2, Unpacked(m, 2)) == c3
    ensures Join(c3, Unpacked(m, 3)) == c4 && Join(c4, Unpacked(m, 4)) == c5 && Join(c5, Unpacked(m, 5)) == m
  {
    hide Join, Unpacked;
    c1, c2, c3, c4, c5 := m >> 25, m >> 20, m >> 15, m >> 10, m >> 5;
    Group0(m);
    Group1(m);
    Group2(m);
    Group3(m);
    Group4(m);
    Group5(m);
  }

  lemma Group0(m: bv32)
    requires m < 0x4000_0000
    ensures Join(0, Unpacked(m, 0)) == m >> 25
  {}

  lemma Group1(m: bv32)
    ensures Join(m >> 25, Unpacked(m, 1)) == m >> 20
  {}

  lemma Group2(m: bv32)
    ensures Join(m >> 20, Unpacked(m, 2)) == m >> 15
  {}

  lemma Group3(m: bv32)
    ensures Join(m >> 15, Unpacked(m, 3)) == m >> 10
  {}

  lemma Group4(m: bv32)
    ensures Join(m >> 10, Unpacked(m, 4)) == m >> 5
  {}

  lemma Group5(m: bv32)
    ensures Join(m >> 5, Unpacked(m, 5)) == m
  {}

  lemma OneGroup(xs: seq<bv32>, k: nat, c: bv32, d: bv32)
    requires k < |xs| && Poly(0, xs[..k]) == c < 0x200_0000 && Join(c, xs[k]) == d
    ensures Poly(0, xs[..k + 1]) == d
  {
    hide Step, Lift;
    assert xs[..k + 1][..k] == xs[..k];
    StepSmall(c, xs[k]);
  }

  lemma PolyNone(c: bv32, xs: seq<bv32>)
    ensures Poly(c, xs[..0]) == c
  {}

  /** From zero, unpacked symbols are packed again. */
  lemma PolyUnpack(m: bv32)
    requires m < 0x4000_0000
    ensures Poly(0, Unpack(m)) == m
  {
    hide Step, Xor, Poly, Join, Unpacked;
    var u := Unpack(m);
    PolyNone(0, u);
    var c1, c2, c3, c4, c5 := Groups(m);
    OneGroup(u, 0, 0, c1);
    OneGroup(u, 1, c1, c2);
    OneGroup(u, 2, c2, c3);
    OneGroup(u, 3, c3, c4);
    OneGroup(u, 4, c4, c5);
    OneGroup(u, 5, c5, m);
    assert u[..6] == u;
  }

  /** The six symbols that bring the state `c` to the constant. */
  function Checksum(e: Encoding, c: bv32): (r: seq<bv32>)
    ensures |r| == 6
  {
    Unpack(Xor(Poly(c, SIX_ZEROS), Constant(e)))
  }

  /** The checksum is right. */
  lemma ChecksumWorks(e: Encoding, c: bv32)
    ensures Symbols(Checksum(e, c)) && Poly(c, Checksum(e, c)) == Constant(e)
  {
    hide Step, Xor, Poly, Unpack;
    var z, x := Poly(c, SIX_ZEROS), Checksum(e, c);
    var m := Xor(z, Constant(e));
    UnpackSymbols(m);
    SixZerosBound(c);
    XorBound(z, Constant(e));
    PolyUnpack(m);
    XorUnits(c);
    ZerosAdd(x);
    PolyLinear(c, 0, SIX_ZEROS, x);
    XorAssoc(z, z, Constant(e));
    XorUnits(z);
    XorUnits(Constant(e));
  }

  lemma ZerosAdd(x: seq<bv32>)
    requires |x| == 6
    ensures XorAll(SIX_ZEROS, x) == x
  {
    hide Xor;
    forall i | 0 <= i < 6 ensures XorAll(SIX_ZEROS, x)[i] == x[i] { XorUnits(x[i]); }
  }

  lemma SixZerosBound(c: bv32)
    ensures Poly(c, SIX_ZEROS) < 0x4000_0000
  {
    hide Step;
    StepBounded(Poly(c, SIX_ZEROS[..5]), 0);
  }

  lemma XorBound(a: bv32, b: bv32)
    requires a < 0x4000_0000 && b < 0x4000_0000
    ensures Xor(a, b) < 0x4000_0000
  {}

  /** No other six symbols do. */
  lemma ChecksumUnique(e: Encoding, c: bv32, x: seq<bv32>)
    requires |x| == 6 && Symbols(x) && Poly(c, x) == Constant(e)
    ensures x == Checksum(e, c)
  {
    hide Step, Xor, Poly, Unpack, Checksum;
    ChecksumWorks(e, c);
    var y := Checksum(e, c);
    if x != y {
      assert x[0..6] == x && y[0..6] == y;
      BurstDetected(c, x, y, 0, 6);
    }
  }

  /** A character is a signed byte, so the shift of one above 127 brings in ones. */
  function HighBits(ch: char): bv32 {
    var b := (ch as int % 256) as bv32;
    if b < 0x80 then b >> 5 else (b >> 5) | 0xf8
  }

  function LowBits(ch: char): bv32 {
    (ch as int as bv32) & 31
  }

  /** The human readable part as symbols: high bits, a zero, low bits. */
  function Expand(hrp: string): seq<bv32> {
    seq(|hrp|, i requires 0 <= i < |hrp| => HighBits(hrp[i])) + [0] +
        seq(|hrp|, i requires 0 <= i < |hrp| => LowBits(hrp[i]))
  }

  method PreparePolynomialCoefficients(hrp: string, values: seq<bv32>) returns (r: seq<bv32>)
    ensures r == Expand(hrp) + values
  {
    hide HighBits, LowBits;
    r := [];
    for i := 0 to |hrp|
      invariant |r| == i && forall j :: 0 <= j < i ==> r[j] == HighBits(hrp[j])
    {
      r := r + [HighBits(hrp[i])];
    }
    var high := r;
    r := r + [0];
    for i := 0 to |hrp|
      invariant |r| == |hrp| + 1 + i && r[..|hrp| + 1] == high + [0]
      invariant forall j :: 0 <= j < i ==> r[|hrp| + 1 + j] == LowBits(hrp[j])
    {
      r := r + [LowBits(hrp[i])];
    }
    assert r == Expand(hrp);
    r := r + values;
  }

  /** The state after the human readable part and some values. */
  function State(hrp: string, values: seq<bv32>): bv32 {
    Poly(Poly(1, Expand(hrp)), values)
  }

  method VerifyChecksum(hrp: string, values: seq<bv32>) returns (r: Verdict)
    ensures forall e :: r == Valid(e) <==> State(hrp, values) == Constant(e)
  {
    hide Step, Poly, Expand;
    var enc := PreparePolynomialCoefficients(hrp, values);
    PolyConcat(1, Expand(hrp), values);
    var check := PolyMod(enc);
    if check == Constant(BECH32) { return Valid(BECH32); }
    if check == Constant(BECH32M) { return Valid(BECH32M); }
    return Invalid;
  }

  /** Changing up to six consecutive values of a valid list never gives a valid list of the same encoding. */
  lemma SubstitutionDetected(e: Encoding, hrp: string, v: seq<bv32>, w: seq<bv32>, p: nat, k: nat)
    requires k <= 6 && Burst(v, w, p, k) && State(hrp, v) == Constant(e)
    ensures State(hrp, w) != Constant(e)
  {
    hide Step, Poly, Expand;
    BurstDetected(Poly(1, Expand(hrp)), v, w, p, k);
  }

  method CreateChecksum(e: Encoding, hrp: string, values: seq<bv32>) returns (r: seq<bv32>)
    ensures r == Checksum(e, State(hrp, values))
  {
    hide Step, Poly, Expand, Unpacked;
    var enc := PreparePolynomialCoefficients(hrp, values);
    enc := enc + SIX_ZEROS;
    PolyConcat(1, Expand(hrp), values);
    PolyConcat(1, Expand(hrp) + values, SIX_ZEROS);
    var mod := PolyMod(enc);
    mod := Xor(mod, Constant(e));
    r := [];
    for i := 0 to 6
      invariant |r| == i && forall j :: 0 <= j < i ==> r[j] == Unpacked(mod, j)
    {
      r := r + [Unpacked(mod, i)];
    }
  }

  // ---------- Published codewords ----------

  lemma StepAt(xs: seq<bv32>, k: nat, c: bv32, d: bv32)
    requires k < |xs| && Poly(1, xs[..k]) == c && Step(c, xs[k]) == d
    ensures Poly(1, xs[..k + 1]) == d
  {
    hide Step;
    assert xs[..k + 1][..k] == xs[..k];
  }

  /** The shortest codewords of the two standards, "a12uel5l" and "a1lqfn3a", have the two constants. */
  lemma Bech32Codeword()
    ensures Poly(1, [3, 0, 1, 10, 28, 25, 31, 20, 31]) == Constant(BECH32)
  {
    hide Poly, Step;
    var xs: seq<bv32> := [3, 0, 1, 10, 28, 25, 31, 20, 31];
    PolyNone(1, xs);
    Bech32CodewordSteps();
    StepAt(xs, 0, 0x1, 0x23);
    StepAt(xs, 1, 0x23, 0x460);
    StepAt(xs, 2, 0x460, 0x8c01);
    StepAt(xs, 3, 0x8c01, 0x11802a);
    StepAt(xs, 4, 0x11802a, 0x230055c);
    StepAt(xs, 5, 0x230055c, 0x3d6afc2b);
    StepAt(xs, 6, 0x3d6afc2b, 0x2f84386);
    StepAt(xs, 7, 0x2f84386, 0x24622766);
    StepAt(xs, 8, 0x24622766, 0x1);
    assert xs[..9] == xs;
  }

  lemma Bech32CodewordSteps()
    ensures Step(0x1, 3) == 0x23 && Step(0x23, 0) == 0x460 && Step(0x460, 1) == 0x8c01
    ensures Step(0x8c01, 10) == 0x11802a && Step(0x11802a, 28) == 0x230055c && Step(0x230055c, 25) == 0x3d6afc2b
    ensures Step(0x3d6afc2b, 31) == 0x2f84386 && Step(0x2f84386, 20) == 0x24622766 && Step(0x24622766, 31) == 0x1
  {}

  lemma Bech32mCodeword()
    ensures Poly(1, [3, 0, 1, 31, 0, 9, 19, 17, 29]) == Constant(BECH32M)
  {
    hide Poly, Step;
    var xs: seq<bv32> := [3, 0, 1, 31, 0, 9, 19, 17, 29];
    PolyNone(1, xs);
    Bech32mCodewordSteps();
    StepAt(xs, 0, 0x1, 0x23);
    StepAt(xs, 1, 0x23, 0x460);
    StepAt(xs, 2, 0x460, 0x8c01);
    StepAt(xs, 3, 0x8c01, 0x11803f);
    StepAt(xs, 4, 0x11803f, 0x23007e0);
    StepAt(xs, 5, 0x23007e0, 0x3d6aabbb);
    StepAt(xs, 6, 0x3d6aabbb, 0x2f2b18a);
    StepAt(xs, 7, 0x2f2b18a, 0x253c66e3);
    StepAt(xs, 8, 0x253c66e3, 0x2bc830a3);
    assert xs[..9] == xs;
  }

  lemma Bech32mCodewordSteps()
    ensures Step(0x1, 3) == 0x23 && Step(0x23, 0) == 0x460 && Step(0x460, 1) == 0x8c01
    ensures Step(0x8c01, 31) == 0x11803f && Step(0x11803f, 0) == 0x23007e0 && Step(0x23007e0, 9) == 0x3d6aabbb
    ensures Step(0x3d6aabbb, 19) == 0x2f2b18a && Step(0x2f2b18a, 17) == 0x253c66e3 && Step(0x253c66e3, 29) == 0x2bc830a3
  {}

  // ---------- Characters ----------

  const NO_SYMBOL: bv32 := 255

  function CharOf(v: bv32): char {
    if v == 0 then 'q' else if v == 1 then 'p' else if v == 2 then 'z' else if v == 3 then 'r'
    else if v == 4 then 'y' else if v == 5 then '9' else if v == 6 then 'x' else if v == 7 then '8'
    else if v == 8 then 'g' else if v == 9 then 'f' else if v == 10 then '2' else if v == 11 then 't'
    else if v == 12 then 'v' else if v == 13 then 'd' else if v == 14 then 'w' else if v == 15 then '0'
    else if v == 16 then 's' else if v == 17 then '3' else if v == 18 then 'j' else if v == 19 then 'n'
    else if v == 20 then '5' else if v == 21 then '4' else if v == 22 then 'k' else if v == 23 then 'h'
    else if v == 24 then 'c' else if v == 25 then 'e' else if v == 26 then '6' else if v == 27 then 'm'
    else if v == 28 then 'u' else if v == 29 then 'a' else if v == 30 then '7' else 'l'
  }

  function LowerCase(c: char): char {
    if 'A' <= c <= 'Z' then c - 'A' + 'a' else c
  }

  function RevLower(c: char): bv32 {
    if c == 'q' then 0 else if c == 'p' then 1 else if c == 'z' then 2 else if c == 'r' then 3
    else if c == 'y' then 4 else if c == '9' then 5 else if c == 'x' then 6 else if c == '8' then 7
    else if c == 'g' then 8 else if c == 'f' then 9 else if c == '2' then 10 else if c == 't' then 11
    else if c == 'v' then 12 else if c == 'd' then 13 else if c == 'w' then 14 else if c == '0' then 15
    else if c == 's' then 16 else if c == '3' then 17 else if c == 'j' then 18 else if c == 'n' then 19
    else if c == '5' then 20 else if c == '4' then 21 else if c == 'k' then 22 else if c == 'h' then 23
    else if c == 'c' then 24 else if c == 'e' then 25 else if c == '6' then 26 else if c == 'm' then 27
    else if c == 'u' then 28 else if c == 'a' then 29 else if c == '7' then 30 else if c == 'l' then 31 else NO_SYMBOL
  }

  function Rev(c: char): bv32 {
    RevLower(LowerCase(c))
  }

  predicate Printable(c: char) {
    33 as char <= c <= 126 as char
  }

  predicate IsLower(c: char) {
    'a' <= c <= 'z'
  }

  predicate IsUpper(c: char) {
    'A' <= c <= 'Z'
  }

  lemma RevCharOf(v: bv32)
    requires v < 32
    ensures Rev(CharOf(v)) == v && Printable(CharOf(v)) && !IsUpper(CharOf(v)) && CharOf(v) != '1'
  {
    if v == 0 {} else if v == 1 {} else if v == 2 {} else if v == 3 {} else if v == 4 {} else if v == 5 {}
    else if v == 6 {} else if v == 7 {} else if v == 8 {} else if v == 9 {} else if v == 10 {} else if v == 11 {}
    else if v == 12 {} else if v == 13 {} else if v == 14 {} else if v == 15 {} else if v == 16 {} else if v == 17 {}
    else if v == 18 {} else if v == 19 {} else if v == 20 {} else if v == 21 {} else if v == 22 {} else if v == 23 {}
    else if v == 24 {} else if v == 25 {} else if v == 26 {} else if v == 27 {} else if v == 28 {} else if v == 29 {}
    else if v == 30 {} else {}
  }

  lemma CharOfRev(c: char)
    requires Rev(c) != NO_SYMBOL
    ensures Rev(c) < 32 && CharOf(Rev(c)) == LowerCase(c) && c != '1'
  {
    var l := LowerCase(c);
    if l == 'q' {} else if l == 'p' {} else if l == 'z' {} else if l == 'r' {} else if l == 'y' {}
    else if l == '9' {} else if l == 'x' {} else if l == '8' {} else if l == 'g' {} else if l == 'f' {}
    else if l == '2' {} else if l == 't' {} else if l == 'v' {} else if l == 'd' {} else if l == 'w' {}
    else if l == '0' {} else if l == 's' {} else if l == '3' {} else if l == 'j' {} else if l == 'n' {}
    else if l == '5' {} else if l == '4' {} else if l == 'k' {} else if l == 'h' {} else if l == 'c' {}
    else if l == 'e' {} else if l == '6' {} else if l == 'm' {} else if l == 'u' {} else if l == 'a' {}
    else if l == '7' {} else {}
  }

  // ---------- Encoding and decoding strings ----------

  function CharsOf(vs: seq<bv32>): string {
    seq(|vs|, i requires 0 <= i < |vs| => CharOf(vs[i]))
  }

  function Lowered(s: string): string {
    seq(|s|, i requires 0 <= i < |s| => LowerCase(s[i]))
  }

  /** The values of a list with its checksum. */
  function Values(e: Encoding, hrp: string, data: seq<bv32>): seq<bv32> {
    data + Checksum(e, State(hrp, data))
  }

  function Text(e: Encoding, hrp: string, data: seq<bv32>): string {
    hrp + "1" + CharsOf(Values(e, hrp, data))
  }

  method Encode(e: Encoding, hrp: string, data: seq<bv32>) returns (r: string)
    requires Symbols(data) && forall i :: 0 <= i < |hrp| ==> !IsUpper(hrp[i])
    ensures r == Text(e, hrp, data)
  {
    hide CharOf, Checksum, State, IsUpper;
    for i := 0 to |hrp| { assert !IsUpper(hrp[i]); }
    var tail := "";
    for i := 0 to |data|
      invariant tail == CharsOf(data[..i])
    {
      tail := tail + [CharOf(data[i])];
    }
    assert data[..|data|] == data;
    var sum := CreateChecksum(e, hrp, data);
    for i := 0 to |sum|
      invariant tail == CharsOf(data + sum[..i])
    {
      tail := tail + [CharOf(sum[i])];
    }
    assert sum[..|sum|] == sum;
    r := hrp + "1" + tail;
  }

  predicate HasLower(s: string) {
    exists i :: 0 <= i < |s| && IsLower(s[i])
  }

  predicate HasUpper(s: string) {
    exists i :: 0 <= i < |s| && IsUpper(s[i])
  }

  predicate AllPrintable(s: string) {
    forall i :: 0 <= i < |s| ==> Printable(s[i])
  }

  /** Only printable characters, and not both cases of letters. */
  predicate Clean(s: string) {
    AllPrintable(s) && !(HasLower(s) && HasUpper(s))
  }

  predicate IsLetter(c: char) {
    IsLower(c) || IsUpper(c)
  }

  /** The first letter of `s`, a space if there is none. */
  function FirstLetter(s: string): (c: char)
    ensures IsLetter(c) || c == ' '
  {
    if s == "" then ' '
    else
      var c := FirstLetter(s[..|s| - 1]);
      if IsLetter(c) then c else if IsLetter(s[|s| - 1]) then s[|s| - 1] else ' '
  }

  /** Not printable, or a letter in the other case than the first one. */
  predicate Offends(first: char, c: char) {
    !Printable(c) || (IsLower(first) && IsUpper(c)) || (IsUpper(first) && IsLower(c))
  }

  /** The offending characters are listed from left to right, and there is none exactly in a clean string. */
  method CheckCharacters(s: string) returns (ok: bool, errors: seq<nat>)
    ensures (ok <==> Clean(s)) && (ok <==> errors == [])
    ensures forall k :: k in errors <==> 0 <= k < |s| && Offends(FirstLetter(s), s[k])
    ensures forall k, l :: 0 <= k < l < |errors| ==> errors[k] < errors[l]
  {
    hide FirstLetter, Offends, Clean;
    var lower, upper := false, false;
    errors := [];
    assert s[..0] == "" && FirstLetter("") == ' ' by { NoLetter(); }
    for i := 0 to |s|
      invariant lower == IsLower(FirstLetter(s[..i])) && upper == IsUpper(FirstLetter(s[..i]))
      invariant forall k :: k in errors <==> 0 <= k < i && Offends(FirstLetter(s[..i]), s[k])
      invariant forall k, l :: 0 <= k < l < |errors| ==> errors[k] < errors[l]
    {
      var c := s[i];
      NextLetter(s, i);
      AppendIn(errors, i);
      forall k | 0 <= k < |errors| ensures errors[k] < i { assert errors[k] in errors; }
      if 'a' <= c <= 'z' {
        if upper { errors := errors + [i]; } else { lower := true; }
      } else if 'A' <= c <= 'Z' {
        if lower { errors := errors + [i]; } else { upper := true; }
      } else if c < 33 as char || c > 126 as char {
        errors := errors + [i];
      }
    }
    assert s[..|s|] == s;
    CleanIff(s);
    ok := errors == [];
    if ok {
      forall k | 0 <= k < |s| ensures !Offends(FirstLetter(s), s[k]) { assert k !in errors; }
    } else {
      assert errors[0] in errors;
    }
  }

  lemma AppendIn(xs: seq<nat>, x: nat)
    ensures forall k :: k in xs + [x] <==> k in xs || k == x
  {}

  lemma NoLetter()
    ensures FirstLetter("") == ' '
  {}

  lemma {:induction false} NextLetter(s: string, i: nat)
    requires i < |s|
    ensures var f, g, c := FirstLetter(s[..i]), FirstLetter(s[..i + 1]), s[i];
      && g == (if IsLetter(f) then f else if IsLetter(c) then c else ' ')
      && (forall k :: 0 <= k < i ==> (Offends(g, s[k]) <==> Offends(f, s[k])))
      && (Offends(g, c) <==> if IsLower(c) then IsUpper(f) else if IsUpper(c) then IsLower(f) else !Printable(c))
  {
    hide Offends;
    assert s[..i + 1][..i] == s[..i];
    FirstLetterIs(s[..i]);
    OffendsIs(FirstLetter(s[..i + 1]), s[i]);
    forall k | 0 <= k < i ensures Offends(FirstLetter(s[..i + 1]), s[k]) <==> Offends(FirstLetter(s[..i]), s[k]) {
      assert s[..i][k] == s[k];
      OffendsIs(FirstLetter(s[..i + 1]), s[k]);
      OffendsIs(FirstLetter(s[..i]), s[k]);
    }
  }

  lemma OffendsIs(f: char, c: char)
    requires IsLetter(f) || f == ' '
    ensures Offends(f, c) <==>
            if IsLower(c) then IsUpper(f) else if IsUpper(c) then IsLower(f) else !Printable(c)
  {}

  /** The first letter occurs in the string, and there is none only if no character is a letter. */
  lemma {:induction false} FirstLetterIs(s: string)
    ensures IsLetter(FirstLetter(s)) ==> exists k :: 0 <= k < |s| && s[k] == FirstLetter(s)
    ensures !IsLetter(FirstLetter(s)) ==> forall k :: 0 <= k < |s| ==> !IsLetter(s[k])
  {
    if s != "" {
      var t := s[..|s| - 1];
      FirstLetterIs(t);
      if IsLetter(FirstLetter(t)) {
        var k :| 0 <= k < |t| && t[k] == FirstLetter(t);
        assert s[k] == FirstLetter(s);
      } else {
        forall k | 0 <= k < |t| ensures !IsLetter(s[k]) { assert t[k] == s[k]; }
      }
    }
  }

  lemma CleanIff(s: string)
    ensures Clean(s) <==> forall k :: 0 <= k < |s| ==> !Offends(FirstLetter(s), s[k])
  {
    hide FirstLetter;
    FirstLetterIs(s);
    if Clean(s) {
      forall k | 0 <= k < |s| ensures !Offends(FirstLetter(s), s[k]) { assert Printable(s[k]); }
    }
    if forall k :: 0 <= k < |s| ==> !Offends(FirstLetter(s), s[k]) {
      forall k | 0 <= k < |s| ensures Printable(s[k]) { assert !Offends(FirstLetter(s), s[k]); }
      assert !(HasLower(s) && HasUpper(s));
    }
  }

  /** The position of the last separator, -1 if there is none. */
  function LastSeparator(s: string): (p: int)
    ensures -1 <= p < |s| && (p >= 0 ==> s[p] == '1') && forall i :: p < i < |s| ==> s[i] != '1'
  {
    if s == "" then -1 else if s[|s| - 1] == '1' then |s| - 1 else LastSeparator(s[..|s| - 1])
  }

  datatype DecodeResult = Failure | Decoded(encoding: Encoding, hrp: string, data: seq<bv32>)

  /** `s` is `hrp` and `data` encoded, in one case of letters. */
  ghost predicate Encodes(s: string, e: Encoding, hrp: string, data: seq<bv32>) {
    Clean(s) && |hrp| > 0 && Symbols(data) && Lowered(s) == Text(e, hrp, data)
  }

  /** Exactly the encodings are accepted, and they are decoded to what was encoded. */
  method Decode(s: string, limit: nat) returns (r: DecodeResult)
    ensures forall e, hrp, data :: r == Decoded(e, hrp, data) <==> |s| <= limit && Encodes(s, e, hrp, data)
  {
    hide Clean, CharOf, Rev, Checksum, State, Lowered, CharsOf;
    var ok, errors := CheckCharacters(s);
    if !ok { return Failure; }
    var pos := LastSeparator(s);
    forall e, hrp, data | Encodes(s, e, hrp, data)
      ensures pos == |hrp| && |s| == |hrp| + 7 + |data| && hrp == Lowered(s[..pos])
      ensures Revs(s[pos + 1..]) == Values(e, hrp, data) && |data| == |s| - 1 - pos - 6
      ensures State(hrp, Values(e, hrp, data)) == Constant(e)
    {
      EncodedParts(s, e, hrp, data);
    }
    if |s| > limit { return Failure; }
    if pos == -1 || pos == 0 || pos + 6 >= |s| { return Failure; }
    var values := [];
    for i := 0 to |s| - 1 - pos
      invariant |values| == i && forall j :: 0 <= j < i ==> values[j] == Rev(s[pos + 1 + j]) != NO_SYMBOL
    {
      var rev := Rev(s[i + pos + 1]);
      if rev == NO_SYMBOL { NotEncoded(s, pos, i); return Failure; }
      values := values + [rev];
    }
    assert values == Revs(s[pos + 1..]);
    var hrp := "";
    for i := 0 to pos
      invariant |hrp| == i && forall j :: 0 <= j < i ==> hrp[j] == LowerCase(s[j])
    {
      hrp := hrp + [LowerCase(s[i])];
    }
    IsLowered(s, pos, hrp);
    var result := VerifyChecksum(hrp, values);
    if result.Invalid? { return Failure; }
    DecodedEncodes(s, pos, result.encoding, hrp, values);
    return Decoded(result.encoding, hrp, values[..|values| - 6]);
  }

  function Revs(s: string): seq<bv32> {
    seq(|s|, i requires 0 <= i < |s| => Rev(s[i]))
  }

  lemma IsLowered(s: string, pos: nat, hrp: string)
    requires pos <= |s| && |hrp| == pos && forall j :: 0 <= j < pos ==> hrp[j] == LowerCase(s[j])
    ensures hrp == Lowered(s[..pos])
  {}

  lemma LowerKeeps(c: char)
    ensures LowerCase(LowerCase(c)) == LowerCase(c)
    ensures (LowerCase(c) == '1' <==> c == '1') && Rev(LowerCase(c)) == Rev(c)
  {}

  /** Where the parts of an encoding are. */
  lemma EncodedParts(s: string, e: Encoding, hrp: string, data: seq<bv32>)
    requires Encodes(s, e, hrp, data)
    ensures |s| == |hrp| + 7 + |data| && LastSeparator(s) == |hrp| && hrp == Lowered(s[..|hrp|])
    ensures Symbols(Values(e, hrp, data)) && Revs(s[|hrp| + 1..]) == Values(e, hrp, data)
    ensures State(hrp, Values(e, hrp, data)) == Constant(e)
  {
    hide CharOf, Rev, Checksum, Clean, LowerCase, Poly;
    var p, vs, t := |hrp|, Values(e, hrp, data), Lowered(s);
    ChecksumWorks(e, State(hrp, data));
    PolyConcat(Poly(1, Expand(hrp)), data, Checksum(e, State(hrp, data)));
    assert |t| == |s| && t[p] == '1';
    LowerKeeps(s[p]);
    forall i | p < i < |s| ensures s[i] != '1' && Rev(s[i]) == vs[i - p - 1] {
      assert t[i] == CharOf(vs[i - p - 1]);
      LowerKeeps(s[i]);
      RevCharOf(vs[i - p - 1]);
    }
    forall i | 0 <= i < p ensures LowerCase(s[i]) == hrp[i] { assert t[i] == hrp[i]; }
    SeparatorAt(s, p);
    assert Revs(s[p + 1..]) == vs;
  }

  lemma SeparatorAt(s: string, p: nat)
    requires p < |s| && s[p] == '1' && forall i :: p < i < |s| ==> s[i] != '1'
    ensures LastSeparator(s) == p
  {}

  lemma NotEncoded(s: string, pos: nat, i: nat)
    requires pos == LastSeparator(s) && i < |s| - 1 - pos && Rev(s[i + pos + 1]) == NO_SYMBOL
    ensures forall e, hrp, data :: !Encodes(s, e, hrp, data)
  {
    hide CharOf, Rev, Checksum, Clean, Encodes, LastSeparator;
    forall e, hrp, data ensures !Encodes(s, e, hrp, data) {
      if Encodes(s, e, hrp, data) {
        EncodedSymbol(s, e, hrp, data, i + pos + 1);
      }
    }
  }

  lemma EncodedSymbol(s: string, e: Encoding, hrp: string, data: seq<bv32>, i: nat)
    requires Encodes(s, e, hrp, data) && LastSeparator(s) < i < |s|
    ensures Rev(s[i]) < 32
  {
    hide CharOf, Rev, Checksum, Clean, Encodes, Values, State, Constant, Lowered, LastSeparator;
    EncodedParts(s, e, hrp, data);
    var p := |hrp| + 1;
    assert Revs(s[p..])[i - p] == Rev(s[i]);
  }

  /** What is accepted is an encoding of what is returned. */
  lemma DecodedEncodes(s: string, pos: nat, e: Encoding, hrp: string, values: seq<bv32>)
    requires Clean(s) && 0 < pos && pos + 6 < |s| && s[pos] == '1'
    requires hrp == Lowered(s[..pos]) && values == Revs(s[pos + 1..])
    requires (forall i :: 0 <= i < |values| ==> values[i] != NO_SYMBOL) && State(hrp, values) == Constant(e)
    ensures Encodes(s, e, hrp, values[..|values| - 6])
  {
    hide CharOf, Rev, Checksum, Clean, LowerCase, Poly;
    var n := |values| - 6;
    var data, sum := values[..n], values[n..];
    forall i | 0 <= i < |values| ensures values[i] < 32 && CharOf(values[i]) == LowerCase(s[pos + 1 + i]) {
      assert values[i] == Rev(s[pos + 1..][i]);
      CharOfRev(s[pos + 1 + i]);
    }
    assert values == data + sum;
    PolyConcat(Poly(1, Expand(hrp)), data, sum);
    ChecksumUnique(e, State(hrp, data), sum);
    LowerKeeps(s[pos]);
    assert Lowered(s) == hrp + "1" + CharsOf(values);
  }

  /** Decoding what was encoded. */
  lemma RoundTrip(e: Encoding, hrp: string, data: seq<bv32>)
    requires |hrp| > 0 && AllPrintable(hrp) && !HasUpper(hrp) && Symbols(data)
    ensures Encodes(Text(e, hrp, data), e, hrp, data)
  {
    hide CharOf, Checksum, LowerCase, Poly, Printable, IsUpper;
    var s, vs := Text(e, hrp, data), Values(e, hrp, data);
    ChecksumWorks(e, State(hrp, data));
    forall i | 0 <= i < |s| ensures Printable(s[i]) && !IsUpper(s[i]) && LowerCase(s[i]) == s[i] {
      if i == |hrp| { Separator(); } else if i > |hrp| { RevCharOf(vs[i - |hrp| - 1]); }
      AlreadyLower(s[i]);
    }
  }

  lemma Separator()
    ensures Printable('1') && !IsUpper('1')
  {}

  lemma AlreadyLower(c: char)
    ensures !IsUpper(c) ==> LowerCase(c) == c
  {}
}
