/**
 Finding wrong symbols from the values of a checksum at the three roots (bech32.cpp, the comments in LocateErrors): the
 equations for one and for two wrong symbols, and how they are solved.
 */
module ErrorLocator {
  import opened Arith
  import opened Bech32
  import opened Gf1024
  import opened Bch
  import opened GfLog

  // ---------- The equations ----------

  ghost predicate Triple(u0: bv32, u1: bv32, u2: bv32) {
    u0 < 1024 && u1 < 1024 && u2 < 1024
  }

  /** The three values stem from one wrong symbol at place `p`. */
  ghost predicate One(u0: bv32, u1: bv32, u2: bv32, p: nat) {
    u1 == Raise(p, u0) && u2 == Raise(p, u1)
  }

  /** The three values stem from two wrong symbols at places `p` and `q`. */
  ghost predicate Two(u0: bv32, u1: bv32, u2: bv32, p: nat, x: bv32, q: nat, y: bv32) {
    && u0 == Xor(x, y) && u1 == Xor(Raise(p, x), Raise(q, y))
    && u2 == Xor(Raise(p, Raise(p, x)), Raise(q, Raise(q, y)))
  }

  /** What is left of two successive values when a symbol at place `p` is taken out. */
  function Rest(u: bv32, v: bv32, p: nat): bv32 {
    Xor(v, Raise(p, u))
  }

  lemma RestSmall(u: bv32, v: bv32, p: nat)
    requires u < 1024 && v < 1024
    ensures Rest(u, v, p) < 1024
  {
    hide Raise, Xor;
    RaiseFacts(p, u);
    XorSmall(v, Raise(p, u));
  }

  /** e^p + e^q as a power of e. */
  ghost function Between(p: nat, q: nat): (l: nat)
    requires p < 1023 && q < 1023 && p != q
    ensures IsLog(Xor(Exp(p), Exp(q)), l)
  {
    SumOfPowers(p, q);
    Log(Xor(Exp(p), Exp(q)))
  }

  lemma SumOfPowers(p: nat, q: nat)
    requires p < 1023 && q < 1023 && p != q
    ensures 0 < Xor(Exp(p), Exp(q)) < 1024
  {
    hide Exp, Xor;
    ExpFacts(p);
    ExpFacts(q);
    XorSmall(Exp(p), Exp(q));
    XorZero(Exp(p), Exp(q));
    if Exp(p) == Exp(q) { ExpDistinct(p, q); }
  }

  lemma BetweenIs(p: nat, q: nat, v: bv32)
    requires p < 1023 && q < 1023 && p != q && v < 1024
    ensures Xor(Raise(p, v), Raise(q, v)) == Raise(Between(p, q), v)
  {
    hide Raise, Xor, Mul;
    var l := Between(p, q);
    RaiseIsMul(p, v);
    RaiseIsMul(q, v);
    RaiseIsMul(l, v);
    MulAdd(Exp(p), Exp(q), v);
  }

  /** Taking out one of two symbols leaves the other, spread by e^p + e^q. */
  lemma TwoRests(u0: bv32, u1: bv32, u2: bv32, p: nat, x: bv32, q: nat, y: bv32)
    requires Two(u0, u1, u2, p, x, q, y) && x < 1024 && y < 1024 && p < 1023 && q < 1023 && p != q
    ensures Rest(u0, u1, p) == Raise(Between(p, q), y) && Rest(u0, u1, q) == Raise(Between(p, q), x)
    ensures Rest(u1, u2, p) == Raise(q, Rest(u0, u1, p))
  {
    hide Raise, Xor, Between;
    BetweenIs(p, q, x);
    BetweenIs(p, q, y);
    var px, qx, py, qy := Raise(p, x), Raise(q, x), Raise(p, y), Raise(q, y);
    RaiseLinear(p, x, y);
    RaiseLinear(q, x, y);
    XorMiddleSwap(px, qy, py);
    XorCommutes(qy, py);
    XorMiddle(px, qy, qx);
    XorCommutes(qy, qx);
    XorCommutes(qx, px);
    RaiseLinear(p, px, qy);
    XorMiddleSwap(Raise(p, px), Raise(q, qy), Raise(p, qy));
    RaiseSwap(p, q, y);
    RaiseLinear(q, qy, py);
  }

  lemma XorMiddleSwap(a: bv32, b: bv32, c: bv32)
    ensures Xor(Xor(a, b), Xor(a, c)) == Xor(b, c)
  {
    hide Xor;
    XorCommutes(a, b);
    XorMiddle(b, a, c);
  }

  /** Conversely, if the rests are in the ratio e^q, two symbols solve the equations. */
  lemma RestsTwo(u0: bv32, u1: bv32, u2: bv32, p: nat, q: nat, x: bv32, y: bv32)
    requires Triple(u0, u1, u2) && p < 1023 && q < 1023 && p != q && x < 1024 && y < 1024
    requires Rest(u1, u2, p) == Raise(q, Rest(u0, u1, p))
    requires Rest(u0, u1, p) == Raise(Between(p, q), y) && Rest(u0, u1, q) == Raise(Between(p, q), x)
    ensures Two(u0, u1, u2, p, x, q, y)
  {
    hide Raise, Xor, Between, Rest;
    FirstOfTwo(u0, u1, p, q, x, y);
    SecondOfTwo(u0, u1, p, q, x, y);
    ThirdOfTwo(u0, u1, u2, p, q, x, y);
  }

  lemma FirstOfTwo(u0: bv32, u1: bv32, p: nat, q: nat, x: bv32, y: bv32)
    requires u0 < 1024 && p < 1023 && q < 1023 && p != q && x < 1024 && y < 1024
    requires Rest(u0, u1, p) == Raise(Between(p, q), y) && Rest(u0, u1, q) == Raise(Between(p, q), x)
    ensures u0 == Xor(x, y)
  {
    hide Raise, Xor, Between;
    var l := Between(p, q);
    var a, b := Raise(p, u0), Raise(q, u0);
    RaiseLinear(l, x, y);
    XorMiddleSwap(u1, b, a);
    XorCommutes(b, a);
    BetweenIs(p, q, u0);
    XorSmall(x, y);
    RaiseInjective(l, u0, Xor(x, y));
  }

  lemma SecondOfTwo(u0: bv32, u1: bv32, p: nat, q: nat, x: bv32, y: bv32)
    requires u1 < 1024 && p < 1023 && q < 1023 && p != q && x < 1024 && y < 1024
    requires Rest(u0, u1, p) == Raise(Between(p, q), y) && Rest(u0, u1, q) == Raise(Between(p, q), x)
    ensures u1 == Xor(Raise(p, x), Raise(q, y))
  {
    hide Raise, Xor, Between;
    var l := Between(p, q);
    var px, qy := Raise(p, x), Raise(q, y);
    RaiseLinear(l, px, qy);
    RaiseSwap(l, p, x);
    RaiseSwap(l, q, y);
    RaiseLinear(p, u1, Raise(q, u0));
    RaiseLinear(q, u1, Raise(p, u0));
    RaiseSwap(p, q, u0);
    var a, b, c := Raise(p, u1), Raise(p, Raise(q, u0)), Raise(q, u1);
    XorCommutes(c, b);
    XorMiddle(a, b, c);
    BetweenIs(p, q, u1);
    RaiseFacts(p, x);
    RaiseFacts(q, y);
    XorSmall(px, qy);
    RaiseInjective(l, u1, Xor(px, qy));
  }

  lemma ThirdOfTwo(u0: bv32, u1: bv32, u2: bv32, p: nat, q: nat, x: bv32, y: bv32)
    requires p < 1023 && q < 1023 && p != q && y < 1024
    requires Rest(u1, u2, p) == Raise(q, Rest(u0, u1, p)) && Rest(u0, u1, p) == Raise(Between(p, q), y)
    requires u1 == Xor(Raise(p, x), Raise(q, y))
    ensures u2 == Xor(Raise(p, Raise(p, x)), Raise(q, Raise(q, y)))
  {
    hide Raise, Xor, Between;
    var px, py, qy := Raise(p, x), Raise(p, y), Raise(q, y);
    BetweenIs(p, q, y);
    RaiseLinear(q, py, qy);
    RaiseLinear(p, px, qy);
    RaiseSwap(p, q, y);
    var a, b, c := Raise(p, px), Raise(p, qy), Raise(q, qy);
    XorMove(u2, Raise(p, u1), Xor(b, c));
    XorCommutes(a, b);
    XorCommutes(b, c);
    XorMiddle(c, b, a);
    XorCommutes(c, a);
  }

  /** What one wrong symbol explains, two do not. */
  lemma NotBoth(u0: bv32, u1: bv32, u2: bv32, m: nat, p: nat, x: bv32, q: nat, y: bv32)
    requires Triple(u0, u1, u2) && One(u0, u1, u2, m)
    requires m < 1023 && p < 1023 && q < 1023 && p != q && 0 < x < 1024 && 0 < y < 1024
    ensures !Two(u0, u1, u2, p, x, q, y)
  {
    hide Raise, Xor, Between;
    if Two(u0, u1, u2, p, x, q, y) {
      TwoRests(u0, u1, u2, p, x, q, y);
      var l, b := Between(p, q), Rest(u0, u1, p);
      RaiseFacts(l, x);
      RaiseFacts(l, y);
      XorUnits(Raise(m, u0));
      if m != p {
        RaiseLinear(m, u1, Raise(p, u0));
        RaiseSwap(m, p, u0);
        RestSmall(u0, u1, p);
        if q < m { SamePower(m, q, b); } else if m < q { SamePower(q, m, b); }
      }
      assert false;
    }
  }

  // ---------- Places by logarithms ----------

  /** The difference of two logarithms, as LocateErrors takes it. */
  function Apart(m: nat, n: nat): (p: nat)
    requires m < 1023 && n < 1023
    ensures p < 1023
  {
    (m - n + 1023) % 1023
  }

  lemma ApartIff(u: bv32, v: bv32, n: nat, m: nat, p: nat)
    requires IsLog(u, n) && IsLog(v, m) && p < 1023
    ensures v == Raise(p, u) <==> p == Apart(m, n)
  {
    hide Exp;
    RaiseExp(p, n);
    ApartSum(m, n);
    if p == Apart(m, n) {
      ExpSame(p + n, m);
    }
    if Exp(p + n) == Exp(m) {
      ExpMod(p + n, m);
      ApartSum(m, n);
      SumIs(p, n, m);
    }
  }

  lemma ExpSame(m: nat, n: nat)
    requires m % 1023 == n % 1023
    ensures Exp(m) == Exp(n)
  {
    hide Raise;
    RaiseSame(m, n, 1);
  }

  lemma ApartSum(m: nat, n: nat)
    requires m < 1023 && n < 1023
    ensures (Apart(m, n) + n) % 1023 == m % 1023
  {}

  lemma SumIs(p: nat, n: nat, m: nat)
    requires p < 1023 && n < 1023 && m < 1023 && (p + n) % 1023 == m % 1023
    ensures p == Apart(m, n)
  {}

  /** The test for one wrong symbol. */
  lemma OneByLogs(u0: bv32, u1: bv32, u2: bv32, l0: nat, l1: nat, l2: nat)
    requires IsLog(u0, l0) && IsLog(u1, l1) && IsLog(u2, l2)
    ensures One(u0, u1, u2, Apart(l1, l0)) <==> (2 * l1 - l2 - l0 + 2046) % 1023 == 0
    ensures forall p: nat :: p < 1023 && One(u0, u1, u2, p) ==> p == Apart(l1, l0)
  {
    hide Exp, Raise;
    forall p: nat | p < 1023 ensures u1 == Raise(p, u0) <==> p == Apart(l1, l0) { ApartIff(u0, u1, l0, l1, p); }
    ApartIff(u1, u2, l1, l2, Apart(l1, l0));
    SecondDifference(l0, l1, l2);
  }

  lemma ApartCases(m: nat, n: nat)
    requires m < 1023 && n < 1023
    ensures Apart(m, n) == if m >= n then m - n else m - n + 1023
  {}

  lemma SecondDifference(l0: nat, l1: nat, l2: nat)
    requires l0 < 1023 && l1 < 1023 && l2 < 1023
    ensures Apart(l1, l0) == Apart(l2, l1) <==> (2 * l1 - l2 - l0 + 2046) % 1023 == 0
  {
    hide Apart;
    ApartCases(l1, l0);
    ApartCases(l2, l1);
    var x := Apart(l1, l0) - Apart(l2, l1);
    ModPlus(x, 1);
    ModPlus(x, 2);
    ModPlus(x, 3);
    SmallMultiple(x);
  }

  lemma SmallMultiple(x: int)
    requires -1023 < x < 1023
    ensures x % 1023 == 0 <==> x == 0
  {}

  // ---------- Wrong symbols ----------

  function Zeros(n: nat): (r: seq<bv32>)
    ensures |r| == n && AllZero(r)
  {
    seq(n, _ => 0)
  }

  /** The checksum of a list that is `d` at place `p`, counted from the right, and zero elsewhere. */
  ghost function Wrong(p: nat, d: bv32): bv32 {
    Poly(0, [d] + Zeros(p))
  }

  lemma WrongValue(j: nat, p: nat, d: bv32)
    requires j < 3 && d < 32
    ensures Wrong(p, d) < 0x4000_0000 && ValueOf(j, Wrong(p, d)) == Raise(j * p, Raise(997 * p, Embed(d)))
  {
    hide Poly, Value, Embed, Raise, Xor, ValueOf;
    var vs := [d] + Zeros(p);
    ChecksumAtRoot(j, vs);
    ValueConcat(j, 0, [d], Zeros(p));
    SingleValue(j, d);
    ValueFrom(j, Embed(d), Zeros(p));
    ValueZeros(j, Zeros(p));
    XorUnits(Raise(Turned(j, p), Embed(d)));
    TurnedSplit(j, p, Embed(d));
  }

  /** One wrong symbol at place `p` explains the residue. */
  ghost predicate Single(residue: bv32, p: nat) {
    exists d: bv32 :: 0 < d < 32 && residue == Wrong(p, d)
  }

  /** Two wrong symbols at places `p` and `q` explain the residue. */
  ghost predicate Double(residue: bv32, p: nat, q: nat) {
    p != q && exists c: bv32, d: bv32 :: 0 < c < 32 && 0 < d < 32 && residue == Xor(Wrong(p, c), Wrong(q, d))
  }

  ghost predicate Values3(residue: bv32, u0: bv32, u1: bv32, u2: bv32) {
    u0 == ValueOf(0, residue) && u1 == ValueOf(1, residue) && u2 == ValueOf(2, residue)
  }

  /** Equal values at the three roots mean equal residues. */
  lemma SameValues(a: bv32, b: bv32)
    requires a < 0x4000_0000 && b < 0x4000_0000
    requires ValueOf(0, a) == ValueOf(0, b) && ValueOf(1, a) == ValueOf(1, b) && ValueOf(2, a) == ValueOf(2, b)
    ensures a == b
  {
    hide ValueOf, Xor;
    ValueOfLinear(0, a, b);
    ValueOfLinear(1, a, b);
    ValueOfLinear(2, a, b);
    XorUnits(ValueOf(0, a));
    XorUnits(ValueOf(1, a));
    XorUnits(ValueOf(2, a));
    XorBound(a, b);
    ValuesDetermine(Xor(a, b));
    XorZero(a, b);
  }

  lemma SingleIff(residue: bv32, u0: bv32, u1: bv32, u2: bv32, p: nat)
    requires residue < 0x4000_0000 && Values3(residue, u0, u1, u2)
    ensures Single(residue, p) <==> One(u0, u1, u2, p) && exists d :: ErrorAt(u0, p, d)
  {
    hide Wrong, ValueOf, Embed, Raise;
    if d: bv32 :| 0 < d < 32 && residue == Wrong(p, d) {
      WrongValues(p, d);
      assert ErrorAt(u0, p, d);
    }
    if One(u0, u1, u2, p) && exists d :: ErrorAt(u0, p, d) {
      var d :| ErrorAt(u0, p, d);
      WrongValues(p, d);
      SameValues(residue, Wrong(p, d));
    }
  }

  lemma WrongValues(p: nat, d: bv32)
    requires d < 32
    ensures var w, x := Wrong(p, d), Raise(997 * p, Embed(d));
      w < 0x4000_0000 && x < 1024 && ValueOf(0, w) == x && ValueOf(1, w) == Raise(p, x) &&
      ValueOf(2, w) == Raise(p, Raise(p, x))
  {
    hide Wrong, ValueOf, Embed, Raise;
    var x := Raise(997 * p, Embed(d));
    WrongValue(0, p, d);
    WrongValue(1, p, d);
    WrongValue(2, p, d);
    EmbedFacts(d);
    RaiseFacts(997 * p, Embed(d));
    RaiseNone(x);
    RaiseAdd(p, p, x);
  }

  /** The values of two wrong symbols. */
  lemma WrongPair(p: nat, c: bv32, q: nat, d: bv32)
    requires c < 32 && d < 32
    ensures var w := Xor(Wrong(p, c), Wrong(q, d));
      w < 0x4000_0000 && Two(ValueOf(0, w), ValueOf(1, w), ValueOf(2, w),
                             p, Raise(997 * p, Embed(c)), q, Raise(997 * q, Embed(d)))
  {
    hide Wrong, ValueOf, Embed, Raise, Xor;
    WrongValues(p, c);
    WrongValues(q, d);
    XorBound(Wrong(p, c), Wrong(q, d));
    ValueOfLinear(0, Wrong(p, c), Wrong(q, d));
    ValueOfLinear(1, Wrong(p, c), Wrong(q, d));
    ValueOfLinear(2, Wrong(p, c), Wrong(q, d));
  }

  /** Two wrong symbols at `p` and `q` solve the equations. */
  ghost predicate PairAt(u0: bv32, u1: bv32, u2: bv32, p: nat, q: nat) {
    exists x, y, c, d :: ErrorAt(x, p, c) && ErrorAt(y, q, d) && Two(u0, u1, u2, p, x, q, y)
  }

  lemma DoubleIff(residue: bv32, u0: bv32, u1: bv32, u2: bv32, p: nat, q: nat)
    requires residue < 0x4000_0000 && Values3(residue, u0, u1, u2) && p != q
    ensures Double(residue, p, q) <==> PairAt(u0, u1, u2, p, q)
  {
    hide Wrong, ValueOf, Embed, Raise, Xor;
    if Double(residue, p, q) {
      var c: bv32, d: bv32 :| 0 < c < 32 && 0 < d < 32 && residue == Xor(Wrong(p, c), Wrong(q, d));
      WrongPair(p, c, q, d);
      assert ErrorAt(Raise(997 * p, Embed(c)), p, c) && ErrorAt(Raise(997 * q, Embed(d)), q, d);
    }
    if x, y, c, d :| ErrorAt(x, p, c) && ErrorAt(y, q, d) && Two(u0, u1, u2, p, x, q, y) {
      WrongPair(p, c, q, d);
      SameValues(residue, Xor(Wrong(p, c), Wrong(q, d)));
    }
  }

  lemma DoubleSwap(residue: bv32, p: nat, q: nat)
    requires Double(residue, p, q)
    ensures Double(residue, q, p)
  {
    hide Xor, Wrong;
    var c: bv32, d: bv32 :| 0 < c < 32 && 0 < d < 32 && residue == Xor(Wrong(p, c), Wrong(q, d));
    XorCommutes(Wrong(p, c), Wrong(q, d));
  }

  lemma ErrorNonZero(x: bv32, p: nat, d: bv32)
    requires ErrorAt(x, p, d)
    ensures 0 < x < 1024
  {
    hide Embed, Raise;
    EmbedFacts(d);
    RaiseFacts(997 * p, Embed(d));
  }

  // ---------- The test for two wrong symbols ----------

  /** What a solution requires of the rests. */
  lemma PairRests(u0: bv32, u1: bv32, u2: bv32, p: nat, q: nat)
    requires Triple(u0, u1, u2) && p < 1023 && q < 1023 && p != q && PairAt(u0, u1, u2, p, q)
    ensures Rest(u0, u1, p) != 0 && Rest(u0, u1, q) != 0 && Rest(u1, u2, p) != 0
    ensures Rest(u1, u2, p) == Raise(q, Rest(u0, u1, p))
  {
    hide Raise, Xor, Between, ErrorAt, Two, Rest;
    var x, y, c, d :| ErrorAt(x, p, c) && ErrorAt(y, q, d) && Two(u0, u1, u2, p, x, q, y);
    ErrorNonZero(x, p, c);
    ErrorNonZero(y, q, d);
    TwoRests(u0, u1, u2, p, x, q, y);
    RaiseFacts(Between(p, q), x);
    RaiseFacts(Between(p, q), y);
    RestSmall(u0, u1, p);
    RaiseFacts(q, Rest(u0, u1, p));
  }

  /** The symbol whose spread is `b`. */
  lemma Unspread(b: bv32, k: nat, l: nat) returns (y: bv32)
    requires IsLog(b, k) && l < 1023
    ensures y == Exp(k + (1023 - l)) && y < 1024 && Raise(l, y) == b
  {
    hide Exp, Raise;
    y := Exp(k + (1023 - l));
    ExpFacts(k + (1023 - l));
    RaiseExp(l, k + (1023 - l));
    ModPlus(k, 1);
    ExpSame(l + (k + (1023 - l)), k);
  }

  /** With the rests in the right ratio, two divisibility tests decide. */
  lemma PairAtIff(u0: bv32, u1: bv32, u2: bv32, p: nat, q: nat, b: nat, c: nat)
    requires Triple(u0, u1, u2) && p < 1023 && q < 1023 && p != q
    requires Rest(u1, u2, p) == Raise(q, Rest(u0, u1, p))
    requires IsLog(Rest(u0, u1, p), b) && IsLog(Rest(u0, u1, q), c)
    ensures var i := 1023 - Between(p, q);
      PairAt(u0, u1, u2, p, q) <==> (b + i + 26 * q) % 33 == 0 && (c + i + 26 * p) % 33 == 0
  {
    hide Raise, Xor, Between, ErrorAt, Two, Rest, Exp;
    var l := Between(p, q);
    var y := Unspread(Rest(u0, u1, p), b, l);
    var x := Unspread(Rest(u0, u1, q), c, l);
    ErrorAtIff(y, b + (1023 - l), q);
    ErrorAtIff(x, c + (1023 - l), p);
    RestsTwo(u0, u1, u2, p, q, x, y);
    if PairAt(u0, u1, u2, p, q) {
      var x', y', c', d' :| ErrorAt(x', p, c') && ErrorAt(y', q, d') && Two(u0, u1, u2, p, x', q, y');
      ErrorNonZero(x', p, c');
      ErrorNonZero(y', q, d');
      TwoRests(u0, u1, u2, p, x', q, y');
      RaiseInjective(l, x, x');
      RaiseInjective(l, y, y');
    }
  }
}
