/**
 Amount compression (compressor.cpp).  Over the naturals the two functions are inverse bijections.  The 64-bit code
 computes them modulo 2^64, and for amounts up to the supply it round-trips exactly when nothing wrapped.
 */
module Amount {
  import opened Arith

  const WRAP := 0x1_0000_0000_0000_0000
  const HALF := 0x8000_0000_0000_0000

  /** 50,000,000,000 coins of 100,000,000 units. */
  const MAX_MONEY := 5_000_000_000_000_000_000

  /** The largest amount, not a multiple of ten, whose compressed form fits 64 bits. */
  const LAST_SAFE := 2_049_638_230_412_172_402

  // ---------- Over the naturals ----------

  function Pow10(e: nat): (p: nat)
    ensures p >= 1
  {
    if e == 0 then 1 else 10 * Pow10(e - 1)
  }

  /** With `e` zeros already dropped. */
  function CompressFrom(n: nat, e: nat): (x: nat)
    requires n > 0 && e <= 9
    ensures x > 0
    decreases 9 - e
  {
    if n % 10 == 0 && e < 9 then CompressFrom(n / 10, e + 1)
    else if e < 9 then 1 + (n / 10 * 9 + n % 10 - 1) * 10 + e
    else 1 + (n - 1) * 10 + 9
  }

  function Compress(n: nat): nat {
    if n == 0 then 0 else CompressFrom(n, 0)
  }

  /** The number without its zeros that `x > 0` stands for. */
  function Core(x: nat): (m: nat)
    requires x > 0
    ensures m > 0
  {
    var y := (x - 1) / 10;
    if (x - 1) % 10 < 9 then y / 9 * 10 + y % 9 + 1 else y + 1
  }

  function Decompress(x: nat): nat {
    if x == 0 then 0 else MulNonNeg(Core(x), Pow10((x - 1) % 10)); Core(x) * Pow10((x - 1) % 10)
  }

  lemma {:induction false} DecompressCompressFrom(n: nat, e: nat)
    requires n > 0 && e <= 9
    ensures Decompress(CompressFrom(n, e)) == n * Pow10(e)
    decreases 9 - e
  {
    if n % 10 == 0 && e < 9 {
      DecompressCompressFrom(n / 10, e + 1);
      MulAssoc(n / 10, 10, Pow10(e));
    } else {
      CoreOf(n, e);
    }
  }

  lemma CoreOf(n: nat, e: nat)
    requires n > 0 && (if e < 9 then n % 10 != 0 else e == 9)
    ensures var x := CompressFrom(n, e); x > 0 && (x - 1) % 10 == e && Core(x) == n
  {}

  /** Decompressing a compressed amount gives it back. */
  lemma DecompressCompress(n: nat)
    ensures Decompress(Compress(n)) == n
  {
    hide CompressFrom;
    if n > 0 { DecompressCompressFrom(n, 0); }
  }

  lemma {:induction false} CompressScaled(m: nat, j: nat, e: nat)
    requires m > 0 && j <= e <= 9
    ensures m * Pow10(j) > 0 && CompressFrom(m * Pow10(j), e - j) == CompressFrom(m, e)
  {
    MulGe(Pow10(j), m);
    if j > 0 {
      var p := Pow10(j - 1);
      CompressScaled(m, j - 1, e);
      TimesTen(m, p);
      TenTimes(m * p);
    } else {
      assert m * 1 == m;
    }
  }

  lemma TenTimes(x: int)
    ensures (10 * x) % 10 == 0 && (10 * x) / 10 == x
  {
  }

  lemma TimesTen(m: int, p: int)
    ensures m * (10 * p) == 10 * (m * p)
  {}

  /** Compressing a decompressed number gives it back. */
  lemma CompressDecompress(x: nat)
    ensures Compress(Decompress(x)) == x
  {
    hide CompressFrom, Core, Pow10;
    if x > 0 {
      var e := (x - 1) % 10;
      CompressScaled(Core(x), e, e);
      CoreDigits(x);
    }
  }

  lemma {:induction false} CoreDigits(x: nat)
    requires x > 0
    ensures CompressFrom(Core(x), (x - 1) % 10) == x
  {}

  /** Compression grows an amount at most ninefold. */
  lemma {:induction false} CompressBound(n: nat, e: nat)
    requires n > 0 && e <= 9
    ensures CompressFrom(n, e) <= if e == 0 then 9 * n else 10 * n + e
    decreases 9 - e
  {
    if n % 10 == 0 && e < 9 { CompressBound(n / 10, e + 1); }
  }

  lemma CompressNinefold(n: nat)
    ensures Compress(n) <= 9 * n
  {
    if n > 0 { CompressBound(n, 0); }
  }

  // ---------- In 64 bits ----------

  function U64(v: int): (r: nat)
    ensures r < WRAP
  {
    v % WRAP
  }

  /** The code, with arithmetic modulo 2^64. */
  method CompressAmount(n0: nat) returns (x: nat)
    requires n0 < WRAP
    ensures x == Compress(n0) % WRAP
  {
    hide U64, CompressFrom;
    if n0 == 0 { return 0; }
    var n, e := n0, 0;
    while n % 10 == 0 && e < 9
      invariant 0 < n < WRAP && 0 <= e <= 9 && CompressFrom(n, e) == Compress(n0)
    {
      Stripped(n, e);
      n := n / 10;
      e := e + 1;
    }
    Unstripped(n, e);
    if e < 9 {
      var d := n % 10;
      assert 1 <= d <= 9;
      n := n / 10;
      x := U64(1 + U64(U64(n * 9 + d - 1) * 10) + e);
    } else {
      x := U64(1 + U64((n - 1) * 10) + 9);
    }
  }

  lemma Stripped(n: nat, e: nat)
    requires n > 0 && n % 10 == 0 && e < 9
    ensures CompressFrom(n, e) == CompressFrom(n / 10, e + 1)
  {}

  lemma {:induction false} Unstripped(n: nat, e: nat)
    requires 0 < n < WRAP && e <= 9 && (n % 10 != 0 || e == 9)
    ensures e < 9 ==> U64(1 + U64(U64(n / 10 * 9 + n % 10 - 1) * 10) + e) == CompressFrom(n, e) % WRAP
    ensures e == 9 ==> U64(1 + U64((n - 1) * 10) + 9) == CompressFrom(n, e) % WRAP
  {
    var v := n / 10 * 9 + n % 10 - 1;
    ModAdd(v * 10, 1 + e);
    ModAdd((n - 1) * 10, 10);
    assert v % WRAP == v;
  }

  lemma ModAdd(v: int, c: int)
    ensures (v % WRAP + c) % WRAP == (v + c) % WRAP
  {
    DivMod(v, WRAP);
    DivMod(v % WRAP + c, WRAP);
    DivUnique(v + c, WRAP, v / WRAP + (v % WRAP + c) / WRAP, (v % WRAP + c) % WRAP);
  }

  /** The first half: the significant digits and the number of zeros that follow. */
  method Mantissa(x0: nat) returns (n: nat, e: nat)
    requires 0 < x0 < WRAP
    ensures n == Core(x0) < WRAP && e == (x0 - 1) % 10
  {
    var x := x0 - 1;
    e := x % 10;
    x := x / 10;
    if e < 9 {
      var d := x % 9 + 1;
      x := x / 9;
      n := x * 10 + d;
    } else {
      n := x + 1;
    }
  }

  method DecompressAmount(x0: nat) returns (n: nat)
    requires x0 < WRAP
    ensures n == Decompress(x0) % WRAP
  {
    hide Core;
    if x0 == 0 { return 0; }
    var e;
    n, e := Mantissa(x0);
    ghost var m, e0 := n, e;
    while e != 0
      invariant 0 <= e <= e0 && n < WRAP && n == (m * Pow10(e0 - e)) % WRAP
    {
      ScaleStep(m, Pow10(e0 - e));
      n := (n * 10) % WRAP;
      e := e - 1;
    }
  }

  lemma ScaleStep(m: nat, p: nat)
    ensures ((m * p) % WRAP * 10) % WRAP == (m * (10 * p)) % WRAP
  {
    TimesTen(m, p);
    DivMod(m * p, WRAP);
    var v := m * p;
    DivMod((v % WRAP) * 10, WRAP);
    DivUnique(v * 10, WRAP, v / WRAP * 10 + (v % WRAP * 10) / WRAP, (v % WRAP * 10) % WRAP);
  }

  /** Amounts up to (2^64 - 1) / 9 never wrap and round-trip. */
  lemma SmallAmounts(n: nat)
    requires n <= (WRAP - 1) / 9
    ensures Compress(n) < WRAP && Decompress(Compress(n) % WRAP) % WRAP == n
  {
    hide Compress, Decompress;
    CompressNinefold(n);
    DecompressCompress(n);
  }

  // ---------- Exactly when the round trip holds, up to the supply ----------

  lemma FitsIff(n: nat)
    requires n <= MAX_MONEY
    ensures Compress(n) < WRAP <==> n % 10 == 0 || n <= LAST_SAFE
    ensures !(n % 10 == 0 || n <= LAST_SAFE) ==> Compress(n) == 90 * (n / 10) + 10 * (n % 10) - 9 < 3 * WRAP
  {
    if n > 0 && n % 10 == 0 { CompressBound(n / 10, 1); }
  }

  /** The round trip through 64 bits, as the two methods compute it. */
  function Through64(n: nat): nat {
    Decompress(Compress(n) % WRAP) % WRAP
  }

  lemma RoundTripIff(n: nat)
    requires n <= MAX_MONEY
    ensures Through64(n) == n <==> n % 10 == 0 || n <= LAST_SAFE
  {
    hide Compress, Decompress;
    FitsIff(n);
    if n % 10 == 0 || n <= LAST_SAFE {
      DecompressCompress(n);
    } else if Compress(n) < 2 * WRAP {
      WrapsOnce(n / 10, n % 10);
    } else {
      WrapsTwice(n / 10, n % 10);
    }
  }

  /** The supply is beyond the safe amounts: one unit less than all coins does not come back. */
  lemma SupplyNotSafe()
    ensures Through64(MAX_MONEY - 1) != MAX_MONEY - 1
  {
    hide Through64;
    RoundTripIff(MAX_MONEY - 1);
  }

  /** What a compressed value stands for after wrapping once. */
  function Shift1(d: nat): int {
    -2049638230412172403 + if d < 3 then d else d + 1
  }

  /** What it stands for after wrapping twice. */
  function Shift2(d: nat): int {
    -4099276460824344805 + if d < 5 then d else d + 1
  }

  lemma SmallPowers()
    ensures Pow10(4) == 10_000 && Pow10(8) == 100_000_000
  {
    assert Pow10(2) == 100;
    assert Pow10(6) == 1_000_000;
  }

  lemma DecompressAt(y: nat, e: nat)
    requires y > 0 && (y - 1) % 10 == e
    ensures Decompress(y) == Core(y) * Pow10(e)
  {}

  lemma CoreOnce(a: nat, d: nat)
    requires 1 <= d <= 9 && WRAP <= 90 * a + 10 * d - 9
    ensures var y := 90 * a + 10 * d - 9 - WRAP; y > 0 && (y - 1) % 10 == 4 && Core(y) == 10 * a + Shift1(d)
  {}

  lemma CoreTwice(a: nat, d: nat)
    requires 1 <= d <= 9 && 2 * WRAP <= 90 * a + 10 * d - 9
    ensures var y := 90 * a + 10 * d - 9 - 2 * WRAP; y > 0 && (y - 1) % 10 == 8 && Core(y) == 10 * a + Shift2(d)
  {}

  lemma WrapsOnce(a: nat, d: nat)
    requires 1 <= d <= 9 && a <= 500_000_000_000_000_000 && WRAP <= 90 * a + 10 * d - 9 < 2 * WRAP
    ensures Decompress((90 * a + 10 * d - 9) % WRAP) % WRAP != 10 * a + d
  {
    hide Decompress, Core, Pow10, Shift1;
    SmallPowers();
    var y := 90 * a + 10 * d - 9 - WRAP;
    DivUnique(90 * a + 10 * d - 9, WRAP, 1, y);
    CoreOnce(a, d);
    DecompressAt(y, 4);
    var r := 10_000 * (10 * a + Shift1(d));
    if r % WRAP == 10 * a + d { NotOnce(a, d, r / WRAP); }
  }

  lemma WrapsTwice(a: nat, d: nat)
    requires 1 <= d <= 9 && a <= 500_000_000_000_000_000 && 2 * WRAP <= 90 * a + 10 * d - 9 < 3 * WRAP
    ensures Decompress((90 * a + 10 * d - 9) % WRAP) % WRAP != 10 * a + d
  {
    hide Decompress, Core, Pow10, Shift2;
    SmallPowers();
    var y := 90 * a + 10 * d - 9 - 2 * WRAP;
    DivUnique(90 * a + 10 * d - 9, WRAP, 2, y);
    CoreTwice(a, d);
    DecompressAt(y, 8);
    var r := 100_000_000 * (10 * a + Shift2(d));
    if r % WRAP == 10 * a + d { NotTwice(a, d, r / WRAP); }
  }

  /** The linear congruences behind a chance return have no solution in range. */
  lemma NotOnce(a: nat, d: nat, q: int)
    requires 1 <= d <= 9 && a <= 500_000_000_000_000_000
    ensures 10_000 * (10 * a + Shift1(d)) != q * WRAP + 10 * a + d
  {
    if d == 2 {
      Apart(a, q, 49995, 10248191152060862005001,
            6380997940008660579, 34588, 8408702848023182971, 7089997711120733973976);
    } else if d == 4 {
      Apart(a, q, 49995, 10248191152060861990002,
            6380997940008660579, 34588, 1528855063276942358, 7089997711120733963600);
    } else if d == 6 {
      Apart(a, q, 49995, 10248191152060861980003,
            6380997940008660579, 34588, 5218203878018852681, 7089997711120733956682);
    } else if d == 8 {
      Apart(a, q, 49995, 10248191152060861970004,
            6380997940008660579, 34588, 8907552692760763004, 7089997711120733949764);
    }
  }

  lemma NotTwice(a: nat, d: nat, q: int)
    requires 1 <= d <= 9 && a <= 500_000_000_000_000_000
    ensures 100_000_000 * (10 * a + Shift2(d)) != q * WRAP + 10 * a + d
  {
    if d == 2 {
      Apart(a, q, 499999995, 204963823041217240150000001,
            5594053834762946099, 303254263, 1478102203758023347, 124312307439176579960930319);
    } else if d == 4 {
      Apart(a, q, 499999995, 204963823041217240050000002,
            5594053834762946099, 303254263, 5167451018499933670, 124312307439176579900279466);
    } else if d == 6 {
      Apart(a, q, 499999995, 204963823041217239900000003,
            5594053834762946099, 303254263, 3292761304803938201, 124312307439176579809303187);
    } else if d == 8 {
      Apart(a, q, 499999995, 204963823041217239800000004,
            5594053834762946099, 303254263, 6982110119545848524, 124312307439176579748652334);
    }
  }

  /** With c * i = 1 modulo 2^63, the only solution of c * a = r modulo 2^63 below 2^63 is `at`. */
  lemma Apart(a: nat, q: int, c: int, r: int, i: int, t: int, at: int, s: int)
    requires c * i == 1 + t * HALF && i * r == at + HALF * s && a < at < HALF
    ensures c * a != q * HALF + r
  {
    if c * a == q * HALF + r {
      var z := i * q - t * a + s;
      assert i * (c * a) == i * (q * HALF + r);
      assert a - at == HALF * z by { Regroup(a, q, c, r, i, t, at, s); }
      if z >= 0 { assert false; }
      if z <= -1 { assert false; }
    }
  }

  lemma Regroup(a: int, q: int, c: int, r: int, i: int, t: int, at: int, s: int)
    requires c * i == 1 + t * HALF && i * r == at + HALF * s && i * (c * a) == i * (q * HALF + r)
    ensures a - at == HALF * (i * q - t * a + s)
  {
    calc {
      i * (c * a);
      (c * i) * a;
      (1 + t * HALF) * a;
      a + HALF * (t * a);
    }
    assert i * (q * HALF + r) == HALF * (i * q) + i * r;
  }
}
