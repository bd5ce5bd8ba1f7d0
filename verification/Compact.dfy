/**
 Compact targets (arith_uint256.cpp, SetCompact and GetCompact) and the work of a block (chain.cpp, GetBitsProof).
 Reading a written target rounds the number down to a multiple of its unit, and writing it again is stable.
 */
module Compact {
  import opened Arith
  import opened Limbs
  import opened Shifts
  import opened ArithUint

  const SIGN := 0x80_0000

  /** 256^n. */
  function Unit(n: nat): (u: nat)
    ensures u >= 1
  {
    Pow2(8 * n)
  }

  function Size(c: nat): nat {
    c / 0x100_0000
  }

  function Word(c: nat): nat {
    c % SIGN
  }

  predicate SignBit(c: nat) {
    (c / SIGN) % 2 == 1
  }

  /** The number a compact encodes, before it is cut to 256 bits. */
  function Exact(c: nat): nat {
    if Size(c) <= 3 then Rest(Word(c), 8 * (3 - Size(c)))
    else
      MulNonNeg(Word(c), Unit(Size(c) - 3));
      Word(c) * Unit(Size(c) - 3)
  }

  method SetCompact(t: BaseUint, c: nat) returns (negative: bool, overflow: bool)
    requires t.Valid() && t.pn.Length == 8 && c < BASE
    modifies t.pn
    ensures t.Valid() && t.Value() == Wrap(Exact(c), Pow2(256))
    ensures negative <==> Exact(c) != 0 && SignBit(c)
    ensures overflow <==> Exact(c) >= Pow2(256)
  {
    hide W, Wrap, Rest, Pow2, BaseUint.Value, BaseUint.Valid, SignBit;
    var nSize, nWord := c / 0x100_0000, c % SIGN;
    assert t.Modulus() == Pow2(256) by { WIs(8); }
    if nSize <= 3 {
      RestSmall(nWord, 8 * (3 - nSize));
      nWord := Rest(nWord, 8 * (3 - nSize));
      t.Assign(nWord);
      FitsWord(nWord);
    } else {
      t.Assign(nWord);
      t.ShiftLeft(8 * (nSize - 3));
      OverflowIs(nWord, nSize);
    }
    negative := nWord != 0 && SignBit(c);
    overflow := nWord != 0 && (nSize > 34 || (nWord > 0xff && nSize > 33) || (nWord > 0xffff && nSize > 32));
  }

  lemma RestSmall(x: nat, s: nat)
    ensures Rest(x, s) <= x
  {
    DivShrinks(x, Pow2(s));
  }

  lemma FitsWord(x: nat)
    requires x < SIGN
    ensures x < Pow2(256) && Wrap(x, Pow2(256)) == x
  {
    Pow2Of32();
    Pow2Grows(32, 256);
    SmallMod(x, Pow2(256));
  }

  /** The three-way size test is the exact range test. */
  lemma OverflowIs(word: nat, size: nat)
    requires word < SIGN && 3 < size < 256
    ensures word * Unit(size - 3) == word * Pow2(8 * (size - 3)) && (word * Unit(size - 3) == 0 <==> word == 0)
    ensures word * Unit(size - 3) >= Pow2(256) <==>
      word != 0 && (size > 34 || (word > 0xff && size > 33) || (word > 0xffff && size > 32))
  {
    hide Pow2;
    var k := size - 3;
    MulGe(Unit(k), word);
    Pow2Of32();
    if k >= 32 {
      Pow2Add(256, 8 * k - 256);
      MulGe(Pow2(8 * k - 256), Pow2(256));
      if word > 0 { MulLe(1, word, Unit(k)); }
    } else {
      Pow2Add(8 * k, 256 - 8 * k);
      var u, gap := Unit(k), Pow2(256 - 8 * k);
      if word >= gap { MulLe(gap, word, u); } else { MulLt(word, gap, u); }
      if k < 29 { Pow2Grows(24, 256 - 8 * k); }
    }
  }

  // ---------- Writing ----------

  /** The number of bytes of `v`. */
  function Bytes(v: nat): (n: nat)
    ensures v < Unit(n) && (n > 0 ==> Unit(n - 1) <= v)
  {
    if v == 0 then 0
    else
      var n := Bytes(v / 256);
      UnitNext(n);
      if n > 0 then UnitNext(n - 1); n + 1 else n + 1
  }

  lemma UnitNext(n: nat)
    ensures Unit(n + 1) == 256 * Unit(n)
  {
    Pow2Add(8, 8 * n);
    Pow2Of32();
  }

  lemma UnitAdd(a: nat, b: nat)
    ensures Unit(a + b) == Unit(a) * Unit(b)
  {
    Pow2Add(8 * a, 8 * b);
  }

  lemma UnitGrows(a: nat, b: nat)
    requires a <= b
    ensures Unit(a) <= Unit(b)
  {
    if a < b { Pow2Grows(8 * a, 8 * b); }
  }

  lemma BytesUnique(v: nat, n: nat)
    requires v < Unit(n) && (n > 0 ==> Unit(n - 1) <= v)
    ensures Bytes(v) == n
  {
    if Bytes(v) < n { UnitGrows(Bytes(v), n - 1); }
    if Bytes(v) > n { UnitGrows(n, Bytes(v) - 1); }
  }

  function RawMantissa(v: nat, n: nat): nat {
    if n <= 3 then MulNonNeg(v, Unit(3 - n)); v * Unit(3 - n) else Rest(v, 8 * (n - 3))
  }

  /** The mantissa, one byte shorter if it would reach the sign bit. */
  function Mantissa(v: nat): nat {
    var m := RawMantissa(v, Bytes(v));
    if m >= SIGN then m / 256 else m
  }

  function Exponent(v: nat): nat {
    if RawMantissa(v, Bytes(v)) >= SIGN then Bytes(v) + 1 else Bytes(v)
  }

  function CompactOf(v: nat, negative: bool): nat {
    Mantissa(v) + Exponent(v) * 0x100_0000 + (if negative && Mantissa(v) != 0 then SIGN else 0)
  }

  method LeadingBytes(x: BaseUint, nSize: nat) returns (m: nat)
    requires x.Valid() && x.pn.Length == 8 && nSize == Bytes(x.Value())
    ensures m == RawMantissa(x.Value(), nSize)
  {
    hide W, Rest, Pow2, BaseUint.Value, BaseUint.Valid, Bytes, RawMantissa;
    ghost var v := x.Value();
    MantissaFits(v);
    if nSize <= 3 {
      var low := x.GetLow64();
      SmallMod(v, WRAP64);
      m := (low * Pow2(8 * (3 - nSize))) % BASE;
    } else {
      var bn := new BaseUint.Copy(x);
      bn.SameValue(x);
      bn.ShiftRight(8 * (nSize - 3));
      var low := bn.GetLow64();
      m := low % BASE;
    }
  }

  method GetCompact(x: BaseUint, negative: bool) returns (c: nat)
    requires x.Valid() && x.pn.Length == 8
    ensures c == CompactOf(x.Value(), negative) && c < BASE
  {
    hide W, Rest, Pow2, Or, BaseUint.Value, BaseUint.Valid, Bytes, RawMantissa, SignBit, Word;
    ghost var v := x.Value();
    var bits := x.Bits();
    var nSize := (bits + 7) / 8;
    BytesOfBits(v, bits);
    MantissaFits(v);
    c := LeadingBytes(x, nSize);
    SignReached(c);
    if SignBit(c) {
      c := c / 256;
      nSize := nSize + 1;
    }
    assert c < SIGN && nSize < 256;
    Assemble(c, nSize);
    c := Or(c, nSize * 0x100_0000);
    if negative && Word(c) != 0 { c := Or(c, SIGN); }
  }

  lemma SignReached(m: nat)
    requires m < 0x100_0000
    ensures SignBit(m) <==> m >= SIGN
  {}

  lemma BytesOfBits(v: nat, bits: nat)
    requires bits <= 256 && if bits == 0 then v == 0 else Pow2(bits - 1) <= v < Pow2(bits)
    ensures (bits + 7) / 8 == Bytes(v) <= 32
  {
    hide Pow2;
    var n := (bits + 7) / 8;
    if bits > 0 {
      if bits < 8 * n { Pow2Grows(bits, 8 * n); }
      if 8 * (n - 1) < bits - 1 { Pow2Grows(8 * (n - 1), bits - 1); }
    } else {
      assert v < Unit(0);
    }
    BytesUnique(v, n);
  }

  /** The mantissa before the sign adjustment has three bytes. */
  lemma MantissaFits(v: nat)
    ensures var n := Bytes(v); var m := RawMantissa(v, n);
      && m < 0x100_0000 && (v > 0 ==> m >= 0x1_0000) && (v == 0 ==> m == 0)
      && (if n <= 3 then v < WRAP64 && v * Pow2(8 * (3 - n)) == m else Rest(v, 8 * (n - 3)) == m)
  {
    hide Pow2, Rest;
    var n := Bytes(v);
    Pow2Of32();
    if n <= 3 {
      var u := Unit(3 - n);
      Pow2Add(8 * n, 8 * (3 - n));
      MulLt(v, Unit(n), u);
      UnitGrows(n, 3);
      if n > 0 {
        Pow2Add(8 * (n - 1), 8 * (3 - n));
        MulLe(Unit(n - 1), v, u);
      } else {
        assert Unit(0) == 1 by { Pow2Zero(); }
      }
    } else {
      var k := n - 3;
      Pow2Add(8 * 3, 8 * k);
      Pow2Add(8 * 2, 8 * k);
      LowRest(v, 8 * k);
      var m, u := Rest(v, 8 * k), Unit(k);
      if m >= 0x100_0000 { MulLe(0x100_0000, m, u); assert false; }
      if m < 0x1_0000 { MulLe(m + 1, 0x1_0000, u); MulDist(m, 1, u); assert false; }
      if v == 0 { assert false; }
    }
  }

  lemma Pow2Zero()
    ensures Pow2(0) == 1
  {}

  /** Joining mantissa, size and sign by `|` adds them up. */
  lemma Assemble(m: nat, n: nat)
    requires m < SIGN && n < 256
    ensures Or(m, n * 0x100_0000) == m + n * 0x100_0000 && Word(m + n * 0x100_0000) == m
    ensures Or(m + n * 0x100_0000, SIGN) == m + n * 0x100_0000 + SIGN
    ensures Size(m + n * 0x100_0000) == n && Size(m + n * 0x100_0000 + SIGN) == n
    ensures Word(m + n * 0x100_0000 + SIGN) == m
    ensures SignBit(m + n * 0x100_0000 + SIGN) && !SignBit(m + n * 0x100_0000)
  {
    hide Or, Pow2;
    Pow2Of23();
    OrIsAdd(m, n * 0x100_0000, 24);
    OrBit(m + n * 0x100_0000, 23);
  }

  lemma Pow2Of23()
    ensures Pow2(23) == SIGN && Pow2(24) == 0x100_0000
  {
    Pow2Of32();
  }

  // ---------- Writing and reading back ----------

  /** How many low bytes a compact drops. */
  function Dropped(v: nat): nat {
    if Exponent(v) <= 3 then 0 else Exponent(v) - 3
  }

  /** `v` rounded down to a multiple of the unit of its mantissa. */
  function Rounded(v: nat): nat {
    MulNonNeg(Rest(v, 8 * Dropped(v)), Unit(Dropped(v)));
    Rest(v, 8 * Dropped(v)) * Unit(Dropped(v))
  }

  lemma RestAll(v: nat)
    ensures Rest(v, 0) == v && Unit(0) == 1
  {}

  lemma RestOfProduct(v: nat, s: nat)
    ensures Rest(v * Pow2(s), s) == v
  {
    RestUnique(v * Pow2(s), s, v, 0);
  }

  lemma RestRest(v: nat, s: nat)
    ensures Rest(v, s) / 256 == Rest(v, s + 8)
  {
    hide Pow2, Low, Rest;
    var x := Rest(v, s);
    var q, r := x / 256, x % 256;
    DivMod(x, 256);
    LowRest(v, s);
    Pow2Add(s, 8);
    Pow2Of32();
    var p, l := Pow2(s), Low(v, s);
    MulLe(r, 255, p);
    MulNonNeg(r, p);
    RestRestMul(p, q, r);
    RestUnique(v, s + 8, q, p * r + l);
  }

  lemma RestRestMul(p: int, q: int, r: int)
    ensures p * (256 * q + r) == q * (p * 256) + p * r
  {}

  /** What the written mantissa and exponent stand for. */
  lemma MantissaMeans(v: nat)
    ensures Mantissa(v) < SIGN && (Mantissa(v) == 0 <==> v == 0)
    ensures (if Exponent(v) <= 3 then Rest(Mantissa(v), 8 * (3 - Exponent(v)))
      else Mantissa(v) * Unit(Exponent(v) - 3)) == Rounded(v)
  {
    hide Rest, Unit, Bytes;
    MantissaFits(v);
    var n := Bytes(v);
    if n > 3 {
      RestRest(v, 8 * (n - 3));
    } else {
      ShortMantissa(v, n);
    }
  }

  /** Numbers of at most three bytes are kept whole, but for a sign adjustment of three full bytes. */
  lemma {:induction false} ShortMantissa(v: nat, n: nat)
    requires n <= 3 && n == Bytes(v)
    ensures var m := RawMantissa(v, n);
      && Rest(v, 0) == v && Unit(0) == 1 && Rest(m, 8 * (3 - n)) == v && (n == 3 ==> m == v)
      && (n < 3 ==> Rest(m / 256, 8 * (2 - n)) == v)
      && v / 256 == Rest(v, 8)
  {
    hide Rest, Pow2, Bytes;
    RestAll(v);
    RestOfProduct(v, 8 * (3 - n));
    RestRest(v, 0);
    if n < 3 {
      UnitNext(2 - n);
      Times256(v, Unit(2 - n));
      RestOfProduct(v, 8 * (2 - n));
    }
  }

  lemma Times256(x: int, u: int)
    ensures x * (256 * u) == 256 * (x * u)
  {}

  lemma RoundedNear(v: nat)
    ensures Rounded(v) <= v < Rounded(v) + Unit(Dropped(v))
  {
    hide Rest, Pow2, Dropped;
    LowRest(v, 8 * Dropped(v));
  }

  /** Reading back what was written: no overflow, the sign kept, and the number rounded down by less than a unit. */
  lemma DecodeEncode(v: nat, negative: bool)
    requires v < Pow2(256)
    ensures var c := CompactOf(v, negative);
      && c < BASE && Exact(c) == Rounded(v) < Pow2(256) && Rounded(v) <= v < Rounded(v) + Unit(Dropped(v))
      && ((Exact(c) != 0 && SignBit(c)) <==> negative && v != 0)
  {
    hide Rest, Pow2, Mantissa, Exponent, Rounded, Dropped, Word, Size, SignBit;
    MantissaMeans(v);
    RoundedNear(v);
    SizeFits(v);
    Assemble(Mantissa(v), Exponent(v));
    NotLost(v);
  }

  lemma SizeFits(v: nat)
    requires v < Pow2(256)
    ensures Exponent(v) <= 33
  {
    if Bytes(v) > 32 { UnitGrows(32, Bytes(v) - 1); }
  }

  /** Rounding keeps the leading byte. */
  lemma NotLost(v: nat)
    ensures v > 0 ==> Rounded(v) > 0 && Rounded(v) >= Unit(Bytes(v) - 1)
  {
    hide Rest, Pow2, Bytes;
    MantissaFits(v);
    var n, k := Bytes(v), Dropped(v);
    if v > 0 {
      RestAll(v);
      if k == 0 {
        RestAll(v);
      } else {
        var u, t := Unit(k), Unit(n - 1 - k);
        Pow2Add(8 * (n - 1 - k), 8 * k);
        LowRest(v, 8 * k);
        if Rest(v, 8 * k) < t { MulLe(Rest(v, 8 * k) + 1, t, u); MulDist(Rest(v, 8 * k), 1, u); assert false; }
        MulLe(t, Rest(v, 8 * k), u);
      }
    }
  }

  /** Writing the rounded number gives the same compact. */
  lemma Stable(v: nat, negative: bool)
    ensures CompactOf(Rounded(v), negative) == CompactOf(v, negative)
  {
    hide Rest, Unit, Bytes, RawMantissa;
    var w, n, k := Rounded(v), Bytes(v), Dropped(v);
    if k == 0 {
      RestAll(v);
    } else {
      MantissaFits(v);
      RoundedNear(v);
      NotLost(v);
      BytesUnique(w, n);
      if n > 3 && k == n - 3 {
        SameLead(v, n);
      } else {
        SameLeadAdjusted(v, n);
      }
    }
  }

  lemma SameLead(v: nat, n: nat)
    requires n > 3
    ensures RawMantissa(Rest(v, 8 * (n - 3)) * Unit(n - 3), n) == RawMantissa(v, n)
  {
    RestOfProduct(Rest(v, 8 * (n - 3)), 8 * (n - 3));
  }

  lemma SameLeadAdjusted(v: nat, n: nat)
    requires n >= 3 && SIGN <= RawMantissa(v, n) < 0x100_0000
    ensures var m := RawMantissa(Rest(v, 8 * (n - 2)) * Unit(n - 2), n);
      m >= SIGN && m / 256 == RawMantissa(v, n) / 256
  {
    hide Rest, Pow2;
    var q := Rest(v, 8 * (n - 2));
    RestRest(v, 8 * (n - 3));
    RestAll(v);
    UnitNext(n - 3);
    Times256(q, Unit(n - 3));
    MulAssoc(q, 256, Unit(n - 3));
    RestOfProduct(q * 256, 8 * (n - 3));
  }

  // ---------- Work ----------

  method GetBitsProof(bits: nat) returns (r: BaseUint)
    requires bits < BASE
    ensures r.Valid() && r.pn.Length == 8
    ensures var t := Exact(bits);
      r.Value() == if t == 0 || SignBit(bits) || t >= Pow2(256) then 0 else Pow2(256) / (t + 1)
  {
    hide W, Wrap, Pow2, BaseUint.Value, BaseUint.Valid, SignBit, Exact;
    var target := new BaseUint.FromU64(8, 0);
    var negative, overflow := SetCompact(target, bits);
    ghost var t, m := Exact(bits), Pow2(256);
    r := new BaseUint.FromU64(8, 0);
    var c := target.CompareTo(r);
    if overflow { return; }
    SmallMod(t, m);
    if negative || c == 0 { return; }
    assert target.Modulus() == m by { WIs(8); }
    ProofFits(bits);
    var one := new BaseUint.FromU64(8, 1);
    var next := new BaseUint.Copy(target);
    next.SameValue(target);
    next.Add(one);
    r := target.Complement();
    var ok := r.Div(next);
    r.Add(one);
  }

  lemma {:induction false} ProofFits(bits: nat)
    requires bits < BASE && 0 < Exact(bits) < Pow2(256)
    ensures var t, m := Exact(bits), Pow2(256);
      Wrap(t + 1, m) == t + 1 && Wrap((m - 1 - t) / (t + 1) + 1, m) == m / (t + 1)
  {
    hide Pow2;
    var t, m := Exact(bits), Pow2(256);
    NotAllOnes(bits);
    SmallMod(t + 1, m);
    var q, r := m / (t + 1), m % (t + 1);
    DivMod(m, t + 1);
    MulDist(q - 1, 1, t + 1);
    DivUnique(m - 1 - t, t + 1, q - 1, r);
    DivNonNeg(m - 1 - t, t + 1);
    MulLe(2, t + 1, q);
    SmallMod(q, m);
  }

  /** A target below 2^256 is below 2^256 - 1. */
  lemma NotAllOnes(bits: nat)
    requires bits < BASE && Exact(bits) < Pow2(256)
    ensures Exact(bits) + 1 < Pow2(256)
  {
    hide Pow2, Unit, Rest, Size;
    var n, x := Size(bits), Word(bits);
    UnitIs(32);
    UnitNext(31);
    UnitGrows(4, 32);
    UnitIs(4);
    Pow2Of32();
    if n <= 3 {
      RestSmall(x, 8 * (3 - n));
    } else {
      UnitNext(n - 4);
      Times256(x, Unit(n - 4));
    }
  }

  lemma UnitIs(n: nat)
    ensures Unit(n) == Pow2(8 * n)
  {}
}
