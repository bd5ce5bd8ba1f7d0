/**
 Fixed-width unsigned integers (arith_uint256.h, arith_uint256.cpp): arrays of 32-bit limbs, least significant
 first, for any width.  Every operation is exact modulo two to the width, and no 64-bit intermediate wraps.
 */
module ArithUint {
  import opened Arith
  import opened Limbs
  import opened Shifts

  /** `v` modulo `m`, which is what fixed-width arithmetic keeps. */
  function Wrap(v: int, m: nat): nat
    requires m > 0
  {
    v % m
  }

  const WRAP64 := 0x1_0000_0000_0000_0000

  class BaseUint {
    const pn: array<nat>

    ghost predicate Valid()
      reads pn
    {
      pn.Length >= 2 && Bounded(pn[..])
    }

    ghost function Value(): nat
      reads pn
    {
      Val(pn[..])
    }

    /** Two to the number of bits. */
    ghost function Modulus(): (m: nat)
      ensures m >= 1
    {
      W(pn.Length)
    }

    constructor FromU64(width: nat, b: nat)
      requires width >= 2 && b < WRAP64
      ensures Valid() && fresh(pn) && pn.Length == width && Value() == b
    {
      var a := new nat[width](i => if i == 0 then b % BASE else if i == 1 then b / BASE else 0);
      pn := a;
      new;
      U64Value(pn[..], b);
    }

    constructor Copy(b: BaseUint)
      requires b.Valid()
      ensures Valid() && fresh(pn) && pn[..] == b.pn[..] && pn.Length == b.pn.Length
    {
      var a := new nat[b.pn.Length](i requires 0 <= i < b.pn.Length reads b.pn => b.pn[i]);
      pn := a;
    }

    method Add(b: BaseUint)
      requires Valid() && b.Valid() && b.pn.Length == pn.Length
      modifies pn
      ensures Valid() && Value() == Wrap(old(Value()) + old(b.Value()), Modulus())
    {
      hide Val, W;
      ghost var x, y := pn[..], b.pn[..];
      var carry: nat := 0;
      NoLimbs(x, y);
      for i := 0 to pn.Length
        invariant carry <= 1 && Bounded(pn[..]) && forall j :: i <= j < pn.Length ==> pn[j] == x[j] && b.pn[j] == y[j]
        invariant Val(pn[..i]) + carry * W(i) == Val(x[..i]) + Val(y[..i])
      {
        ghost var before := pn[..i];
        var n: nat := carry + pn[i] + b.pn[i];
        assert n < WRAP64;
        AddStep(x, y, before, i, carry);
        pn[i] := n % BASE;
        carry := n / BASE;
        assert pn[..i + 1] == before + [n % BASE];
      }
      Whole(x);
      Whole(y);
      Whole(pn[..]);
      ValBound(pn[..]);
      Wraps(Value(), carry, Modulus(), Val(x) + Val(y));
    }

    method Complement() returns (r: BaseUint)
      requires Valid()
      ensures fresh(r) && fresh(r.pn) && r.Valid() && r.pn.Length == pn.Length && r.Value() == Modulus() - 1 - Value()
    {
      hide Val, W;
      r := new BaseUint.FromU64(pn.Length, 0);
      NoLimbs(pn[..], r.pn[..]);
      LowWeights();
      for i := 0 to pn.Length
        invariant Bounded(r.pn[..]) && Val(r.pn[..i]) + Val(pn[..i]) == W(i) - 1
      {
        ghost var before := r.pn[..i];
        r.pn[i] := BASE - 1 - pn[i];
        assert r.pn[..i] == before;
        ValNext(r.pn[..], i);
        ValNext(pn[..], i);
        assert r.pn[..][..i + 1] == r.pn[..i + 1] && pn[..][..i + 1] == pn[..i + 1] && r.pn[..][..i] == r.pn[..i] &&
            pn[..][..i] == pn[..i];
        WNext(i);
        MulDist(BASE - 1 - pn[i], pn[i], W(i));
        MulDist(BASE - 1, 1, W(i));
      }
      Whole(pn[..]);
      Whole(r.pn[..]);
    }

    method Increment()
      requires Valid()
      modifies pn
      ensures Valid() && Value() == Wrap(old(Value()) + 1, Modulus())
    {
      hide Val, W;
      ghost var x := pn[..];
      var i := 0;
      LowWeights();
      ValBound(x);
      while i < pn.Length
        invariant i <= pn.Length && Bounded(pn[..]) && Val(pn[..]) + W(i) == Val(x) + 1
      {
        ghost var before := pn[..];
        var v := (pn[i] + 1) % BASE;
        ValUpdate(before, i, v);
        pn[i] := v;
        assert pn[..] == before[i := v];
        WNext(i);
        MulDist(BASE - 1, 1, W(i));
        if pn[i] != 0 { break; }
        i := i + 1;
      }
      ValBound(pn[..]);
      Wraps(Value(), if i < pn.Length then 0 else 1, Modulus(), Val(x) + 1);
    }

    method Negate() returns (r: BaseUint)
      requires Valid()
      ensures fresh(r) && fresh(r.pn) && r.Valid() && r.pn.Length == pn.Length
      ensures r.Value() == Wrap(Modulus() - Value(), Modulus())
    {
      r := Complement();
      r.Increment();
      ValBound(pn[..]);
    }

    method Sub(b: BaseUint)
      requires Valid() && b.Valid() && b.pn.Length == pn.Length
      modifies pn
      ensures Valid() && Value() == Wrap(old(Value()) - old(b.Value()), Modulus())
    {
      hide BaseUint.Value, BaseUint.Valid, W, Wrap;
      ghost var x, y, w := Value(), b.Value(), Modulus();
      SubMod(x, y, w);
      var m := b.Negate();
      Add(m);
    }

    method MulU32(b: nat)
      requires Valid() && b < BASE
      modifies pn
      ensures Valid() && Value() == Wrap(old(Value()) * b, Modulus())
    {
      hide Val, W;
      ghost var x := pn[..];
      var carry: nat := 0;
      NoLimbs(x, x);
      for i := 0 to pn.Length
        invariant carry < BASE && Bounded(pn[..]) && forall j :: i <= j < pn.Length ==> pn[j] == x[j]
        invariant Val(pn[..i]) + carry * W(i) == Val(x[..i]) * b
      {
        ghost var before := pn[..i];
        ProductFits(b, pn[i], carry, 0);
        var n: nat := carry + b * pn[i];
        MulStep(x, before, i, b, carry);
        pn[i] := n % BASE;
        carry := n / BASE;
        assert pn[..i + 1] == before + [n % BASE];
      }
      Whole(x);
      Whole(pn[..]);
      ValBound(pn[..]);
      Wraps(Value(), carry, Modulus(), Val(x) * b);
    }

    method Mul(b: BaseUint)
      requires Valid() && b.Valid() && b.pn.Length == pn.Length
      modifies pn
      ensures Valid() && Value() == Wrap(old(Value()) * old(b.Value()), Modulus())
    {
      hide Val, W;
      ghost var x, y := pn[..], b.pn[..];
      var a := new BaseUint.FromU64(pn.Length, 0);
      ghost var q := 0;
      NoLimbs(x, y);
      for j := 0 to pn.Length
        invariant a.Valid() && pn[..] == x && b.pn[..] == y && a.pn != pn && a.pn != b.pn
        invariant a.Value() + q * Modulus() == Val(x[..j]) * Val(y)
      {
        ghost var c := AddRow(a, b, j, pn[j]);
        ghost var hi := x[j] * Val(y[pn.Length - j..]);
        RowStep(x, y, j);
        assert b.pn[..pn.Length - j] == y[..pn.Length - j];
        MulDist(q, c, Modulus());
        MulDist(q + c, hi, Modulus());
        q := q + c + hi;
      }
      Whole(x);
      ValBound(a.pn[..]);
      Wraps(a.Value(), q, Modulus(), Val(x) * Val(y));
      ghost var r := a.pn[..];
      forall i | 0 <= i < pn.Length { pn[i] := a.pn[i]; }
      assert pn[..] == r;
    }

    method ShiftLeft(shift: nat)
      requires Valid()
      modifies pn
      ensures Valid() && Value() == Wrap(old(Value()) * Pow2(shift), Modulus())
    {
      hide Val, W, Pow2, HighPart, LowPart, ShlLimb, Or;
      var a := new BaseUint.Copy(this);
      ghost var x := pn[..];
      forall i | 0 <= i < pn.Length { pn[i] := 0; }
      var k, s := shift / 32, shift % 32;
      ShlStart(x, s);
      for i := 0 to pn.Length
        invariant a.pn[..] == x
        invariant forall j :: 0 <= j < pn.Length ==> pn[j] == ShlSoFar(x, k, s, i, j)
      {
        ShlNext(x, k, s, i);
        if i + k + 1 < pn.Length && s != 0 { pn[i + k + 1] := Or(pn[i + k + 1], HighPart(a.pn[i], s)); }
        if i + k < pn.Length { pn[i + k] := Or(pn[i + k], LowPart(a.pn[i], s)); }
      }
      forall j | 0 <= j < pn.Length ensures pn[j] < BASE { if j >= k { ShlBounded(x, s, j - k); } }
      ShlValue(x, k, s, pn[..]);
    }

    method ShiftRight(shift: nat)
      requires Valid()
      modifies pn
      ensures Valid() && Value() == Rest(old(Value()), shift)
    {
      hide Val, W, Pow2, ShrLimb, Or, Rest;
      var a := new BaseUint.Copy(this);
      ghost var x := pn[..];
      forall i | 0 <= i < pn.Length { pn[i] := 0; }
      var k, s := shift / 32, shift % 32;
      for i := 0 to pn.Length
        invariant a.pn[..] == x
        invariant forall j :: 0 <= j < pn.Length ==> pn[j] == ShrSoFar(x, k, s, i, j)
      {
        ShrNext(x, k, s, i);
        if i - k - 1 >= 0 && s != 0 { pn[i - k - 1] := Or(pn[i - k - 1], (a.pn[i] * Pow2(32 - s)) % BASE); }
        if i - k >= 0 { pn[i - k] := Or(pn[i - k], Rest(a.pn[i], s)); }
      }
      if k < pn.Length { ShrEnd(x, s); }
      forall j | 0 <= j < pn.Length ensures pn[j] < BASE { if j + k < pn.Length { ShrLimbIs(x, s, j + k); } }
      ShrValue(x, k, s, pn[..]);
    }

    /** One more than the position of the highest one bit, 0 for zero. */
    method Bits() returns (n: nat)
      requires Valid()
      ensures n <= 32 * pn.Length
      ensures if n == 0 then Value() == 0 else Pow2(n - 1) <= Value() < Pow2(n)
    {
      hide Val, W, Pow2;
      var pos := pn.Length;
      while pos > 0
        invariant 0 <= pos <= pn.Length && forall j :: pos <= j < pn.Length ==> pn[j] == 0
      {
        pos := pos - 1;
        if pn[pos] != 0 {
          var nbits := 31;
          Pow2Of32();
          while nbits > 0
            invariant 0 <= nbits <= 31 && pn[pos] < Pow2(nbits + 1)
          {
            if BitSet(pn[pos], nbits) {
              BitsAt(pn[..], pos, nbits);
              return 32 * pos + nbits + 1;
            }
            BitClear(pn[pos], nbits);
            nbits := nbits - 1;
          }
          BitsAt(pn[..], pos, 0);
          return 32 * pos + 1;
        }
      }
      assert pn[..] == seq(pn.Length, _ => 0);
      ValZeros(pn.Length);
      return 0;
    }

    method CompareTo(b: BaseUint) returns (c: int)
      requires Valid() && b.Valid() && b.pn.Length == pn.Length
      ensures c == if Value() < b.Value() then -1 else if Value() > b.Value() then 1 else 0
    {
      hide Val, W;
      var i := pn.Length;
      while i > 0
        invariant 0 <= i <= pn.Length && pn[i..] == b.pn[i..]
      {
        i := i - 1;
        if pn[i] < b.pn[i] { HigherWins(pn[..], b.pn[..], i); return -1; }
        if pn[i] > b.pn[i] { HigherWins(b.pn[..], pn[..], i); return 1; }
        assert pn[i..] == [pn[i]] + pn[i + 1..];
        assert b.pn[i..] == [b.pn[i]] + b.pn[i + 1..];
      }
      assert pn[..] == pn[0..] && b.pn[..] == b.pn[0..];
      return 0;
    }

    /** The quotient, or 0 and an error when dividing by zero. */
    method Div(b: BaseUint) returns (ok: bool)
      requires Valid() && b.Valid() && b.pn.Length == pn.Length
      modifies pn
      ensures Valid() && (ok <==> old(b.Value()) != 0)
      ensures Value() == if ok then old(Value()) / old(b.Value()) else 0
    {
      hide BaseUint.Valid, BaseUint.Value, W, Pow2, Aligned, Dividing, Clear, Wrap, Rest;
      var div := new BaseUint.Copy(b);
      var num := new BaseUint.Copy(this);
      ghost var d, total := b.Value(), Value();
      div.SameValue(b);
      num.SameValue(this);
      Assign(0);
      var numBits := num.Bits();
      var divBits := div.Bits();
      if divBits == 0 { return false; }
      if divBits > numBits {
        TooBig(total, d, numBits, divBits);
        return true;
      }
      var shift: int := numBits - divBits;
      Align(total, d, numBits, divBits, pn.Length);
      div.ShiftLeft(shift);
      while shift >= 0
        invariant Valid() && div.Valid() && num.Valid() && -1 <= shift < 32 * pn.Length
        invariant pn != div.pn && pn != num.pn && div.pn != num.pn
        invariant Dividing(total, Value(), d, num.Value(), shift)
        invariant shift >= 0 ==> div.Value() == Aligned(d, shift)
        invariant Clear(pn[..], shift + 1)
      {
        ghost var n := num.Value();
        var c := num.CompareTo(div);
        DivStep(total, Value(), d, n, shift);
        ClearLess(pn[..], shift);
        if c >= 0 {
          num.UnderModulus();
          SmallMod(n - div.Value(), Modulus());
          num.Sub(div);
          SetQuotientBit(shift);
        }
        div.ShiftRight(1);
        shift := shift - 1;
      }
      Finished(total, Value(), d, num.Value());
      return true;
    }

    method Assign(b: nat)
      requires Valid() && b < WRAP64
      modifies pn
      ensures Valid() && Value() == b && (b == 0 ==> forall n :: Clear(pn[..], n))
    {
      pn[0], pn[1] := b % BASE, b / BASE;
      for i := 2 to pn.Length
        invariant pn[0] == b % BASE && pn[1] == b / BASE && forall j :: 2 <= j < i ==> pn[j] == 0
      {
        pn[i] := 0;
      }
      U64Value(pn[..], b);
      if b == 0 { ZeroIsClear(pn[..]); }
    }

    method GetLow64() returns (r: nat)
      requires Valid()
      ensures r == Value() % WRAP64
    {
      hide Or, W, Pow2, Val;
      Pow2Of32();
      OrIsAdd(pn[0], pn[1] * BASE, 32);
      NoLimbs(pn[..], pn[..]);
      r := Or(pn[0], pn[1] * BASE);
      LowWeights();
      ValSplit(pn[..], 2);
      ValNext(pn[..], 0);
      ValNext(pn[..], 1);
      WNext(1);
      Wraps(r, Val(pn[2..]), WRAP64, Value());
    }

    lemma SameValue(b: BaseUint)
      requires pn[..] == b.pn[..]
      ensures Value() == b.Value()
    {}

    lemma UnderModulus()
      requires Valid()
      ensures Value() < Modulus()
    {
      ValBound(pn[..]);
    }

    method SetQuotientBit(shift: nat)
      requires Valid() && Clear(pn[..], shift + 1) && shift < 32 * pn.Length
      modifies pn
      ensures Valid() && Clear(pn[..], shift) && Value() == old(Value()) + Pow2(shift)
    {
      hide Val, W, Pow2, Or, Clear;
      var i := shift / 32;
      ghost var before := pn[..];
      SetBit(before, shift);
      pn[i] := Or(pn[i], Pow2(shift % 32));
      assert pn[..] == before[i := pn[i]];
    }
  }

  // ---------- Long division ----------

  function Aligned(d: nat, shift: nat): nat {
    d * Pow2(shift)
  }

  /** The quotient so far and what is left, which is below twice the aligned divisor. */
  ghost predicate Dividing(total: nat, q: nat, d: nat, n: nat, shift: int)
    requires shift >= -1
  {
    total == q * d + n && n < Aligned(d, shift + 1)
  }

  function Below(n: int, j: int): nat {
    if n <= 32 * j then 0 else if n >= 32 * j + 32 then 32 else n - 32 * j
  }

  /** The lowest `n` bits are zero. */
  ghost predicate Clear(s: seq<nat>, n: int) {
    forall j :: 0 <= j < |s| ==> s[j] % Pow2(Below(n, j)) == 0
  }

  lemma {:induction false} ZeroIsClear(s: seq<nat>)
    requires forall j :: 0 <= j < |s| ==> s[j] == 0
    ensures Val(s) == 0 && forall n :: Clear(s, n)
  {
    hide Val, Pow2;
    assert s == seq(|s|, _ => 0);
    ValZeros(|s|);
  }

  lemma {:induction false} Pow2Divides(x: nat, m: nat, n: nat)
    requires m <= n && x % Pow2(n) == 0
    ensures x % Pow2(m) == 0
  {
    if m < n {
      var p, q := Pow2(n - 1), x / Pow2(n);
      DivMod(x, Pow2(n));
      MulAssoc(2 * q, 1, p);
      DoubleMul(p, q);
      DivUnique(x, p, 2 * q, 0);
      Pow2Divides(x, m, n - 1);
    }
  }

  lemma DoubleMul(p: int, q: int)
    ensures (2 * p) * q == (2 * q) * p
  {}

  lemma ClearLess(s: seq<nat>, n: int)
    requires Clear(s, n + 1)
    ensures Clear(s, n)
  {
    forall j | 0 <= j < |s| ensures s[j] % Pow2(Below(n, j)) == 0 { Pow2Divides(s[j], Below(n, j), Below(n + 1, j)); }
  }

  lemma {:induction false} SetBit(s: seq<nat>, n: nat)
    requires Bounded(s) && Clear(s, n + 1) && n < 32 * |s|
    ensures var v := Or(s[n / 32], Pow2(n % 32)); var t := s[n / 32 := v];
      Bounded(t) && Clear(t, n) && Val(t) == Val(s) + Pow2(n)
  {
    hide Or, W, Pow2, Val, Clear;
    var i, r := n / 32, n % 32;
    var x, p := s[i], Pow2(r);
    LimbClear(s, n + 1, i);
    OrCommutes(x, p);
    Pow2Grows(r, r + 1);
    OrIsAdd(p, x, r + 1);
    Room(x, r);
    ClearLess(s, n);
    ValUpdate(s, i, x + p);
    Pow2Add(32 * i, r);
    WIs(i);
    ClearUpdate(s, n, i, x + p);
  }

  lemma LimbClear(s: seq<nat>, n: nat, i: nat)
    requires Clear(s, n) && i < |s| && 32 * i < n <= 32 * i + 32
    ensures s[i] % Pow2(n - 32 * i) == 0
  {}

  lemma ClearUpdate(s: seq<nat>, n: nat, i: nat, v: nat)
    requires Clear(s, n) && i < |s| && 32 * i <= n < 32 * i + 32 && v % Pow2(n - 32 * i) == 0
    ensures Clear(s[i := v], n)
  {
    hide Pow2;
    var t := s[i := v];
    forall j | 0 <= j < |t| ensures t[j] % Pow2(Below(n, j)) == 0 {
    }
  }

  /** A limb with its lowest `r + 1` bits zero takes another bit at `r`. */
  lemma Room(x: nat, r: nat)
    requires x < BASE && r < 32 && x % Pow2(r + 1) == 0
    ensures x + Pow2(r) < BASE && (x + Pow2(r)) % Pow2(r) == 0
  {
    Pow2Add(r + 1, 31 - r);
    Pow2Of32();
    DivMod(x, Pow2(r + 1));
    RoomAt(x, Pow2(r), Pow2(31 - r), x / Pow2(r + 1));
  }

  lemma RoomAt(x: int, c: int, q: int, h: int)
    requires c >= 1 && (2 * c) * q == BASE && x == (2 * c) * h && 0 <= x < BASE
    ensures x + c < BASE && (x + c) % c == 0
  {
    if h >= q { MulLe(q, h, 2 * c); assert false; }
    MulLe(h + 1, q, 2 * c);
    MulDist(h, 1, 2 * c);
    DoubleMul(c, h);
    MulDist(2 * h, 1, c);
    DivUnique(x + c, c, 2 * h + 1, 0);
  }

  lemma TooBig(total: nat, d: nat, n: nat, m: nat)
    requires n < m && (if n == 0 then total == 0 else total < Pow2(n)) && Pow2(m - 1) <= d
    ensures d > 0 && total / d == 0
  {
    if 0 < n < m - 1 { Pow2Grows(n, m - 1); }
    DivUnique(total, d, 0, total);
  }

  /** Aligning the divisor with the dividend loses no bit. */
  lemma Align(total: nat, d: nat, n: nat, m: nat, width: nat)
    requires 0 < m <= n <= 32 * width && Pow2(n - 1) <= total < Pow2(n) && Pow2(m - 1) <= d < Pow2(m)
    ensures Dividing(total, 0, d, total, n - m) && Wrap(d * Pow2(n - m), W(width)) == Aligned(d, n - m)
  {
    hide W, Pow2;
    Pow2Add(m - 1, n - m + 1);
    Pow2Add(m, n - m);
    MulLe(Pow2(m - 1), d, Pow2(n - m + 1));
    MulLt(d, Pow2(m), Pow2(n - m));
    if n < 32 * width { Pow2Grows(n, 32 * width); }
    WIs(width);
    SmallMod(d * Pow2(n - m), W(width));
  }

  lemma SmallMod(v: int, m: int)
    requires 0 <= v < m
    ensures v % m == v && Wrap(v, m) == v
  {}

  lemma DivStep(total: nat, q: nat, d: nat, n: nat, shift: nat)
    requires Dividing(total, q, d, n, shift)
    ensures n < Aligned(d, shift) ==> Dividing(total, q, d, n, shift - 1)
    ensures n >= Aligned(d, shift) ==> Dividing(total, q + Pow2(shift), d, n - Aligned(d, shift), shift - 1)
    ensures shift > 0 ==> Rest(Aligned(d, shift), 1) == Aligned(d, shift - 1)
  {
    var p := Pow2(shift);
    DoubleMul(p, d);
    MulDist(q, p, d);
    assert Pow2(1) == 2;
    if shift > 0 {
      DoubleMul(Pow2(shift - 1), d);
      DivUnique(d * p, 2, d * Pow2(shift - 1), 0);
    }
  }

  lemma Finished(total: nat, q: nat, d: nat, n: nat)
    requires Dividing(total, q, d, n, -1)
    ensures d > 0 && total / d == q
  {
    assert Pow2(0) == 1;
    DivUnique(total, d, q, n);
  }

  predicate BitSet(x: nat, n: nat) {
    (x / Pow2(n)) % 2 == 1
  }

  lemma BitClear(x: nat, n: nat)
    requires x < Pow2(n + 1)
    ensures BitSet(x, n) <==> x >= Pow2(n)
  {
    var p := Pow2(n);
    if x >= p { DivUnique(x, p, 1, x - p); } else { DivUnique(x, p, 0, x); }
  }

  /** The highest limb that is not zero decides the number of bits. */
  lemma BitsAt(s: seq<nat>, pos: nat, n: nat)
    requires Bounded(s) && pos < |s| && (forall j :: pos < j < |s| ==> s[j] == 0) && s[pos] != 0 && n < 32
    requires s[pos] < Pow2(n + 1) && (n == 0 || BitSet(s[pos], n))
    ensures Pow2(32 * pos + n) <= Val(s) < Pow2(32 * pos + n + 1)
  {
    hide Val, W, BitSet, Pow2;
    BitClear(s[pos], n);
    Pow2Next(n);
    Pow2Next(0);
    ValSplit(s, pos + 1);
    ValNext(s, pos);
    assert s[pos + 1..] == seq(|s| - pos - 1, _ => 0);
    ValZeros(|s| - pos - 1);
    ValBound(s[..pos]);
    WIs(pos);
    Pow2Add(32 * pos, n);
    Pow2Add(32 * pos, n + 1);
    TopLimb(Val(s[..pos]), W(pos), Pow2(n), s[pos]);
  }

  lemma TopLimb(lo: nat, w: nat, p: nat, x: nat)
    requires lo < w && p <= x < 2 * p
    ensures w * p <= lo + x * w < w * (2 * p)
  {
    MulLe(p, x, w);
    MulLe(x, 2 * p - 1, w);
    MulDist(2 * p, -1, w);
  }

  lemma HigherWins(x: seq<nat>, y: seq<nat>, i: nat)
    requires Bounded(x) && Bounded(y) && i < |x| == |y| && x[i + 1..] == y[i + 1..] && x[i] < y[i]
    ensures Val(x) < Val(y)
  {
    hide Val, W;
    ValSplit(x, i + 1);
    ValSplit(y, i + 1);
    ValNext(x, i);
    ValNext(y, i);
    ValBound(x[..i]);
    MulLe(x[i] + 1, y[i], W(i));
    MulDist(x[i], 1, W(i));
  }

  // ---------- The shift loops ----------

  function ShlSoFar(x: seq<nat>, k: nat, s: nat, i: nat, j: nat): nat
    requires s < 32 && i <= |x| && j < |x|
  {
    if j < k then 0 else if j - k < i then ShlLimb(x, s, j - k) else if j - k == i then Spill(x, s, i) else 0
  }

  lemma ShlStart(x: seq<nat>, s: nat)
    requires s < 32
    ensures Spill(x, s, 0) == 0
  {}

  lemma ShlNext(x: seq<nat>, k: nat, s: nat, i: nat)
    requires s < 32 && i < |x|
    ensures ShlLimb(x, s, i) == Or(Spill(x, s, i), LowPart(x[i], s))
    ensures Spill(x, s, i + 1) == Or(0, HighPart(x[i], s)) && (s == 0 ==> Spill(x, s, i + 1) == 0)
  {}

  function ShrSoFar(x: seq<nat>, k: nat, s: nat, i: nat, j: nat): nat
    requires s < 32 && i <= |x| && j < |x|
  {
    if j + k + 1 < i then ShrLimb(x, s, j + k) else if j + k + 1 == i then Rest(x[i - 1], s) else 0
  }

  lemma ShrNext(x: seq<nat>, k: nat, s: nat, i: nat)
    requires s < 32 && i < |x|
    ensures Or(0, Rest(x[i], s)) == Rest(x[i], s)
    ensures i > 0 ==> ShrLimb(x, s, i - 1) == if s == 0 then Rest(x[i - 1], s)
      else Or(Rest(x[i - 1], s), (x[i] * Pow2(32 - s)) % BASE)
  {}

  lemma ShrEnd(x: seq<nat>, s: nat)
    requires s < 32 && |x| > 0
    ensures ShrLimb(x, s, |x| - 1) == Rest(x[|x| - 1], s)
  {}

  /** The inner loop of the product: a += v * b * BASE^j, the limbs past the width lost. */
  method AddRow(a: BaseUint, b: BaseUint, j: nat, v: nat) returns (ghost lost: nat)
    requires a.Valid() && b.Valid() && b.pn.Length == a.pn.Length && a.pn != b.pn && j < a.pn.Length && v < BASE
    modifies a.pn
    ensures a.Valid() && a.Value() + lost * a.Modulus() == old(a.Value()) + v * Val(b.pn[..a.pn.Length - j]) * W(j)
  {
    hide Val, W;
    var carry: nat := 0;
    ghost var y, start := b.pn[..], a.Value();
    NoLimbs(y, y);
    for i := 0 to a.pn.Length - j
      invariant carry < BASE && a.Valid()
      invariant a.Value() + carry * W(i + j) == start + v * Val(y[..i]) * W(j)
    {
      ghost var before := a.pn[..];
      ProductFits(v, b.pn[i], carry, a.pn[i + j]);
      var n: nat := carry + a.pn[i + j] + v * b.pn[i];
      CellStep(before, y, i, j, v, carry, start);
      a.pn[i + j] := n % BASE;
      carry := n / BASE;
      ghost var d: nat := n % BASE;
      assert a.pn[..] == before[i + j := d];
    }
    assert y[..a.pn.Length - j] == b.pn[..a.pn.Length - j];
    lost := carry;
  }

  lemma U64Value(s: seq<nat>, b: nat)
    requires |s| >= 2 && s[0] == b % BASE && s[1] == b / BASE && forall i :: 2 <= i < |s| ==> s[i] == 0
    ensures Val(s) == b
  {
    hide W;
    ValSplit(s, 2);
    assert s[2..] == seq(|s| - 2, _ => 0);
    ValZeros(|s| - 2);
    ValNext(s, 0);
    ValNext(s, 1);
    LowWeights();
    assert s[..0] == [];
    DivMod(b, BASE);
  }

  lemma LowWeights()
    ensures W(0) == 1 && W(1) == BASE
  {
    WNext(0);
  }

  lemma NoLimbs(x: seq<nat>, y: seq<nat>)
    ensures Val(x[..0]) == 0 && Val(y[..0]) == 0
  {}

  lemma Whole(x: seq<nat>)
    ensures x[..|x|] == x
  {}

  lemma AddStep(x: seq<nat>, y: seq<nat>, r: seq<nat>, i: nat, carry: nat)
    requires i < |x| == |y| && |r| == i && Val(r) + carry * W(i) == Val(x[..i]) + Val(y[..i])
    ensures var n: nat := carry + x[i] + y[i];
      Val(r + [n % BASE]) + (n / BASE) * W(i + 1) == Val(x[..i + 1]) + Val(y[..i + 1])
  {
    var n: nat := carry + x[i] + y[i];
    ValNext(x, i);
    ValNext(y, i);
    Carry(n, i);
    assert (r + [n % BASE])[..i] == r;
    MulDist(carry, x[i], W(i));
    MulDist(carry + x[i], y[i], W(i));
  }

  lemma SubMod(x: int, y: int, m: int)
    requires m > 0
    ensures Wrap(x + Wrap(m - y, m), m) == Wrap(x - y, m)
  {
    DivMod(m - y, m);
    DivMod(x - y, m);
    var k := (m - y) / m;
    MulDist((x - y) / m, 1 - k, m);
    MulDist(1, -k, m);
    DivUnique(x + (m - y) % m, m, (x - y) / m + (1 - k), (x - y) % m);
  }

  /** A product of two limbs plus two more limbs fits 64 bits, and its carry fits a limb. */
  lemma ProductFits(v: nat, w: nat, c: nat, d: nat)
    requires v < BASE && w < BASE && c < BASE && d < BASE
    ensures c + d + v * w < WRAP64 && (c + d + v * w) / BASE < BASE
  {
    MulLe(v, BASE - 1, w);
    MulLe(w, BASE - 1, BASE - 1);
  }

  lemma MulStep(x: seq<nat>, r: seq<nat>, i: nat, b: nat, carry: nat)
    requires i < |x| && |r| == i && Val(r) + carry * W(i) == Val(x[..i]) * b
    ensures var n: nat := carry + b * x[i];
      Val(r + [n % BASE]) + (n / BASE) * W(i + 1) == Val(x[..i + 1]) * b
  {
    hide W;
    var n: nat := carry + b * x[i];
    ValNext(x, i);
    Carry(n, i);
    assert (r + [n % BASE])[..i] == r;
    MulDist(carry, b * x[i], W(i));
    MulDist(Val(x[..i]), x[i] * W(i), b);
    MulAssoc(b, x[i], W(i));
  }

  lemma CellStep(a: seq<nat>, y: seq<nat>, i: nat, j: nat, v: nat, carry: nat, start: nat)
    requires i + j < |a| && i < |y| && Val(a) + carry * W(i + j) == start + v * Val(y[..i]) * W(j)
    ensures var n: nat := carry + a[i + j] + v * y[i];
      Val(a[i + j := n % BASE]) + (n / BASE) * W(i + j + 1) == start + v * Val(y[..i + 1]) * W(j)
  {
    hide W, Val;
    var n: nat := carry + a[i + j] + v * y[i];
    var w := W(i + j);
    ValUpdate(a, i + j, n % BASE);
    Carry(n, i + j);
    ValNext(y, i);
    WAdd(i, j);
    CellSum(n % BASE, a[i + j], carry, v * y[i], w);
    CellProduct(v, Val(y[..i]), y[i], W(i), W(j));
  }

  lemma CellSum(d: int, o: int, c: int, p: int, w: int)
    ensures (d - o) * w == d * w - o * w && (c + o + p) * w == c * w + o * w + p * w
  {}

  lemma CellProduct(v: int, s: int, y: int, wi: int, wj: int)
    ensures v * (s + y * wi) * wj == v * s * wj + (v * y) * (wi * wj)
  {}

  lemma RowStep(x: seq<nat>, y: seq<nat>, j: nat)
    requires j < |x| == |y|
    ensures var k := |x| - j;
      Val(x[..j + 1]) * Val(y) == Val(x[..j]) * Val(y) + x[j] * Val(y[..k]) * W(j) + (x[j] * Val(y[k..])) * W(|x|)
  {
    hide W, Val;
    var k := |x| - j;
    ValNext(x, j);
    ValSplit(y, k);
    WAdd(k, j);
    RowProduct(Val(x[..j]), x[j], W(j), Val(y[..k]), W(k), Val(y[k..]));
  }

  lemma RowProduct(s: int, v: int, wj: int, lo: int, wk: int, hi: int)
    ensures (s + v * wj) * (lo + wk * hi) == s * (lo + wk * hi) + v * lo * wj + (v * hi) * (wk * wj)
  {}
}
