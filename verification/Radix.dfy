/** Big-endian digit strings in any base, the in-place step "times factor plus digit", and how many digits suffice. */
module Radix {
  import opened Arith

  ghost predicate Digits(b: nat, s: seq<nat>) {
    forall i :: 0 <= i < |s| ==> s[i] < b
  }

  /** The number a digit string stands for. */
  function Num(b: nat, s: seq<nat>): nat {
    if s == [] then 0
    else
      MulNonNeg(Num(b, s[..|s| - 1]), b);
      Num(b, s[..|s| - 1]) * b + s[|s| - 1]
  }

  lemma {:induction false} NumSplit(b: nat, s: seq<nat>, k: nat)
    requires k <= |s|
    ensures Num(b, s) == Num(b, s[..k]) * Pow(b, |s| - k) + Num(b, s[k..])
  {
    if k == |s| {
      assert s[..k] == s;
    } else {
      var n := |s| - 1;
      NumSplit(b, s[..n], k);
      assert s[..n][..k] == s[..k] && s[..n][k..] == s[k..][..n - k];
      PowAdd(b, 1, n - k);
      SplitStep(Num(b, s[..k]), Pow(b, n - k), b, Num(b, s[k..][..n - k]));
    }
  }

  lemma SplitStep(x: int, p: int, b: int, y: int)
    ensures (x * p + y) * b == x * (b * p) + y * b
  {}

  lemma {:induction false} NumBound(b: nat, s: seq<nat>)
    requires b >= 1 && Digits(b, s)
    ensures Num(b, s) < Pow(b, |s|)
  {
    if s != [] {
      var n := |s| - 1;
      NumBound(b, s[..n]);
      MulLe(Num(b, s[..n]) + 1, Pow(b, n), b);
      MulDist(Num(b, s[..n]), 1, b);
    }
  }

  lemma {:induction false} NumZeros(b: nat, s: seq<nat>)
    requires forall i :: 0 <= i < |s| ==> s[i] == 0
    ensures Num(b, s) == 0
  {
    if s != [] { NumZeros(b, s[..|s| - 1]); }
  }

  /** Leading zeros do not count. */
  lemma NumSkip(b: nat, s: seq<nat>, k: nat)
    requires k <= |s| && forall i :: 0 <= i < k ==> s[i] == 0
    ensures Num(b, s) == Num(b, s[k..])
  {
    NumSplit(b, s, k);
    NumZeros(b, s[..k]);
  }

  lemma NumHead(b: nat, s: seq<nat>)
    requires s != []
    ensures Num(b, s) == s[0] * Pow(b, |s| - 1) + Num(b, s[1..])
  {
    NumSplit(b, s, 1);
    assert s[..1][..0] == [];
  }

  /** Without leading zeros the number has one digit string. */
  predicate Proper(s: seq<nat>) {
    s == [] || s[0] > 0
  }

  lemma ProperSize(b: nat, s: seq<nat>)
    requires b >= 2 && Digits(b, s) && s != [] && s[0] > 0
    ensures Pow(b, |s| - 1) <= Num(b, s) < Pow(b, |s|)
  {
    hide Num;
    NumBound(b, s);
    NumHead(b, s);
    MulLe(1, s[0], Pow(b, |s| - 1));
  }

  lemma SameLength(b: nat, s: seq<nat>, t: seq<nat>)
    requires b >= 2 && Digits(b, s) && Digits(b, t) && Proper(s) && Proper(t) && Num(b, s) == Num(b, t)
    ensures |s| == |t|
  {
    hide Num;
    if s != [] { ProperSize(b, s); PowPositive(b, |s| - 1); } else { NumZeros(b, s); }
    if t != [] { ProperSize(b, t); PowPositive(b, |t| - 1); } else { NumZeros(b, t); }
    if |s| < |t| { PowGrows(b, |s|, |t| - 1); }
    if |t| < |s| { PowGrows(b, |t|, |s| - 1); }
  }

  lemma {:induction false} SameDigits(b: nat, s: seq<nat>, t: seq<nat>)
    requires b >= 1 && Digits(b, s) && Digits(b, t) && |s| == |t| && Num(b, s) == Num(b, t)
    ensures s == t
  {
    if s != [] {
      var n := |s| - 1;
      DivUnique(Num(b, s), b, Num(b, s[..n]), s[n]);
      DivUnique(Num(b, t), b, Num(b, t[..n]), t[n]);
      SameDigits(b, s[..n], t[..n]);
      assert s == s[..n] + [s[n]] && t == t[..n] + [t[n]];
    }
  }

  lemma NumUnique(b: nat, s: seq<nat>, t: seq<nat>)
    requires b >= 2 && Digits(b, s) && Digits(b, t) && Proper(s) && Proper(t) && Num(b, s) == Num(b, t)
    ensures s == t
  {
    SameLength(b, s, t);
    SameDigits(b, s, t);
  }

  // ---------- One step of conversion ----------

  /** The last `length` digits are in use, the first of them not zero. */
  ghost predicate Uses(b: nat, s: seq<nat>, length: nat) {
    && length <= |s| && Digits(b, s) && (forall i :: 0 <= i < |s| - length ==> s[i] == 0)
    && (length > 0 ==> s[|s| - length] > 0)
  }

  function Digit(t: nat, b: nat): (d: nat)
    requires b > 0
    ensures d < b
  {
    DivMod(t, b);
    t % b
  }

  function Over(t: nat, b: nat): nat
    requires b > 0
  {
    DivNonNeg(t, b);
    t / b
  }

  function Grown(carry: nat, factor: nat, x: nat): nat {
    MulNonNeg(factor, x);
    carry + factor * x
  }

  /** The low digits after the step and the carry, against the low digits before it. */
  ghost predicate Pushed(b: nat, s: seq<nat>, was: seq<nat>, factor: nat, carry: nat, digit: nat) {
    |s| == |was| && Num(b, s) + carry * Pow(b, |s|) == factor * Num(b, was) + digit
  }

  /** In place: the number times `factor` plus `digit`. */
  method Push(buf: array<nat>, b: nat, factor: nat, digit: nat, length: nat) returns (length': nat)
    requires b >= 2 && factor >= 1 && Uses(b, buf[..], length) && factor * Num(b, buf[..]) + digit < Pow(b, buf.Length)
    modifies buf
    ensures Uses(b, buf[..], length') && length' >= length && Num(b, buf[..]) == factor * old(Num(b, buf[..])) + digit
  {
    hide Num, Pow, Pushed, Digit, Over, Grown;
    ghost var was := buf[..];
    var n := buf.Length;
    var carry, i := digit, 0;
    StartPush(b, was, factor, digit);
    while (carry != 0 || i < length) && i < n
      invariant 0 <= i <= n && Digits(b, buf[..]) && forall j :: 0 <= j < n - i ==> buf[j] == was[j]
      invariant Pushed(b, buf[n - i..], was[n - i..], factor, carry, digit)
      invariant i > 0 && carry == 0 && i >= length ==> buf[n - i] > 0
    {
      var p := n - 1 - i;
      ghost var after := buf[p + 1..];
      PushStep(b, after, was[p..], factor, carry, digit);
      KeepsTop(b, factor, carry, buf[p]);
      carry := Grown(carry, factor, buf[p]);
      buf[p] := Digit(carry, b);
      carry := Over(carry, b);
      assert buf[p..] == [buf[p]] + after;
      i := i + 1;
    }
    EndPush(b, buf[..], was, i, length, factor, carry, digit);
    assert carry == 0;
    length' := i;
  }

  lemma StartPush(b: nat, s: seq<nat>, factor: nat, digit: nat)
    ensures Pushed(b, s[|s|..], s[|s|..], factor, digit, digit)
  {}

  /** If nothing is carried out, the digit written is zero only if there was nothing to write. */
  lemma KeepsTop(b: nat, factor: nat, carry: nat, x: nat)
    requires b >= 2 && factor >= 1
    ensures var t := Grown(carry, factor, x); Over(t, b) == 0 && Digit(t, b) == 0 ==> carry == 0 && x == 0
  {
    var t := Grown(carry, factor, x);
    DivMod(t, b);
    if x > 0 { MulLe(1, x, factor); }
  }

  lemma PushStep(b: nat, after: seq<nat>, rest: seq<nat>, factor: nat, carry: nat, digit: nat)
    requires b >= 2 && |rest| == |after| + 1 && Pushed(b, after, rest[1..], factor, carry, digit)
    ensures var t := Grown(carry, factor, rest[0]); Pushed(b, [Digit(t, b)] + after, rest, factor, Over(t, b), digit)
  {
    var t, p := Grown(carry, factor, rest[0]), Pow(b, |after|);
    DivMod(t, b);
    var s := [Digit(t, b)] + after;
    NumHead(b, s);
    NumHead(b, rest);
    assert s[1..] == after;
    PushSum(Digit(t, b), Over(t, b), b, p, carry, factor, rest[0], Num(b, rest[1..]));
  }

  lemma PushSum(d: int, q: int, b: int, p: int, c: int, f: int, x: int, y: int)
    requires c + f * x == b * q + d
    ensures d * p + q * (b * p) == c * p + f * (x * p) && f * (x * p + y) == f * (x * p) + f * y
  {
    assert (b * q + d) * p == (c + f * x) * p;
  }

  lemma EndPush(b: nat, s: seq<nat>, was: seq<nat>, i: nat, length: nat, factor: nat, carry: nat, digit: nat)
    requires b >= 2 && |s| == |was| && i <= |s| && Digits(b, s) && Uses(b, was, length)
    requires (forall j :: 0 <= j < |s| - i ==> s[j] == was[j]) && ((carry == 0 && i >= length) || i == |s|)
    requires Pushed(b, s[|s| - i..], was[|s| - i..], factor, carry, digit)
    requires factor * Num(b, was) + digit < Pow(b, |s|)
    ensures carry == 0 && Num(b, s) == factor * Num(b, was) + digit
  {
    hide Num, Pow, Pushed;
    var k := |s| - i;
    if i == |s| {
      assert s[k..] == s && was[k..] == was;
      PushedFull(b, s, was, factor, carry, digit);
    } else {
      PushedDone(b, s[k..], was[k..], factor, digit);
      NumSkip(b, s, k);
      NumSkip(b, was, k);
    }
  }

  lemma PushedFull(b: nat, s: seq<nat>, was: seq<nat>, factor: nat, carry: nat, digit: nat)
    requires Pushed(b, s, was, factor, carry, digit) && factor * Num(b, was) + digit < Pow(b, |s|)
    ensures carry == 0 && Num(b, s) == factor * Num(b, was) + digit
  {
    hide Num, Pow;
    NoCarry(Num(b, s), carry, Pow(b, |s|), factor * Num(b, was) + digit);
  }

  lemma PushedDone(b: nat, s: seq<nat>, was: seq<nat>, factor: nat, digit: nat)
    requires Pushed(b, s, was, factor, 0, digit)
    ensures Num(b, s) == factor * Num(b, was) + digit
  {
    hide Num, Pow;
  }

  lemma NoCarry(v: nat, carry: nat, p: nat, total: int)
    requires v + carry * p == total < p
    ensures carry == 0
  {
    if carry > 0 { MulLe(1, carry, p); assert false; }
  }

  // ---------- How many digits suffice ----------

  lemma FirstPowers(b: nat)
    ensures Pow(b, 0) == 1 && Pow(b, 1) == b && Pow(b, 2) == b * b && Pow(b, 3) == b * (b * b)
  {
    assert Pow(b, 1) == b * Pow(b, 0) && Pow(b, 2) == b * Pow(b, 1) && Pow(b, 3) == b * Pow(b, 2);
  }

  /** The concrete powers behind the two ratios. */
  lemma Powers58()
    ensures Pow(58, 23) == 36211277946678491129762594928113653645312
    ensures Pow(58, 35) == 52478302028992644968172978478148648556151605660894866578604032
  {
    hide Pow;
    FirstPowers(58);
    PowAdd(58, 2, 2);
    PowAdd(58, 4, 4);
    assert Pow(58, 8) == 128063081718016;
    PowAdd(58, 8, 3);
    assert Pow(58, 11) == 24986644000165537792;
    PowAdd(58, 11, 1);
    PowAdd(58, 11, 12);
    PowAdd(58, 23, 12);
  }

  lemma Powers256()
    ensures Pow(256, 4) == 4294967296 && Pow(256, 16) == 340282366920938463463374607431768211456
    ensures Pow(256, 24) == 6277101735386680763835789423207666416102355444464034512896
  {
    hide Pow;
    FirstPowers(256);
    PowAdd(256, 2, 2);
    PowAdd(256, 4, 4);
    assert Pow(256, 8) == 18446744073709551616;
    PowAdd(256, 8, 8);
    PowAdd(256, 16, 8);
  }

  lemma CubeScaled(c: nat, y: nat)
    ensures c * y >= 0 && Pow(c * y, 3) == (c * (c * c)) * Pow(y, 3)
  {
    hide Pow;
    MulNonNeg(c, y);
    FirstPowers(c * y);
    FirstPowers(y);
    Exchange(c, y, c, y);
    Exchange(c, y, c * c, y * y);
  }

  lemma Exchange(a: int, b: int, c: int, d: int)
    ensures (a * b) * (c * d) == (a * c) * (b * d)
  {
    MulAssoc(a, b, c * d);
    MulAssoc(b, c, d);
    MulAssoc(c, b, d);
    MulAssoc(a, c, b * d);
  }

  /** 69 digits of base 58 are worth more than 50 bytes. */
  lemma EncodeRatio()
    ensures Pow(256, 50) <= Pow(58, 69)
  {
    hide Pow;
    Powers58();
    Powers256();
    var y := Pow(256, 16);
    PowBase(64 * y, Pow(58, 23), 3);
    CubeScaled(64, y);
    PowTimes(58, 23, 3);
    PowTimes(256, 16, 3);
    FirstPowers(256);
    PowAdd(256, 2, 48);
    MulLe(65536, 262144, Pow(256, 48));
  }

  /** 71 digits of base 58 are worth less than 52 bytes. */
  lemma DecodeRatio()
    ensures Pow(58, 71) <= Pow(256, 52)
  {
    hide Pow;
    Powers58();
    Powers256();
    FirstPowers(58);
    PowAdd(58, 35, 35);
    PowAdd(58, 1, 70);
    PowAdd(256, 24, 24);
    PowAdd(256, 4, 48);
    Squared(Pow(58, 35), 8368, Pow(256, 24));
    MulLe(58 * (8368 * 8368), Pow(256, 4), Pow(256, 48));
    MulAssoc(58, 8368 * 8368, Pow(256, 48));
  }

  lemma Squared(x: nat, c: nat, y: nat)
    requires x <= c * y
    ensures x * x <= (c * c) * (y * y)
  {
    MulLe(x, c * y, x);
    MulLe(x, c * y, c * y);
    MulAssoc(c, c, y * y);
    MulAssoc(c, y, c * y);
    MulAssoc(y, c, y);
    MulAssoc(c, y, y);
  }

  /** If b^p reaches a^q, then b^s reaches a^n as soon as q * s >= p * n. */
  lemma Enough(a: nat, b: nat, p: nat, q: nat, n: nat, s: nat)
    requires a >= 1 && b >= 1 && q > 0 && Pow(a, q) <= Pow(b, p) && q * s >= p * n
    ensures Pow(a, n) <= Pow(b, s)
  {
    hide Pow;
    if Pow(a, n) > Pow(b, s) {
      PowBaseStrict(Pow(b, s), Pow(a, n), q);
      PowTimes(b, s, q);
      PowTimes(a, n, q);
      PowTimes(a, q, n);
      PowTimes(b, p, n);
      PowBase(Pow(a, q), Pow(b, p), n);
      PowGrows(b, p * n, q * s);
    }
  }

  /** n bytes fit n * 138 / 100 + 1 digits of base 58. */
  lemma EncodeFits(n: nat)
    ensures Pow(256, n) <= Pow(58, n * 138 / 100 + 1)
  {
    hide Pow;
    EncodeRatio();
    Enough(256, 58, 69, 50, n, n * 138 / 100 + 1);
  }

  /** n digits of base 58 fit n * 733 / 1000 + 1 bytes. */
  lemma DecodeFits(n: nat)
    ensures Pow(58, n) <= Pow(256, n * 733 / 1000 + 1)
  {
    hide Pow;
    DecodeRatio();
    Enough(58, 256, 52, 71, n, n * 733 / 1000 + 1);
  }
}
