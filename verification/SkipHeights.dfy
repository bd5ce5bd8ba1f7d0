/**
 The heights a search through skip pointers visits (chain.cpp): what a skip height is, and exactly how many steps the
 longest search takes.
 */
module SkipHeights {
  import opened Arith

  /** Bitwise `&` of two naturals. */
  function And(a: nat, b: nat): nat {
    if a == 0 || b == 0 then 0 else 2 * And(a / 2, b / 2) + (if a % 2 == 1 && b % 2 == 1 then 1 else 0)
  }

  function InvertLowestOne(n: nat): nat
    requires n > 0
  {
    And(n, n - 1)
  }

  function GetSkipHeight(height: int): int {
    if height < 2 then 0
    else if height % 2 == 1 then
      var m := InvertLowestOne(height - 1);
      (if m == 0 then 0 else InvertLowestOne(m)) + 1
    else InvertLowestOne(height)
  }

  /** The largest power of two dividing `n`: the value of the lowest one bit. */
  function LowestOne(n: nat): (p: nat)
    requires n > 0
    ensures 1 <= p <= n
  {
    if n % 2 == 1 then 1 else 2 * LowestOne(n / 2)
  }

  lemma {:induction false} AndSelf(n: nat)
    ensures And(n, n) == n
  {
    if n > 0 { AndSelf(n / 2); }
  }

  /** Clearing the lowest one bit subtracts its value. */
  lemma {:induction false} InvertLowestOneIs(n: nat)
    requires n > 0
    ensures InvertLowestOne(n) == n - LowestOne(n)
  {
    if n % 2 == 1 {
      assert (n - 1) / 2 == n / 2;
      AndSelf(n / 2);
    } else {
      assert (n - 1) / 2 == n / 2 - 1;
      InvertLowestOneIs(n / 2);
    }
  }

  /** `n` without its lowest one bit. */
  function Clear(n: nat): (m: nat)
    ensures n > 0 ==> m < n
  {
    if n == 0 then 0 else n - LowestOne(n)
  }

  lemma EvenSkip(n: nat)
    requires n > 0 && n % 2 == 0
    ensures GetSkipHeight(n) == Clear(n)
  {
    hide InvertLowestOne, LowestOne;
    InvertLowestOneIs(n);
  }

  lemma OddSkip(n: nat)
    requires n > 1 && n % 2 == 1
    ensures GetSkipHeight(n) == Clear(Clear(n - 1)) + 1
  {
    hide InvertLowestOne, LowestOne;
    InvertLowestOneIs(n - 1);
    var m := InvertLowestOne(n - 1);
    if m > 0 { InvertLowestOneIs(m); }
  }

  /** A skip goes strictly down, so following one makes progress. */
  lemma SkipHeightBelow(height: int)
    requires height >= 1
    ensures 0 <= GetSkipHeight(height) < height
  {
    hide GetSkipHeight, LowestOne;
    if height == 1 {
      SkipOfOne();
    } else if height % 2 == 0 {
      EvenSkip(height);
    } else {
      OddSkip(height);
    }
  }

  lemma SkipOfOne()
    ensures GetSkipHeight(1) == 0
  {}

  // ---------- Steps ----------

  /** The height a search for height `h` goes to from height `n`: the skip, unless the parent's skip is better. */
  function Next(n: int, h: int): (m: int)
    requires 0 <= h < n
    ensures h <= m < n
  {
    SkipHeightBelow(n);
    var skip, prev := GetSkipHeight(n), GetSkipHeight(n - 1);
    if skip == h || (skip > h && !(prev < skip - 2 && prev >= h)) then skip else n - 1
  }

  /** The number of blocks a search goes through. */
  function Steps(n: int, h: int): nat
    requires 0 <= h <= n
    decreases n
  {
    if n == h then 0 else 1 + Steps(Next(n, h), h)
  }

  // ---------- Lowest bits ----------

  /** The lowest one bit of `x` is bit `k`. */
  predicate Low(x: int, k: nat) {
    x > 0 && LowestOne(x) == Pow2(k)
  }

  lemma {:induction false} LowOf(x: nat) returns (k: nat)
    requires x > 0
    ensures Low(x, k) && (x % 2 == 0 <==> k > 0)
  {
    if x % 2 == 1 {
      k := 0;
    } else {
      k := LowOf(x / 2);
      k := k + 1;
    }
  }

  lemma {:induction false} LowHalf(x: nat, k: nat)
    requires Low(x, k) && k > 0
    ensures x % 2 == 0 && Low(x / 2, k - 1)
  {}

  /** Subtracting a smaller power of two makes it the lowest one. */
  lemma {:induction false} LowMinus(x: nat, k: nat, j: nat)
    requires Low(x, k) && j < k
    ensures Low(x - Pow2(j), j) && (j > 0 ==> (x - Pow2(j)) % 2 == 0)
  {
    LowHalf(x, k);
    if j > 0 {
      LowMinus(x / 2, k - 1, j - 1);
      assert (x - Pow2(j)) / 2 == x / 2 - Pow2(j - 1);
    }
  }

  /** Without its lowest one bit, a number has only higher ones. */
  lemma {:induction false} ClearLow(x: nat, k: nat) returns (j: nat)
    requires Low(x, k)
    ensures Clear(x) == x - Pow2(k) && (Clear(x) > 0 ==> j > k && Low(Clear(x), j))
  {
    if Clear(x) == 0 {
      j := 0;
    } else if k == 0 {
      assert x % 2 == 1;
      j := LowOf(x - 1);
    } else {
      LowHalf(x, k);
      j := ClearLow(x / 2, k - 1);
      j := j + 1;
    }
  }

  lemma {:induction false} Pow2Mono(a: nat, b: nat)
    requires a <= b
    ensures Pow2(a) <= Pow2(b)
  {
    if a < b { Pow2Grows(a, b); }
  }

  // ---------- The end of a search ----------

  /** The most steps to a height less than the lowest one bit, bit `k`, below. */
  function Tail(k: nat): (t: nat)
    ensures t >= 1
  {
    if k <= 1 then 1 else if k == 2 then 3 else if k == 3 then 5 else Tail(k - 1) + (k + 3) / 2
  }

  /** It grows with the square of the bit's number. */
  lemma {:induction false} TailIs(j: nat)
    requires j >= 1
    ensures Tail(2 * j + 1) == j * j + 4 * j && Tail(2 * j + 2) == j * j + 5 * j + 2
  {
    hide Tail;
    if j > 1 {
      TailIs(j - 1);
      Square(j);
      TailNext(2 * j + 1);
    } else {
      TailNext(3);
    }
    TailNext(2 * j + 2);
  }

  lemma {:induction false} TailNext(k: nat)
    requires k >= 3
    ensures Tail(k) == if k == 3 then 5 else Tail(k - 1) + (k + 3) / 2
  {}

  lemma Square(j: nat)
    ensures j * j == (j - 1) * (j - 1) + 2 * j - 1
  {}

  lemma {:induction false} TailGrows(j: nat, k: nat)
    requires j <= k
    ensures Tail(j) <= Tail(k)
  {
    if j < k { TailGrows(j, k - 1); }
  }

  /** The odd heights on the way down from `x`. */
  function OddBelow(x: int, i: nat): int {
    x - Pow2(2 * i + 1) + 1
  }

  /** From an odd height the search skips whenever that is not too far. */
  lemma {:induction false} NextOdd(o: nat, h: nat)
    requires o > 1 && o % 2 == 1 && h < o
    ensures var skip := Clear(Clear(o - 1)) + 1; Next(o, h) == if h <= skip then skip else o - 1
  {
    hide GetSkipHeight, LowestOne;
    OddSkip(o);
    EvenSkip(o - 1);
  }

  /** From an even height it may go to the parent instead, if the parent skips further. */
  lemma {:induction false} NextEven(n: nat, h: nat)
    requires 0 < n && n % 2 == 0 && h < n
    ensures var skip, prev := Clear(n), GetSkipHeight(n - 1);
      Next(n, h) == if h == skip || (h < skip && (prev >= skip - 2 || prev < h)) then skip else n - 1
  {
    hide GetSkipHeight, Clear;
    EvenSkip(n);
  }

  /** From an odd height a search skips to the next odd one, or turns to the even height below. */
  lemma {:induction false} OddNext(x: nat, k: nat, i: nat, h: nat)
    requires Low(x, k) && 2 * i + 2 < k && h < OddBelow(x, i)
    ensures Next(OddBelow(x, i), h) == if h <= OddBelow(x, i + 1) then OddBelow(x, i + 1) else OddBelow(x, i) - 1
  {
    hide Next, Clear, Low, Pow2;
    Descend(x, k, 2 * i + 1);
    Descend(x, k, 2 * i + 2);
    NextOdd(x - Pow2(2 * i + 1) + 1, h);
  }

  lemma {:induction false} Descend(x: nat, k: nat, j: nat)
    requires Low(x, k) && j < k
    ensures var z := x - Pow2(j); z > 0 && Low(z, j) && Clear(z) == x - Pow2(j + 1) && (j > 0 ==> z % 2 == 0)
  {
    hide Clear, Low, Pow2;
    LowMinus(x, k, j);
    LowPositive(x - Pow2(j), j);
    var m := ClearLow(x - Pow2(j), j);
    Pow2Next(j);
  }

  lemma LowPositive(x: int, k: nat)
    requires Low(x, k)
    ensures x > 0
  {}

  /** The last odd height: it skips too far, or to the height sought. */
  lemma {:induction false} OddLast(x: nat, k: nat, i: nat, h: nat)
    requires Low(x, k) && 2 * i + 2 == k && x - Pow2(k) < h < OddBelow(x, i)
    ensures Next(OddBelow(x, i), h) == if h == 1 then 1 else OddBelow(x, i) - 1
  {
    hide Next, Low, Pow2, LowestOne;
    Descend(x, k, 2 * i + 1);
    var j := ClearLow(x, k);
    NextOdd(x - Pow2(2 * i + 1) + 1, h);
  }

  /** From the even height the search may drop one more bit. */
  lemma {:induction false} EvenNext(x: nat, k: nat, i: nat, h: nat)
    requires Low(x, k) && 2 * i + 2 < k && OddBelow(x, i + 1) < h < x - Pow2(2 * i + 2)
    ensures Next(x - Pow2(2 * i + 1), h) == x - Pow2(2 * i + 2)
  {
    hide Next, Low, Pow2, Clear, GetSkipHeight;
    var z := x - Pow2(2 * i + 1);
    Descend(x, k, 2 * i + 1);
    NextEven(z, h);
    if i == 0 { NearPrev(x, k); } else { FarPrev(z, 2 * i + 1); }
  }

  lemma {:induction false} NearPrev(x: nat, k: nat)
    requires Low(x, k) && k > 2
    ensures x > 3 && GetSkipHeight(x - 3) <= OddBelow(x, 1) && Pow2(1) == 2
  {
    hide GetSkipHeight, Low, Pow2, LowestOne;
    Pow2Next(0);
    Pow2Next(1);
    Pow2Next(2);
    Descend(x, k, 2);
    Descend(x, k, 1);
    OddSkip(x - 3);
  }

  /** Below a multiple of eight the parent skips seven heights. */
  lemma {:induction false} FarPrev(z: nat, k: nat)
    requires Low(z, k) && k >= 3
    ensures z >= 8 && z % 2 == 0 && GetSkipHeight(z - 1) == z - 7 && Clear(z) <= z - 8
  {
    hide GetSkipHeight, Clear, Low, Pow2;
    Pow2Next(0);
    Pow2Next(1);
    Pow2Next(2);
    Pow2Mono(3, k);
    Descend(z, k, 1);
    Descend(z, k, 2);
    var j := ClearLow(z, k);
    OddSkip(z - 1);
  }

  /** Two heights below a multiple of four are two steps away. */
  lemma {:induction false} TailTwo(a: nat, h: nat)
    requires Low(a, 2) && a - 2 <= h <= a
    ensures Steps(a, h) <= 2
  {
    hide Next, Low, Pow2, LowestOne;
    Pow2Next(0);
    Pow2Next(1);
    var j := ClearLow(a, 2);
    LowPositive(a, 2);
    Descend(a, 2, 1);
    if h < a { NextEven(a, h); }
    if h < a - 1 { NextOdd(a - 1, h); }
    StepsIs(a, h);
  }

  lemma {:induction false} StepsIs(n: nat, h: nat)
    requires h <= n
    ensures Steps(n, h) == if n == h then 0 else 1 + Steps(Next(n, h), h)
  {}

  /** A search that ends before the lowest one bit is used up. */
  lemma {:induction false} TailSteps(x: nat, k: nat, h: nat)
    requires k >= 1 && Low(x, k) && x - Pow2(k) <= h <= x
    ensures Steps(x, h) <= Tail(k)
    decreases k, k + 1
  {
    hide Next, Low, Pow2, Clear, Tail;
    if h < x {
      LowEven(x, k);
      var j := ClearLow(x, k);
      NextEven(x, h);
      if h > x - Pow2(k) {
        Pow2Next(0);
        OddSteps(x, k, 0, h);
      }
    }
  }

  lemma LowEven(x: nat, k: nat)
    requires Low(x, k) && k >= 1
    ensures x > 0 && x % 2 == 0
  {}

  /** The same from the odd heights below. */
  lemma {:induction false} OddSteps(x: nat, k: nat, i: nat, h: nat)
    requires Low(x, k) && 2 * i + 1 <= k && x - Pow2(k) < h <= OddBelow(x, i)
    ensures Steps(OddBelow(x, i), h) + i + 1 <= Tail(k)
    decreases k, k - i
  {
    hide Next, Low, Pow2, Clear, Tail;
    TailRoom(k, i);
    var o := OddBelow(x, i);
    if 2 * i + 1 < k && h < o {
      Descend(x, k, 2 * i + 1);
      if 2 * i + 2 < k {
        OddNext(x, k, i, h);
        if h <= OddBelow(x, i + 1) {
          OddSteps(x, k, i + 1, h);
        } else {
          TurnSteps(x, k, i, h);
        }
      } else {
        OddLast(x, k, i, h);
        Pow2Next(2 * i + 1);
        if h != 1 { TailSteps(o - 1, 2 * i + 1, h); }
      }
    }
  }

  /** The same from the even height the search turned to. */
  lemma {:induction false} TurnSteps(x: nat, k: nat, i: nat, h: nat)
    requires Low(x, k) && 2 * i + 2 < k && OddBelow(x, i + 1) < h < OddBelow(x, i)
    ensures Steps(OddBelow(x, i) - 1, h) + i + 2 <= Tail(k)
    decreases k, 0
  {
    hide Next, Low, Pow2, Clear, Tail;
    TailRoom(k, i);
    var z, a := x - Pow2(2 * i + 1), x - Pow2(2 * i + 2);
    Descend(x, k, 2 * i + 1);
    if h >= a {
      Pow2Next(2 * i + 1);
      TailSteps(z, 2 * i + 1, h);
    } else {
      EvenNext(x, k, i, h);
      Descend(x, k, 2 * i + 2);
      Pow2Next(2 * i + 2);
      if i == 0 {
        Pow2Next(0);
        Pow2Next(1);
        TailTwo(a, h);
      } else {
        TailSteps(a, 2 * i + 2, h);
      }
    }
  }

  lemma {:induction false} TailRoom(k: nat, i: nat)
    requires 2 * i + 1 <= k
    ensures i + 1 <= Tail(k)
    ensures 2 * i + 2 <= k ==> Tail(2 * i + 1) + i + 2 <= Tail(k)
    ensures 2 * i + 3 <= k ==> 5 <= Tail(k) && (i > 0 ==> Tail(2 * i + 2) + i + 3 <= Tail(k))
  {
    TailGrows(2 * i + 1, k);
    if 2 * i + 2 <= k { TailGrows(2 * i + 2, k); }
    if 2 * i + 3 <= k {
      TailGrows(3, k);
      TailGrows(2 * i + 3, k);
    }
    TailAbove(i);
  }

  lemma {:induction false} TailAbove(i: nat)
    ensures i + 1 <= Tail(2 * i + 1) && Tail(2 * i + 1) + i + 2 == Tail(2 * i + 2)
    ensures i > 0 ==> Tail(2 * i + 2) + i + 3 == Tail(2 * i + 3)
  {
    hide Tail;
    if i == 0 {
      TailFirst();
    } else {
      TailIs(i);
      TailNext(2 * i + 2);
      TailNext(2 * i + 3);
      MulNonNeg(i, i);
    }
  }

  lemma TailFirst()
    ensures Tail(1) == 1 && Tail(2) == 3 && Tail(3) == 5
  {}

  // ---------- Any search ----------

  /** A search that ends before the two lowest one bits are used up. */
  lemma {:induction false} PairSteps(b: nat, j: nat, h: nat, bits: nat)
    requires j >= 1 && Low(b, j) && b < Pow2(bits) && Clear(Clear(b)) + 1 < h <= b
    ensures bits >= 1 && Steps(b, h) <= 1 + Tail(bits - 1)
  {
    hide Next, Low, Pow2, Tail, LowestOne, GetSkipHeight;
    LowEven(b, j);
    LowBelow(b, j, bits);
    var i := ClearLow(b, j);
    TailGrows(j, bits - 1);
    if h >= Clear(b) {
      TailSteps(b, j, h);
    } else {
      var a := Clear(b);
      LowBelow(a, i, bits);
      TailGrows(i, bits - 1);
      var m := ClearLow(a, i);
      PrevSkip(b, j);
      NextEven(b, h);
      TailSteps(a, i, h);
    }
  }

  lemma {:induction false} LowBelow(x: nat, k: nat, bits: nat)
    requires Low(x, k) && x < Pow2(bits)
    ensures k < bits
  {
    if k >= bits { Pow2Mono(bits, k); }
  }

  /** Where the parent of an even height skips to. */
  lemma {:induction false} PrevSkip(b: nat, j: nat)
    requires j >= 1 && Low(b, j) && Clear(b) > 0
    ensures GetSkipHeight(b - 1) == if j >= 3 then b - 7 else if j == 2 then Clear(Clear(b)) + 1
                                    else Clear(Clear(Clear(b))) + 1
    ensures j >= 3 ==> Clear(b) <= b - 8
    ensures j < 3 ==> Clear(Clear(b)) <= Clear(b) - 4 && b > 3
    ensures j == 2 ==> Clear(b - 2) == Clear(b) && Low(b - 2, 1) && Clear(Clear(b)) <= Clear(b) - 8
  {
    hide GetSkipHeight, Low, Pow2, LowestOne;
    LowEven(b, j);
    if j >= 3 {
      FarPrev(b, j);
    } else {
      Pow2Next(0);
      Pow2Next(1);
      Pow2Next(2);
      var i := ClearLow(b, j);
      Pow2Mono(j + 1, i);
      var m := ClearLow(Clear(b), i);
      if j == 2 { Descend(b, j, 1); }
      OddSkip(b - 1);
    }
  }

  /** From an odd height each skip uses up two one bits. */
  lemma {:induction false} FromOdd(b: nat, j: nat, h: nat, bits: nat)
    requires j >= 1 && Low(b, j) && b < Pow2(bits) && h <= b + 1
    ensures bits >= 1 && Steps(b + 1, h) <= (bits - j) / 2 + 2 + Tail(bits - 1)
    decreases b
  {
    hide Next, Low, Pow2, Tail, LowestOne;
    LowEven(b, j);
    LowBelow(b, j, bits);
    if h <= b {
      NextOdd(b + 1, h);
      var c := Clear(Clear(b));
      if h > c + 1 {
        PairSteps(b, j, h, bits);
      } else if c == 0 {
        if h == 0 { NextOne(); }
        StepsIs(1, h);
      } else {
        var i := ClearLow(b, j);
        i := ClearLow(Clear(b), i);
        FromOdd(c, i, h, bits);
      }
    }
  }

  lemma NextOne()
    ensures Next(1, 0) == 0
  {}

  /** From a multiple of eight each skip uses up one. */
  lemma {:induction false} FromEight(n: nat, j: nat, h: nat, bits: nat)
    requires j >= 3 && Low(n, j) && n < Pow2(bits) && h <= n
    ensures bits > j && Steps(n, h) <= bits - 1 - j + Tail(bits - 1)
    decreases n
  {
    hide Next, Low, Pow2, Tail, LowestOne, Clear;
    LowEven(n, j);
    LowBelow(n, j, bits);
    TailGrows(j, bits - 1);
    var i := ClearLow(n, j);
    if h >= Clear(n) {
      TailSteps(n, j, h);
    } else {
      FarPrev(n, j);
      NextEven(n, h);
      FromEight(Clear(n), i, h, bits);
    }
  }

  /** From twice or four times an odd number the search skips, or its parent does. */
  lemma {:induction false} FromEven(n: nat, j: nat, h: nat, bits: nat)
    requires 1 <= j <= 2 && Low(n, j) && n < Pow2(bits) && h <= n
    ensures bits > j && Steps(n, h) <= (bits - 1) / 2 + 3 + Tail(bits - 1)
  {
    hide Next, Low, Pow2, Tail, LowestOne, GetSkipHeight;
    LowEven(n, j);
    LowBelow(n, j, bits);
    TailGrows(j, bits - 1);
    var i := ClearLow(n, j);
    var a := Clear(n);
    if h >= a {
      TailSteps(n, j, h);
    } else {
      PrevSkip(n, j);
      NextEven(n, h);
      Pow2Next(0);
      Pow2Mono(1, j);
      if Next(n, h) == a {
        PairSteps(a, i, h, bits);
      } else {
        FromOdd(n - 2, if j == 1 then i else 1, h, bits);
      }
    }
  }

  /** The longest search below height 2^bits. */
  function Longest(bits: nat): int
    requires bits >= 1
  {
    Tail(bits - 1) + bits - 4
  }

  /** No search among fewer than 2^bits blocks takes longer. */
  lemma {:induction false} StepsBound(n: nat, h: nat, bits: nat)
    requires bits >= 12 && n < Pow2(bits) && h <= n
    ensures Steps(n, h) <= Longest(bits)
  {
    hide Next, Low, Pow2, Tail, LowestOne;
    if n > 1 {
      if n % 2 == 1 {
        var j := LowOf(n - 1);
        FromOdd(n - 1, j, h, bits);
      } else {
        var j := LowOf(n);
        if j >= 3 { FromEight(n, j, h, bits); } else { FromEven(n, j, h, bits); }
      }
    } else if h < n {
      NextOne();
      StepsIs(1, 0);
    }
  }

  lemma {:induction false} LongestIs(j: nat)
    requires j >= 1
    ensures Longest(2 * j + 2) == j * j + 6 * j - 2 && Longest(2 * j + 3) == j * j + 7 * j + 1
  {
    TailIs(j);
  }

  // ---------- The longest search ----------

  lemma {:induction false} LowPow2(k: nat)
    ensures Low(Pow2(k), k)
  {
    if k > 0 { LowPow2(k - 1); }
  }

  /** The search for height 2 from a power of two takes every turn. */
  lemma {:induction false} TailReached(k: nat)
    requires k >= 3
    ensures Steps(Pow2(k), 2) == Tail(k)
    decreases k, k + 1
  {
    hide Next, Low, Pow2, Clear, Tail;
    LowPow2(k);
    LowEven(Pow2(k), k);
    Pow2Next(0);
    Pow2Next(1);
    Pow2Grows(2, k);
    var j := ClearLow(Pow2(k), k);
    NextEven(Pow2(k), 2);
    OddReached(k, 0);
  }

  lemma {:induction false} OddReached(k: nat, i: nat)
    requires k >= 3 && 2 * i + 2 <= k
    ensures 2 < OddBelow(Pow2(k), i) && Steps(OddBelow(Pow2(k), i), 2) + i + 1 == Tail(k)
    decreases k, k - i
  {
    hide Next, Low, Pow2, Clear, Tail;
    var x := Pow2(k);
    LowPow2(k);
    Pow2Next(0);
    Pow2Next(1);
    Pow2Next(k - 1);
    Pow2Next(2 * i + 1);
    Pow2Mono(2 * i + 2, k);
    Pow2Mono(1, 2 * i + 1);
    TailAbove(i);
    if 2 * i + 2 == k {
      OddLast(x, k, i, 2);
      TailReached(k - 1);
    } else {
      Pow2Next(2 * i + 2);
      Pow2Mono(2 * i + 3, k);
      OddNext(x, k, i, 2);
      if 2 * i + 3 == k {
        EvenNext(x, k, i, 2);
        StepsIs(OddBelow(x, i) - 1, 2);
        if i == 0 {
          TailFirst();
          FourToTwo();
        } else {
          TailReached(k - 1);
        }
      } else {
        Pow2Next(2 * i + 3);
        Pow2Mono(2 * i + 4, k);
        OddReached(k, i + 1);
      }
    }
  }

  lemma FourToTwo()
    ensures Steps(4, 2) == 2
  {
    assert GetSkipHeight(4) == 0 && GetSkipHeight(3) == 1;
    StepsIs(4, 2);
    StepsIs(3, 2);
  }

  lemma {:induction false} EightsReached(bits: nat, j: nat)
    requires 3 <= j < bits
    ensures 2 < Pow2(bits) - Pow2(j) && Steps(Pow2(bits) - Pow2(j), 2) == bits - 1 - j + Tail(bits - 1)
    decreases bits - j
  {
    hide Next, Low, Pow2, Clear, Tail, GetSkipHeight;
    Pow2Next(bits - 1);
    Pow2Next(1);
    Pow2Next(0);
    Pow2Mono(2, j);
    if j == bits - 1 {
      TailReached(j);
    } else {
      EightsReached(bits, j + 1);
      LowPow2(bits);
      Descend(Pow2(bits), bits, j);
      FarPrev(Pow2(bits) - Pow2(j), j);
      Pow2Mono(j + 2, bits);
      Pow2Next(j);
      Pow2Next(j + 1);
      NextEven(Pow2(bits) - Pow2(j), 2);
      StepsIs(Pow2(bits) - Pow2(j), 2);
    }
  }

  /** The bound is reached, from eight below the top to height 2. */
  lemma StepsReached(bits: nat)
    requires bits >= 4
    ensures 2 < Pow2(bits) - 8 < Pow2(bits) && Steps(Pow2(bits) - 8, 2) == Longest(bits)
  {
    hide Pow2, Tail, Steps;
    Pow2Next(0);
    Pow2Next(1);
    Pow2Next(2);
    Pow2Next(3);
    Pow2Mono(4, bits);
    EightsReached(bits, 3);
  }

  /** Among 2^18 blocks the longest search takes exactly 110 steps. */
  lemma StepsOf18()
    ensures forall n: nat, h: nat :: h <= n < Pow2(18) ==> Steps(n, h) <= 110
    ensures Pow2(18) - 8 > 2 && Steps(Pow2(18) - 8, 2) == 110
  {
    hide Pow2, Steps, Longest;
    LongestIs(8);
    forall n: nat, h: nat | h <= n < Pow2(18) ensures Steps(n, h) <= 110 { StepsBound(n, h, 18); }
    StepsReached(18);
  }
}
