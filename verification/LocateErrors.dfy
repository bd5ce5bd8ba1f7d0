/**
 Locating wrong symbols (bech32.cpp, LocateErrors): places are found exactly if one or two wrong symbols explain the
 checksum.
 */
module LocateErrors {
  import opened Bech32
  import opened Gf1024
  import opened Bch
  import opened GfLog
  import opened GfTables
  import opened ErrorLocator
  import opened Syndromes

  // ---------- Table lookups ----------

  lemma LogAt(exp: seq<bv32>, log: seq<int>, s: bv32)
    requires Tables(exp, log) && s < 1024
    ensures |exp| == 1023 && |log| == 1024 && Index(s) < 1024
    ensures if s == 0 then log[Index(s)] == -1 && Element(s) == 0
            else log[Index(s)] >= 0 && IsLog(Element(s), log[Index(s)]) && Element(s) != 0
    ensures Element(s) < 1024
  {
    hide Element, Index, Exp;
    ElementIndex(s);
    ElementZero(s);
    ElementSmall(s);
    if s != 0 { assert Logged(log, s); }
  }

  lemma ExpAt(exp: seq<bv32>, log: seq<int>, k: nat)
    requires Tables(exp, log) && k < 1023
    ensures |exp| == 1023 && exp[k] < 1024 && Element(exp[k]) == Exp(k)
  {}

  /** A product with a power of e, by the tables. */
  method TimesPower(s: bv32, p: nat, exp: seq<bv32>, log: seq<int>) returns (t: bv32)
    requires Tables(exp, log) && s < 1024
    ensures t < 1024 && Element(t) == Raise(p, Element(s))
  {
    hide Element, Index, Exp, Tables, Raise;
    LogAt(exp, log, s);
    if s == 0 {
      RaiseFacts(p, 0);
      return 0;
    }
    var l := log[Index(s)];
    RaiseExp(p, l);
    ExpSame((l + p) % 1023, p + l);
    ExpAt(exp, log, (l + p) % 1023);
    t := exp[(l + p) % 1023];
  }

  /** `v + e^p * u` in codes. */
  method RestOf(s: bv32, t: bv32, p: nat, exp: seq<bv32>, log: seq<int>) returns (r: bv32)
    requires Tables(exp, log) && s < 1024 && t < 1024
    ensures r < 1024 && Element(r) == Rest(Element(s), Element(t), p)
  {
    hide Element, Tables, Raise, Xor;
    var m := TimesPower(s, p, exp, log);
    XorIs(t, m);
    XorSmall(t, m);
    ElementLinear(t, m);
    r := t ^ m;
  }

  lemma XorIs(a: bv32, b: bv32)
    ensures a ^ b == Xor(a, b)
  {}

  // ---------- One guess ----------

  /** Guess one place, compute the other, and check both symbols. */
  method TryPlace(s0: bv32, s1: bv32, s2: bv32, p1: nat, length: nat, exp: seq<bv32>, log: seq<int>)
    returns (found: bool, p2: nat)
    requires Tables(exp, log) && s0 < 1024 && s1 < 1024 && s2 < 1024 && p1 < length <= 1023
    ensures found ==> p2 < length && p2 != p1 && PairAt(Element(s0), Element(s1), Element(s2), p1, p2)
    ensures !found ==> forall q :: 0 <= q < length && q != p1 ==>
      !PairAt(Element(s0), Element(s1), Element(s2), p1, q)
  {
    hide Element, Tables, Raise, Xor, PairAt, Rest, Exp, Index, Between;
    ghost var u0, u1, u2 := Element(s0), Element(s1), Element(s2);
    LogAt(exp, log, s0);
    LogAt(exp, log, s1);
    LogAt(exp, log, s2);
    forall q: nat | q < length && q != p1 && PairAt(u0, u1, u2, p1, q)
      ensures Rest(u0, u1, p1) != 0 && Rest(u0, u1, q) != 0 && Rest(u1, u2, p1) != 0
      ensures Rest(u1, u2, p1) == Raise(q, Rest(u0, u1, p1))
    {
      PairRests(u0, u1, u2, p1, q);
    }
    found, p2 := false, 0;
    var a := RestOf(s1, s2, p1, exp, log);
    LogAt(exp, log, a);
    if a == 0 { return; }
    var b := RestOf(s0, s1, p1, exp, log);
    LogAt(exp, log, b);
    if b == 0 { return; }
    var la, lb := log[Index(a)], log[Index(b)];
    p2 := (la - lb + 1023) % 1023;
    forall q: nat | q < 1023 ensures Element(a) == Raise(q, Element(b)) <==> q == p2 {
      ApartIff(Element(b), Element(a), lb, la, q);
    }
    if p2 >= length || p1 == p2 { return; }
    var c := RestOf(s0, s1, p2, exp, log);
    LogAt(exp, log, c);
    if c == 0 { return; }
    var lc := log[Index(c)];
    var inv := InversePower(p1, p2, exp, log);
    PairAtIff(u0, u1, u2, p1, p2, lb, lc);
    if (lb + inv + 26 * p2) % 33 != 0 { return; }
    if (lc + inv + 26 * p1) % 33 != 0 { return; }
    found := true;
  }

  lemma SumCode(s: bv32, t: bv32, p: nat, q: nat)
    requires s < 1024 && t < 1024 && Element(s) == Exp(p) && Element(t) == Exp(q) && p < 1023 && q < 1023 && p != q
    ensures Xor(s, t) < 1024 && Xor(s, t) != 0 && Element(Xor(s, t)) == Xor(Exp(p), Exp(q))
  {
    hide Element, Xor, Exp;
    XorSmall(s, t);
    ElementLinear(s, t);
    XorZero(s, t);
    if s == t { ExpDistinct(p, q); }
  }

  /** The logarithm of 1 / (e^p + e^q). */
  method InversePower(p: nat, q: nat, exp: seq<bv32>, log: seq<int>) returns (i: nat)
    requires Tables(exp, log) && p < 1023 && q < 1023 && p != q
    ensures i == 1023 - Between(p, q)
  {
    hide Element, Tables, Xor, Exp, Index;
    ExpAt(exp, log, p);
    ExpAt(exp, log, q);
    SumCode(exp[p], exp[q], p, q);
    var x := Xor(exp[p], exp[q]);
    LogAt(exp, log, x);
    var l := log[Index(x)];
    ExpDistinct(l, Between(p, q));
    i := 1023 - l;
  }

  // ---------- The search ----------

  /** The places found, counted from the right: one wrong symbol, two, or none. */
  ghost predicate Located(residue: bv32, length: nat, places: seq<nat>) {
    && |places| <= 2 && (forall i :: 0 <= i < |places| ==> places[i] < length)
    && (forall p :: 0 <= p < length ==> (Single(residue, p) <==> places == [p]))
    && (|places| == 2 ==> places[0] > places[1] && Double(residue, places[0], places[1]))
    && ((exists p, q :: 0 <= p < length && 0 <= q < length && Double(residue, p, q)) ==> |places| == 2)
  }

  /** The test for one wrong symbol succeeds: at most that symbol. */
  lemma OneCase(residue: bv32, u0: bv32, u1: bv32, u2: bv32, l0: nat, l1: nat, l2: nat, length: nat)
    requires residue < 0x4000_0000 && Values3(residue, u0, u1, u2) && Triple(u0, u1, u2) && length <= 1023
    requires IsLog(u0, l0) && IsLog(u1, l1) && IsLog(u2, l2) && (2 * l1 - l2 - l0 + 2046) % 1023 == 0
    ensures var p := Apart(l1, l0);
      Located(residue, length, if p < length && (l0 + 26 * p) % 33 == 0 then [p] else [])
  {
    hide Single, Double, ErrorAt, Exp, Two, Values3, PairAt;
    hide One;
    var m := Apart(l1, l0);
    OneByLogs(u0, u1, u2, l0, l1, l2);
    forall p: nat | p < length ensures Single(residue, p) <==> p == m && (l0 + 26 * p) % 33 == 0 {
      SingleIff(residue, u0, u1, u2, p);
      ErrorAtIff(u0, l0, p);
    }
    forall p: nat, q: nat | p < length && q < length ensures !Double(residue, p, q) {
      NoDouble(residue, u0, u1, u2, m, p, q);
    }
  }

  lemma NoDouble(residue: bv32, u0: bv32, u1: bv32, u2: bv32, m: nat, p: nat, q: nat)
    requires residue < 0x4000_0000 && Values3(residue, u0, u1, u2) && Triple(u0, u1, u2)
    requires m < 1023 && p < 1023 && q < 1023 && One(u0, u1, u2, m)
    ensures !Double(residue, p, q)
  {
    hide ErrorAt, Two, Values3, One;
    if Double(residue, p, q) {
      DoubleIff(residue, u0, u1, u2, p, q);
      var x, y, c, d :| ErrorAt(x, p, c) && ErrorAt(y, q, d) && Two(u0, u1, u2, p, x, q, y);
      ErrorNonZero(x, p, c);
      ErrorNonZero(y, q, d);
      NotBoth(u0, u1, u2, m, p, x, q, y);
    }
  }

  /** The test for one wrong symbol fails: none explains the residue. */
  lemma NoSingle(residue: bv32, u0: bv32, u1: bv32, u2: bv32, p: nat)
    requires residue < 0x4000_0000 && Values3(residue, u0, u1, u2) && Triple(u0, u1, u2) && p < 1023
    requires u0 == 0 || u1 == 0 || u2 == 0 || (2 * Log(u1) - Log(u2) - Log(u0) + 2046) % 1023 != 0
    ensures !Single(residue, p)
  {
    hide Exp, Values3, Raise;
    if Single(residue, p) {
      SingleIff(residue, u0, u1, u2, p);
      var d :| ErrorAt(u0, p, d);
      ErrorNonZero(u0, p, d);
      RaiseFacts(p, u0);
      RaiseFacts(p, u1);
      OneByLogs(u0, u1, u2, Log(u0), Log(u1), Log(u2));
      assert false;
    }
  }

  /** Nothing found at any place: two wrong symbols do not explain the residue. */
  lemma NoPairs(residue: bv32, u0: bv32, u1: bv32, u2: bv32, length: nat)
    requires residue < 0x4000_0000 && Values3(residue, u0, u1, u2)
    requires forall p, q :: 0 <= p < length && 0 <= q < length && p != q ==> !PairAt(u0, u1, u2, p, q)
    ensures forall p, q :: 0 <= p < length && 0 <= q < length ==> !Double(residue, p, q)
  {
    hide Values3, PairAt;
    forall p, q | 0 <= p < length && 0 <= q < length ensures !Double(residue, p, q) {
      if p != q { DoubleIff(residue, u0, u1, u2, p, q); }
    }
  }

  /** The search for places that explain a residue. */
  method Locate(residue: bv32, length: nat, exp: seq<bv32>, log: seq<int>, consts: seq<bv32>) returns (places: seq<nat>)
    requires residue < 0x4000_0000 && length <= 1023 && Tables(exp, log)
    requires |consts| == 25 && forall i :: 0 <= i < 25 ==> Holds(consts[i], BitAt(5 + i))
    ensures Located(residue, length, places)
  {
    hide Tables, Holds, Element, Exp, Index, Values3, Located, Single, Double;
    var syn := Syndrome(residue, consts);
    var s0, s1, s2 := syn & 0x3ff, (syn >> 10) & 0x3ff, syn >> 20;
    ThreeValues(syn, residue);
    LogAt(exp, log, s0);
    LogAt(exp, log, s1);
    LogAt(exp, log, s2);
    ghost var u0, u1, u2 := Element(s0), Element(s1), Element(s2);
    var l0, l1, l2 := log[Index(s0)], log[Index(s1)], log[Index(s2)];
    if l0 != -1 && l1 != -1 && l2 != -1 && (2 * l1 - l2 - l0 + 2046) % 1023 == 0 {
      OneCase(residue, u0, u1, u2, l0, l1, l2, length);
      var p1 := (l1 - l0 + 1023) % 1023;
      if p1 < length && (l0 + 26 * p1) % 33 == 0 { return [p1]; }
      return [];
    }
    forall p: nat | p < length ensures !Single(residue, p) {
      SameLogs(u0, u1, u2, l0, l1, l2);
      NoSingle(residue, u0, u1, u2, p);
    }
    for p1 := 0 to length
      invariant forall p, q :: 0 <= p < p1 && 0 <= q < length && p != q ==> !PairAt(u0, u1, u2, p, q)
    {
      var found, p2 := TryPlace(s0, s1, s2, p1, length, exp, log);
      if found {
        PairFound(residue, u0, u1, u2, p1, p2, length);
        return if p1 > p2 then [p1, p2] else [p2, p1];
      }
    }
    NoPairs(residue, u0, u1, u2, length);
    NoneFound(residue, length);
    return [];
  }

  lemma ThreeValues(syn: bv32, residue: bv32)
    requires Holds(syn, residue)
    ensures var s0, s1, s2 := syn & 0x3ff, (syn >> 10) & 0x3ff, syn >> 20;
      s0 < 1024 && s1 < 1024 && s2 < 1024 && Values3(residue, Element(s0), Element(s1), Element(s2))
  {
    hide Element, ValueOf;
    assert Element(Group(syn, 0)) == ValueOf(0, residue);
    assert Element(Group(syn, 1)) == ValueOf(1, residue);
    assert Element(Group(syn, 2)) == ValueOf(2, residue);
  }

  lemma SameLogs(u0: bv32, u1: bv32, u2: bv32, l0: int, l1: int, l2: int)
    requires Triple(u0, u1, u2)
    requires if u0 == 0 then l0 == -1 else l0 >= 0 && IsLog(u0, l0)
    requires if u1 == 0 then l1 == -1 else l1 >= 0 && IsLog(u1, l1)
    requires if u2 == 0 then l2 == -1 else l2 >= 0 && IsLog(u2, l2)
    ensures (u0 != 0 ==> l0 == Log(u0)) && (u1 != 0 ==> l1 == Log(u1)) && (u2 != 0 ==> l2 == Log(u2))
  {
    hide Exp;
    if u0 != 0 { LogUnique(u0, l0); }
    if u1 != 0 { LogUnique(u1, l1); }
    if u2 != 0 { LogUnique(u2, l2); }
  }

  lemma PairFound(residue: bv32, u0: bv32, u1: bv32, u2: bv32, p1: nat, p2: nat, length: nat)
    requires residue < 0x4000_0000 && Values3(residue, u0, u1, u2) && p1 < length && p2 < length && p1 != p2
    requires PairAt(u0, u1, u2, p1, p2) && forall p: nat :: p < length ==> !Single(residue, p)
    ensures Located(residue, length, if p1 > p2 then [p1, p2] else [p2, p1])
  {
    hide PairAt, Values3, Single, Double;
    DoubleIff(residue, u0, u1, u2, p1, p2);
    DoubleSwap(residue, p1, p2);
  }

  lemma NoneFound(residue: bv32, length: nat)
    requires forall p: nat :: p < length ==> !Single(residue, p)
    requires forall p, q :: 0 <= p < length && 0 <= q < length ==> !Double(residue, p, q)
    ensures Located(residue, length, [])
  {
    hide Single, Double;
  }

  // ---------- What the places mean ----------

  /** The checksum of a list, less the constant of the encoding: zero exactly for valid lists. */
  function Residue(e: Encoding, hrp: string, values: seq<bv32>): bv32 {
    Xor(State(hrp, values), Constant(e))
  }

  /** The list with its symbol at place `p`, counted from the right, changed by `d`. */
  function Changed(values: seq<bv32>, p: nat, d: bv32): (r: seq<bv32>)
    requires p < |values|
    ensures |r| == |values|
  {
    var i := |values| - 1 - p;
    values[i := Xor(values[i], d)]
  }

  lemma ChangedState(hrp: string, values: seq<bv32>, p: nat, d: bv32)
    requires p < |values| && d < 32
    ensures State(hrp, Changed(values, p, d)) == Xor(State(hrp, values), Wrong(p, d))
  {
    hide Xor, Poly, Expand;
    var c, i := Poly(1, Expand(hrp)), |values| - 1 - p;
    var error := Zeros(i) + ([d] + Zeros(p));
    forall k | 0 <= k < |values| ensures Changed(values, p, d)[k] == XorAll(values, error)[k] {
      XorUnits(values[k]);
    }
    assert Changed(values, p, d) == XorAll(values, error);
    XorUnits(c);
    PolyLinear(c, 0, values, error);
    PolyConcat(0, Zeros(i), [d] + Zeros(p));
    ZerosKeep(0, Zeros(i));
  }

  /** One wrong symbol explains the residue exactly if changing that symbol makes the list valid. */
  lemma SingleMeans(e: Encoding, hrp: string, values: seq<bv32>, p: nat)
    requires p < |values|
    ensures Single(Residue(e, hrp, values), p) <==>
            exists d: bv32 :: 0 < d < 32 && State(hrp, Changed(values, p, d)) == Constant(e)
  {
    hide Xor, State, Wrong, Changed, Constant;
    var residue := Residue(e, hrp, values);
    forall d: bv32 | 0 < d < 32
      ensures residue == Wrong(p, d) <==> State(hrp, Changed(values, p, d)) == Constant(e)
    {
      ChangedState(hrp, values, p, d);
      SidesSwap(State(hrp, values), Constant(e), Wrong(p, d));
    }
    if Single(residue, p) {
      var d: bv32 :| 0 < d < 32 && residue == Wrong(p, d);
      assert State(hrp, Changed(values, p, d)) == Constant(e);
    }
    if d: bv32 :| 0 < d < 32 && State(hrp, Changed(values, p, d)) == Constant(e) {
      assert residue == Wrong(p, d);
    }
  }

  lemma SidesSwap(a: bv32, b: bv32, c: bv32)
    ensures Xor(a, b) == c <==> Xor(a, c) == b
  {
    hide Xor;
    if Xor(a, b) == c { XorBack(a, b); }
    if Xor(a, c) == b { XorBack(a, c); }
  }

  lemma DoubleMeans(e: Encoding, hrp: string, values: seq<bv32>, p: nat, q: nat)
    requires p < |values| && q < |values|
    ensures Double(Residue(e, hrp, values), p, q) <==> p != q && exists c: bv32, d: bv32 ::
      0 < c < 32 && 0 < d < 32 && State(hrp, Changed(Changed(values, p, c), q, d)) == Constant(e)
  {
    hide Xor, State, Wrong, Changed, Constant;
    var residue := Residue(e, hrp, values);
    if Double(residue, p, q) {
      var c: bv32, d: bv32 :| 0 < c < 32 && 0 < d < 32 && residue == Xor(Wrong(p, c), Wrong(q, d));
      ChangedTwice(e, hrp, values, p, c, q, d);
      assert State(hrp, Changed(Changed(values, p, c), q, d)) == Constant(e);
    }
    if c: bv32, d: bv32 :|
        0 < c < 32 && 0 < d < 32 && State(hrp, Changed(Changed(values, p, c), q, d)) == Constant(e) {
      ChangedTwice(e, hrp, values, p, c, q, d);
      assert residue == Xor(Wrong(p, c), Wrong(q, d));
    }
  }

  lemma ChangedTwice(e: Encoding, hrp: string, values: seq<bv32>, p: nat, c: bv32, q: nat, d: bv32)
    requires p < |values| && q < |values| && c < 32 && d < 32
    ensures Residue(e, hrp, values) == Xor(Wrong(p, c), Wrong(q, d)) <==>
            State(hrp, Changed(Changed(values, p, c), q, d)) == Constant(e)
  {
    hide Xor, State, Wrong, Changed, Constant;
    ChangedState(hrp, values, p, c);
    ChangedState(hrp, Changed(values, p, c), q, d);
    XorAssoc(State(hrp, values), Wrong(p, c), Wrong(q, d));
    SidesSwap(State(hrp, values), Constant(e), Xor(Wrong(p, c), Wrong(q, d)));
  }

  /** One wrong symbol of a valid list is found, and nothing else. */
  lemma OneWrongFound(e: Encoding, hrp: string, values: seq<bv32>, p: nat, d: bv32, places: seq<nat>)
    requires State(hrp, values) == Constant(e) && p < |values| && 0 < d < 32
    requires Located(Residue(e, hrp, Changed(values, p, d)), |values|, places)
    ensures places == [p]
  {
    hide State, Wrong, Changed, Double, Xor;
    ChangedState(hrp, values, p, d);
    XorCommutes(State(hrp, values), Wrong(p, d));
    XorBack(Wrong(p, d), State(hrp, values));
    assert Single(Residue(e, hrp, Changed(values, p, d)), p);
  }

  /** For two wrong symbols two places are found whose symbols, suitably changed, make the list valid again. */
  lemma TwoWrongFound(e: Encoding, hrp: string, values: seq<bv32>, p: nat, c: bv32, q: nat, d: bv32, places: seq<nat>)
    requires State(hrp, values) == Constant(e) && p < |values| && q < |values| && p != q && 0 < c < 32 && 0 < d < 32
    requires Located(Residue(e, hrp, Changed(Changed(values, p, c), q, d)), |values|, places)
    ensures |places| == 2 && Double(Residue(e, hrp, Changed(Changed(values, p, c), q, d)), places[0], places[1])
  {
    hide State, Wrong, Changed, Single, Xor;
    ChangedState(hrp, values, p, c);
    ChangedState(hrp, Changed(values, p, c), q, d);
    var x, w := State(hrp, values), Xor(Wrong(p, c), Wrong(q, d));
    XorAssoc(x, Wrong(p, c), Wrong(q, d));
    XorCommutes(x, w);
    XorBack(w, x);
    assert Double(Residue(e, hrp, Changed(Changed(values, p, c), q, d)), p, q);
  }

  // ---------- Strings ----------

  /** The residue of a list for one encoding, and the places that explain it. */
  method PossibleErrors(e: Encoding, hrp: string, values: seq<bv32>, exp: seq<bv32>, log: seq<int>, consts: seq<bv32>)
    returns (residue: bv32, places: seq<nat>)
    requires Symbols(values) && 0 < |values| <= 1023 && Tables(exp, log)
    requires |consts| == 25 && forall i :: 0 <= i < 25 ==> Holds(consts[i], BitAt(5 + i))
    ensures residue == Residue(e, hrp, values) && (residue != 0 ==> Located(residue, |values|, places))
  {
    hide Poly, Expand, Tables, Holds, Located, BitAt, Xor;
    var enc := PreparePolynomialCoefficients(hrp, values);
    PolyConcat(1, Expand(hrp), values);
    var c := PolyMod(enc);
    residue := Xor(c, Constant(e));
    places := [];
    if residue != 0 {
      ResidueBound(e, hrp, values);
      places := Locate(residue, |values|, exp, log, consts);
    }
  }

  lemma ResidueBound(e: Encoding, hrp: string, values: seq<bv32>)
    requires Symbols(values) && |values| > 0
    ensures Residue(e, hrp, values) < 0x4000_0000
  {
    hide Step, Xor, Expand;
    StepBounded(Poly(Poly(1, Expand(hrp)), values[..|values| - 1]), values[|values| - 1]);
    XorBound(State(hrp, values), Constant(e));
  }

  /** The shorter list of places, the first one in case of a tie. */
  function Chosen(a: seq<nat>, b: seq<nat>): seq<nat> {
    if a == [] || (b != [] && |b| < |a|) then b else a
  }

  function Message(a: seq<nat>, b: seq<nat>): string {
    if a == [] || (b != [] && |b| < |a|) then if b == [] then "Invalid checksum" else "Invalid Bech32m checksum"
    else "Invalid Bech32 checksum"
  }

  /** Places counted from the right, as indices of a string of length `n`. */
  function Indices(n: nat, places: seq<nat>): seq<int> {
    seq(|places|, i requires 0 <= i < |places| => n - places[i] - 1)
  }

  function From(a: int, b: int): seq<int>
    requires a <= b
  {
    seq(b - a, i => a + i)
  }

  /** The report on a string of symbols with its checksum. */
  ghost predicate ChecksumReport(n: nat, hrp: string, values: seq<bv32>, message: string, errors: seq<int>) {
    var r, m := Residue(BECH32, hrp, values), Residue(BECH32M, hrp, values);
    if r == 0 || m == 0 then message == "" && errors == []
    else exists a, b :: Reasons(r, m, |values|, a, b) && message == Message(a, b) && errors == Indices(n, Chosen(a, b))
  }

  /** The places found for the two encodings. */
  ghost predicate Reasons(r: bv32, m: bv32, length: nat, a: seq<nat>, b: seq<nat>) {
    Located(r, length, a) && Located(m, length, b)
  }

  /** The report on a string: the first defect in the order of the checks. */
  ghost predicate Report(s: string, limit: nat, message: string, errors: seq<int>) {
    var pos := LastSeparator(s);
    if |s| > limit then message == "Bech32 string too long" && errors == From(limit, |s|)
    else if !Clean(s) then
      && message == "Invalid character or mixed case"
      && (forall k :: k in errors <==> 0 <= k < |s| && Offends(FirstLetter(s), s[k]))
      && forall k, l :: 0 <= k < l < |errors| ==> errors[k] < errors[l]
    else if pos == -1 then message == "Missing separator" && errors == []
    else if pos == 0 || pos + 6 >= |s| then message == "Invalid separator position" && errors == [pos]
    else if exists i :: pos < i < |s| && Rev(s[i]) == NO_SYMBOL then
      && message == "Invalid Base 32 character" && |errors| == 1 && pos < errors[0] < |s|
      && Rev(s[errors[0]]) == NO_SYMBOL && forall i :: pos < i < errors[0] ==> Rev(s[i]) != NO_SYMBOL
    else ChecksumReport(|s|, Lowered(s[..pos]), Revs(s[pos + 1..]), message, errors)
  }

  method LocateErrors(s: string, limit: nat) returns (message: string, errors: seq<int>)
    requires limit <= 1023
    ensures Report(s, limit, message, errors)
  {
    hide Clean, Rev, FirstLetter, Offends, ChecksumReport, LowerCase, Lowered;
    if |s| > limit {
      errors := [];
      for i := limit to |s|
        invariant errors == From(limit, i)
      {
        errors := errors + [i];
      }
      return "Bech32 string too long", errors;
    }
    var ok, bad := CheckCharacters(s);
    if !ok { return "Invalid character or mixed case", bad; }
    var pos := LastSeparator(s);
    if pos == -1 { return "Missing separator", []; }
    if pos == 0 || pos + 6 >= |s| { return "Invalid separator position", [pos]; }
    var hrp := "";
    for i := 0 to pos
      invariant |hrp| == i && forall j :: 0 <= j < i ==> hrp[j] == LowerCase(s[j])
    {
      hrp := hrp + [LowerCase(s[i])];
    }
    IsLowered(s, pos, hrp);
    var values := [];
    for i := pos + 1 to |s|
      invariant |values| == i - pos - 1
      invariant forall j :: pos < j < i ==> values[j - pos - 1] == Rev(s[j]) != NO_SYMBOL
    {
      var rev := Rev(s[i]);
      if rev == NO_SYMBOL { return "Invalid Base 32 character", [i]; }
      values := values + [rev];
    }
    forall i | 0 <= i < |values| ensures values[i] < 32 {
      assert values[i] == Rev(s[pos + 1 + i]);
      CharOfRev(s[pos + 1 + i]);
    }
    assert values == Revs(s[pos + 1..]);
    message, errors := ChecksumErrors(|s|, hrp, values);
  }

  method ChecksumErrors(n: nat, hrp: string, values: seq<bv32>) returns (message: string, errors: seq<int>)
    requires Symbols(values) && 0 < |values| <= 1023
    ensures ChecksumReport(n, hrp, values, message, errors)
  {
    hide Tables, Holds, Located, BitAt, Residue;
    var exp, log := GenerateGFTables();
    var consts := GenerateSyndromeConstants(exp, log);
    var r, a := PossibleErrors(BECH32, hrp, values, exp, log, consts);
    if r == 0 { return "", []; }
    var m, b := PossibleErrors(BECH32M, hrp, values, exp, log, consts);
    if m == 0 { return "", []; }
    assert Reasons(r, m, |values|, a, b);
    return Message(a, b), Indices(n, Chosen(a, b));
  }

  /** Nothing is reported exactly for the strings that decode. */
  lemma NothingReportedIff(s: string, limit: nat, message: string, errors: seq<int>)
    requires Report(s, limit, message, errors)
    ensures message == "" <==> |s| <= limit && exists e, hrp, data :: Encodes(s, e, hrp, data)
  {
    hide Clean, Rev, Encodes, Lowered, Located, Residue, Offends, FirstLetter;
    var pos := LastSeparator(s);
    if |s| <= limit && exists e, hrp, data :: Encodes(s, e, hrp, data) {
      var e, hrp, data :| Encodes(s, e, hrp, data);
      EncodingReported(s, e, hrp, data);
      assert e == BECH32 || e == BECH32M;
      assert message == "";
    }
    if message == "" {
      assert |s| <= limit && Clean(s) && 0 < pos && pos + 6 < |s|;
      var hrp, values := Lowered(s[..pos]), Revs(s[pos + 1..]);
      forall i | 0 <= i < |values| ensures values[i] != NO_SYMBOL { assert values[i] == Rev(s[pos + 1 + i]); }
      var e := if Residue(BECH32, hrp, values) == 0 then BECH32 else BECH32M;
      ResidueZero(e, hrp, values);
      DecodedEncodes(s, pos, e, hrp, values);
    }
  }

  lemma ResidueZero(e: Encoding, hrp: string, values: seq<bv32>)
    ensures Residue(e, hrp, values) == 0 <==> State(hrp, values) == Constant(e)
  {
    hide Xor, State;
    XorZero(State(hrp, values), Constant(e));
  }

  /** An encoding passes every check. */
  lemma EncodingReported(s: string, e: Encoding, hrp: string, data: seq<bv32>)
    requires Encodes(s, e, hrp, data)
    ensures var pos := LastSeparator(s);
      && Clean(s) && 0 < pos && pos + 6 < |s|
      && (forall i :: pos < i < |s| ==> Rev(s[i]) != NO_SYMBOL)
      && Residue(e, Lowered(s[..pos]), Revs(s[pos + 1..])) == 0
  {
    hide Rev, Lowered, State, Residue, Clean, Values, CharOf, Checksum;
    EncodedParts(s, e, hrp, data);
    forall i | |hrp| < i < |s| ensures Rev(s[i]) != NO_SYMBOL { EncodedSymbol(s, e, hrp, data, i); }
    ResidueZero(e, hrp, Values(e, hrp, data));
  }

  // ---------- The two constants ----------

  /** What Bech32 and Bech32m differ by. */
  const DIFFERENCE: bv32 := 0x2bc830a2

  lemma DifferenceDigits()
    ensures Unpack(DIFFERENCE) == [21, 28, 16, 12, 5, 2] && Constant(BECH32) ^ Constant(BECH32M) == DIFFERENCE
    ensures Embed(21) == 928 && Embed(28) == 454 && Embed(16) == 290 && Embed(12) == 228 && Embed(5) == 642
    ensures Embed(2) == 333
  {
    assert Unpack(DIFFERENCE)[0] == 21 && Unpack(DIFFERENCE)[1] == 28 && Unpack(DIFFERENCE)[2] == 16;
    assert Unpack(DIFFERENCE)[3] == 12 && Unpack(DIFFERENCE)[4] == 5 && Unpack(DIFFERENCE)[5] == 2;
  }

  lemma DifferenceProducts()
    ensures AtRoot(0, 928) == 731 && AtRoot(0, 797) == 863 && AtRoot(0, 637) == 245 && AtRoot(0, 17) == 221
    ensures AtRoot(0, 607) == 335 && AtRoot(1, 928) == 915 && AtRoot(1, 597) == 634 && AtRoot(1, 856) == 76
    ensures AtRoot(1, 168) == 730 && AtRoot(1, 88) == 469 && AtRoot(2, 928) == 259 && AtRoot(2, 197) == 826
    ensures AtRoot(2, 536) == 735 && AtRoot(2, 571) == 550 && AtRoot(2, 164) == 737
  {}

  lemma DifferenceSums()
    ensures Xor(731, 454) == 797 && Xor(863, 290) == 637 && Xor(245, 228) == 17 && Xor(221, 642) == 607
    ensures Xor(335, 333) == 2 && Xor(915, 454) == 597 && Xor(634, 290) == 856 && Xor(76, 228) == 168
    ensures Xor(730, 642) == 88 && Xor(469, 333) == 152 && Xor(259, 454) == 197 && Xor(826, 290) == 536
    ensures Xor(735, 228) == 571 && Xor(550, 642) == 164 && Xor(737, 333) == 940
  {}

  lemma DifferenceValues()
    ensures Values3(DIFFERENCE, 2, 152, 940)
  {
    hide AtRoot, Embed, Xor, Unpack, Value;
    DifferenceDigits();
    DifferenceProducts();
    DifferenceSums();
    UnpackSymbols(DIFFERENCE);
    ValueIsHorner(0, Unpack(DIFFERENCE));
    ValueIsHorner(1, Unpack(DIFFERENCE));
    ValueIsHorner(2, Unpack(DIFFERENCE));
  }

  lemma DifferenceSquares()
    ensures Mul(152, 152) == 195 && Mul(2, 940) == 381
  {}

  /** The square of the middle value is the product of the other two. */
  lemma OneSquare(u0: bv32, u1: bv32, u2: bv32, p: nat)
    requires Triple(u0, u1, u2) && u0 != 0 && One(u0, u1, u2, p)
    ensures Mul(u1, u1) == Mul(u0, u2)
  {
    hide Mul, Exp, Raise;
    var l := Log(u0);
    RaiseExp(p, l);
    RaiseExp(p, p + l);
    ExpAdd(p + l, p + l);
    ExpAdd(l, p + (p + l));
  }

  /** No change of one symbol turns Bech32 into Bech32m. */
  lemma ConstantsApart(p: nat)
    ensures !Single(DIFFERENCE, p)
  {
    hide Single, Mul, Values3;
    DifferenceValues();
    SingleIff(DIFFERENCE, 2, 152, 940, p);
    DifferenceSquares();
    if One(2, 152, 940, p) { OneSquare(2, 152, 940, p); }
  }

  lemma WrongSum(p: nat, c: bv32, d: bv32)
    ensures Xor(Wrong(p, c), Wrong(p, d)) == Wrong(p, Xor(c, d))
  {
    hide Xor, Poly;
    var v, w := [c] + Zeros(p), [d] + Zeros(p);
    XorUnits(0);
    PolyLinear(0, 0, v, w);
    assert XorAll(v, w) == [Xor(c, d)] + Zeros(p);
  }

  lemma WrongNonZero(p: nat, d: bv32)
    requires 0 < d < 32
    ensures Wrong(p, d) != 0
  {
    hide Wrong, ValueOf, Embed, Raise;
    WrongValues(p, d);
    ValueOfZero(0);
    EmbedFacts(d);
    RaiseFacts(997 * p, Embed(d));
  }

  /** The residues for the right and for the other encoding of a valid list with one wrong symbol. */
  lemma TwoResidues(x: bv32, c: bv32, m: bv32, w: bv32)
    requires x == Xor(c, w)
    ensures Xor(x, c) == w && Xor(x, m) == Xor(w, Xor(c, m))
  {
    hide Xor;
    XorCommutes(c, w);
    XorBack(w, c);
    XorAssoc(w, c, m);
  }

  lemma NotTheDifference(p: nat, d: bv32)
    requires 0 < d < 32
    ensures Xor(Wrong(p, d), DIFFERENCE) != 0 && !Single(Xor(Wrong(p, d), DIFFERENCE), p)
  {
    hide Xor, Wrong;
    var w := Wrong(p, d);
    ConstantsApart(p);
    XorZero(w, DIFFERENCE);
    if Single(Xor(w, DIFFERENCE), p) {
      var c: bv32 :| 0 < c < 32 && Xor(w, DIFFERENCE) == Wrong(p, c);
      SidesSwap(w, DIFFERENCE, Wrong(p, c));
      WrongSum(p, d, c);
      XorSymbol(d, c);
      XorZero(w, Wrong(p, c));
      assert DIFFERENCE != 0;
      XorZero(d, c);
    }
  }

  lemma OtherResidue(e: Encoding, hrp: string, values: seq<bv32>, p: nat, d: bv32)
    requires State(hrp, values) == Constant(e) && p < |values| && 0 < d < 32
    ensures Residue(BECH32, hrp, Changed(values, p, d)) != 0 && Residue(BECH32M, hrp, Changed(values, p, d)) != 0
    ensures e == BECH32M ==> !Single(Residue(BECH32, hrp, Changed(values, p, d)), p)
  {
    hide State, Changed, Wrong, Xor, Single, Constant;
    var c, m, w, x := Constant(BECH32), Constant(BECH32M), Wrong(p, d), State(hrp, Changed(values, p, d));
    ChangedState(hrp, values, p, d);
    DifferenceDigits();
    XorIs(c, m);
    XorCommutes(c, m);
    WrongNonZero(p, d);
    NotTheDifference(p, d);
    if e == BECH32 { TwoResidues(x, c, m, w); } else { TwoResidues(x, m, c, w); }
  }

  /** For Bech32m the right place is reported unless one wrong symbol explains the list as Bech32. */
  lemma ShorterList(r: bv32, n: nat, length: nat, p: nat, a: seq<nat>)
    requires Located(r, length, a) && p < length && !Single(r, p)
    ensures Indices(n, Chosen(a, [p])) == [n - p - 1] <==> forall q :: 0 <= q < length ==> !Single(r, q)
  {
    hide Single, Double;
    if |a| == 1 {
      assert a == [a[0]] && Single(r, a[0]);
      assert Indices(n, a)[0] == n - a[0] - 1;
    } else {
      forall q | 0 <= q < length ensures !Single(r, q) { assert a != [q]; }
      assert Indices(n, [p]) == [n - p - 1];
    }
  }

  /** The report on a valid list with one wrong symbol. */
  lemma OneWrongReported(n: nat, e: Encoding, hrp: string, values: seq<bv32>, p: nat, d: bv32,
                         message: string, errors: seq<int>)
    requires State(hrp, values) == Constant(e) && p < |values| && 0 < d < 32
    requires ChecksumReport(n, hrp, Changed(values, p, d), message, errors)
    ensures message != ""
    ensures errors == [n - p - 1] <==>
            e == BECH32 || forall q :: 0 <= q < |values| ==> !Single(Residue(BECH32, hrp, Changed(values, p, d)), q)
  {
    hide State, Changed, Single, Located, Residue;
    var w := Changed(values, p, d);
    var r, m := Residue(BECH32, hrp, w), Residue(BECH32M, hrp, w);
    OtherResidue(e, hrp, values, p, d);
    var a, b :| Reasons(r, m, |values|, a, b) && message == Message(a, b) && errors == Indices(n, Chosen(a, b));
    if e == BECH32 {
      OneWrongFound(e, hrp, values, p, d, a);
    } else {
      OneWrongFound(e, hrp, values, p, d, b);
      ShorterList(r, n, |values|, p, a);
    }
  }
}
