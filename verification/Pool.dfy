/**
 The mining pool's own block arithmetic (pool.js): the Merkle branch sent to miners, the 32-byte target made from
 nBits, and the byte-wise comparison of a hash with it.
 */
module Pool {
  import opened Arith
  import Limbs
  import opened Shifts
  import opened ArithUint
  import opened ByteOrder
  import Compact
  import Pow

  // ---------- Merkle branches ----------

  datatype Slot<T> = Null | Node(hash: T)

  function Pad<T>(s: seq<T>): seq<T>
    requires |s| > 0
  {
    if |s| % 2 != 0 then s + [s[|s| - 1]] else s
  }

  function Pairs<T>(h: (T, T) -> T, s: seq<T>): (r: seq<T>)
    ensures 2 * |r| <= |s| <= 2 * |r| + 1
  {
    if |s| < 2 then [] else [h(s[0], s[1])] + Pairs(h, s[2..])
  }

  lemma {:induction false} PairsAt<T>(h: (T, T) -> T, s: seq<T>, i: nat)
    requires i < |Pairs(h, s)|
    ensures Pairs(h, s)[i] == h(s[2 * i], s[2 * i + 1])
  {
    if i > 0 { PairsAt(h, s[2..], i - 1); }
  }

  /** The Merkle root: pair up level by level, the last node doubled where the count is odd. */
  function MerkleRoot<T>(h: (T, T) -> T, s: seq<T>): T
    requires |s| > 0
    decreases |s|
  {
    if |s| == 1 then s[0] else MerkleRoot(h, Pairs(h, Pad(s)))
  }

  /** What a miner does with the branch. */
  function Fold<T>(h: (T, T) -> T, c: T, branch: seq<T>): T {
    if branch == [] then c else h(Fold(h, c, branch[..|branch| - 1]), branch[|branch| - 1])
  }

  method FoldBranch<T>(h: (T, T) -> T, coinbase: T, branch: seq<T>) returns (root: T)
    ensures root == Fold(h, coinbase, branch)
  {
    root := coinbase;
    for i := 0 to |branch|
      invariant root == Fold(h, coinbase, branch[..i])
    {
      assert branch[..i + 1][..i] == branch[..i];
      root := h(root, branch[i]);
    }
    assert branch[..|branch|] == branch;
  }

  /** `hashes` is the unknown first slot followed by `rest`. */
  ghost predicate Holds<T>(hashes: seq<Slot<T>>, rest: seq<T>) {
    |hashes| == |rest| + 1 && hashes[0].Null? && forall i :: 1 <= i < |hashes| ==> hashes[i] == Node(rest[i - 1])
  }

  /** The inner loop: pair up one level, whose first pair has an unknown left node. */
  method NextLevel<T>(h: (T, T) -> T, hashes: seq<Slot<T>>, ghost rest: seq<T>) returns (sibling: T, next: seq<Slot<T>>)
    requires Holds(hashes, rest) && |rest| > 0 && |hashes| % 2 == 0
    ensures sibling == rest[0] && Holds(next, Pairs(h, rest[1..]))
  {
    sibling := hashes[1].hash;
    next := [];
    for k := 0 to |hashes| / 2
      invariant sibling == rest[0] && |next| == k && (k > 0 ==> next[0].Null?)
      invariant forall i :: 1 <= i < k ==> next[i] == Node(h(rest[2 * i - 1], rest[2 * i]))
    {
      var i := 2 * k;
      if i == 0 {
        sibling := hashes[1].hash;
        next := next + [Null];
      } else {
        next := next + [Node(h(hashes[i].hash, hashes[i + 1].hash))];
      }
    }
    ghost var up := Pairs(h, rest[1..]);
    forall i | 0 <= i < |up| ensures up[i] == h(rest[2 * i + 1], rest[2 * i + 2]) { PairsAt(h, rest[1..], i); }
  }

  /** The branch: folding any coinbase hash over it gives the root of the whole block. */
  method MerkleBranch<T(!new)>(h: (T, T) -> T, txs: seq<T>) returns (branch: seq<T>)
    ensures forall c: T :: Fold(h, c, branch) == MerkleRoot(h, [c] + txs)
  {
    hide Pairs, Carries, Padded, Fold, MerkleRoot;
    branch := [];
    ghost var rest := txs;
    CarriesStart(h, txs);
    if |txs| > 0 {
      var hashes := [Null] + seq(|txs|, i requires 0 <= i < |txs| => Node(txs[i]));
      while |hashes| > 1
        invariant Holds(hashes, rest) && Carries(h, txs, branch, rest)
        decreases |hashes|
      {
        PadHolds(hashes, rest);
        if |hashes| % 2 != 0 { hashes := hashes + [hashes[|hashes| - 1]]; }
        var sibling, nextLevel := NextLevel(h, hashes, Padded(rest));
        Rise(h, txs, branch, rest);
        branch := branch + [sibling];
        hashes, rest := nextLevel, Pairs(h, Padded(rest)[1..]);
      }
    }
    CarriesEnd(h, txs, branch);
  }

  lemma CarriesStart<T(!new)>(h: (T, T) -> T, txs: seq<T>)
    ensures Carries(h, txs, [], txs)
  {}

  lemma CarriesEnd<T(!new)>(h: (T, T) -> T, txs: seq<T>, branch: seq<T>)
    requires Carries(h, txs, branch, [])
    ensures forall c: T :: Fold(h, c, branch) == MerkleRoot(h, [c] + txs)
  {
    forall c: T ensures Fold(h, c, branch) == MerkleRoot(h, [c] + txs) {
      var f := Fold(h, c, branch);
      assert [f] + [] == [f];
      assert MerkleRoot(h, [f] + []) == MerkleRoot(h, [c] + txs);
    }
  }

  /** Doubling the last slot of an odd level is doubling the last known hash. */
  lemma PadHolds<T>(hashes: seq<Slot<T>>, rest: seq<T>)
    requires Holds(hashes, rest) && |rest| > 0
    ensures var padded := if |hashes| % 2 != 0 then hashes + [hashes[|hashes| - 1]] else hashes;
      Holds(padded, Padded(rest)) && |padded| % 2 == 0 && |padded| <= |hashes| + 1 && |Padded(rest)| <= |rest| + 1
  {
    if |hashes| % 2 != 0 { assert |rest| % 2 == 0; }
  }

  function Padded<T>(rest: seq<T>): (r: seq<T>)
    requires |rest| > 0
    ensures |r| > 0
  {
    if |rest| % 2 == 0 then rest + [rest[|rest| - 1]] else rest
  }

  /** Folding over the branch so far and then taking the root over what is left is the root of all. */
  ghost predicate Carries<T(!new)>(h: (T, T) -> T, txs: seq<T>, branch: seq<T>, rest: seq<T>) {
    forall c: T :: MerkleRoot(h, [Fold(h, c, branch)] + rest) == MerkleRoot(h, [c] + txs)
  }

  lemma Rise<T(!new)>(h: (T, T) -> T, txs: seq<T>, branch: seq<T>, rest: seq<T>)
    requires |rest| > 0 && Carries(h, txs, branch, rest)
    ensures var p := Padded(rest); Carries(h, txs, branch + [p[0]], Pairs(h, p[1..]))
  {
    hide Pairs, MerkleRoot;
    var p := Padded(rest);
    forall c: T ensures MerkleRoot(h, [Fold(h, c, branch + [p[0]])] + Pairs(h, p[1..])) == MerkleRoot(h, [c] + txs) {
      Level(h, Fold(h, c, branch), rest);
      assert (branch + [p[0]])[..|branch|] == branch;
    }
  }

  /** One level up with the first node known. */
  lemma Level<T>(h: (T, T) -> T, c: T, rest: seq<T>)
    requires |rest| > 0
    ensures MerkleRoot(h, [c] + rest) == MerkleRoot(h, [h(c, Padded(rest)[0])] + Pairs(h, Padded(rest)[1..]))
  {
    hide Pairs, MerkleRoot, Pad, Padded;
    PadFirst(c, rest);
    RootStep(h, [c] + rest);
    PairFirst(h, c, Padded(rest));
  }

  lemma PadFirst<T>(c: T, rest: seq<T>)
    requires |rest| > 0
    ensures Pad([c] + rest) == [c] + Padded(rest)
  {
    var s := [c] + rest;
    assert s[|s| - 1] == rest[|rest| - 1];
    if |rest| % 2 == 0 { assert |s| % 2 == 1; }
  }

  lemma PairFirst<T>(h: (T, T) -> T, c: T, p: seq<T>)
    requires |p| > 0
    ensures Pairs(h, [c] + p) == [h(c, p[0])] + Pairs(h, p[1..])
  {
    assert ([c] + p)[2..] == p[1..];
  }

  lemma RootStep<T>(h: (T, T) -> T, s: seq<T>)
    requires |s| > 1
    ensures MerkleRoot(h, s) == MerkleRoot(h, Pairs(h, Pad(s)))
  {}

  // ---------- Targets ----------

  /** A hash, least significant byte first, against a target: numerically at most. */
  method HashMeetsTarget(hash: seq<nat>, target: seq<nat>) returns (ok: bool)
    requires |hash| == |target| == 32 && Bytes(hash) && Bytes(target)
    ensures ok <==> LittleEndian(hash) <= BigEndian(target)
  {
    hide BigEndian;
    var hashBE := Reversed(hash);
    for i := 0 to 32
      invariant hashBE[..i] == target[..i]
    {
      if hashBE[i] < target[i] { FirstDifference(hashBE, target, i); return true; }
      if hashBE[i] > target[i] { FirstDifference(target, hashBE, i); return false; }
    }
    assert hashBE[..32] == hashBE && target[..32] == target;
    return true;
  }

  /** The number the pool's buffer holds: zero where the exponent does not fit 32 bytes. */
  function PoolTarget(c: nat): nat {
    if Compact.Size(c) <= 32 then Compact.Exact(c) else 0
  }

  method NBitsToTarget(nBits: nat) returns (target: array<nat>)
    requires nBits < Limbs.BASE
    ensures fresh(target) && target.Length == 32 && Bytes(target[..])
    ensures BigEndian(target[..]) == PoolTarget(nBits)
  {
    hide BigEndian, Compact.Exact;
    var exponent, mantissa := nBits / 0x100_0000, nBits % 0x80_0000;
    target := new nat[32](_ => 0);
    var start := 32 - exponent;
    if 0 <= start < 32 {
      target[start] := mantissa / 0x1_0000;
      if start + 1 < 32 { target[start + 1] := (mantissa / 0x100) % 0x100; }
      if start + 2 < 32 { target[start + 2] := mantissa % 0x100; }
      TargetValue(target[..], nBits, start);
    } else {
      BigEndianZeros(target[..]);
      if exponent == 0 { ZeroExponent(nBits); }
    }
  }

  /** Byte `k` of a three-byte number. */
  function ThreeBytes(m: nat, k: nat): nat {
    if k == 0 then m / 0x1_0000 else if k == 1 then (m / 0x100) % 0x100 else if k == 2 then m % 0x100 else 0
  }

  lemma {:induction false} TargetValue(s: seq<nat>, c: nat, start: nat)
    requires |s| == 32 && start < 32 && Compact.Size(c) == 32 - start
    requires forall i :: 0 <= i < 32 ==> s[i] == if i < start then 0 else ThreeBytes(Compact.Word(c), i - start)
    ensures BigEndian(s) == Compact.Exact(c)
  {
    hide BigEndian, Rest;
    var m, e, t := Compact.Word(c), 32 - start, s[start..];
    BigEndianSplit(s, start);
    BigEndianZeros(s[..start]);
    if e >= 3 {
      BigEndianSplit(t, 3);
      BigEndianZeros(t[3..]);
      LeadingThree(t, m);
      Compact.RestAll(m);
    } else {
      LeadingFew(t, m);
    }
  }

  lemma LeadingThree(t: seq<nat>, m: nat)
    requires |t| >= 3 && forall i :: 0 <= i < 3 ==> t[i] == ThreeBytes(m, i)
    ensures BigEndian(t[..3]) == m
  {
    assert t[..0] == [] && BigEndian([]) == 0;
    hide BigEndian, ThreeBytes;
    BigEndianNext(t, 0);
    BigEndianNext(t, 1);
    BigEndianNext(t, 2);
    ThreeBytesSum(m);
  }

  lemma ThreeBytesSum(m: nat)
    ensures (ThreeBytes(m, 0) * 256 + ThreeBytes(m, 1)) * 256 + ThreeBytes(m, 2) == m
  {
    var q, r := m / 256, m % 256;
    DivMod(m, 256);
    DivMod(q, 256);
    DivUnique(m, 0x1_0000, q / 256, (q % 256) * 256 + r);
  }

  lemma LeadingFew(t: seq<nat>, m: nat)
    requires 1 <= |t| < 3 && forall i :: 0 <= i < |t| ==> t[i] == ThreeBytes(m, i)
    ensures BigEndian(t) == Rest(m, 8 * (3 - |t|))
  {
    hide Pow2;
    BigEndianNext(t, 0);
    assert t[..0] == [] && t[..|t|] == t;
    if |t| == 2 { BigEndianNext(t, 1); }
    Limbs.Pow2Of32();
  }

  lemma ZeroExponent(c: nat)
    requires Compact.Size(c) == 0
    ensures Compact.Exact(c) == 0
  {
    Limbs.Pow2Of32();
    DivUnique(Compact.Word(c), 0x100_0000, 0, Compact.Word(c));
  }

  /** The pool's test whether a header hash makes a block. */
  method MeetsNetwork(hash: seq<nat>, nBits: nat) returns (ok: bool)
    requires |hash| == 32 && Bytes(hash) && nBits < Limbs.BASE
    ensures ok <==> LittleEndian(hash) <= PoolTarget(nBits)
  {
    hide BigEndian, LittleEndian, PoolTarget;
    var networkTarget := NBitsToTarget(nBits);
    ok := HashMeetsTarget(hash, networkTarget[..]);
  }

  // ---------- Pool and node ----------

  /** An exponent up to 32, no sign bit, and a mantissa that is not shifted away. */
  predicate Plain(c: nat) {
    && Compact.Size(c) <= 32 && !Compact.SignBit(c)
    && Compact.Word(c) >= (if Compact.Size(c) <= 3 then Compact.Unit(3 - Compact.Size(c)) else 1)
  }

  /** The pool and the node answer alike for every hash whose value is at least `least`. */
  ghost predicate Agree(c: nat, limit: nat, least: nat) {
    forall v :: least <= v < Pow2(256) ==> (Pow.Accepts(c, limit, v) <==> v <= PoolTarget(c))
  }

  lemma ExactRange(c: nat)
    requires c < Limbs.BASE
    ensures Compact.Size(c) <= 32 ==> Compact.Exact(c) < Pow2(256)
    ensures Compact.Exact(c) == 0 <==>
      Compact.Word(c) < if Compact.Size(c) <= 3 then Compact.Unit(3 - Compact.Size(c)) else 1
  {
    hide Pow2;
    var n, x := Compact.Size(c), Compact.Word(c);
    if n > 3 {
      Compact.OverflowIs(x, n);
    } else {
      Compact.RestSmall(x, 8 * (3 - n));
      Compact.FitsWord(x);
      DivZero(x, Compact.Unit(3 - n));
    }
  }

  lemma DivZero(a: nat, d: nat)
    requires d > 0
    ensures a / d == 0 <==> a < d
  {
    DivMod(a, d);
    if a < d { DivUnique(a, d, 0, a); }
  }

  /** Pool and node judge every hash alike exactly for plain bits within the proof-of-work limit. */
  lemma AgreeIff(c: nat, limit: nat)
    requires c < Limbs.BASE && limit < Pow2(256)
    ensures Agree(c, limit, 0) <==> Plain(c) && Compact.Exact(c) <= limit
  {
    hide Pow2, Compact.Exact, Compact.Unit, Compact.SignBit;
    ExactRange(c);
    var t := Compact.Exact(c);
    if Agree(c, limit, 0) {
      assert Pow.Accepts(c, limit, 0);
      assert Pow.Accepts(c, limit, t);
    }
  }

  /** Hash zero aside, they also agree where both refuse every hash. */
  lemma AgreeAboveZeroIff(c: nat, limit: nat)
    requires c < Limbs.BASE && limit < Pow2(256)
    ensures Agree(c, limit, 1) <==>
      (Compact.Exact(c) == 0 || ((Compact.Size(c) <= 32) == (!Compact.SignBit(c) && Compact.Exact(c) <= limit)))
  {
    hide Pow2, Compact.Exact, Compact.Unit, Compact.SignBit;
    ExactRange(c);
    var t := Compact.Exact(c);
    if Agree(c, limit, 1) && 0 < t < Pow2(256) {
      assert Pow.Accepts(c, limit, t) <==> t <= PoolTarget(c);
    }
  }

  /**
   The pool's number is the one SetCompact leaves exactly where nothing, or everything, is shifted out of 256 bits.
   */
  lemma SameNumberIff(c: nat)
    requires c < Limbs.BASE
    ensures PoolTarget(c) == Wrap(Compact.Exact(c), Pow2(256)) <==> NothingLeft(Compact.Word(c), Compact.Size(c))
  {
    hide Pow2, Rest, Compact.Unit, Wrap;
    var n, x := Compact.Size(c), Compact.Word(c);
    Compact.UnitIs(32);
    ExactRange(c);
    if n <= 32 {
      SmallMod(Compact.Exact(c), Pow2(256));
    } else {
      ShiftedOut(x, n);
    }
  }

  /** Exponent `n` fits 32 bytes, or no byte of the mantissa `x` stays below 2^256. */
  predicate NothingLeft(x: nat, n: nat) {
    n <= 32 || n >= 35 || (n == 34 && x % 0x100 == 0) || (n == 33 && x % 0x1_0000 == 0)
  }

  lemma ShiftedOut(x: nat, n: nat)
    requires x < Compact.SIGN && 33 <= n < 256
    ensures Wrap(x * Compact.Unit(n - 3), Compact.Unit(32)) == 0 <==> NothingLeft(x, n)
  {
    hide Pow2, Compact.Unit, Wrap;
    Limbs.Pow2Of32();
    if n >= 35 {
      Compact.UnitAdd(n - 35, 32);
      MulAssoc(x, Compact.Unit(n - 35), Compact.Unit(32));
      MulNonNeg(x, Compact.Unit(n - 35));
      ShiftedMod(x * Compact.Unit(n - 35), 1, Compact.Unit(32));
    } else {
      var k := 35 - n;
      Compact.UnitAdd(k, n - 3);
      Compact.UnitIs(k);
      ShiftedMod(x, Compact.Unit(k), Compact.Unit(n - 3));
    }
  }

  lemma ShiftedMod(x: nat, d: nat, u: nat)
    requires d > 0 && u > 0
    ensures d * u > 0 && (Wrap(x * u, d * u) == 0 <==> x % d == 0)
  {
    var q, r := x / d, x % d;
    DivMod(x, d);
    MulGe(u, d);
    MulDist(q * d, r, u);
    MulAssoc(q, d, u);
    MulLt(r, d, u);
    MulGe(u, r);
    DivUnique(x * u, d * u, q, r * u);
  }

  /** A target within the largest limit of any chain, 2^255 - 1, which the node accepts and the pool takes for zero. */
  lemma LargeTargetLost(limit: nat)
    requires Compact.Exact(0x2100_7fff) <= limit
    ensures Compact.Exact(0x2100_7fff) <= Pow2(255) - 1
    ensures Pow.Accepts(0x2100_7fff, limit, 1) && !(1 <= PoolTarget(0x2100_7fff))
  {
    hide Pow2, Rest;
    Compact.OverflowIs(0x7fff, 33);
    Compact.UnitIs(30);
    MulLe(1, Compact.Unit(30), 0x7fff);
    Pow2Add(15, 240);
    Pow2Next(15);
    Limbs.Pow2Of32();
    MulLe(0x7fff, 0x8000, Pow2(240));
  }

  /** A negative target, which the node refuses for every hash and the pool takes for a positive one. */
  lemma NegativeTargetKept(limit: nat, v: nat)
    ensures !Pow.Accepts(0x1d80_ffff, limit, v) && 1 <= PoolTarget(0x1d80_ffff)
  {
    hide Pow2, Rest;
    Compact.OverflowIs(0xffff, 29);
  }
}
