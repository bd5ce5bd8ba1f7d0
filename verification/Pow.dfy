/**
 The node's proof-of-work test (pow.cpp): the target read from nBits and the hash, a 32-byte string, against it.
 */
module Pow {
  import opened Arith
  import opened ArithUint
  import opened ByteOrder
  import opened Limbs
  import Compact

  /** Bits `c` encode a positive target within the limit, and a hash of value `v` is at most that target. */
  predicate Accepts(c: nat, limit: nat, v: nat) {
    !Compact.SignBit(c) && 0 < Compact.Exact(c) <= limit && v <= Compact.Exact(c)
  }

  /** Four bytes, least significant first. */
  function ReadLE32(s: seq<nat>): nat
    requires |s| == 4
  {
    s[0] + 0x100 * s[1] + 0x1_0000 * s[2] + 0x100_0000 * s[3]
  }

  lemma FourBytes(s: seq<nat>)
    requires |s| == 4 && Bytes(s)
    ensures LittleEndian(s) == ReadLE32(s) < BASE
  {
    var r := Reversed(s);
    BigEndianNext(r, 0);
    BigEndianNext(r, 1);
    BigEndianNext(r, 2);
    BigEndianNext(r, 3);
    assert r[..0] == [] && r[..4] == r;
  }

  lemma LimbStep(a: seq<nat>, x: nat)
    requires |a| == 32 && x < 8 && Bytes(a)
    ensures LittleEndian(a[..4 * x + 4]) == LittleEndian(a[..4 * x]) + ReadLE32(a[4 * x..4 * x + 4]) * W(x)
    ensures ReadLE32(a[4 * x..4 * x + 4]) < BASE
  {
    hide LittleEndian, ReadLE32, Pow2;
    var s, k := a[..4 * x + 4], 4 * x;
    LittleEndianSplit(s, k);
    assert s[..k] == a[..k] && s[k..] == a[k..k + 4];
    FourBytes(a[k..k + 4]);
    Compact.UnitIs(k);
  }

  method UintToArith256(a: seq<nat>) returns (b: BaseUint)
    requires |a| == 32 && Bytes(a)
    ensures fresh(b) && fresh(b.pn) && b.Valid() && b.pn.Length == 8 && b.Value() == LittleEndian(a)
  {
    hide LittleEndian, ReadLE32, W, Val;
    b := new BaseUint.FromU64(8, 0);
    NoBytes(b.pn[..0], a[..0]);
    for x := 0 to 8
      invariant b.Valid() && Val(b.pn[..x]) == LittleEndian(a[..4 * x])
    {
      ghost var before := b.pn[..x];
      LimbStep(a, x);
      b.pn[x] := ReadLE32(a[4 * x..4 * x + 4]);
      ValNext(b.pn[..], x);
      assert b.pn[..][..x + 1] == b.pn[..x + 1] && b.pn[..][..x] == before;
    }
    assert a[..32] == a && b.pn[..8] == b.pn[..];
  }

  lemma NoBytes(s: seq<nat>, t: seq<nat>)
    requires s == t == []
    ensures Val(s) == LittleEndian(t) == 0
  {
  }

  /** The target, or null where the bits are negative, zero, too large or above the limit. */
  method DeriveTarget(nBits: nat, powLimit: seq<nat>) returns (target: BaseUint?)
    requires nBits < BASE && |powLimit| == 32 && Bytes(powLimit)
    ensures target != null <==> Accepts(nBits, LittleEndian(powLimit), 0)
    ensures target != null ==> target.Valid() && target.pn.Length == 8 && target.Value() == Compact.Exact(nBits)
  {
    hide LittleEndian, W, Wrap, Pow2, BaseUint.Value, BaseUint.Valid, Compact.SignBit, Compact.Exact;
    var bnTarget := new BaseUint.FromU64(8, 0);
    var negative, overflow := Compact.SetCompact(bnTarget, nBits);
    var zero := new BaseUint.FromU64(8, 0);
    var limit := UintToArith256(powLimit);
    var toZero := bnTarget.CompareTo(zero);
    var toLimit := bnTarget.CompareTo(limit);
    LimitFits(powLimit);
    if !overflow { SmallMod(Compact.Exact(nBits), Pow2(256)); }
    if negative || toZero == 0 || overflow || toLimit > 0 { return null; }
    return bnTarget;
  }

  lemma LimitFits(s: seq<nat>)
    requires |s| == 32 && Bytes(s)
    ensures LittleEndian(s) < Pow2(256)
  {
    hide BigEndian, Pow2;
    BigEndianBound(Reversed(s));
    Compact.UnitIs(32);
  }

  method CheckProofOfWorkImpl(hash: seq<nat>, nBits: nat, powLimit: seq<nat>) returns (ok: bool)
    requires |hash| == |powLimit| == 32 && Bytes(hash) && Bytes(powLimit) && nBits < BASE
    ensures ok <==> Accepts(nBits, LittleEndian(powLimit), LittleEndian(hash))
  {
    hide LittleEndian, BaseUint.Value, BaseUint.Valid, Compact.SignBit, Compact.Exact;
    var bnTarget := DeriveTarget(nBits, powLimit);
    if bnTarget == null { return false; }
    var h := UintToArith256(hash);
    var c := h.CompareTo(bnTarget);
    return c <= 0;
  }
}
