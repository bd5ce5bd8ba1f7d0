/**
 Byte strings as numbers, in both byte orders.
 */
module ByteOrder {
  import opened Arith
  import Compact

  ghost predicate Bytes(s: seq<nat>) {
    forall i :: 0 <= i < |s| ==> s[i] < 256
  }

  /** The number a byte string stands for, most significant byte first. */
  function BigEndian(s: seq<nat>): nat {
    if s == [] then 0 else BigEndian(s[..|s| - 1]) * 256 + s[|s| - 1]
  }

  function Reversed(s: seq<nat>): (r: seq<nat>)
    ensures |r| == |s| && forall i :: 0 <= i < |s| ==> r[i] == s[|s| - 1 - i]
  {
    if s == [] then [] else Reversed(s[1..]) + [s[0]]
  }

  function LittleEndian(s: seq<nat>): nat {
    BigEndian(Reversed(s))
  }

  lemma {:induction false} BigEndianSplit(s: seq<nat>, k: nat)
    requires k <= |s|
    ensures BigEndian(s) == BigEndian(s[..k]) * Compact.Unit(|s| - k) + BigEndian(s[k..])
  {
    if k == |s| {
      assert s[..k] == s;
      Compact.RestAll(0);
    } else {
      var n := |s| - 1;
      BigEndianSplit(s[..n], k);
      assert s[..n][..k] == s[..k] && s[..n][k..] == s[k..][..n - k];
      Compact.UnitNext(n - k);
      Compact.Times256(BigEndian(s[..k]), Compact.Unit(n - k));
    }
  }

  lemma {:induction false} BigEndianBound(s: seq<nat>)
    requires Bytes(s)
    ensures BigEndian(s) < Compact.Unit(|s|)
  {
    if s != [] {
      var n := |s| - 1;
      BigEndianBound(s[..n]);
      Compact.UnitNext(n);
    }
  }

  lemma {:induction false} BigEndianZeros(s: seq<nat>)
    requires forall i :: 0 <= i < |s| ==> s[i] == 0
    ensures BigEndian(s) == 0
  {
    if s != [] { BigEndianZeros(s[..|s| - 1]); }
  }

  /** The first byte that differs decides. */
  lemma FirstDifference(a: seq<nat>, b: seq<nat>, i: nat)
    requires Bytes(a) && Bytes(b) && i < |a| == |b| && a[..i] == b[..i] && a[i] < b[i]
    ensures BigEndian(a) < BigEndian(b)
  {
    hide BigEndian;
    var k := i + 1;
    BigEndianSplit(a, k);
    BigEndianSplit(b, k);
    BigEndianBound(a[k..]);
    BigEndianNext(a, i);
    BigEndianNext(b, i);
    var u, x, y := Compact.Unit(|a| - k), BigEndian(a[..k]), BigEndian(b[..k]);
    MulLe(x + 1, y, u);
    MulDist(x, 1, u);
  }

  lemma BigEndianNext(s: seq<nat>, i: nat)
    requires i < |s|
    ensures BigEndian(s[..i + 1]) == BigEndian(s[..i]) * 256 + s[i]
  {
    assert s[..i + 1][..i] == s[..i];
  }

  /** Reading from the other end: the bytes from `k` on weigh 256^k. */
  lemma LittleEndianSplit(s: seq<nat>, k: nat)
    requires k <= |s|
    ensures LittleEndian(s) == LittleEndian(s[k..]) * Compact.Unit(k) + LittleEndian(s[..k])
  {
    hide BigEndian;
    var r, n := Reversed(s), |s| - k;
    BigEndianSplit(r, n);
    assert r[..n] == Reversed(s[k..]) && r[n..] == Reversed(s[..k]);
  }
}
