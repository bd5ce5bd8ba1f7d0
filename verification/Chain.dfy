/**
 The block tree (chain.h, chain.cpp): blocks point to their parent and to one far ancestor chosen by height.  The
 reference is `Walk`, which follows parents only; every search through skip pointers agrees with it.
 */
module Chain {
  import opened Arith
  import opened SkipHeights

  // ---------- Blocks ----------

  class BlockIndex {
    var pprev: BlockIndex?
    var pskip: BlockIndex?
    var height: int

    constructor ()
      ensures pprev == null && pskip == null && height == 0
    {
      pprev, pskip, height := null, null, 0;
    }

    /** With every skip pointer in place the search takes exactly the steps the heights prescribe. */
    method GetAncestor(h: int, ghost s: set<BlockIndex>) returns (r: BlockIndex?, ghost steps: nat)
      requires this in s && Tree(s) && Skips(s)
      ensures r == if 0 <= h <= height then Walk(s, this, h) else null
      ensures Linked(s) && 0 <= h <= height ==> steps == Steps(height, h)
    {
      hide Tree, Skips, Walk, GetSkipHeight;
      Grounded(s, this);
      steps := 0;
      if h > height || h < 0 { return null, 0; }
      var walk, heightWalk := this, height;
      while heightWalk > h
        invariant walk in s && h <= heightWalk <= height && walk == Walk(s, this, heightWalk)
        invariant Linked(s) ==> steps + Steps(heightWalk, h) == Steps(height, h)
        decreases heightWalk
      {
        steps := steps + 1;
        SkipHeightBelow(heightWalk);
        var heightSkip, heightSkipPrev := GetSkipHeight(heightWalk), GetSkipHeight(heightWalk - 1);
        if walk.pskip != null &&
            (heightSkip == h || (heightSkip > h && !(heightSkipPrev < heightSkip - 2 && heightSkipPrev >= h))) {
          WalkSkip(s, this, heightWalk);
          walk, heightWalk := walk.pskip, heightSkip;
        } else {
          WalkParent(s, this, heightWalk);
          assert walk.pprev != null;
          walk, heightWalk := walk.pprev, heightWalk - 1;
        }
      }
      return walk, steps;
    }

    method Attach(parent: BlockIndex, ghost s: set<BlockIndex>)
      requires Built(s) && parent in s && this !in s && pskip == null
      modifies this
      ensures pprev == parent && Built(s + {this})
    {
      hide Tree, Skips, Linked;
      Grounded(s, parent);
      pprev, height := parent, parent.height + 1;
      Grown(s, s + {this}, this);
      BuildSkip(s + {this});
      LinkedGrows(s, s + {this}, this);
    }

    method BuildSkip(ghost s: set<BlockIndex>)
      requires this in s && Tree(s) && Skips(s)
      modifies this`pskip
      ensures Skips(s) && (height > 0 ==> pskip != null)
    {
      hide Tree, Walk, GetSkipHeight, SkipRight, Steps, Linked;
      Grounded(s, this);
      if pprev != null {
        SkipHeightBelow(height);
        var p, steps := pprev.GetAncestor(GetSkipHeight(height), s);
        WalkStep(s, this, GetSkipHeight(height));
        pskip := p;
        SkipIs(s, this);
      }
    }
  }

  /** Parents are in the set, one lower; exactly the roots have height zero. */
  ghost predicate Tree(s: set<BlockIndex>)
    reads s`pprev, s`height
  {
    forall b :: b in s ==>
      && b.height >= 0 && (b.pprev == null <==> b.height == 0)
      && (b.pprev != null ==> b.pprev in s && b.pprev.height == b.height - 1)
  }

  /** The ancestor of `b` at height `h`, by parents alone. */
  ghost function Walk(s: set<BlockIndex>, b: BlockIndex, h: int): (r: BlockIndex)
    requires Tree(s) && b in s && 0 <= h <= b.height
    reads s`pprev, s`height
    ensures r in s && r.height == h
    decreases b.height
  {
    if b.height == h then b else Walk(s, b.pprev, h)
  }

  /** Every skip pointer that is set leads to the ancestor at the skip height. */
  ghost predicate Skips(s: set<BlockIndex>)
    requires Tree(s)
    reads s
  {
    forall b :: b in s && b.pskip != null ==> b.height > 0 && SkipRight(s, b)
  }

  ghost predicate SkipRight(s: set<BlockIndex>, b: BlockIndex)
    requires Tree(s) && b in s && b.height > 0
    reads s`pprev, s`height, b`pskip
  {
    SkipHeightBelow(b.height);
    b.pskip == Walk(s, b, GetSkipHeight(b.height))
  }

  ghost predicate Built(s: set<BlockIndex>)
    reads s
  {
    Tree(s) && Skips(s) && Linked(s)
  }

  ghost predicate Linked(s: set<BlockIndex>)
    reads s`height, s`pskip
  {
    forall b :: b in s && b.height > 0 ==> b.pskip != null
  }

  lemma {:induction false} WalkWalk(s: set<BlockIndex>, b: BlockIndex, m: int, h: int)
    requires Tree(s) && b in s && 0 <= h <= m <= b.height
    ensures Walk(s, Walk(s, b, m), h) == Walk(s, b, h)
    decreases b.height
  {
    if b.height > m { WalkWalk(s, b.pprev, m, h); }
  }

  lemma Grounded(s: set<BlockIndex>, b: BlockIndex)
    requires Tree(s) && b in s
    ensures b.height >= 0 && (b.pprev == null <==> b.height == 0)
    ensures b.pprev != null ==> b.pprev in s && b.pprev.height == b.height - 1
    ensures Walk(s, b, b.height) == b
  {}

  lemma WalkStep(s: set<BlockIndex>, b: BlockIndex, h: int)
    requires Tree(s) && b in s && 0 <= h < b.height
    ensures b.pprev != null && b.pprev in s && h <= b.pprev.height && Walk(s, b, h) == Walk(s, b.pprev, h)
  {}

  lemma SkipIs(s: set<BlockIndex>, b: BlockIndex)
    requires Tree(s) && b in s && b.height > 0
    ensures 0 <= GetSkipHeight(b.height) < b.height
    ensures (b.pskip == Walk(s, b, GetSkipHeight(b.height)) <==> SkipRight(s, b))
  {
    SkipHeightBelow(b.height);
  }

  lemma WalkParent(s: set<BlockIndex>, b: BlockIndex, m: int)
    requires Tree(s) && b in s && 0 < m <= b.height
    ensures Walk(s, b, m).pprev == Walk(s, b, m - 1)
  {
    WalkWalk(s, b, m, m - 1);
  }

  lemma WalkSkip(s: set<BlockIndex>, b: BlockIndex, m: int)
    requires Tree(s) && Skips(s) && b in s && 0 < m <= b.height && Walk(s, b, m).pskip != null
    ensures 0 <= GetSkipHeight(m) < m && Walk(s, b, m).pskip == Walk(s, b, GetSkipHeight(m))
  {
    SkipHeightBelow(m);
    assert SkipRight(s, Walk(s, b, m));
    WalkWalk(s, b, m, GetSkipHeight(m));
  }

  /** A larger tree has the same ancestors. */
  lemma {:induction false} WalkGrows(s: set<BlockIndex>, t: set<BlockIndex>, b: BlockIndex, h: int)
    requires s <= t && Tree(s) && Tree(t) && b in s && 0 <= h <= b.height
    ensures Walk(t, b, h) == Walk(s, b, h)
    decreases b.height
  {
    if b.height > h { WalkGrows(s, t, b.pprev, h); }
  }

  /** A header joins the tree under its parent, or as a root when the parent is unknown. */
  method AddToBlockIndex(parent: BlockIndex?, ghost s: set<BlockIndex>) returns (b: BlockIndex)
    requires Built(s) && (parent != null ==> parent in s)
    ensures fresh(b) && b.pprev == parent && Built(s + {b})
  {
    hide Tree, Skips, Linked;
    b := new BlockIndex();
    if parent != null {
      b.Attach(parent, s);
    } else {
      Grown(s, s + {b}, b);
      LinkedGrows(s, s + {b}, b);
    }
  }

  lemma LinkedGrows(s: set<BlockIndex>, t: set<BlockIndex>, b: BlockIndex)
    requires Linked(s) && t == s + {b} && (b.height > 0 ==> b.pskip != null)
    ensures Linked(t)
  {}

  lemma Grown(s: set<BlockIndex>, t: set<BlockIndex>, b: BlockIndex)
    requires Built(s) && t == s + {b} && b !in s && b.pskip == null
    requires if b.pprev == null then b.height == 0 else b.pprev in s && b.height == b.pprev.height + 1
    ensures Tree(t) && Skips(t) && Linked(s)
  {
    forall x | x in t && x.pskip != null ensures x.height > 0 && SkipRight(t, x) {
      SkipHeightBelow(x.height);
      assert SkipRight(s, x);
      WalkGrows(s, t, x, GetSkipHeight(x.height));
    }
  }

  // ---------- The last common ancestor ----------

  ghost predicate Common(s: set<BlockIndex>, a: BlockIndex, b: BlockIndex, h: int)
    requires Tree(s) && a in s && b in s
    reads s`pprev, s`height
  {
    0 <= h <= a.height && h <= b.height && Walk(s, a, h) == Walk(s, b, h)
  }

  /** `r` is the highest block that is an ancestor of both, null if there is none. */
  ghost predicate Deepest(s: set<BlockIndex>, a: BlockIndex, b: BlockIndex, r: BlockIndex?)
    requires Tree(s) && a in s && b in s
    reads s`pprev, s`height
  {
    if r == null then forall h :: !Common(s, a, b, h)
    else
      && r in s && Common(s, a, b, r.height) && Walk(s, a, r.height) == r
      && forall h :: h > r.height ==> !Common(s, a, b, h)
  }

  /** Sharing an ancestor at one height means sharing those below. */
  lemma CommonBelow(s: set<BlockIndex>, a: BlockIndex, b: BlockIndex, m: int, h: int)
    requires Tree(s) && a in s && b in s && Common(s, a, b, m) && 0 <= h <= m
    ensures Common(s, a, b, h)
  {
    WalkWalk(s, a, m, h);
    WalkWalk(s, b, m, h);
  }

  /** Two different ancestors at one height rule out every height from there up. */
  lemma ApartAbove(s: set<BlockIndex>, a: BlockIndex, b: BlockIndex, m: int)
    requires Tree(s) && a in s && b in s && 0 <= m && !Common(s, a, b, m)
    ensures forall h :: h >= m ==> !Common(s, a, b, h)
  {
    forall h | h >= m ensures !Common(s, a, b, h) {
      if Common(s, a, b, h) { CommonBelow(s, a, b, h, m); }
    }
  }

  method LastCommonAncestor(a: BlockIndex, b: BlockIndex, ghost s: set<BlockIndex>) returns (r: BlockIndex?)
    requires Built(s) && a in s && b in s
    ensures Deepest(s, a, b, r)
  {
    hide Tree, Skips, Walk, GetSkipHeight, SkipRight, Common, Apart, Deepest, Steps;
    AtTop(s, a, b);
    var pa: BlockIndex?, pb: BlockIndex? := a, b;
    if pa.height > pb.height {
      var p, steps := pa.GetAncestor(pb.height, s);
      pa := p;
    } else if pb.height > pa.height {
      var p, steps := pb.GetAncestor(pa.height, s);
      pb := p;
    }
    while pa != pb
      invariant Apart(s, a, b, pa, pb)
      decreases if pa == null then -1 else pa.height
    {
      DifferentStart(s, a, b, pa, pb);
      ghost var top := pa.height;
      while pa.pskip != pb.pskip
        invariant pa != null && pb != null && pa != pb && Apart(s, a, b, pa, pb) && pa.height <= top
        decreases pa.height
      {
        Jump(s, a, b, pa, pb);
        assert pa.pskip.height == pb.pskip.height;
        pa, pb := pa.pskip, pb.pskip;
      }
      StepBack(s, a, b, pa, pb);
      pa, pb := pa.pprev, pb.pprev;
    }
    Meet(s, a, b, pa, pb);
    r := pa;
  }

  lemma AtTop(s: set<BlockIndex>, a: BlockIndex, b: BlockIndex)
    requires Tree(s) && a in s && b in s
    ensures a.height >= 0 && b.height >= 0
    ensures var h := if a.height < b.height then a.height else b.height;
      Apart(s, a, b, Walk(s, a, h), Walk(s, b, h)) && Walk(s, a, a.height) == a && Walk(s, b, b.height) == b
  {}

  lemma Meet(s: set<BlockIndex>, a: BlockIndex, b: BlockIndex, pa: BlockIndex?, pb: BlockIndex?)
    requires Tree(s) && a in s && b in s && Apart(s, a, b, pa, pb) && pa == pb
    ensures Deepest(s, a, b, pa)
  {}

  /** Two ancestors at one height, above which nothing is shared; both null below the roots. */
  ghost predicate Apart(s: set<BlockIndex>, a: BlockIndex, b: BlockIndex, pa: BlockIndex?, pb: BlockIndex?)
    requires Tree(s) && a in s && b in s
    reads s`pprev, s`height
  {
    if pa == null || pb == null then pa == pb && forall h :: !Common(s, a, b, h)
    else
      && pa in s && pb in s && pa.height == pb.height <= a.height && pa.height <= b.height
      && pa == Walk(s, a, pa.height) && pb == Walk(s, b, pb.height)
      && forall h :: h > pa.height ==> !Common(s, a, b, h)
  }

  lemma DifferentStart(s: set<BlockIndex>, a: BlockIndex, b: BlockIndex, pa: BlockIndex?, pb: BlockIndex?)
    requires Tree(s) && a in s && b in s && Apart(s, a, b, pa, pb) && pa != pb
    ensures pa != null && pb != null && pa.height >= 0
  {}

  lemma Jump(s: set<BlockIndex>, a: BlockIndex, b: BlockIndex, pa: BlockIndex, pb: BlockIndex)
    requires Built(s) && a in s && b in s && Apart(s, a, b, pa, pb) && pa.pskip != pb.pskip
    ensures pa.pskip != null && pb.pskip != null
    ensures 0 <= pa.pskip.height == pb.pskip.height < pa.height && Apart(s, a, b, pa.pskip, pb.pskip)
  {
    assert pa.height > 0 && SkipRight(s, pa) && SkipRight(s, pb);
    SkipHeightBelow(pa.height);
    var h := GetSkipHeight(pa.height);
    WalkWalk(s, a, pa.height, h);
    WalkWalk(s, b, pa.height, h);
    ApartAbove(s, a, b, h);
  }

  lemma StepBack(s: set<BlockIndex>, a: BlockIndex, b: BlockIndex, pa: BlockIndex, pb: BlockIndex)
    requires Tree(s) && a in s && b in s && Apart(s, a, b, pa, pb) && pa != pb
    ensures Apart(s, a, b, pa.pprev, pb.pprev) && (pa.pprev != null ==> pa.pprev.height < pa.height) && pa.height >= 0
  {
    ApartAbove(s, a, b, pa.height);
    if pa.height > 0 {
      WalkWalk(s, a, pa.height, pa.height - 1);
      WalkWalk(s, b, pa.height, pa.height - 1);
    }
  }

  // ---------- Block locators ----------

  /** How far entry `i` of a locator lies behind the block: one step each at first, then doubling. */
  function Back(i: nat): nat {
    if i <= 10 then i else 9 + Pow2(i - 10)
  }

  function LocatorHeight(height: nat, i: nat): nat {
    if Back(i) >= height then 0 else height - Back(i)
  }

  function LocatorStep(i: nat): nat {
    if i <= 10 then 1 else Pow2(i - 10)
  }

  lemma BackStep(i: nat)
    ensures Back(i + 1) == Back(i) + LocatorStep(i)
    ensures LocatorStep(i + 1) == if i >= 10 then 2 * LocatorStep(i) else LocatorStep(i)
  {
    if i == 10 { assert Pow2(1) == 2 * Pow2(0); }
  }

  /** The heights of a locator fall strictly, up to the entry that reaches zero. */
  lemma {:induction false} BackGrows(i: nat, j: nat)
    requires i < j
    ensures Back(i) < Back(j)
  {
    BackStep(j - 1);
    if i < j - 1 { BackGrows(i, j - 1); }
  }

  /** `have` is the locator of `b`: the ancestors at the locator heights, the last of which is a root. */
  ghost predicate IsLocator(s: set<BlockIndex>, b: BlockIndex, have: seq<BlockIndex>)
    requires Tree(s) && b in s && b.height >= 0
    reads s`pprev, s`height
  {
    && |have| >= 1 && LocatorHeight(b.height, |have| - 1) == 0
    && (forall i :: 0 <= i < |have| ==> have[i] == Walk(s, b, LocatorHeight(b.height, i)))
    && (|have| >= 2 ==> Back(|have| - 2) < b.height)
  }

  method LocatorEntries(start: BlockIndex?, ghost s: set<BlockIndex>) returns (have: seq<BlockIndex>)
    requires Tree(s) && Skips(s) && (start != null ==> start in s && start.height >= 0)
    ensures if start == null then have == [] else IsLocator(s, start, have)
  {
    hide Tree, Skips, Walk, Back, LocatorStep, Steps, Linked;
    have := [];
    if start == null { return; }
    Grounded(s, start);
    StartStep();
    var index, step := start, 1;
    while true
      invariant index in s && index == Walk(s, start, LocatorHeight(start.height, |have|))
      invariant step == LocatorStep(|have|)
      invariant forall i :: 0 <= i < |have| ==> have[i] == Walk(s, start, LocatorHeight(start.height, i))
      invariant |have| >= 1 ==> Back(|have| - 1) < start.height
      decreases index.height
    {
      ghost var n := |have|;
      have := have + [index];
      if index.height == 0 { break; }
      BackStep(n);
      assert Back(n) < start.height;
      StepFits(start.height, n);
      var height := if index.height - step < 0 then 0 else index.height - step;
      WalkWalk(s, start, index.height, height);
      var p, steps := index.GetAncestor(height, s);
      index := p;
      if |have| > 10 { step := step * 2; }
    }
  }

  lemma StartStep()
    ensures Back(0) == 0 && LocatorStep(0) == 1
  {}

  /** The step is positive, and for heights up to 2^30 + 9 doubling it stays within a 32-bit int. */
  lemma StepFits(height: nat, n: nat)
    requires Back(n) < height
    ensures LocatorStep(n) >= 1 && (height <= 0x4000_0009 ==> 2 * LocatorStep(n) <= 0x7fff_ffff)
  {}

  /** A locator starts at the block, ends at a root, falls strictly, and has logarithmic length. */
  lemma LocatorShape(s: set<BlockIndex>, b: BlockIndex, have: seq<BlockIndex>)
    requires Tree(s) && b in s && b.height >= 0 && IsLocator(s, b, have)
    ensures have[0] == b && have[|have| - 1].pprev == null
    ensures forall i, j :: 0 <= i < j < |have| ==> have[i].height > have[j].height
    ensures |have| > 12 ==> Pow2(|have| - 12) + 9 < b.height
  {
    Grounded(s, b);
    Grounded(s, have[|have| - 1]);
    forall i, j | 0 <= i < j < |have| ensures have[i].height > have[j].height {
      BackGrows(i, j);
      if i < |have| - 2 { BackGrows(i, |have| - 2); }
    }
  }

  // ---------- The active chain ----------

  class CChain {
    var vChain: seq<BlockIndex?>

    constructor ()
      ensures vChain == []
    {
      vChain := [];
    }

    /** Entry `h` is the ancestor at height `h` of the last entry. */
    ghost predicate Valid(s: set<BlockIndex>)
      reads this, s`pprev, s`height
    {
      && Tree(s)
      && (|vChain| > 0 ==> var tip := vChain[|vChain| - 1]; tip != null && tip in s && IsChain(s, tip, vChain))
    }

    function At(h: int): (b: BlockIndex?)
      reads this
      ensures b != null ==> 0 <= h < |vChain|
    {
      if h < 0 || h >= |vChain| then null else vChain[h]
    }

    predicate Contains(b: BlockIndex)
      reads this, b
    {
      At(b.height) == b
    }

    function Height(): int
      reads this
    {
      |vChain| - 1
    }

    function Next(b: BlockIndex): BlockIndex?
      reads this, b
    {
      if Contains(b) then At(b.height + 1) else null
    }

    method SetTip(block: BlockIndex, ghost s: set<BlockIndex>)
      requires Valid(s) && block in s
      modifies this
      ensures Valid(s) && |vChain| == block.height + 1 > 0 && vChain[block.height] == block
    {
      hide Tree, Walk, IsChain;
      ghost var was := vChain;
      Grounded(s, block);
      var n := block.height + 1;
      vChain := if n <= |vChain| then vChain[..n] else vChain + seq(n - |vChain|, _ => null);
      var pindex: BlockIndex? := block;
      while pindex != null && vChain[pindex.height] != pindex
        invariant |vChain| == n && Tree(s)
        invariant pindex != null ==> pindex in s && 0 <= pindex.height < n && pindex == Walk(s, block, pindex.height)
        invariant forall h :: (if pindex == null then 0 else pindex.height + 1) <= h < n ==>
          vChain[h] == Walk(s, block, h)
        invariant pindex != null ==> forall h :: 0 <= h <= pindex.height ==>
          vChain[h] == if h < |was| then was[h] else null
        decreases if pindex == null then -1 else pindex.height
      {
        Grounded(s, pindex);
        if pindex.height > 0 { WalkParent(s, block, pindex.height); }
        vChain := vChain[pindex.height := pindex];
        pindex := pindex.pprev;
      }
      if pindex != null { OldPart(s, was, pindex, block); }
      ChainIs(s, block, vChain);
    }

    /** The highest block of this chain that is an ancestor of `index`. */
    method FindFork(index: BlockIndex, ghost s: set<BlockIndex>) returns (r: BlockIndex?)
      requires Valid(s) && Skips(s) && index in s
      ensures r != null ==> r in s && r.height <= index.height && Contains(r) && r == Walk(s, index, r.height)
      ensures forall h :: (if r == null then 0 else r.height + 1) <= h <= index.height ==> Walk(s, index, h) != At(h)
    {
      hide Tree, Walk, Skips, Valid, Steps, Linked;
      assert Tree(s) by { IsTree(s); }
      Grounded(s, index);
      var pindex: BlockIndex? := index;
      if pindex.height > Height() {
        var p, steps := pindex.GetAncestor(Height(), s);
        pindex := p;
      }
      while pindex != null && !Contains(pindex)
        invariant pindex != null ==>
          pindex in s && 0 <= pindex.height <= index.height && pindex == Walk(s, index, pindex.height)
        invariant forall h :: (if pindex == null then 0 else pindex.height + 1) <= h <= index.height ==>
          Walk(s, index, h) != At(h)
        decreases if pindex == null then -1 else pindex.height
      {
        Grounded(s, pindex);
        if pindex.height > 0 { WalkParent(s, index, pindex.height); }
        pindex := pindex.pprev;
      }
      r := pindex;
    }

    lemma IsTree(s: set<BlockIndex>)
      requires Valid(s)
      ensures Tree(s)
    {}
  }

  ghost predicate IsChain(s: set<BlockIndex>, tip: BlockIndex, v: seq<BlockIndex?>)
    requires Tree(s) && tip in s
    reads s`pprev, s`height
  {
    |v| == tip.height + 1 && forall h :: 0 <= h < |v| ==> v[h] == Walk(s, tip, h)
  }

  lemma ChainIs(s: set<BlockIndex>, tip: BlockIndex, v: seq<BlockIndex?>)
    requires Tree(s) && tip in s && |v| == tip.height + 1 && forall h :: 0 <= h < |v| ==> v[h] == Walk(s, tip, h)
    ensures IsChain(s, tip, v) && v[tip.height] == tip
  {}

  /** Why SetTip may stop early: a block of the old chain has its ancestors below it. */
  lemma OldPart(s: set<BlockIndex>, was: seq<BlockIndex?>, p: BlockIndex, block: BlockIndex)
    requires Tree(s) && p in s && block in s && 0 <= p.height <= block.height && p == Walk(s, block, p.height)
    requires |was| > p.height && was[p.height] == p
    requires var tip := was[|was| - 1]; tip != null && tip in s && IsChain(s, tip, was)
    ensures forall h :: 0 <= h <= p.height ==> was[h] == Walk(s, block, h)
  {
    forall h | 0 <= h <= p.height ensures was[h] == Walk(s, block, h) {
      WalkWalk(s, was[|was| - 1], p.height, h);
      WalkWalk(s, block, p.height, h);
    }
  }

  /**
   In a valid chain the successor of a block is its child, and a contained block has all its ancestors in the chain.
   */
  lemma {:induction false} ChainIsPath(c: CChain, s: set<BlockIndex>, b: BlockIndex)
    requires c.Valid(s) && b in s && c.Contains(b)
    ensures c.Next(b) == null <==> b.height == c.Height()
    ensures c.Next(b) != null ==> c.Next(b).pprev == b
    ensures forall h :: 0 <= h <= b.height ==> c.At(h) == Walk(s, b, h)
  {
    hide Tree, Walk;
    var tip := c.vChain[|c.vChain| - 1];
    Grounded(s, b);
    if b.height < c.Height() { WalkParent(s, tip, b.height + 1); }
    forall h | 0 <= h <= b.height ensures c.At(h) == Walk(s, b, h) { WalkWalk(s, tip, b.height, h); }
  }

  /** The chain stays valid as blocks join the tree. */
  lemma ValidGrows(c: CChain, s: set<BlockIndex>, t: set<BlockIndex>)
    requires c.Valid(s) && s <= t && Tree(t)
    ensures c.Valid(t)
  {
    if |c.vChain| > 0 {
      var tip := c.vChain[|c.vChain| - 1];
      hide Tree, Walk;
      forall h | 0 <= h < |c.vChain| ensures c.vChain[h] == Walk(t, tip, h) { WalkGrows(s, t, tip, h); }
    }
  }

  // ---------- Whole runs ----------

  datatype Op = Add(parent: int) | Activate(block: int)

  function Adds(ops: seq<Op>): nat {
    if ops == [] then 0 else Adds(ops[..|ops| - 1]) + (if ops[|ops| - 1].Add? then 1 else 0)
  }

  /** The block last made tip, -1 if none. */
  function Activated(ops: seq<Op>): (k: int)
    ensures -1 <= k < Adds(ops)
  {
    if ops == [] then -1
    else
      var before, op := ops[..|ops| - 1], ops[|ops| - 1];
      if op.Activate? && 0 <= op.block < Adds(before) then op.block else Activated(before)
  }

  /** From nothing, any run of insertions and tip changes leaves a built tree and a valid chain to the last tip. */
  method Run(ops: seq<Op>) returns (blocks: seq<BlockIndex>, c: CChain)
    ensures |blocks| == Adds(ops) && Built(set b | b in blocks) && c.Valid(set b | b in blocks)
    ensures if Activated(ops) == -1 then c.vChain == []
            else |c.vChain| > 0 && c.vChain[|c.vChain| - 1] == blocks[Activated(ops)]
    ensures fresh(c) && forall b :: b in blocks ==> fresh(b)
  {
    hide Tree, Skips, Walk, IsChain;
    blocks := [];
    c := new CChain();
    ghost var s := {};
    EmptyTree();
    for n := 0 to |ops|
      invariant s == (set b | b in blocks) && |blocks| == Adds(ops[..n]) && Built(s) && c.Valid(s)
      invariant if Activated(ops[..n]) == -1 then c.vChain == []
                else |c.vChain| > 0 && c.vChain[|c.vChain| - 1] == blocks[Activated(ops[..n])]
      invariant fresh(c) && forall b :: b in blocks ==> fresh(b)
    {
      assert ops[..n + 1][..n] == ops[..n] && ops[..n + 1][n] == ops[n];
      match ops[n] {
        case Add(k) =>
          var b := AddToBlockIndex(if 0 <= k < |blocks| then blocks[k] else null, s);
          ValidGrows(c, s, s + {b});
          s, blocks := s + {b}, blocks + [b];
        case Activate(k) =>
          if 0 <= k < |blocks| {
            assert blocks[k] in s;
            c.SetTip(blocks[k], s);
          }
      }
    }
    assert ops[..|ops|] == ops;
  }

  lemma EmptyTree()
    ensures Built({})
  {}
}
