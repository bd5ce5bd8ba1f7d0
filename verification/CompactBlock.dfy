/**
 Compact block relay (blockencodings.h, blockencodings.cpp; section HeaderAndShortIDs of BIP 152).  A block is sent
 as some prefilled transactions and a short id for each of the others; the receiver fills the gaps from its own
 transactions and asks for the rest.
 */
module CompactBlock {
  const MAX_BLOCK_WEIGHT := 4_000_000
  const MIN_SERIALIZABLE_TRANSACTION_WEIGHT := 40
  const MAX_INDEX := 0xffff
  const MAX_BUCKET := 12

  datatype Tx = Tx(wtxid: int, isNull: bool)
  datatype Ref = Empty | Held(tx: Tx)
  datatype Prefilled = Prefilled(index: nat, tx: Tx)
  datatype Message = Message(headerNull: bool, shortIds: seq<int>, prefilled: seq<Prefilled>)
  datatype Status = Ok | Invalid | Failed

  function TxCount(m: Message): nat {
    |m.shortIds| + |m.prefilled|
  }

  /** What deserialization lets through: 16-bit offsets and a 16-bit number of transactions. */
  predicate Received(m: Message) {
    TxCount(m) <= MAX_INDEX && forall i :: 0 <= i < |m.prefilled| ==> m.prefilled[i].index <= MAX_INDEX
  }

  // ---------- Where things go ----------

  /** The index of the `n`-th prefilled transaction, counted from one; -1 before the first. */
  function LastIndex(ps: seq<Prefilled>, n: nat): int
    requires n <= |ps|
  {
    if n == 0 then -1 else LastIndex(ps, n - 1) + ps[n - 1].index + 1
  }

  predicate PrefillOk(m: Message, n: nat)
    requires n <= |m.prefilled|
  {
    forall i :: 0 <= i < n ==>
      !m.prefilled[i].tx.isNull && LastIndex(m.prefilled, i + 1) <= MAX_INDEX &&
          LastIndex(m.prefilled, i + 1) <= |m.shortIds| + i
  }

  lemma {:induction false} PrefillNext(m: Message, n: nat)
    requires n < |m.prefilled| && PrefillOk(m, n) && !m.prefilled[n].tx.isNull
    requires LastIndex(m.prefilled, n + 1) <= MAX_INDEX && LastIndex(m.prefilled, n + 1) <= |m.shortIds| + n
    ensures PrefillOk(m, n + 1)
  {
    hide LastIndex;
    forall i | 0 <= i < n + 1
      ensures !m.prefilled[i].tx.isNull && LastIndex(m.prefilled, i + 1) <= MAX_INDEX &&
              LastIndex(m.prefilled, i + 1) <= |m.shortIds| + i
    {
      if i < n { assert !m.prefilled[i].tx.isNull; }
    }
  }

  /** The slots of the block with the first `n` prefilled transactions in place. */
  function Slots(m: Message, n: nat): (s: seq<Ref>)
    requires n <= |m.prefilled| && PrefillOk(m, n)
    ensures |s| == TxCount(m)
  {
    if n == 0 then seq(TxCount(m), _ => Empty)
    else
      LastIndexUp(m.prefilled, n - 1);
      Slots(m, n - 1)[LastIndex(m.prefilled, n) := Held(m.prefilled[n - 1].tx)]
  }

  lemma {:induction false} LastIndexUp(ps: seq<Prefilled>, n: nat)
    requires n < |ps|
    ensures -1 <= LastIndex(ps, n) < LastIndex(ps, n + 1)
    decreases n
  {
    if n > 0 { LastIndexUp(ps, n - 1); }
  }

  function Gaps(s: seq<Ref>): nat {
    if s == [] then 0 else Gaps(s[..|s| - 1]) + (if s[|s| - 1].Empty? then 1 else 0)
  }

  /** Slot `q` is the `i`-th gap. */
  predicate IsGap(s: seq<Ref>, i: int, q: int) {
    0 <= q < |s| && s[q].Empty? && Gaps(s[..q]) == i
  }

  lemma GapsNext(s: seq<Ref>, q: nat)
    requires q < |s|
    ensures Gaps(s[..q + 1]) == Gaps(s[..q]) + (if s[q].Empty? then 1 else 0)
  {
    assert s[..q + 1][..q] == s[..q];
  }

  lemma {:induction false} GapsGrow(s: seq<Ref>, p: nat, q: nat)
    requires p <= q <= |s|
    ensures Gaps(s[..p]) <= Gaps(s[..q])
    decreases q
  {
    if p < q {
      GapsGrow(s, p, q - 1);
      GapsNext(s, q - 1);
    }
  }

  /** Gaps are numbered in order, each number once. */
  lemma GapUnique(s: seq<Ref>, i: int, p: int, q: int)
    requires IsGap(s, i, p) && IsGap(s, i, q)
    ensures p == q
  {
    GapsNext(s, p);
    GapsNext(s, q);
    if p < q { GapsGrow(s, p + 1, q); }
    if q < p { GapsGrow(s, q + 1, p); }
  }

  lemma {:induction false} GapsFill(s: seq<Ref>, q: nat, tx: Tx)
    requires q < |s| && s[q].Empty?
    ensures Gaps(s[q := Held(tx)]) == Gaps(s) - 1
  {
    var n, t := |s| - 1, s[q := Held(tx)];
    if q < n {
      GapsFill(s[..n], q, tx);
      assert t[..n] == s[..n][q := Held(tx)];
    } else {
      assert t[..n] == s[..n];
    }
  }

  lemma {:induction false} GapsAll(s: seq<Ref>)
    requires forall q :: 0 <= q < |s| ==> s[q].Empty?
    ensures Gaps(s) == |s|
  {
    if s != [] { GapsAll(s[..|s| - 1]); }
  }

  /** Every prefilled transaction takes a gap of its own, so as many gaps as short ids remain. */
  lemma {:induction false} SlotsGaps(m: Message, n: nat)
    requires n <= |m.prefilled| && PrefillOk(m, n)
    ensures Gaps(Slots(m, n)) == TxCount(m) - n
    ensures forall q :: 0 <= q < TxCount(m) && LastIndex(m.prefilled, n) < q ==> Slots(m, n)[q].Empty?
  {
    hide Gaps, Slots, LastIndex, PrefillOk;
    if n == 0 {
      SlotsNone(m);
      GapsAll(Slots(m, 0));
    } else {
      SlotsNext(m, n);
      SlotsGaps(m, n - 1);
      GapsFill(Slots(m, n - 1), LastIndex(m.prefilled, n), m.prefilled[n - 1].tx);
    }
  }

  lemma SlotsNone(m: Message)
    requires PrefillOk(m, 0)
    ensures LastIndex(m.prefilled, 0) == -1 && forall q :: 0 <= q < TxCount(m) ==> Slots(m, 0)[q].Empty?
  {}

  lemma {:induction false} SlotsNext(m: Message, n: nat)
    requires 0 < n <= |m.prefilled| && PrefillOk(m, n)
    ensures PrefillOk(m, n - 1) && 0 <= LastIndex(m.prefilled, n) < TxCount(m)
    ensures LastIndex(m.prefilled, n - 1) < LastIndex(m.prefilled, n)
    ensures Slots(m, n) == Slots(m, n - 1)[LastIndex(m.prefilled, n) := Held(m.prefilled[n - 1].tx)]
  {
    hide LastIndex;
    LastIndexUp(m.prefilled, n - 1);
    assert !m.prefilled[n - 1].tx.isNull;
    PrefillLess(m, n - 1);
  }

  lemma {:induction false} PrefillLess(m: Message, n: nat)
    requires n < |m.prefilled| && PrefillOk(m, n + 1)
    ensures PrefillOk(m, n) && LastIndex(m.prefilled, n + 1) <= |m.shortIds| + n
  {
    hide LastIndex;
    forall i | 0 <= i < n
      ensures !m.prefilled[i].tx.isNull && LastIndex(m.prefilled, i + 1) <= MAX_INDEX &&
              LastIndex(m.prefilled, i + 1) <= |m.shortIds| + i
    {
      assert !m.prefilled[i].tx.isNull;
    }
    assert !m.prefilled[n].tx.isNull;
  }

  lemma {:induction false} GapExists(s: seq<Ref>, i: nat)
    requires i < Gaps(s)
    ensures exists q :: IsGap(s, i, q)
  {
    var n := |s| - 1;
    if i < Gaps(s[..n]) {
      GapExists(s[..n], i);
      var q :| IsGap(s[..n], i, q);
      assert s[..n][..q] == s[..q];
      assert IsGap(s, i, q);
    } else {
      assert IsGap(s, i, n);
    }
  }

  ghost function NthGap(s: seq<Ref>, i: nat): (q: nat)
    requires i < Gaps(s)
    ensures IsGap(s, i, q)
  {
    GapExists(s, i);
    var q :| IsGap(s, i, q);
    q
  }

  /** The slots once all prefilled transactions are in place. */
  function Start(m: Message): (s: seq<Ref>)
    requires PrefillOk(m, |m.prefilled|)
    ensures |s| == TxCount(m)
  {
    Slots(m, |m.prefilled|)
  }

  /** The map from the first `n` short ids to slots: the `i`-th id belongs to the `i`-th gap. */
  ghost function Positions(m: Message, n: nat): map<int, int>
    requires PrefillOk(m, |m.prefilled|) && n <= |m.shortIds|
  {
    if n == 0 then map[]
    else
      SlotsGaps(m, |m.prefilled|);
      Positions(m, n - 1)[m.shortIds[n - 1] := NthGap(Start(m), n - 1)]
  }

  predicate Distinct(ids: seq<int>) {
    forall i, j :: 0 <= i < j < |ids| ==> ids[i] != ids[j]
  }

  lemma DistinctNone()
    ensures Distinct([])
  {}

  lemma DistinctNext(ids: seq<int>, id: int)
    ensures Distinct(ids + [id]) <==> Distinct(ids) && id !in ids
  {
    var all := ids + [id];
    forall i, j | 0 <= i < j < |ids| ensures (ids[i] != ids[j]) == (all[i] != all[j]) {}
    if id in ids {
      var j :| 0 <= j < |ids| && ids[j] == id;
      assert all[j] == all[|ids|];
    }
  }

  lemma MapSize(m: map<int, int>, id: int, v: int)
    ensures m[id := v].Keys == m.Keys + {id} && |m[id := v]| == if id in m then |m| else |m| + 1
  {
    assert m[id := v].Keys == m.Keys + {id};
    if id in m { assert m.Keys + {id} == m.Keys; }
    assert |m.Keys| == |m| && |m[id := v].Keys| == |m[id := v]|;
  }

  lemma {:induction false} PositionsSize(m: Message, n: nat)
    requires PrefillOk(m, |m.prefilled|) && n <= |m.shortIds|
    ensures |Positions(m, n)| <= n && (|Positions(m, n)| == n <==> Distinct(m.shortIds[..n]))
    ensures forall id :: id in Positions(m, n) <==> id in m.shortIds[..n]
  {
    hide Positions, PrefillOk, Distinct;
    if n == 0 {
      assert m.shortIds[..0] == [] && Positions(m, 0) == map[] by { PositionsNone(m); }
      DistinctNone();
    } else {
      PositionsSize(m, n - 1);
      var id, ids := m.shortIds[n - 1], m.shortIds[..n - 1];
      assert m.shortIds[..n] == ids + [id];
      DistinctNext(ids, id);
      var q := PositionsNext(m, n);
      MapSize(Positions(m, n - 1), id, q);
    }
  }

  lemma PositionsNone(m: Message)
    requires PrefillOk(m, |m.prefilled|)
    ensures Positions(m, 0) == map[]
  {}

  lemma {:induction false} PositionsNext(m: Message, n: nat) returns (q: int)
    requires PrefillOk(m, |m.prefilled|) && 0 < n <= |m.shortIds|
    ensures Positions(m, n) == Positions(m, n - 1)[m.shortIds[n - 1] := q]
  {
    hide Slots, Start, Gaps, PrefillOk;
    q := Positions(m, n)[m.shortIds[n - 1]];
  }

  lemma {:induction false} PositionsAt(m: Message, n: nat, id: int)
    requires PrefillOk(m, |m.prefilled|) && n <= |m.shortIds| && id in Positions(m, n)
    ensures var q := Positions(m, n)[id];
      0 <= q < TxCount(m) && Start(m)[q].Empty? && Gaps(Start(m)[..q]) < n && m.shortIds[Gaps(Start(m)[..q])] == id
  {
    if n > 0 && id != m.shortIds[n - 1] { PositionsAt(m, n - 1, id); }
  }

  /** With distinct short ids, the `i`-th one leads to the `i`-th gap. */
  lemma {:induction false} PositionOf(m: Message, n: nat, i: nat)
    requires PrefillOk(m, |m.prefilled|) && i < n <= |m.shortIds| && Distinct(m.shortIds)
    ensures m.shortIds[i] in Positions(m, n) && IsGap(Start(m), i, Positions(m, n)[m.shortIds[i]])
  {
    if i < n - 1 {
      PositionOf(m, n - 1, i);
    } else {
      SlotsGaps(m, |m.prefilled|);
    }
  }

  // ---------- Receiving ----------

  /** A transaction on offer for a short id. */
  predicate Offered(short: int -> int, mempool: seq<Tx>, extra: seq<(int, Tx)>, id: int, tx: Tx) {
    || (tx in mempool && short(tx.wtxid) == id)
    || exists i :: 0 <= i < |extra| && extra[i].1 == tx && short(extra[i].0) == id
  }

  /** Prefilled slots are as sent; another slot is empty or holds an offer for the short id of its gap. */
  ghost predicate Matched(m: Message, short: int -> int, mempool: seq<Tx>, extra: seq<(int, Tx)>, avail: seq<Ref>)
    requires PrefillOk(m, |m.prefilled|)
  {
    var start := Start(m);
    && |avail| == TxCount(m)
    && (forall q :: 0 <= q < |avail| && start[q].Held? ==> avail[q] == start[q])
    && (forall q :: 0 <= q < |avail| && start[q].Empty? && avail[q].Held? ==>
          Gaps(start[..q]) < |m.shortIds| && Offered(short, mempool, extra, m.shortIds[Gaps(start[..q])], avail[q].tx))
  }

  ghost predicate Crowded(m: Message, bucket: (map<int, int>, int) -> nat)
    requires PrefillOk(m, |m.prefilled|)
  {
    exists n :: 0 <= n < |m.shortIds| && TooFull(m, bucket, n)
  }

  ghost predicate TooFull(m: Message, bucket: (map<int, int>, int) -> nat, n: nat)
    requires PrefillOk(m, |m.prefilled|) && n < |m.shortIds|
  {
    bucket(Positions(m, n + 1), m.shortIds[n]) > MAX_BUCKET
  }

  predicate Plausible(m: Message) {
    !m.headerNull && TxCount(m) > 0 && TxCount(m) <= MAX_BLOCK_WEIGHT / MIN_SERIALIZABLE_TRANSACTION_WEIGHT
  }

  class PartiallyDownloadedBlock {
    var headerNull: bool
    var txnAvailable: seq<Ref>
    var prefilledCount: nat
    var mempoolCount: int

    constructor ()
      ensures headerNull && txnAvailable == [] && mempoolCount == 0
    {
      headerNull, txnAvailable, prefilledCount, mempoolCount := true, [], 0, 0;
    }

    method Prefill(m: Message) returns (ok: bool)
      requires |txnAvailable| == TxCount(m) && forall q :: 0 <= q < TxCount(m) ==> txnAvailable[q].Empty?
      modifies this`txnAvailable
      ensures ok <==> PrefillOk(m, |m.prefilled|)
      ensures |txnAvailable| == TxCount(m) && (ok ==> txnAvailable == Start(m))
    {
      var last := -1;
      assert txnAvailable == seq(TxCount(m), _ => Empty);
      for i := 0 to |m.prefilled|
        invariant PrefillOk(m, i) && last == LastIndex(m.prefilled, i) >= -1 && txnAvailable == Slots(m, i)
      {
        LastIndexUp(m.prefilled, i);
        if m.prefilled[i].tx.isNull { return false; }
        last := last + m.prefilled[i].index + 1;
        if last > MAX_INDEX { return false; }
        if last > |m.shortIds| + i { return false; }
        PrefillNext(m, i);
        txnAvailable := txnAvailable[last := Held(m.prefilled[i].tx)];
      }
      return true;
    }

    /** The slot of every short id, unless a bucket of the table gets too full. */
    method Locate(m: Message, bucket: (map<int, int>, int) -> nat) returns (ok: bool, positions: map<int, int>)
      requires Received(m) && PrefillOk(m, |m.prefilled|) && txnAvailable == Start(m)
      ensures ok <==> !Crowded(m, bucket)
      ensures ok ==> positions == Positions(m, |m.shortIds|)
    {
      hide Positions, Slots, Start, TooFull, Gaps, PrefillOk;
      var offset := 0;
      positions := map[];
      SlotsGaps(m, |m.prefilled|);
      NoPositions(m);
      for i := 0 to |m.shortIds|
        invariant 0 <= offset && i + offset <= TxCount(m) && Gaps(txnAvailable[..i + offset]) == i
        invariant positions == Positions(m, i)
        invariant forall n :: 0 <= n < i ==> !TooFull(m, bucket, n)
      {
        Ahead(txnAvailable, i + offset);
        while txnAvailable[i + offset].Held?
          invariant 0 <= offset && i + offset < TxCount(m) && Gaps(txnAvailable[..i + offset]) == i
          decreases TxCount(m) - offset
        {
          GapsNext(txnAvailable, i + offset);
          offset := offset + 1;
          Ahead(txnAvailable, i + offset);
        }
        assert i + offset <= MAX_INDEX;
        NextPosition(m, i, i + offset);
        GapsNext(txnAvailable, i + offset);
        positions := positions[m.shortIds[i] := i + offset];
        FullIs(m, bucket, i);
        if bucket(positions, m.shortIds[i]) > MAX_BUCKET { return false, positions; }
      }
      return true, positions;
    }

    /** A candidate for a slot: the first one is kept, a second one empties the slot. */
    method Offer(tx: Tx, q: nat, have: seq<bool>, ghost m: Message, keepSame: bool) returns (have': seq<bool>)
      requires PrefillOk(m, |m.prefilled|) && |have| == |txnAvailable| == TxCount(m) && q < |have| && Start(m)[q].Empty?
      requires Tidy(Start(m), txnAvailable, have)
      modifies this`txnAvailable, this`mempoolCount
      ensures |have'| == |have| && |txnAvailable| == TxCount(m) && Tidy(Start(m), txnAvailable, have')
      ensures mempoolCount + Gaps(txnAvailable) == old(mempoolCount + Gaps(txnAvailable))
      ensures forall p :: 0 <= p < |have| && p != q ==> txnAvailable[p] == old(txnAvailable[p])
      ensures have' == have[q := true]
      ensures txnAvailable[q] == if !have[q] then Held(tx)
                else if keepSame && old(txnAvailable[q]).Held? && old(txnAvailable[q]).tx.wtxid == tx.wtxid
                then old(txnAvailable[q]) else Empty
    {
      hide Gaps, Slots, Start, PrefillOk;
      have' := have;
      if !have[q] {
        GapsFill(txnAvailable, q, tx);
        txnAvailable := txnAvailable[q := Held(tx)];
        have' := have[q := true];
        mempoolCount := mempoolCount + 1;
      } else if txnAvailable[q].Held? && !(keepSame && txnAvailable[q].tx.wtxid == tx.wtxid) {
        GapsEmpty(txnAvailable, q);
        txnAvailable := txnAvailable[q := Empty];
        mempoolCount := mempoolCount - 1;
      }
    }

    method TakeMempool(m: Message, short: int -> int, mempool: seq<Tx>, positions: map<int, int>)
      returns (have: seq<bool>)
      requires PrefillOk(m, |m.prefilled|) && txnAvailable == Start(m)
      requires positions == Positions(m, |m.shortIds|) && Distinct(m.shortIds)
      modifies this`txnAvailable, this`mempoolCount
      ensures Matched(m, short, mempool, [], txnAvailable) && |have| == TxCount(m) && Tidy(Start(m), txnAvailable, have)
      ensures mempoolCount + Gaps(txnAvailable) == old(mempoolCount) + |m.shortIds|
      ensures old(mempoolCount) == 0 ==> Complete(m, short, mempool, [], txnAvailable, have, |mempool|, 0)
    {
      hide Gaps, Slots, Start, PrefillOk, Positions, Matched, Tidy, Complete, Distinct, Hits;
      NoPositions(m);
      PositionsSize(m, |m.shortIds|);
      assert m.shortIds[..|m.shortIds|] == m.shortIds;
      have := seq(|txnAvailable|, _ => false);
      NothingYet(m, short, mempool, [], have);
      StartComplete(m, short, mempool, [], have);
      for i := 0 to |mempool|
        invariant Matched(m, short, mempool, [], txnAvailable) && |txnAvailable| == |have| == TxCount(m)
        invariant Tidy(Start(m), txnAvailable, have)
        invariant mempoolCount + Gaps(txnAvailable) == old(mempoolCount) + |m.shortIds|
        invariant Complete(m, short, mempool, [], txnAvailable, have, i, 0)
      {
        var id := short(mempool[i].wtxid);
        ghost var before, had := txnAvailable, have;
        if id in positions {
          PositionsAt(m, |m.shortIds|, id);
          have := Offer(mempool[i], positions[id], have, m, false);
          StillMatched(m, short, mempool, [], before, txnAvailable, positions[id], mempool[i], id);
          FewerGaps(m, short, mempool, [], txnAvailable);
          assert mempoolCount >= old(mempoolCount);
        }
        PoolNext(m, short, mempool, before, txnAvailable, had, have, i);
        if mempoolCount == |positions| {
          if old(mempoolCount) == 0 { AllFilled(m, short, mempool, [], txnAvailable, have, |mempool|, 0); }
          break;
        }
      }
    }

    method TakeExtra(m: Message, short: int -> int, mempool: seq<Tx>, extra: seq<(int, Tx)>, positions: map<int, int>,
                     have0: seq<bool>)
      requires PrefillOk(m, |m.prefilled|) && positions == Positions(m, |m.shortIds|) && Distinct(m.shortIds)
      requires Matched(m, short, mempool, extra, txnAvailable)
      requires |txnAvailable| == |have0| == TxCount(m) && Tidy(Start(m), txnAvailable, have0)
      modifies this`txnAvailable, this`mempoolCount
      ensures Matched(m, short, mempool, extra, txnAvailable)
      ensures mempoolCount + Gaps(txnAvailable) == old(mempoolCount + Gaps(txnAvailable))
      ensures
        && old(mempoolCount + Gaps(txnAvailable)) == |m.shortIds|
        && old(Complete(m, short, mempool, extra, txnAvailable, have0, |mempool|, 0)) ==>
          TakesAll(m, short, mempool, extra, txnAvailable)
    {
      hide Gaps, Slots, Start, PrefillOk, Positions, Matched, Tidy, Complete, Distinct, Hits, TakesAll;
      var have := have0;
      ghost var total := mempoolCount + Gaps(txnAvailable);
      ghost var complete := Complete(m, short, mempool, extra, txnAvailable, have0, |mempool|, 0);
      MatchedSize(m, short, mempool, extra, txnAvailable);
      PositionsSize(m, |m.shortIds|);
      assert m.shortIds[..|m.shortIds|] == m.shortIds;
      for i := 0 to |extra|
        invariant Matched(m, short, mempool, extra, txnAvailable) && |txnAvailable| == |have| == TxCount(m)
        invariant Tidy(Start(m), txnAvailable, have) && mempoolCount + Gaps(txnAvailable) == total
        invariant complete ==> Complete(m, short, mempool, extra, txnAvailable, have, |mempool|, i)
      {
        var id := short(extra[i].0);
        ghost var before, had := txnAvailable, have;
        if id in positions {
          PositionsAt(m, |m.shortIds|, id);
          have := Offer(extra[i].1, positions[id], have, m, true);
          StillMatched(m, short, mempool, extra, before, txnAvailable, positions[id], extra[i].1, id);
          FewerGaps(m, short, mempool, extra, txnAvailable);
          assert mempoolCount >= total - |m.shortIds|;
        }
        if complete { ExtraNext(m, short, mempool, extra, before, txnAvailable, had, have, i); }
        if mempoolCount == |positions| {
          if total == |m.shortIds| { AllFilled(m, short, mempool, extra, txnAvailable, have, |mempool|, |extra|); }
          break;
        }
      }
      if total == |m.shortIds| && complete { Everything(m, short, mempool, extra, txnAvailable, have); }
    }

    method InitData(m: Message, short: int -> int, mempool: seq<Tx>, extra: seq<(int, Tx)>,
                    bucket: (map<int, int>, int) -> nat)
      returns (status: Status)
      requires Received(m)
      modifies this
      ensures status.Invalid? <==>
        !Plausible(m) || !old(headerNull) || old(txnAvailable) != [] || !PrefillOk(m, |m.prefilled|)
      ensures status.Failed? <==> !status.Invalid? && (Crowded(m, bucket) || !Distinct(m.shortIds))
      ensures status.Ok? ==> !headerNull && Matched(m, short, mempool, extra, txnAvailable)
      ensures status.Ok? ==> mempoolCount + Gaps(txnAvailable) == old(mempoolCount) + |m.shortIds|
      ensures status.Ok? && old(mempoolCount) == 0 ==> TakesAll(m, short, mempool, extra, txnAvailable)
    {
      hide Gaps, Slots, Start, PrefillOk, Positions, Matched, Tidy, Crowded, Complete, TakesAll;
      if m.headerNull || (m.shortIds == [] && m.prefilled == []) { return Invalid; }
      if |m.shortIds| + |m.prefilled| > MAX_BLOCK_WEIGHT / MIN_SERIALIZABLE_TRANSACTION_WEIGHT { return Invalid; }
      if !headerNull || txnAvailable != [] { return Invalid; }
      headerNull := false;
      txnAvailable := seq(TxCount(m), _ => Empty);
      var ok := Prefill(m);
      if !ok { return Invalid; }
      prefilledCount := |m.prefilled|;
      var positions;
      ok, positions := Locate(m, bucket);
      if !ok { return Failed; }
      PositionsSize(m, |m.shortIds|);
      assert m.shortIds[..|m.shortIds|] == m.shortIds;
      if |positions| != |m.shortIds| { return Failed; }
      var have := TakeMempool(m, short, mempool, positions);
      MatchedSize(m, short, mempool, [], txnAvailable);
      if old(mempoolCount) == 0 { MoreComplete(m, short, mempool, extra, txnAvailable, have); }
      MoreOffers(m, short, mempool, extra, txnAvailable);
      TakeExtra(m, short, mempool, extra, positions, have);
      return Ok;
    }

    /** Put the block together from the slots and the transactions asked for, in order; works once. */
    method FillBlock(missing: seq<Tx>, mutated: seq<Tx> -> bool) returns (status: Status, vtx: seq<Tx>)
      modifies this
      ensures status.Invalid? <==> old(headerNull) || |missing| != Gaps(old(txnAvailable))
      ensures !status.Invalid? ==> vtx == Fill(old(txnAvailable), missing) && (status.Failed? <==> mutated(vtx))
      ensures !old(headerNull) && |missing| >= Gaps(old(txnAvailable)) ==> headerNull && txnAvailable == []
      ensures !old(headerNull) && |missing| < Gaps(old(txnAvailable)) ==>
        !headerNull && |txnAvailable| == |old(txnAvailable)|
    {
      vtx := [];
      if headerNull { return Invalid, vtx; }
      ghost var was := txnAvailable;
      var offset := 0;
      for i := 0 to |txnAvailable|
        invariant |txnAvailable| == |was| && (forall j :: i <= j < |was| ==> txnAvailable[j] == was[j])
        invariant offset == Gaps(was[..i]) <= |missing| && !headerNull
        invariant vtx == Fill(was[..i], missing[..offset])
      {
        assert was[..i + 1][..i] == was[..i];
        if txnAvailable[i].Empty? {
          if offset >= |missing| {
            GapsGrow(was, i + 1, |was|);
            assert was[..|was|] == was;
            return Invalid, vtx;
          }
          assert missing[..offset + 1][..offset] == missing[..offset];
          vtx := vtx + [missing[offset]];
          offset := offset + 1;
        } else {
          vtx := vtx + [txnAvailable[i].tx];
          txnAvailable := txnAvailable[i := Empty];
        }
      }
      assert was[..|was|] == was && missing[..|missing|] == missing;
      headerNull := true;
      txnAvailable := [];
      if |missing| != offset { return Invalid, vtx; }
      if mutated(vtx) { return Failed, vtx; }
      return Ok, vtx;
    }
  }

  /** The gaps of `s` filled by `missing` in order. */
  function Fill(s: seq<Ref>, missing: seq<Tx>): (r: seq<Tx>)
    requires |missing| == Gaps(s)
    ensures |r| == |s|
  {
    if s == [] then []
    else
      var n, last := |s| - 1, s[|s| - 1];
      if last.Empty? then Fill(s[..n], missing[..|missing| - 1]) + [missing[|missing| - 1]]
      else Fill(s[..n], missing) + [last.tx]
  }

  // ---------- Sending and rebuilding ----------

  /** What the sender makes of a block: the first transaction whole, a short id for every other. */
  method Announce(vtx: seq<Tx>, short: int -> int) returns (m: Message)
    requires |vtx| > 0
    ensures !m.headerNull && m.prefilled == [Prefilled(0, vtx[0])] && |m.shortIds| == |vtx| - 1
    ensures forall i :: 1 <= i < |vtx| ==> m.shortIds[i - 1] == short(vtx[i].wtxid)
  {
    var ids := [];
    for i := 1 to |vtx|
      invariant |ids| == i - 1 && forall j :: 1 <= j < i ==> ids[j - 1] == short(vtx[j].wtxid)
    {
      ids := ids + [short(vtx[i].wtxid)];
    }
    m := Message(false, ids, [Prefilled(0, vtx[0])]);
  }

  /** `m` is a compact form of the block, whatever it chose to prefill. */
  ghost predicate Describes(m: Message, short: int -> int, vtx: seq<Tx>) {
    && !m.headerNull && PrefillOk(m, |m.prefilled|) && |vtx| == TxCount(m)
    && (forall q :: 0 <= q < |vtx| && Start(m)[q].Held? ==> Start(m)[q].tx == vtx[q])
    && (forall q :: 0 <= q < |vtx| && Start(m)[q].Empty? ==> ShortAt(m, short, vtx, q))
  }

  ghost predicate ShortAt(m: Message, short: int -> int, vtx: seq<Tx>, q: nat)
    requires PrefillOk(m, |m.prefilled|) && q < TxCount(m) == |vtx|
  {
    var i := Gaps(Start(m)[..q]);
    i < |m.shortIds| && m.shortIds[i] == short(vtx[q].wtxid)
  }

  lemma AnnounceDescribes(m: Message, short: int -> int, vtx: seq<Tx>)
    requires |vtx| > 0 && !vtx[0].isNull && !m.headerNull
    requires m.prefilled == [Prefilled(0, vtx[0])] && |m.shortIds| == |vtx| - 1
    requires forall i :: 1 <= i < |vtx| ==> m.shortIds[i - 1] == short(vtx[i].wtxid)
    ensures Describes(m, short, vtx)
  {
    hide Gaps;
    assert LastIndex(m.prefilled, 1) == 0 by { assert LastIndex(m.prefilled, 0) == -1; }
    var s := Start(m);
    assert s == Slots(m, 0)[0 := Held(vtx[0])];
    forall q | 1 <= q < |vtx| ensures ShortAt(m, short, vtx, q) { FirstTaken(s, q); }
  }

  lemma {:induction false} FirstTaken(s: seq<Ref>, q: nat)
    requires 1 <= q <= |s| && s[0].Held? && forall p :: 1 <= p < |s| ==> s[p].Empty?
    ensures Gaps(s[..q]) == q - 1
  {
    GapsNext(s, q - 1);
    if q > 1 { FirstTaken(s, q - 1); } else { assert s[..0] == []; }
  }

  /** No transaction on offer shares a short id with a different one of the block. */
  ghost predicate NoCollision(short: int -> int, mempool: seq<Tx>, extra: seq<(int, Tx)>, vtx: seq<Tx>) {
    forall tx, q :: 0 <= q < |vtx| && Offered(short, mempool, extra, short(vtx[q].wtxid), tx) ==> tx == vtx[q]
  }

  /** The transactions a receiver has to ask for, in order. */
  function Missing(s: seq<Ref>, vtx: seq<Tx>): (r: seq<Tx>)
    requires |s| == |vtx|
    ensures |r| == Gaps(s)
  {
    if s == [] then []
    else
      var n := |s| - 1;
      Missing(s[..n], vtx[..n]) + (if s[n].Empty? then [vtx[n]] else [])
  }

  lemma FillNext(s: seq<Ref>, missing: seq<Tx>, last: Ref, tx: Tx)
    requires |missing| == Gaps(s) && (last.Held? ==> last.tx == tx)
    ensures Gaps(s + [last]) == Gaps(s) + if last.Empty? then 1 else 0
    ensures Fill(s + [last], if last.Empty? then missing + [tx] else missing) == Fill(s, missing) + [tx]
  {
    var t := s + [last];
    assert t[..|t| - 1] == s && t[|t| - 1] == last;
    if last.Empty? { assert (missing + [tx])[..|missing|] == missing; }
  }

  lemma {:induction false} FillMissing(s: seq<Ref>, vtx: seq<Tx>)
    requires |s| == |vtx| && forall q :: 0 <= q < |s| && s[q].Held? ==> s[q].tx == vtx[q]
    ensures Fill(s, Missing(s, vtx)) == vtx
  {
    if s != [] {
      var n := |s| - 1;
      FillMissing(s[..n], vtx[..n]);
      hide Fill, Gaps;
      assert s == s[..n] + [s[n]] && vtx == vtx[..n] + [vtx[n]];
      FillNext(s[..n], Missing(s[..n], vtx[..n]), s[n], vtx[n]);
      assert Missing(s, vtx) == if s[n].Empty? then Missing(s[..n], vtx[..n]) + [vtx[n]] else Missing(s[..n], vtx[..n]);
    }
  }

  /** Without collisions every slot the receiver filled holds the right transaction. */
  lemma RightOnes(m: Message, short: int -> int, mempool: seq<Tx>, extra: seq<(int, Tx)>, vtx: seq<Tx>, avail: seq<Ref>)
    requires Describes(m, short, vtx) && NoCollision(short, mempool, extra, vtx)
    requires Matched(m, short, mempool, extra, avail)
    ensures |avail| == |vtx| && forall q :: 0 <= q < |vtx| && avail[q].Held? ==> avail[q].tx == vtx[q]
  {
    hide Gaps, Slots, Offered;
    forall q | 0 <= q < |vtx| && avail[q].Held? ensures avail[q].tx == vtx[q] {
      if Start(m)[q].Empty? { assert ShortAt(m, short, vtx, q); }
    }
  }

  lemma {:induction false} MissingAt(s: seq<Ref>, vtx: seq<Tx>, tx: Tx) returns (q: nat)
    requires |s| == |vtx| && tx in Missing(s, vtx)
    ensures q < |s| && s[q].Empty? && vtx[q] == tx
  {
    var n := |s| - 1;
    if s[n].Empty? && vtx[n] == tx { q := n; } else { q := MissingAt(s[..n], vtx[..n], tx); }
  }

  /** No transaction is listed twice. */
  ghost predicate Unique(mempool: seq<Tx>) {
    forall j, k :: 0 <= j < k < |mempool| ==> mempool[j] != mempool[k]
  }

  /** Where no short id collides, all offers for one of the block's ids are the one transaction. */
  lemma {:induction false} OffersClear(short: int -> int, mempool: seq<Tx>, extra: seq<(int, Tx)>, vtx: seq<Tx>, q: nat)
    requires NoCollision(short, mempool, extra, vtx) && Unique(mempool) && q < |vtx|
    ensures Clear(short, mempool, extra, short(vtx[q].wtxid))
  {
    var id := short(vtx[q].wtxid);
    forall j, k | 0 <= j < k < |mempool| && short(mempool[j].wtxid) == id ensures short(mempool[k].wtxid) != id {
      assert Offered(short, mempool, extra, id, mempool[j]);
      if short(mempool[k].wtxid) == id { assert Offered(short, mempool, extra, id, mempool[k]); }
    }
  }

  /** Nothing is asked for that was on offer. */
  lemma {:induction false} AskedOnly(m: Message, short: int -> int, mempool: seq<Tx>, extra: seq<(int, Tx)>,
                                     vtx: seq<Tx>, avail: seq<Ref>, tx: Tx)
    requires Describes(m, short, vtx) && NoCollision(short, mempool, extra, vtx) && Unique(mempool)
    requires Matched(m, short, mempool, extra, avail) && TakesAll(m, short, mempool, extra, avail)
    requires |avail| == |vtx| && tx in Missing(avail, vtx)
    ensures forall t :: !Offered(short, mempool, extra, short(tx.wtxid), t)
  {
    hide Gaps, Slots, Start, PrefillOk, Offered;
    var q := MissingAt(avail, vtx, tx);
    assert Start(m)[q].Empty?;
    assert ShortAt(m, short, vtx, q);
    var id := short(vtx[q].wtxid);
    assert GapFor(m, q, id);
    OffersClear(short, mempool, extra, vtx, q);
  }

  /** A block relayed through any compact form of it comes out as it went in, and nothing on offer was asked for. */
  method Rebuild(m: Message, short: int -> int, mempool: seq<Tx>, extra: seq<(int, Tx)>,
                 bucket: (map<int, int>, int) -> nat,
                 vtx: seq<Tx>, mutated: seq<Tx> -> bool) returns (status: Status, r: seq<Tx>, asked: seq<Tx>)
    requires Received(m) && |vtx| > 0 && Describes(m, short, vtx) && NoCollision(short, mempool, extra, vtx)
    requires Distinct(m.shortIds) && !Crowded(m, bucket) && !mutated(vtx)
    ensures status.Ok? && r == vtx
    ensures Unique(mempool) ==> forall tx, t :: tx in asked ==> !Offered(short, mempool, extra, short(tx.wtxid), t)
  {
    hide Gaps, Slots, Start, Offered, NoCollision, Matched, Crowded, PrefillOk, TakesAll, Unique, Missing;
    var p := new PartiallyDownloadedBlock();
    var s := p.InitData(m, short, mempool, extra, bucket);
    RightOnes(m, short, mempool, extra, vtx, p.txnAvailable);
    FillMissing(p.txnAvailable, vtx);
    asked := Missing(p.txnAvailable, vtx);
    if Unique(mempool) {
      forall tx | tx in asked ensures forall t :: !Offered(short, mempool, extra, short(tx.wtxid), t) {
        AskedOnly(m, short, mempool, extra, vtx, p.txnAvailable, tx);
      }
    }
    status, r := p.FillBlock(asked, mutated);
  }

  // ---------- Nothing on offer is missed ----------

  /** Among the first `n` mempool and `e` extra transactions there is one with this short id. */
  ghost predicate Hits(short: int -> int, mempool: seq<Tx>, extra: seq<(int, Tx)>, n: int, e: int, id: int) {
    (exists k :: 0 <= k < n && k < |mempool| && short(mempool[k].wtxid) == id) ||
        (exists k :: 0 <= k < e && k < |extra| && short(extra[k].0) == id)
  }

  /** At most one mempool transaction has the short id, and all offers for it are the same transaction. */
  ghost predicate Clear(short: int -> int, mempool: seq<Tx>, extra: seq<(int, Tx)>, id: int) {
    && (forall j, k :: 0 <= j < k < |mempool| && short(mempool[j].wtxid) == id ==> short(mempool[k].wtxid) != id)
    && (forall a, b :: Offered(short, mempool, extra, id, a) && Offered(short, mempool, extra, id, b) ==>
        a.wtxid == b.wtxid)
  }

  /** Slot `q` is a gap with short id `id`. */
  ghost predicate GapFor(m: Message, q: int, id: int)
    requires PrefillOk(m, |m.prefilled|)
  {
    0 <= q < TxCount(m) && Start(m)[q].Empty? && Gaps(Start(m)[..q]) < |m.shortIds| &&
        m.shortIds[Gaps(Start(m)[..q])] == id
  }

  /** Every gap with clear offers is filled exactly if one came by. */
  ghost predicate Complete(m: Message, short: int -> int, mempool: seq<Tx>, extra: seq<(int, Tx)>,
                           avail: seq<Ref>, have: seq<bool>, n: int, e: int)
    requires PrefillOk(m, |m.prefilled|) && |avail| == |have| == TxCount(m)
  {
    forall q, id :: GapFor(m, q, id) && Clear(short, mempool, extra, id) ==>
      (avail[q].Held? <==> have[q]) && (have[q] <==> Hits(short, mempool, extra, n, e, id))
  }

  /** A gap with clear offers is left empty only if nothing at all was on offer for it. */
  ghost predicate TakesAll(m: Message, short: int -> int, mempool: seq<Tx>, extra: seq<(int, Tx)>, avail: seq<Ref>)
    requires PrefillOk(m, |m.prefilled|)
  {
    |avail| == TxCount(m) && forall q, id :: GapFor(m, q, id) && Clear(short, mempool, extra, id) ==>
      (avail[q].Empty? <==> forall tx :: !Offered(short, mempool, extra, id, tx))
  }

  lemma GapPlace(m: Message, q: int, id: int)
    requires PrefillOk(m, |m.prefilled|) && Distinct(m.shortIds) && GapFor(m, q, id)
    ensures id in Positions(m, |m.shortIds|) && Positions(m, |m.shortIds|)[id] == q
  {
    var i := Gaps(Start(m)[..q]);
    PositionOf(m, |m.shortIds|, i);
    GapUnique(Start(m), i, q, Positions(m, |m.shortIds|)[id]);
  }

  lemma HitsNext(short: int -> int, mempool: seq<Tx>, extra: seq<(int, Tx)>, n: int, e: int, id: int)
    requires 0 <= n && 0 <= e
    ensures n < |mempool| ==>
      (Hits(short, mempool, extra, n + 1, e, id) <==>
          Hits(short, mempool, extra, n, e, id) || short(mempool[n].wtxid) == id)
    ensures e < |extra| ==>
      (Hits(short, mempool, extra, n, e + 1, id) <==> Hits(short, mempool, extra, n, e, id) || short(extra[e].0) == id)
  {}

  lemma HitsOffered(short: int -> int, mempool: seq<Tx>, extra: seq<(int, Tx)>, id: int)
    ensures Hits(short, mempool, extra, |mempool|, |extra|, id) <==> exists tx :: Offered(short, mempool, extra, id, tx)
  {
    if Hits(short, mempool, extra, |mempool|, |extra|, id) {
      if k :| 0 <= k < |mempool| && short(mempool[k].wtxid) == id {
        assert Offered(short, mempool, extra, id, mempool[k]);
      } else {
        var k :| 0 <= k < |extra| && short(extra[k].0) == id;
        assert Offered(short, mempool, extra, id, extra[k].1);
      }
    }
  }

  lemma StartComplete(m: Message, short: int -> int, mempool: seq<Tx>, extra: seq<(int, Tx)>, have: seq<bool>)
    requires PrefillOk(m, |m.prefilled|) && |have| == TxCount(m) && forall q :: 0 <= q < |have| ==> !have[q]
    ensures Complete(m, short, mempool, extra, Start(m), have, 0, 0)
  {
    hide Gaps, Slots, Start, PrefillOk, Clear;
  }

  lemma PoolNext(m: Message, short: int -> int, mempool: seq<Tx>, before: seq<Ref>, after: seq<Ref>, had: seq<bool>,
                 have: seq<bool>, i: nat)
    requires PrefillOk(m, |m.prefilled|) && Distinct(m.shortIds) && i < |mempool|
    requires |before| == |after| == |had| == |have| == TxCount(m) && Complete(m, short, mempool, [], before, had, i, 0)
    requires var id, ps := short(mempool[i].wtxid), Positions(m, |m.shortIds|);
      if id in ps then 0 <= ps[id] < TxCount(m) && Took(before, after, had, have, ps[id], mempool[i], false)
      else after == before && have == had
    ensures Complete(m, short, mempool, [], after, have, i + 1, 0)
  {
    hide Gaps, Slots, Start, PrefillOk, Positions, Distinct, Offered, Hits;
    var got := short(mempool[i].wtxid);
    if got in Positions(m, |m.shortIds|) { PositionsAt(m, |m.shortIds|, got); }
    forall q, id | GapFor(m, q, id) && Clear(short, mempool, [], id)
      ensures (after[q].Held? <==> have[q]) && (have[q] <==> Hits(short, mempool, [], i + 1, 0, id))
    {
      GapPlace(m, q, id);
      HitsNext(short, mempool, [], i, 0, id);
      if short(mempool[i].wtxid) == id { FirstHit(short, mempool, i, id); }
    }
  }

  lemma FirstHit(short: int -> int, mempool: seq<Tx>, i: nat, id: int)
    requires i < |mempool| && short(mempool[i].wtxid) == id && Clear(short, mempool, [], id)
    ensures !Hits(short, mempool, [], i, 0, id)
  {}

  lemma ExtraNext(m: Message, short: int -> int, mempool: seq<Tx>, extra: seq<(int, Tx)>,
                  before: seq<Ref>, after: seq<Ref>, had: seq<bool>, have: seq<bool>, i: nat)
    requires PrefillOk(m, |m.prefilled|) && Distinct(m.shortIds)
    requires i < |extra| && Matched(m, short, mempool, extra, before)
    requires |before| == |after| == |had| == |have| == TxCount(m)
    requires Complete(m, short, mempool, extra, before, had, |mempool|, i)
    requires var id, ps := short(extra[i].0), Positions(m, |m.shortIds|);
      if id in ps then 0 <= ps[id] < TxCount(m) && Took(before, after, had, have, ps[id], extra[i].1, true)
      else after == before && have == had
    ensures Complete(m, short, mempool, extra, after, have, |mempool|, i + 1)
  {
    hide Gaps, Slots, Start, PrefillOk, Positions, Distinct, Hits;
    var got := short(extra[i].0);
    if got in Positions(m, |m.shortIds|) { PositionsAt(m, |m.shortIds|, got); }
    forall q, id | GapFor(m, q, id) && Clear(short, mempool, extra, id)
      ensures (after[q].Held? <==> have[q]) && (have[q] <==> Hits(short, mempool, extra, |mempool|, i + 1, id))
    {
      GapPlace(m, q, id);
      HitsNext(short, mempool, extra, |mempool|, i, id);
      if short(extra[i].0) == id {
        assert Offered(short, mempool, extra, id, extra[i].1);
        if had[q] { assert Offered(short, mempool, extra, id, before[q].tx); }
      }
    }
  }

  /** What Offer does to slot `q`. */
  ghost predicate Took(before: seq<Ref>, after: seq<Ref>, had: seq<bool>, have: seq<bool>, q: nat, tx: Tx,
                       keepSame: bool)
    requires |before| == |after| == |had| == |have| && q < |have|
  {
    && have == had[q := true] && (forall p :: 0 <= p < |have| && p != q ==> after[p] == before[p])
    && after[q] == (if !had[q] then Held(tx)
                    else if keepSame && before[q].Held? && before[q].tx.wtxid == tx.wtxid then before[q] else Empty)
  }

  /** With no gap left, nothing can have been missed. */
  lemma AllFilled(m: Message, short: int -> int, mempool: seq<Tx>, extra: seq<(int, Tx)>, avail: seq<Ref>,
                  have: seq<bool>, n: int, e: int)
    requires PrefillOk(m, |m.prefilled|) && Matched(m, short, mempool, extra, avail) && |avail| == |have| == TxCount(m)
    requires Tidy(Start(m), avail, have) && Gaps(avail) == 0 && n == |mempool| && e == |extra|
    ensures Complete(m, short, mempool, extra, avail, have, n, e)
  {
    hide Slots, PrefillOk, Offered, Hits;
    forall q, id | GapFor(m, q, id) ensures avail[q].Held? && have[q] && Hits(short, mempool, extra, n, e, id) {
      NoGap(avail, q);
      HitsOffered(short, mempool, extra, id);
    }
  }

  lemma {:induction false} NoGap(s: seq<Ref>, q: nat)
    requires Gaps(s) == 0 && q < |s|
    ensures s[q].Held?
  {
    if q < |s| - 1 { NoGap(s[..|s| - 1], q); }
  }

  lemma Everything(m: Message, short: int -> int, mempool: seq<Tx>, extra: seq<(int, Tx)>, avail: seq<Ref>,
                   have: seq<bool>)
    requires PrefillOk(m, |m.prefilled|) && |avail| == |have| == TxCount(m)
    requires Complete(m, short, mempool, extra, avail, have, |mempool|, |extra|)
    ensures TakesAll(m, short, mempool, extra, avail)
  {
    hide Gaps, Slots, Start, PrefillOk, Offered, Hits, Clear, GapFor;
    forall q, id | GapFor(m, q, id) && Clear(short, mempool, extra, id)
      ensures 0 <= q < |avail| && (avail[q].Empty? <==> forall tx :: !Offered(short, mempool, extra, id, tx))
    {
      GapInRange(m, q, id);
      HitsOffered(short, mempool, extra, id);
    }
  }

  lemma GapInRange(m: Message, q: int, id: int)
    requires PrefillOk(m, |m.prefilled|) && GapFor(m, q, id)
    ensures 0 <= q < TxCount(m)
  {}

  lemma MoreComplete(m: Message, short: int -> int, mempool: seq<Tx>, extra: seq<(int, Tx)>, avail: seq<Ref>,
                     have: seq<bool>)
    requires PrefillOk(m, |m.prefilled|) && |avail| == |have| == TxCount(m)
    requires Complete(m, short, mempool, [], avail, have, |mempool|, 0)
    ensures Complete(m, short, mempool, extra, avail, have, |mempool|, 0)
  {
    hide Gaps, Slots, Start, PrefillOk;
    forall q, id | GapFor(m, q, id) && Clear(short, mempool, extra, id) ensures Clear(short, mempool, [], id) {
      forall a | Offered(short, mempool, [], id, a) ensures Offered(short, mempool, extra, id, a) {}
    }
  }

  /** A gap is marked once something was offered for it. */
  ghost predicate Tidy(start: seq<Ref>, avail: seq<Ref>, have: seq<bool>)
    requires |start| == |avail| == |have|
  {
    forall q :: 0 <= q < |have| && start[q].Empty? && !have[q] ==> avail[q].Empty?
  }

  lemma GapsEmpty(s: seq<Ref>, q: nat)
    requires q < |s| && s[q].Held?
    ensures Gaps(s[q := Empty]) == Gaps(s) + 1
  {
    GapsFill(s[q := Empty], q, s[q].tx);
    assert s[q := Empty][q := Held(s[q].tx)] == s;
  }

  /** The counter counts filled gaps, so it never goes below where it started. */
  lemma FewerGaps(m: Message, short: int -> int, mempool: seq<Tx>, extra: seq<(int, Tx)>, avail: seq<Ref>)
    requires PrefillOk(m, |m.prefilled|) && Matched(m, short, mempool, extra, avail)
    ensures Gaps(avail) <= |m.shortIds|
  {
    SlotsGaps(m, |m.prefilled|);
    GapsLe(avail, Start(m));
  }

  lemma {:induction false} GapsLe(s: seq<Ref>, t: seq<Ref>)
    requires |s| == |t| && forall q :: 0 <= q < |s| && t[q].Held? ==> s[q].Held?
    ensures Gaps(s) <= Gaps(t)
  {
    if s != [] { GapsLe(s[..|s| - 1], t[..|t| - 1]); }
  }

  lemma NothingYet(m: Message, short: int -> int, mempool: seq<Tx>, extra: seq<(int, Tx)>, have: seq<bool>)
    requires PrefillOk(m, |m.prefilled|) && |have| == TxCount(m)
    ensures Matched(m, short, mempool, extra, Start(m)) && Tidy(Start(m), Start(m), have)
  {}

  lemma MatchedSize(m: Message, short: int -> int, mempool: seq<Tx>, extra: seq<(int, Tx)>, avail: seq<Ref>)
    requires PrefillOk(m, |m.prefilled|) && Matched(m, short, mempool, extra, avail)
    ensures |avail| == TxCount(m)
  {}

  lemma StillMatched(m: Message, short: int -> int, mempool: seq<Tx>, extra: seq<(int, Tx)>,
                     before: seq<Ref>, after: seq<Ref>, q: nat, tx: Tx, id: int)
    requires PrefillOk(m, |m.prefilled|) && Matched(m, short, mempool, extra, before)
    requires |after| == |before| && q < |after| && Start(m)[q].Empty?
    requires Gaps(Start(m)[..q]) < |m.shortIds| && m.shortIds[Gaps(Start(m)[..q])] == id
    requires Offered(short, mempool, extra, id, tx)
    requires forall p :: 0 <= p < |after| && p != q ==> after[p] == before[p]
    requires after[q].Empty? || after[q] == Held(tx) || after[q] == before[q]
    ensures Matched(m, short, mempool, extra, after)
  {
    hide Gaps, Slots, PrefillOk, Offered;
  }

  lemma MoreOffers(m: Message, short: int -> int, mempool: seq<Tx>, extra: seq<(int, Tx)>, avail: seq<Ref>)
    requires PrefillOk(m, |m.prefilled|) && Matched(m, short, mempool, [], avail)
    ensures Matched(m, short, mempool, extra, avail)
  {
    hide Gaps, Slots, PrefillOk;
  }

  lemma NoPositions(m: Message)
    requires PrefillOk(m, |m.prefilled|)
    ensures Positions(m, 0) == map[] && Gaps(Start(m)[..0]) == 0
    ensures |Start(m)| == TxCount(m) && Gaps(Start(m)) == |m.shortIds|
  {
    SlotsGaps(m, |m.prefilled|);
  }

  /** While gaps remain, the scan has not reached the end. */
  lemma Ahead(s: seq<Ref>, q: nat)
    requires q <= |s| && Gaps(s[..q]) < Gaps(s)
    ensures q < |s|
  {
    assert s[..|s|] == s;
  }

  lemma NextPosition(m: Message, i: nat, q: nat)
    requires PrefillOk(m, |m.prefilled|) && i < |m.shortIds| && IsGap(Start(m), i, q)
    ensures Positions(m, i + 1) == Positions(m, i)[m.shortIds[i] := q]
  {
    SlotsGaps(m, |m.prefilled|);
    GapUnique(Start(m), i, q, NthGap(Start(m), i));
  }

  lemma FullIs(m: Message, bucket: (map<int, int>, int) -> nat, n: nat)
    requires PrefillOk(m, |m.prefilled|) && n < |m.shortIds|
    ensures TooFull(m, bucket, n) <==> bucket(Positions(m, n + 1), m.shortIds[n]) > MAX_BUCKET
  {}

  // ---------- Differential index lists ----------

  const WRAP64 := 0x1_0000_0000_0000_0000

  /** The least index that may follow. */
  function NextShift(xs: seq<int>): int {
    if xs == [] then 0 else xs[|xs| - 1] + 1
  }

  predicate NonNegative(xs: seq<int>) {
    forall i :: 0 <= i < |xs| ==> xs[i] >= 0
  }

  ghost predicate Increasing(xs: seq<int>) {
    forall i, j :: 0 <= i < j < |xs| ==> xs[i] < xs[j]
  }

  /** The indices as differences, each from the successor of the one before. */
  function Deltas(xs: seq<int>): seq<int> {
    if xs == [] then [] else Deltas(xs[..|xs| - 1]) + [xs[|xs| - 1] - NextShift(xs[..|xs| - 1])]
  }

  function Values(ns: seq<int>): (xs: seq<int>)
    ensures |xs| == |ns|
  {
    if ns == [] then [] else Values(ns[..|ns| - 1]) + [NextShift(Values(ns[..|ns| - 1])) + ns[|ns| - 1]]
  }

  class DifferenceFormatter {
    var shift: int

    constructor ()
      ensures shift == 0
    {
      shift := 0;
    }

    method Ser(v: int) returns (ok: bool, n: int)
      requires v >= 0
      modifies this
      ensures ok <==> old(shift) <= v < WRAP64 - 1
      ensures ok ==> n == v - old(shift) && shift == v + 1
    {
      if v < shift || v >= WRAP64 - 1 { return false, 0; }
      n := v - shift;
      shift := v + 1;
      return true, n;
    }

    /** `max` is the largest value of the index type. */
    method Unser(n: int, max: int) returns (ok: bool, v: int)
      requires 0 <= n < WRAP64 && 0 <= shift < WRAP64
      modifies this
      ensures ok <==> old(shift) + n <= max && old(shift) + n < WRAP64 - 1
      ensures ok ==> v == old(shift) + n && shift == v + 1
    {
      v := 0;
      shift := (shift + n) % WRAP64;
      if shift < n || shift >= WRAP64 - 1 || shift > max { return false, v; }
      v := shift;
      shift := shift + 1;
      return true, v;
    }
  }

  /** Writing a list succeeds exactly for increasing lists of 64-bit indices. */
  method WriteIndices(xs: seq<int>) returns (ok: bool, ns: seq<int>)
    requires NonNegative(xs)
    ensures ok <==> Increasing(xs) && forall i :: 0 <= i < |xs| ==> xs[i] < WRAP64 - 1
    ensures ok ==> ns == Deltas(xs)
  {
    var f := new DifferenceFormatter();
    ns := [];
    for i := 0 to |xs|
      invariant Increasing(xs[..i]) && (forall j :: 0 <= j < i ==> xs[j] < WRAP64 - 1)
      invariant f.shift == NextShift(xs[..i]) && ns == Deltas(xs[..i])
    {
      assert xs[..i + 1][..i] == xs[..i];
      var n;
      ok, n := f.Ser(xs[i]);
      if !ok { return; }
      ns := ns + [n];
    }
    assert xs[..|xs|] == xs;
    ok := true;
  }

  /** Reading a list succeeds exactly if every index fits its type, and then the list is increasing. */
  method ReadIndices(ns: seq<int>, max: int) returns (ok: bool, xs: seq<int>)
    requires 0 <= max < WRAP64 - 1 && NonNegative(ns) && forall i :: 0 <= i < |ns| ==> ns[i] < WRAP64
    ensures ok <==> forall i :: 0 <= i < |ns| ==> Values(ns)[i] <= max
    ensures ok ==> xs == Values(ns) && Increasing(xs)
  {
    hide Values;
    var f := new DifferenceFormatter();
    xs := [];
    NoValues(ns);
    for i := 0 to |ns|
      invariant xs == Values(ns[..i]) && Increasing(xs) && 0 <= f.shift == NextShift(xs) < WRAP64
      invariant forall j :: 0 <= j < i ==> xs[j] <= max
    {
      ValueAt(ns, i);
      ValuesNext(ns[..i], ns[i]);
      assert ns[..i + 1] == ns[..i] + [ns[i]];
      var v;
      ok, v := f.Unser(ns[i], max);
      if !ok { return; }
      xs := xs + [v];
    }
    assert ns[..|ns|] == ns;
    ok := true;
  }

  lemma NoValues(ns: seq<int>)
    ensures Values(ns[..0]) == []
  {}

  lemma {:induction false} DeltasNext(xs: seq<int>, x: int)
    ensures Deltas(xs + [x]) == Deltas(xs) + [x - NextShift(xs)]
  {
    hide NextShift;
    var s := xs + [x];
    assert s[..|s| - 1] == xs && s[|s| - 1] == x;
  }

  lemma {:induction false} ValuesNext(ns: seq<int>, n: int)
    ensures Values(ns + [n]) == Values(ns) + [NextShift(Values(ns)) + n]
  {
    hide NextShift;
    var s := ns + [n];
    assert s[..|s| - 1] == ns && s[|s| - 1] == n;
  }

  lemma {:induction false} ValuesPrefix(ns: seq<int>, n: nat)
    requires n <= |ns|
    ensures Values(ns)[..n] == Values(ns[..n])
  {
    if n < |ns| {
      ValuesPrefix(ns[..|ns| - 1], n);
      assert ns[..|ns| - 1][..n] == ns[..n];
    } else {
      assert ns[..n] == ns;
    }
  }

  lemma {:induction false} ValueAt(ns: seq<int>, i: nat)
    requires i < |ns|
    ensures Values(ns)[i] == NextShift(Values(ns[..i])) + ns[i]
  {
    hide NextShift, Values;
    assert ns[..i + 1] == ns[..i] + [ns[i]];
    ValuesNext(ns[..i], ns[i]);
    ValuesPrefix(ns, i + 1);
    LastOfPrefix(Values(ns), i, Values(ns[..i]), NextShift(Values(ns[..i])) + ns[i]);
  }

  lemma LastOfPrefix(s: seq<int>, i: nat, t: seq<int>, x: int)
    requires i < |s| && |t| == i && s[..i + 1] == t + [x]
    ensures s[i] == x
  {
    assert s[..i + 1][i] == (t + [x])[i];
  }

  /** Reading what was written gives the list back. */
  lemma {:induction false} ReadWritten(xs: seq<int>)
    ensures Values(Deltas(xs)) == xs
  {
    hide NextShift;
    if xs != [] {
      var n := |xs| - 1;
      ReadWritten(xs[..n]);
      assert xs == xs[..n] + [xs[n]];
      DeltasNext(xs[..n], xs[n]);
      ValuesNext(Deltas(xs[..n]), xs[n] - NextShift(xs[..n]));
    }
  }

  /** The differences of an increasing list are what may be written: none is negative. */
  lemma {:induction false} DeltasNonNegative(xs: seq<int>)
    requires NonNegative(xs)
    ensures |Deltas(xs)| == |xs| && (NonNegative(Deltas(xs)) <==> Increasing(xs))
  {
    if xs != [] {
      var n := |xs| - 1;
      var ys, x := xs[..n], xs[n];
      DeltasNonNegative(ys);
      assert xs == ys + [x];
      DeltasNext(ys, x);
      var ds := Deltas(xs);
      assert ds[..n] == Deltas(ys) && ds[n] == x - NextShift(ys);
      if Increasing(xs) {
        assert n > 0 ==> xs[n - 1] < xs[n];
      }
      if NonNegative(ds) {
        assert forall i :: 0 <= i < n ==> Deltas(ys)[i] == ds[i];
      }
    }
  }

  /** Writing what was read gives the stream back. */
  lemma {:induction false} WriteRead(ns: seq<int>)
    ensures Deltas(Values(ns)) == ns
  {
    hide NextShift;
    if ns != [] {
      var n := |ns| - 1;
      WriteRead(ns[..n]);
      assert ns == ns[..n] + [ns[n]];
      ValuesNext(ns[..n], ns[n]);
      DeltasNext(Values(ns[..n]), NextShift(Values(ns[..n])) + ns[n]);
    }
  }
}
