/**
 Saving the address manager (addrman.cpp, Serialize).  Loading what a consistent manager saved, under the same
 asmap, brings back every entry and every slot of both tables, up to a renaming of ids; under another asmap it
 still gives a consistent manager.
 */
module AddrPersist {
  import opened AddrTables
  import T = AddrTables
  import opened AddrLoad
  import AddrCheck

  // ---------- Serialize ----------

  /** The new entries, or the tried ones, in the order in which mapInfo is traversed. */
  function Select(infos: map<Id, Info>, order: seq<Id>, tried: bool): seq<Id> {
    if order == [] then []
    else
      var id := order[|order| - 1];
      Select(infos, order[..|order| - 1], tried) +
          (if id in infos && (if tried then infos[id].inTried else infos[id].refCount != 0) then [id] else [])
  }

  function FreezeAll(infos: map<Id, Info>, ids: seq<Id>): seq<DiskInfo>
    requires forall id :: id in ids ==> id in infos
  {
    if ids == [] then []
    else
      var n := |ids| - 1;
      var id := ids[n];
      assert id in ids;
      FreezeAll(infos, ids[..n]) + [Freeze(infos[id])]
  }

  function IndexOf(ids: seq<Id>, id: Id): int {
    if ids == [] then -1 else if ids[|ids| - 1] == id then |ids| - 1 else IndexOf(ids[..|ids| - 1], id)
  }

  /** The references in the first `p` positions of bucket `b`, as indices into the new section. */
  function Row(vvNew: map<Slot, Id>, ns: seq<Id>, b: int, p: nat): seq<int> {
    if p == 0 then []
    else Row(vvNew, ns, b, p - 1) + (if Slot(b, p - 1) in vvNew then [IndexOf(ns, vvNew[Slot(b, p - 1)])] else [])
  }

  /** `order` is a traversal of mapInfo. */
  ghost predicate Traversal(infos: map<Id, Info>, order: seq<Id>) {
    && (forall i, j :: 0 <= i < j < |order| ==> order[i] != order[j])
    && (forall id :: id in order <==> id in infos)
  }

  lemma {:induction false} SelectOk(infos: map<Id, Info>, order: seq<Id>, tried: bool)
    requires forall i, j :: 0 <= i < j < |order| ==> order[i] != order[j]
    ensures forall i, j :: 0 <= i < j < |Select(infos, order, tried)| ==>
      Select(infos, order, tried)[i] != Select(infos, order, tried)[j]
    ensures forall id :: id in Select(infos, order, tried) <==>
              id in order && id in infos && (if tried then infos[id].inTried else infos[id].refCount != 0)
  {
    if order != [] {
      var n := |order| - 1;
      SelectOk(infos, order[..n], tried);
      assert order[n] !in order[..n];
      assert order == order[..n] + [order[n]];
    }
  }

  function DiskOf(h: Hashes, t: Tables, asmap: int, order: seq<Id>): Disk
    requires forall id :: id in order ==> id in t.infos
  {
    var ns, ts := Select(t.infos, order, false), Select(t.infos, order, true);
    SelectIn(t.infos, order, false);
    SelectIn(t.infos, order, true);
    Disk(FILE_FORMAT, INCOMPATIBILITY_BASE + FILE_FORMAT, h.key, t.nNew, t.nTried, FlipFlag(NEW_BUCKET_COUNT),
         FreezeAll(t.infos, ns), FreezeAll(t.infos, ts),
         seq(NEW_BUCKET_COUNT, b => Row(t.vvNew, ns, b, BUCKET_SIZE)), asmap)
  }

  lemma {:induction false} SelectIn(infos: map<Id, Info>, order: seq<Id>, tried: bool)
    ensures forall id :: id in Select(infos, order, tried) ==> id in infos
  {
    if order != [] { SelectIn(infos, order[..|order| - 1], tried); }
  }

  // ---------- The round trip ----------

  /** The first `n` ids of `all` are loaded, as entries 0 to n - 1, with the references placed so far. */
  ghost predicate Rows(t: Tables, all: seq<Id>, u: Tables, n: int) {
    && |u.random| == n <= |all|
    && (forall k :: k in u.infos <==> 0 <= k < n)
    && (forall k :: 0 <= k < n ==>
          var id := all[k];
          && id in t.infos
          && u.infos[k] == Thaw(Freeze(t.infos[id]), t.infos[id].inTried, k).(refCount := u.infos[k].refCount))
  }

  lemma NotYetKnown(h: Hashes, t: Tables, all: seq<Id>, u: Tables, n: int)
    requires AddrsOk(t.infos, t.addrs) && AddrsOk(u.infos, u.addrs)
    requires Rows(t, all, u, n) && n < |all| && all[n] in t.infos
    requires forall i, j :: 0 <= i < j < |all| ==> all[i] != all[j]
    ensures t.infos[all[n]].addr !in u.addrs && n !in u.infos
  {
    if t.infos[all[n]].addr in u.addrs { assert false; }
  }

  lemma RowsAddNew(t: Tables, all: seq<Id>, u: Tables, n: int)
    requires Rows(t, all, u, n) && n < |all| && all[n] in t.infos && !t.infos[all[n]].inTried
    ensures Rows(t, all, AddNew(u, Freeze(t.infos[all[n]])), n + 1)
  {
    hide Bump;
    var id := all[n];
  }

  lemma ConsistentAddrs(h: Hashes, t: Tables, limbo: set<Id>, pending: set<Id>)
    requires Consistent(h, t, limbo, pending)
    ensures AddrsOk(t.infos, t.addrs)
  {}

  lemma AddNewKeeps(h: Hashes, t: Tables, all: seq<Id>, u: Tables, n: int)
    requires Consistent(h, t, {}, {}) && Rows(t, all, u, n)
    requires n < |all| && all[n] in t.infos && !t.infos[all[n]].inTried
    requires forall i, j :: 0 <= i < j < |all| ==> all[i] != all[j]
    requires Consistent(h, u, {}, u.infos.Keys) && u.vvNew == map[]
    ensures var u' := AddNew(u, Freeze(t.infos[all[n]]));
      Consistent(h, u', {}, u'.infos.Keys) && Rows(t, all, u', n + 1) && u'.vvNew == map[]
  {
    hide Consistent, Bump, AddrsOk;
    ConsistentAddrs(h, t, {}, {});
    ConsistentAddrs(h, u, {}, u.infos.Keys);
    NotYetKnown(h, t, all, u, n);
    RowsAddNew(t, all, u, n);
    InfoFacts(h, t, all[n]);
    hide Rows;
    var d := Freeze(t.infos[all[n]]);
    CreateKeeps(h, u, n, d.addr, d.source, d.time, d.services, {}, u.infos.Keys);
    var c := T.Create(u, n, d.addr, d.source, d.time, d.services);
    assert u.infos.Keys + {n} == c.infos.Keys;
    TouchKeeps(h, c, n, Thaw(d, false, n), {}, c.infos.Keys);
    assert SetInfo(c, n, Thaw(d, false, n)) == AddNew(u, d);
    assert AddNew(u, d).infos.Keys == c.infos.Keys;
  }

  lemma {:induction false} FreezePrefix(infos: map<Id, Info>, ids: seq<Id>)
    requires forall id :: id in ids ==> id in infos
    ensures |FreezeAll(infos, ids)| == |ids|
    ensures forall k :: 0 <= k < |ids| ==>
      var id := ids[k]; id in infos && FreezeAll(infos, ids)[k] == Freeze(infos[id])
  {
    if ids != [] {
      var n := |ids| - 1;
      FreezePrefix(infos, ids[..n]);
      forall k | 0 <= k < |ids| ensures var id := ids[k]; id in infos && FreezeAll(infos, ids)[k] == Freeze(infos[id]) {
        var id := ids[k];
        assert id in ids;
        if k < n { assert ids[..n][k] == id; }
      }
    }
  }

  /** The new section, loaded. */
  lemma {:induction false} LoadNewKeeps(h: Hashes, t: Tables, all: seq<Id>, ns: seq<Id>)
    requires Consistent(h, t, {}, {}) && ns <= all && forall id :: id in ns ==> id in t.infos && !t.infos[id].inTried
    requires forall i, j :: 0 <= i < j < |all| ==> all[i] != all[j]
    ensures var u := LoadNew(FreezeAll(t.infos, ns));
      Consistent(h, u, {}, u.infos.Keys) && Rows(t, all, u, |ns|) && u.vvNew == map[]
    decreases |ns|
  {
    hide Consistent, Rows;
    if ns == [] {
      EmptyRows(h, t, all);
    } else {
      var n := |ns| - 1;
      var id := ns[n];
      assert id in ns && ns[..n] <= all && all[n] == id;
      LoadNewKeeps(h, t, all, ns[..n]);
      FreezeLast(t.infos, ns);
      AddNewKeeps(h, t, all, LoadNew(FreezeAll(t.infos, ns[..n])), n);
    }
  }

  lemma EmptyRows(h: Hashes, t: Tables, all: seq<Id>)
    ensures Consistent(h, EMPTY, {}, EMPTY.infos.Keys) && Rows(t, all, EMPTY, 0)
  {
    forall k: bool, net: Option<Network> ensures CountExact(EMPTY, {}, k, net) {
      assert Group(EMPTY.infos, {}, k, net) == {};
    }
  }

  lemma BumpTried(counts: map<Network, NewTried>, net: Network)
    ensures Bump(Bump(Bump(counts, net, false, 1), net, false, -1), net, true, 1) == Bump(counts, net, true, 1)
  {}

  lemma RowsAddTried(h: Hashes, t: Tables, all: seq<Id>, u: Tables, n: int)
    requires Rows(t, all, u, n) && n < |all| && all[n] in t.infos && t.infos[all[n]].inTried
    requires t.infos[all[n]].addr.valid && h.TriedSlot(t.infos[all[n]].addr) !in u.vvTried
    ensures Rows(t, all, AddTried(h, u, Freeze(t.infos[all[n]])), n + 1)
  {
    hide Bump;
    var id := all[n];
  }

  /** Two tried entries never hash to the same slot, so no slot is taken. */
  lemma SlotFree(h: Hashes, t: Tables, all: seq<Id>, u: Tables, n: int)
    requires TriedOk(h, t.infos, t.vvTried) && TriedOk(h, u.infos, u.vvTried) && Rows(t, all, u, n) && n < |all|
    requires all[n] in t.infos && t.infos[all[n]].inTried
    requires forall i, j :: 0 <= i < j < |all| ==> all[i] != all[j]
    ensures h.TriedSlot(t.infos[all[n]].addr) !in u.vvTried
  {
    if h.TriedSlot(t.infos[all[n]].addr) in u.vvTried { assert false; }
  }

  lemma ConsistentTried(h: Hashes, t: Tables, limbo: set<Id>, pending: set<Id>)
    requires Consistent(h, t, limbo, pending)
    ensures TriedOk(h, t.infos, t.vvTried)
  {}

  lemma AddTriedKeeps(h: Hashes, t: Tables, all: seq<Id>, u: Tables, n: int)
    requires Consistent(h, t, {}, {}) && Rows(t, all, u, n) && n < |all| && all[n] in t.infos && t.infos[all[n]].inTried
    requires forall i, j :: 0 <= i < j < |all| ==> all[i] != all[j]
    requires Consistent(h, u, {}, u.infos.Keys) && u.vvNew == map[]
    ensures var u' := AddTried(h, u, Freeze(t.infos[all[n]]));
      Consistent(h, u', {}, u'.infos.Keys) && Rows(t, all, u', n + 1) && u'.vvNew == map[]
  {
    hide Consistent, Bump, AddrsOk, TriedOk;
    ConsistentAddrs(h, t, {}, {});
    ConsistentAddrs(h, u, {}, u.infos.Keys);
    ConsistentTried(h, t, {}, {});
    ConsistentTried(h, u, {}, u.infos.Keys);
    NotYetKnown(h, t, all, u, n);
    SlotFree(h, t, all, u, n);
    InfoFacts(h, t, all[n]);
    RowsAddTried(h, t, all, u, n);
    assert |u.random| == n;
    hide Rows;
    TriedEnters(h, u, Freeze(t.infos[all[n]]));
  }

  /** An entry of the tried section whose address is unknown and whose slot is free enters both tables' counts. */
  lemma TriedEnters(h: Hashes, u: Tables, d: DiskInfo)
    requires Consistent(h, u, {}, u.infos.Keys) && |u.random| !in u.infos && d.addr !in u.addrs && d.addr.valid
    requires d.lastSuccess > 0 && h.TriedSlot(d.addr) !in u.vvTried
    ensures Consistent(h, AddTried(h, u, d), {}, AddTried(h, u, d).infos.Keys)
  {
    hide Consistent, Bump, Hashes.TriedSlot;
    var n := |u.random|;
    CreateKeeps(h, u, n, d.addr, d.source, d.time, d.services, {}, u.infos.Keys);
    var c := T.Create(u, n, d.addr, d.source, d.time, d.services);
    assert u.infos.Keys + {n} == c.infos.Keys;
    TouchKeeps(h, c, n, Thaw(d, false, n), {}, c.infos.Keys);
    var c1 := SetInfo(c, n, Thaw(d, false, n));
    ShelveKeeps(h, c1, n, {}, c.infos.Keys);
    var c2 := Shelve(c1, n);
    PromoteKeeps(h, c2, n, {} + {n}, c.infos.Keys);
    assert {} + {n} - {n} == {};
    BumpTried(u.counts, d.addr.network);
    assert Promote(c2, h.TriedSlot(d.addr), n) == AddTried(h, u, d);
    assert AddTried(h, u, d).infos.Keys == c.infos.Keys;
  }

  /** Both sections, loaded. */
  lemma {:induction false} LoadTriedKeeps(h: Hashes, t: Tables, all: seq<Id>, ns: seq<Id>, ts: seq<Id>)
    requires Consistent(h, t, {}, {}) && ns + ts <= all
    requires forall id :: id in ns ==> id in t.infos && !t.infos[id].inTried
    requires forall id :: id in ts ==> id in t.infos && t.infos[id].inTried
    requires forall i, j :: 0 <= i < j < |all| ==> all[i] != all[j]
    ensures var u := LoadTried(h, LoadNew(FreezeAll(t.infos, ns)), FreezeAll(t.infos, ts));
      Consistent(h, u, {}, u.infos.Keys) && Rows(t, all, u, |ns| + |ts|) && u.vvNew == map[]
    decreases |ts|
  {
    hide Consistent, Rows, AddTried, LoadNew, FreezeAll;
    if ts == [] {
      FreezeNone(t.infos);
      assert ns <= all;
      LoadNewKeeps(h, t, all, ns);
    } else {
      var n := |ts| - 1;
      var id := ts[n];
      assert id in ts && all[|ns| + n] == id;
      assert ns + ts[..n] <= all;
      LoadTriedKeeps(h, t, all, ns, ts[..n]);
      FreezeLast(t.infos, ts);
      AddTriedKeeps(h, t, all, LoadTried(h, LoadNew(FreezeAll(t.infos, ns)), FreezeAll(t.infos, ts[..n])), |ns| + n);
    }
  }

  lemma FreezeNone(infos: map<Id, Info>)
    ensures FreezeAll(infos, []) == []
  {}

  lemma FreezeLast(infos: map<Id, Info>, ids: seq<Id>)
    requires ids != [] && forall id :: id in ids ==> id in infos
    ensures var n, ds := |ids| - 1, FreezeAll(infos, ids);
      |ds| == n + 1 && ids[n] in infos && ds[n] == Freeze(infos[ids[n]]) && ds[..n] == FreezeAll(infos, ids[..n])
  {
    var n := |ids| - 1;
    var id := ids[n];
    assert id in ids;
    FreezePrefix(infos, ids[..n]);
    assert FreezeAll(infos, ids)[..n] == FreezeAll(infos, ids[..n]);
  }

  /** The references to place, in the order of a scan that has come to bucket `b`, position `p`. */
  function Entries(vvNew: map<Slot, Id>, ns: seq<Id>, b: nat, p: nat): seq<(int, int)>
    decreases b, p
  {
    if p > 0 then
      Entries(vvNew, ns, b, p - 1) + (if Slot(b, p - 1) in vvNew then [(b, IndexOf(ns, vvNew[Slot(b, p - 1)]))] else [])
    else if b > 0 then Entries(vvNew, ns, b - 1, BUCKET_SIZE)
    else []
  }

  lemma {:induction false} IndexOfAt(ns: seq<Id>, id: Id)
    requires id in ns
    ensures 0 <= IndexOf(ns, id) < |ns| && ns[IndexOf(ns, id)] == id
  {
    var n := |ns| - 1;
    if ns[n] != id {
      assert id in ns[..n];
      IndexOfAt(ns[..n], id);
    }
  }

  lemma {:induction false} RowEntries(vvNew: map<Slot, Id>, ns: seq<Id>, b: nat, p: nat)
    requires forall s :: s in vvNew ==> var id := vvNew[s]; id in ns
    ensures Entries(vvNew, ns, b, p) == Entries(vvNew, ns, b, 0) + RowReferences(b, Row(vvNew, ns, b, p), |ns|)
    decreases p
  {
    hide Entries, Row, RowReferences;
    var start := Entries(vvNew, ns, b, 0);
    if p == 0 {
      RowStart(vvNew, ns, b);
      assert start + [] == start;
    } else {
      RowEntries(vvNew, ns, b, p - 1);
      RowStep(vvNew, ns, b, p - 1);
      var s, row := Slot(b, p - 1), Row(vvNew, ns, b, p - 1);
      if s in vvNew {
        var i, refs := IndexOf(ns, vvNew[s]), RowReferences(b, row, |ns|);
        IndexOfAt(ns, vvNew[s]);
        RowReferencesNext(b, row, i, |ns|);
        assert (start + refs) + [(b, i)] == start + (refs + [(b, i)]);
      }
    }
  }

  lemma RowStart(vvNew: map<Slot, Id>, ns: seq<Id>, b: nat)
    ensures RowReferences(b, Row(vvNew, ns, b, 0), |ns|) == []
  {}

  lemma {:induction false} RowStep(vvNew: map<Slot, Id>, ns: seq<Id>, b: nat, p: nat)
    ensures var s, row, entries := Slot(b, p), Row(vvNew, ns, b, p), Entries(vvNew, ns, b, p);
      if s in vvNew then
        Row(vvNew, ns, b, p + 1) == row + [IndexOf(ns, vvNew[s])] &&
        Entries(vvNew, ns, b, p + 1) == entries + [(b, IndexOf(ns, vvNew[s]))]
      else Row(vvNew, ns, b, p + 1) == row && Entries(vvNew, ns, b, p + 1) == entries
  {
    assert Row(vvNew, ns, b, p) + [] == Row(vvNew, ns, b, p);
    assert Entries(vvNew, ns, b, p) + [] == Entries(vvNew, ns, b, p);
  }

  lemma {:induction false} RowReferencesNext(b: int, row: seq<int>, n: int, nNew: int)
    requires 0 <= n < nNew
    ensures RowReferences(b, row + [n], nNew) == RowReferences(b, row, nNew) + [(b, n)]
  {
    assert (row + [n])[..|row|] == row;
  }

  /** Reading the stored buckets back gives the references of the scan. */
  lemma {:induction false} StoredEntries(vvNew: map<Slot, Id>, ns: seq<Id>, buckets: seq<seq<int>>, b: nat)
    requires forall s :: s in vvNew ==> var id := vvNew[s]; id in ns
    requires b <= |buckets| && forall i :: 0 <= i < |buckets| ==> buckets[i] == Row(vvNew, ns, i, BUCKET_SIZE)
    ensures References(buckets, b, |ns|) == Entries(vvNew, ns, b, 0)
    decreases b
  {
    hide Entries, Row, RowReferences;
    EntriesStart(vvNew, ns, b);
    if b > 0 {
      StoredEntries(vvNew, ns, buckets, b - 1);
      RowEntries(vvNew, ns, b - 1, BUCKET_SIZE);
    }
  }

  lemma EntriesStart(vvNew: map<Slot, Id>, ns: seq<Id>, b: nat)
    ensures Entries(vvNew, ns, b, 0) == if b == 0 then [] else Entries(vvNew, ns, b - 1, BUCKET_SIZE)
  {}

  /** The slots scanned so far are restored. */
  ghost predicate Placed(t: Tables, all: seq<Id>, u: Tables, b: int, p: int) {
    && (forall s :: s in u.vvNew <==> s in t.vvNew && AddrCheck.Before(s, b, p))
    && (forall s :: s in u.vvNew ==> var k := u.vvNew[s]; 0 <= k < |all| && all[k] == t.vvNew[s])
  }

  /** A slot not placed yet leaves room below the limit of references. */
  lemma RoomLeft(h: Hashes, t: Tables, all: seq<Id>, u: Tables, s: Slot, k: int)
    requires Placed(t, all, u, s.bucket, s.pos) && s in t.vvNew && 0 <= k < |all| && all[k] == t.vvNew[s]
    ensures |SlotsOf(u.vvNew, k)| < |SlotsOf(t.vvNew, all[k])| && s !in u.vvNew
  {
    var a, b := SlotsOf(u.vvNew, k), SlotsOf(t.vvNew, all[k]);
    assert a <= b - {s};
    AddrCheck.SubsetSize(a, b - {s});
    assert s in b;
  }

  lemma RowsPlace(t: Tables, all: seq<Id>, u: Tables, s: Slot, k: int, n: int)
    requires Rows(t, all, u, n) && 0 <= k < n
    ensures Rows(t, all, T.Place(u, s, k), n)
  {}

  lemma PlacedStep(t: Tables, all: seq<Id>, u: Tables, s: Slot, k: int)
    requires Placed(t, all, u, s.bucket, s.pos) && k in u.infos
    ensures s !in t.vvNew ==> Placed(t, all, u, s.bucket, s.pos + 1)
    ensures s in t.vvNew && 0 <= k < |all| && all[k] == t.vvNew[s] ==>
      Placed(t, all, T.Place(u, s, k), s.bucket, s.pos + 1)
  {}

  lemma EntryPlaced(h: Hashes, t: Tables, all: seq<Id>, u: Tables, s: Slot, k: int)
    requires Consistent(h, t, {}, {}) && Consistent(h, u, {}, u.infos.Keys) && Rows(t, all, u, |all|)
    requires Placed(t, all, u, s.bucket, s.pos) && s in t.vvNew && 0 <= k < |all| && all[k] == t.vvNew[s]
    ensures var u' := PlaceOne(h, u, true, (s.bucket, k));
      Consistent(h, u', {}, u'.infos.Keys) && Rows(t, all, u', |all|) && Placed(t, all, u', s.bucket, s.pos + 1)
  {
    hide Consistent, SlotsOf;
    SlotInfo(h, t, s);
    RoomLeft(h, t, all, u, s, k);
    RefCount(h, t, {}, {}, all[k]);
    RefCount(h, u, {}, u.infos.Keys, k);
    InfoFacts(h, t, all[k]);
    assert u.infos[k].addr == t.infos[all[k]].addr && !u.infos[k].inTried;
    RowsPlace(t, all, u, s, k, |all|);
    PlacedStep(t, all, u, s, k);
    hide Rows, Placed;
    PlaceKeeps(h, u, s, k, {}, u.infos.Keys);
    var u' := T.Place(u, s, k);
    assert u'.infos.Keys == u.infos.Keys;
    PendingMore(h, u', {}, u.infos.Keys - {k}, u'.infos.Keys);
    assert PlaceOne(h, u, true, (s.bucket, k)) == u';
  }

  lemma SlotInfo(h: Hashes, t: Tables, s: Slot)
    requires Consistent(h, t, {}, {}) && s in t.vvNew
    ensures t.vvNew[s] in t.infos && !t.infos[t.vvNew[s]].inTried && h.NewSlot(t.infos[t.vvNew[s]].addr, s.bucket) == s
    ensures 0 <= s.bucket < NEW_BUCKET_COUNT
  {
    NewHolds(h, t.infos, t.vvNew, s);
  }

  lemma RefCount(h: Hashes, t: Tables, limbo: set<Id>, pending: set<Id>, id: Id)
    requires Consistent(h, t, limbo, pending) && id in t.infos
    ensures t.infos[id].refCount == |SlotsOf(t.vvNew, id)|
  {
    hide AddrsOk, RandomOk, TriedOk, NewOk, CountsOk, SlotsOf;
  }

  lemma PlacedRow(t: Tables, all: seq<Id>, u: Tables, b: int)
    requires AddrCheck.InRange(t) && Placed(t, all, u, b - 1, BUCKET_SIZE)
    ensures Placed(t, all, u, b, 0)
  {}

  lemma PlacedNone(t: Tables, all: seq<Id>, u: Tables)
    requires AddrCheck.InRange(t) && u.vvNew == map[]
    ensures Placed(t, all, u, 0, 0)
  {}

  /** Placing the references of the scan restores the scanned part of the new table. */
  lemma {:induction false} ScanPlaced(h: Hashes, t: Tables, all: seq<Id>, ns: seq<Id>, u: Tables, b: nat, p: nat)
    requires Consistent(h, t, {}, {}) && AddrCheck.InRange(t) && ns <= all && p <= BUCKET_SIZE
    requires forall s :: s in t.vvNew ==> var id := t.vvNew[s]; id in ns
    requires Consistent(h, u, {}, u.infos.Keys) && Rows(t, all, u, |all|) && u.vvNew == map[]
    ensures var w := PlaceAll(h, u, true, Entries(t.vvNew, ns, b, p));
      Consistent(h, w, {}, w.infos.Keys) && Rows(t, all, w, |all|) && Placed(t, all, w, b, p)
    decreases b, p
  {
    hide Consistent, Rows, Placed, AddrCheck.InRange, PlaceOne;
    if p > 0 {
      ScanPlaced(h, t, all, ns, u, b, p - 1);
      var s := Slot(b, p - 1);
      var w := PlaceAll(h, u, true, Entries(t.vvNew, ns, b, p - 1));
      if s in t.vvNew {
        var id := t.vvNew[s];
        var k := IndexOf(ns, id);
        IndexOfAt(ns, id);
        assert all[k] == id;
        EntryPlaced(h, t, all, w, s, k);
        var es := Entries(t.vvNew, ns, b, p - 1);
        assert (es + [(b, k)])[..|es|] == es;
      } else {
        assert Entries(t.vvNew, ns, b, p) == Entries(t.vvNew, ns, b, p - 1);
        PlacedSkip(t, all, w, s);
      }
    } else if b > 0 {
      ScanPlaced(h, t, all, ns, u, b - 1, BUCKET_SIZE);
      PlacedRow(t, all, PlaceAll(h, u, true, Entries(t.vvNew, ns, b - 1, BUCKET_SIZE)), b);
    } else {
      PlacedNone(t, all, u);
    }
  }

  lemma PlacedSkip(t: Tables, all: seq<Id>, u: Tables, s: Slot)
    requires Placed(t, all, u, s.bucket, s.pos) && s !in t.vvNew
    ensures Placed(t, all, u, s.bucket, s.pos + 1)
  {}

  /**
   `u` is `t` with entry `all[k]` renamed to `k`: the stored fields, reference counts and tables agree;
   vRandom is in file order and the times of the last attempts start afresh.
   */
  ghost predicate Renamed(t: Tables, u: Tables, all: seq<Id>) {
    && |u.random| == |all| && u.nNew == t.nNew && u.nTried == t.nTried
    && (forall id :: id in all <==> id in t.infos)
    && (forall k :: k in u.infos <==> 0 <= k < |all|)
    && (forall k :: 0 <= k < |all| ==>
          var id := all[k];
          && id in t.infos
          && u.infos[k] == Thaw(Freeze(t.infos[id]), t.infos[id].inTried, k).(refCount := t.infos[id].refCount))
    && SameSlots(t.vvNew, u.vvNew, all) && SameSlots(t.vvTried, u.vvTried, all)
  }

  ghost predicate SameSlots(a: map<Slot, Id>, b: map<Slot, Id>, all: seq<Id>) {
    && (forall s :: s in b <==> s in a)
    && (forall s :: s in b ==> var k := b[s]; 0 <= k < |all| && all[k] == a[s])
  }

  lemma NewRestored(h: Hashes, t: Tables, all: seq<Id>, u: Tables)
    requires AddrCheck.InRange(t) && Placed(t, all, u, NEW_BUCKET_COUNT, 0)
    requires forall i, j :: 0 <= i < j < |all| ==> all[i] != all[j]
    ensures SameSlots(t.vvNew, u.vvNew, all)
    ensures forall k :: 0 <= k < |all| ==> SlotsOf(u.vvNew, k) == SlotsOf(t.vvNew, all[k])
  {
    forall k | 0 <= k < |all| ensures SlotsOf(u.vvNew, k) == SlotsOf(t.vvNew, all[k]) {
      forall s ensures s in SlotsOf(u.vvNew, k) <==> s in SlotsOf(t.vvNew, all[k]) {}
    }
  }

  lemma TriedRestored(h: Hashes, t: Tables, all: seq<Id>, u: Tables)
    requires TriedOk(h, t.infos, t.vvTried) && TriedOk(h, u.infos, u.vvTried) && Rows(t, all, u, |all|)
    requires forall id :: id in t.infos ==> id in all
    ensures SameSlots(t.vvTried, u.vvTried, all)
  {
    forall s ensures s in u.vvTried <==> s in t.vvTried {
      if s in t.vvTried {
        var id := t.vvTried[s];
        assert id in all;
        var k :| 0 <= k < |all| && all[k] == id;
        assert u.infos[k].inTried && h.TriedSlot(u.infos[k].addr) == s;
      }
      if s in u.vvTried {
        var k := u.vvTried[s];
        var id := all[k];
        assert t.infos[id].inTried && h.TriedSlot(t.infos[id].addr) == s;
      }
    }
    forall s | s in u.vvTried ensures var k := u.vvTried[s]; 0 <= k < |all| && all[k] == t.vvTried[s] {
      var k := u.vvTried[s];
      var id := all[k];
      assert t.infos[id].inTried && h.TriedSlot(t.infos[id].addr) == s;
    }
  }

  lemma SettleAll(h: Hashes, u: Tables, pending: set<Id>)
    requires Consistent(h, u, {}, pending) && forall id :: id in u.infos ==> Referenced(u, id)
    ensures Consistent(h, u, {}, {})
  {
    hide AddrsOk, RandomOk, TriedOk, NewOk, CountsOk, SlotsOf;
    forall id | id in u.infos ensures u.infos[id].refCount == 0 ==> u.infos[id].inTried { assert Referenced(u, id); }
  }

  /** The entries from `from` on, `n` of them, are as many as a stretch of integers. */
  lemma StretchSize(g: set<Id>, start: int, n: nat)
    requires forall k :: k in g <==> start <= k < start + n
    ensures |g| == n
  {
    var ks := seq(n, i => start + i);
    AddrCheck.RandomSize(ks);
    forall k ensures k in g <==> k in ks { if k in g { assert ks[k - start] == k; } }
    assert g == set k | k in ks;
  }

  lemma SelectedSize(t: Tables, ids: seq<Id>, tried: bool)
    requires CountsOk(t, {}) && forall i, j :: 0 <= i < j < |ids| ==> ids[i] != ids[j]
    requires forall id :: id in ids <==> id in t.infos && t.infos[id].inTried == tried
    ensures |ids| == if tried then t.nTried else t.nNew
  {
    AddrCheck.RandomSize(ids);
    assert (set id | id in ids) == Group(t.infos, {}, tried, None);
    assert CountExact(t, {}, tried, None);
  }

  lemma CountsRestored(t: Tables, ns: seq<Id>, ts: seq<Id>, u: Tables)
    requires CountsOk(u, {}) && Rows(t, ns + ts, u, |ns| + |ts|)
    requires forall id :: id in ns ==> id in t.infos && !t.infos[id].inTried
    requires forall id :: id in ts ==> id in t.infos && t.infos[id].inTried
    ensures u.nNew == |ns| && u.nTried == |ts|
  {
    forall k | 0 <= k < |ns| + |ts| ensures u.infos[k].inTried <==> |ns| <= k {
      var id := (ns + ts)[k];
      if k < |ns| { assert id in ns; } else { assert id in ts; }
    }
    StretchSize(Group(u.infos, {}, false, None), 0, |ns|);
    StretchSize(Group(u.infos, {}, true, None), |ns|, |ts|);
    assert CountExact(u, {}, false, None) && CountExact(u, {}, true, None);
  }

  // ---------- Counts stay within the limits the loader insists on ----------

  lemma {:induction false} RowCap(g: set<Slot>, b: int, width: nat)
    requires forall s :: s in g ==> s.bucket == b && 0 <= s.pos < width
    ensures |g| <= width
    decreases width
  {
    if width == 0 {
      if s :| s in g { assert false; }
    } else {
      RowCap(g - {Slot(b, width - 1)}, b, width - 1);
    }
  }

  lemma {:induction false} TableCap(g: set<Slot>, rows: nat)
    requires forall s :: s in g ==> 0 <= s.bucket < rows && 0 <= s.pos < BUCKET_SIZE
    ensures |g| <= rows * BUCKET_SIZE
    decreases rows
  {
    if rows == 0 {
      if s :| s in g { assert false; }
    } else {
      var last := set s | s in g && s.bucket == rows - 1;
      RowCap(last, rows - 1, BUCKET_SIZE);
      TableCap(g - last, rows - 1);
      assert |g| == |g - last| + |last|;
    }
  }

  /** A table has at least as many slots as it holds ids. */
  lemma {:induction false} HoldersFit(table: map<Slot, Id>, ids: set<Id>)
    requires forall id :: id in ids ==> SlotsOf(table, id) != {}
    ensures |ids| <= |table.Keys|
    decreases ids
  {
    if ids != {} {
      AddrCheck.PickOne(ids);
      var id :| id in ids;
      var s :| s in SlotsOf(table, id);
      var rest := table - {s};
      forall x | x in ids - {id} ensures SlotsOf(rest, x) != {} {
        var y :| y in SlotsOf(table, x);
        assert y in SlotsOf(rest, x);
      }
      HoldersFit(rest, ids - {id});
      assert rest.Keys == table.Keys - {s};
    }
  }

  lemma SizesFit(h: Hashes, t: Tables)
    requires Consistent(h, t, {}, {}) && AddrCheck.InRange(t)
    ensures 0 <= t.nNew <= NEW_BUCKET_COUNT * BUCKET_SIZE && 0 <= t.nTried <= TRIED_BUCKET_COUNT * BUCKET_SIZE
  {
    assert CountExact(t, {}, true, None) && CountExact(t, {}, false, None);
    TableCap(t.vvNew.Keys, NEW_BUCKET_COUNT);
    TableCap(t.vvTried.Keys, TRIED_BUCKET_COUNT);
    HoldersFit(t.vvNew, Group(t.infos, {}, false, None)) by {
      hide CountsOk, AddrsOk, RandomOk, TriedOk, NewOk;
      forall id | id in Group(t.infos, {}, false, None) ensures SlotsOf(t.vvNew, id) != {} {}
    }
    HoldersFit(t.vvTried, Group(t.infos, {}, true, None)) by {
      hide CountsOk, AddrsOk, RandomOk, NewOk, RefsOk;
      forall id | id in Group(t.infos, {}, true, None) ensures SlotsOf(t.vvTried, id) != {} {
        assert h.TriedSlot(t.infos[id].addr) in SlotsOf(t.vvTried, id);
      }
    }
  }

  // ---------- The theorem ----------

  /** The ids in file order: first the new ones, then the tried ones. */
  function FileOrder(t: Tables, order: seq<Id>): seq<Id> {
    Select(t.infos, order, false) + Select(t.infos, order, true)
  }

  /** The two sections list every entry once, new entries first. */
  lemma SectionsOk(h: Hashes, t: Tables, order: seq<Id>)
    requires Consistent(h, t, {}, {}) && Traversal(t.infos, order)
    ensures var ns, ts := Select(t.infos, order, false), Select(t.infos, order, true);
      && (forall id :: id in ns <==> id in t.infos && !t.infos[id].inTried)
      && (forall id :: id in ts <==> id in t.infos && t.infos[id].inTried)
      && |ns| == t.nNew && |ts| == t.nTried
  {
    var ns, ts := Select(t.infos, order, false), Select(t.infos, order, true);
    SelectOk(t.infos, order, false);
    SelectOk(t.infos, order, true);
    hide Select;
    forall id | id in t.infos ensures t.infos[id].refCount != 0 <==> !t.infos[id].inTried {
      InfoFacts(h, t, id);
      if t.infos[id].inTried {
        NoSlots(h, t.infos, t.vvNew, id);
        RefCount(h, t, {}, {}, id);
      }
    }
    hide AddrsOk, RandomOk, TriedOk, NewOk, RefsOk, TimesOk, AllValid;
    SelectedSize(t, ns, false);
    SelectedSize(t, ts, true);
  }

  lemma FileOrderDistinct(h: Hashes, t: Tables, order: seq<Id>)
    requires Consistent(h, t, {}, {}) && Traversal(t.infos, order)
    ensures var all := FileOrder(t, order);
      && (forall i, j :: 0 <= i < j < |all| ==> all[i] != all[j])
      && (forall id :: id in all <==> id in t.infos)
  {
    SelectOk(t.infos, order, false);
    SelectOk(t.infos, order, true);
    SectionsOk(h, t, order);
    hide Consistent, Select;
    var ns, ts := Select(t.infos, order, false), Select(t.infos, order, true);
    var all := ns + ts;
    forall i, j | 0 <= i < j < |all| ensures all[i] != all[j] {
      var x, y := all[i], all[j];
      if i < |ns| && j >= |ns| { assert x in ns && y in ts; }
    }
  }

  /** The file is well framed, and its buckets are the references of a scan of the new table. */
  lemma DiskShape(h: Hashes, t: Tables, asmap: int, order: seq<Id>)
    requires Consistent(h, t, {}, {}) && AddrCheck.InRange(t) && Traversal(t.infos, order)
    ensures var d, ns := DiskOf(h, t, asmap, order), Select(t.infos, order, false);
      && WellFramed(d) && InBounds(d) && Restore(d, asmap)
      && (forall s :: s in t.vvNew ==> var id := t.vvNew[s]; id in ns)
      && References(d.buckets, |d.buckets|, d.nNew) == Entries(t.vvNew, ns, NEW_BUCKET_COUNT, 0)
  {
    hide Consistent, Select, AddrCheck.InRange, FreezeAll, Entries, References;
    var ns, ts := Select(t.infos, order, false), Select(t.infos, order, true);
    SectionsOk(h, t, order);
    SizesFit(h, t);
    FreezePrefix(t.infos, ns);
    FreezePrefix(t.infos, ts);
    forall s | s in t.vvNew ensures var id := t.vvNew[s]; id in ns { SlotInfo(h, t, s); }
    StoredEntries(t.vvNew, ns, DiskOf(h, t, asmap, order).buckets, NEW_BUCKET_COUNT);
  }

  /**
   Serializing a consistent manager and unserializing under the same asmap: the file is accepted, no entry is
   pruned, the check passes, and the result is the original up to the renaming of ids by file order.
   */
  lemma RoundTrip(h: Hashes, t: Tables, asmap: int, order: seq<Id>)
    requires Consistent(h, t, {}, {}) && h.key != 0 && Traversal(t.infos, order)
    ensures var d := DiskOf(h, t, asmap, order); var u := Rebuilt(h, asmap, d);
      && WellFramed(d) && InBounds(d)
      && Renamed(t, u, FileOrder(t, order))
      && (forall id :: id in u.infos ==> Referenced(u, id))
      && Consistent(h, u, {}, {}) && AddrCheck.Checked(h, u)
  {
    hide Consistent, Select, AddrCheck.Checked, AddrCheck.InRange, FreezeAll, Rows, LoadNew, LoadTried, PlaceAll,
        Entries, References;
    var ns, ts, all := Select(t.infos, order, false), Select(t.infos, order, true), FileOrder(t, order);
    var d := DiskOf(h, t, asmap, order);
    AddrCheck.ConsistentPasses(h, t);
    SectionsOk(h, t, order);
    FileOrderDistinct(h, t, order);
    DiskShape(h, t, asmap, order);
    LoadTriedKeeps(h, t, all, ns, ts);
    var v := LoadTried(h, LoadNew(d.news), d.trieds);
    ScanPlaced(h, t, all, ns, v, NEW_BUCKET_COUNT, 0);
    var u := PlaceAll(h, v, true, Entries(t.vvNew, ns, NEW_BUCKET_COUNT, 0));
    assert u == Rebuilt(h, asmap, d);
    hide DiskOf, Rebuilt;
    Finish(h, t, ns, ts, u);
    AddrCheck.ConsistentPasses(h, u);
  }

  lemma Finish(h: Hashes, t: Tables, ns: seq<Id>, ts: seq<Id>, u: Tables)
    requires Consistent(h, t, {}, {}) && AddrCheck.InRange(t) && |ns| == t.nNew && |ts| == t.nTried
    requires forall id :: id in ns <==> id in t.infos && !t.infos[id].inTried
    requires forall id :: id in ts <==> id in t.infos && t.infos[id].inTried
    requires forall i, j :: 0 <= i < j < |ns + ts| ==> (ns + ts)[i] != (ns + ts)[j]
    requires Consistent(h, u, {}, u.infos.Keys) && Rows(t, ns + ts, u, |ns + ts|)
    requires Placed(t, ns + ts, u, NEW_BUCKET_COUNT, 0)
    ensures Renamed(t, u, ns + ts) && Consistent(h, u, {}, {}) && forall id :: id in u.infos ==> Referenced(u, id)
  {
    var all := ns + ts;
    hide Consistent, AddrCheck.InRange;
    NewRestored(h, t, all, u);
    hide Placed;
    ConsistentTried(h, t, {}, {});
    ConsistentTried(h, u, {}, u.infos.Keys);
    ConsistentCounts(h, u, {}, u.infos.Keys);
    hide TriedOk, CountsOk;
    TriedRestored(h, t, all, u);
    CountsRestored(t, ns, ts, u);
    forall k | 0 <= k < |all|
      ensures all[k] in t.infos && u.infos[k].refCount == t.infos[all[k]].refCount && Referenced(u, k)
    {
      var id := all[k];
      assert id in all;
      RefCount(h, t, {}, {}, id);
      RefCount(h, u, {}, u.infos.Keys, k);
      InfoFacts(h, t, id);
    }
    hide SlotsOf, SameSlots;
    SettleAll(h, u, u.infos.Keys);
  }

  lemma ConsistentCounts(h: Hashes, t: Tables, limbo: set<Id>, pending: set<Id>)
    requires Consistent(h, t, limbo, pending)
    ensures CountsOk(t, limbo)
  {}

  // ---------- Writing the file ----------

  lemma {:induction false} SelectGrows(infos: map<Id, Info>, order: seq<Id>, n: nat, tried: bool)
    requires n <= |order|
    ensures |Select(infos, order[..n], tried)| <= |Select(infos, order, tried)|
    decreases |order|
  {
    if n == |order| {
      assert order[..n] == order;
    } else {
      var m := |order| - 1;
      SelectGrows(infos, order[..m], n, tried);
      assert order[..m][..n] == order[..n];
    }
  }

  lemma SelectNext(infos: map<Id, Info>, order: seq<Id>, n: nat, tried: bool)
    requires n < |order|
    ensures var id, sel := order[n], Select(infos, order[..n], tried);
      Select(infos, order[..n + 1], tried) ==
          sel + (if id in infos && (if tried then infos[id].inTried else infos[id].refCount != 0) then [id] else [])
  {
    assert order[..n + 1][..n] == order[..n];
  }

  /** `ids` gives every id of a section its place in it. */
  ghost predicate Numbered(ids: map<Id, int>, sel: seq<Id>) {
    forall id :: id in sel ==> id in ids && ids[id] == IndexOf(sel, id)
  }

  lemma NumberedNext(ids: map<Id, int>, sel: seq<Id>, id: Id)
    requires Numbered(ids, sel) && id !in sel
    ensures Numbered(ids[id := |sel|], sel) && Numbered(ids[id := |sel|], sel + [id])
  {
    var sel' := sel + [id];
    assert sel'[..|sel|] == sel;
    forall x | x in sel' ensures x in ids[id := |sel|] && ids[id := |sel|][x] == IndexOf(sel', x) {
      if x != id { assert x in sel; }
    }
  }

  lemma FreezeNext(infos: map<Id, Info>, sel: seq<Id>, id: Id)
    requires id in infos && forall x :: x in sel ==> x in infos
    ensures FreezeAll(infos, sel + [id]) == FreezeAll(infos, sel) + [Freeze(infos[id])]
  {
    assert (sel + [id])[..|sel|] == sel;
  }

  /** One of the two entry sections.  `ids` gives every id the number of entries written before it. */
  method WriteSection(infos: map<Id, Info>, order: seq<Id>, tried: bool, count: int)
    returns (ds: seq<DiskInfo>, ids: map<Id, int>)
    requires Traversal(infos, order) && |Select(infos, order, tried)| == count
    ensures var sel := Select(infos, order, tried);
      (forall id :: id in sel ==> id in infos) && ds == FreezeAll(infos, sel) && Numbered(ids, sel)
  {
    hide Select, FreezeAll, Numbered;
    ghost var sel: seq<Id> := [];
    ds, ids := [], map[];
    var nIds := 0;
    StartEmpty(infos, order, tried);
    for n := 0 to |order|
      invariant sel == Select(infos, order[..n], tried) && nIds == |sel|
      invariant forall id :: id in sel ==> id in infos && id in order[..n]
      invariant ds == FreezeAll(infos, sel) && Numbered(ids, sel)
    {
      var id := order[n];
      assert id in order && id !in order[..n];
      SelectNext(infos, order, n, tried);
      NumberedNext(ids, sel, id);
      ids := ids[id := nIds];
      if (if tried then infos[id].inTried else infos[id].refCount != 0) {
        SelectGrows(infos, order, n + 1, tried);
        assert nIds != count;
        FreezeNext(infos, sel, id);
        ds := ds + [Freeze(infos[id])];
        nIds := nIds + 1;
        sel := sel + [id];
      }
    }
    assert order[..|order|] == order;
  }

  lemma StartEmpty(infos: map<Id, Info>, order: seq<Id>, tried: bool)
    ensures Select(infos, order[..0], tried) == [] && FreezeAll(infos, []) == [] && Numbered(map[], [])
  {}

  method WriteBuckets(vvNew: map<Slot, Id>, ghost ns: seq<Id>, ids: map<Id, int>) returns (buckets: seq<seq<int>>)
    requires Numbered(ids, ns)
    requires forall s :: s in vvNew ==> var id := vvNew[s]; id in ns
    ensures buckets == seq(NEW_BUCKET_COUNT, b => Row(vvNew, ns, b, BUCKET_SIZE))
  {
    buckets := [];
    for b := 0 to NEW_BUCKET_COUNT
      invariant |buckets| == b && forall c :: 0 <= c < b ==> buckets[c] == Row(vvNew, ns, c, BUCKET_SIZE)
    {
      var row := [];
      for p := 0 to BUCKET_SIZE
        invariant row == Row(vvNew, ns, b, p)
      {
        var s := Slot(b, p);
        if s in vvNew {
          var id := vvNew[s];
          row := row + [ids[id]];
        }
      }
      buckets := buckets + [row];
    }
  }

  method Serialize(h: Hashes, t: Tables, asmap: int, order: seq<Id>) returns (d: Disk)
    requires Consistent(h, t, {}, {}) && Traversal(t.infos, order)
    ensures d == DiskOf(h, t, asmap, order)
  {
    hide Consistent, Select, FreezeAll, Row;
    SectionsOk(h, t, order);
    ghost var ns := Select(t.infos, order, false);
    var news, ids := WriteSection(t.infos, order, false, t.nNew);
    var trieds, _ := WriteSection(t.infos, order, true, t.nTried);
    forall s | s in t.vvNew ensures var id := t.vvNew[s]; id in ns { SlotInfo(h, t, s); }
    var buckets := WriteBuckets(t.vvNew, ns, ids);
    d := Disk(FILE_FORMAT, INCOMPATIBILITY_BASE + FILE_FORMAT, h.key, t.nNew, t.nTried, FlipFlag(NEW_BUCKET_COUNT),
              news, trieds, buckets, asmap);
  }

  /** Saving and then loading: the loader accepts the file and returns the same manager, ids renamed. */
  method SaveAndLoad(h: Hashes, t: Tables, asmap: int, order: seq<Id>, h0: Hashes) returns (r: Loaded)
    requires Consistent(h, t, {}, {}) && h.key != 0 && Traversal(t.infos, order)
    requires h0.(key := h.key) == h
    ensures r.Restored? && Consistent(h, r.t, {}, {}) && Renamed(t, r.t, FileOrder(t, order))
    ensures 0 <= r.idCount && forall id :: id in r.t.infos ==> 0 <= id < r.idCount
  {
    hide Consistent, Select, AddrCheck.Checked, Renamed, Rebuilt, WellFramed, Acceptable, Pruned;
    var d := Serialize(h, t, asmap, order);
    RoundTrip(h, t, asmap, order);
    ConsistentAcceptable(h, Rebuilt(h, asmap, d));
    r := Unserialize(h0, asmap, d);
  }

  /** `e` is stored for entry `id`, which mapAddr knows by its address. */
  ghost predicate StoredAs(t: Tables, e: DiskInfo, id: Id, tried: bool) {
    && id in t.infos && e == Freeze(t.infos[id]) && e.addr in t.addrs && t.addrs[e.addr] == id
    && e.lastSuccess >= 0 && (tried ==> e.lastSuccess > 0)
  }

  /** A consistent manager never saves an address twice. */
  lemma SavedDistinct(h: Hashes, t: Tables, asmap: int, order: seq<Id>)
    requires Consistent(h, t, {}, {}) && Traversal(t.infos, order)
    ensures DistinctEntries(DiskOf(h, t, asmap, order))
  {
    hide Consistent, Select, FreezeAll, Row;
    var ns, ts, all := Select(t.infos, order, false), Select(t.infos, order, true), FileOrder(t, order);
    SectionsOk(h, t, order);
    FileOrderDistinct(h, t, order);
    FreezePrefix(t.infos, ns);
    FreezePrefix(t.infos, ts);
    var d := DiskOf(h, t, asmap, order);
    var ds := d.news + d.trieds;
    forall i | 0 <= i < |ds| ensures StoredAs(t, ds[i], all[i], i >= |ns|) {
      var id := all[i];
      if i < |ns| { assert ns[i] == id; } else { assert ts[i - |ns|] == id && id in ts; }
      InfoFacts(h, t, id);
    }
  }

  /**
   Saving under one asmap and loading under another, which may send every address to another bucket: the file is
   accepted all the same, and what is left of the entries is a consistent manager.
   */
  method SaveAndMigrate(h: Hashes, t: Tables, asmap: int, order: seq<Id>, h0: Hashes, asmap0: int) returns (r: Loaded)
    requires Consistent(h, t, {}, {}) && h.key != 0 && Traversal(t.infos, order)
    ensures r.Restored? && Consistent(h0.(key := h.key), r.t, {}, {})
    ensures Pruned(Rebuilt(h0.(key := h.key), asmap0, DiskOf(h, t, asmap, order)), r.t)
    ensures 0 <= r.idCount && forall id :: id in r.t.infos ==> 0 <= id < r.idCount
  {
    hide Consistent, Select, AddrCheck.Checked, Renamed, Rebuilt, WellFramed, Acceptable, Pruned, DistinctEntries;
    var d := Serialize(h, t, asmap, order);
    RoundTrip(h, t, asmap, order);
    SavedDistinct(h, t, asmap, order);
    DistinctAccepted(h0.(key := h.key), asmap0, d);
    r := Unserialize(h0, asmap0, d);
  }
}
