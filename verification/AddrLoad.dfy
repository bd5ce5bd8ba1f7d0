/**
 Loading the address manager (addrman.cpp, Unserialize).  The file is a record of its sections; ids, positions and
 reference counts are not stored but rebuilt.  Whatever the file says, an accepted file gives consistent tables, and
 a file is accepted exactly if its key and times are sane and no entry shares its address with one that stays.
 */
module AddrLoad {
  import opened AddrTables
  import T = AddrTables
  import AddrCheck

  const FILE_FORMAT := 4
  const INCOMPATIBILITY_BASE := 32
  const BUCKET_FLAG := 0x4000_0000

  /** The stored part of an entry. */
  datatype DiskInfo = DiskInfo(addr: Service, source: NetAddr, time: int, services: set<int>, lastSuccess: int,
                               attempts: int)

  datatype Disk = Disk(
    format: int, compat: int, key: int, nNew: int, nTried: int, nUBuckets: int,
    news: seq<DiskInfo>, trieds: seq<DiskInfo>, buckets: seq<seq<int>>, asmap: int)

  /** XOR with 2^30. */
  function FlipFlag(n: int): int {
    if (n / BUCKET_FLAG) % 2 == 1 then n - BUCKET_FLAG else n + BUCKET_FLAG
  }

  function Freeze(i: Info): DiskInfo {
    DiskInfo(i.addr, i.source, i.time, i.services, i.lastSuccess, i.attempts)
  }

  function Thaw(d: DiskInfo, tried: bool, pos: int): Info {
    Info(d.addr, d.source, d.time, d.services, 0, 0, d.lastSuccess, d.attempts, 0, tried, pos)
  }

  // ---------- Loading, step by step ----------

  const EMPTY := Tables(map[], map[], [], map[], map[], 0, 0, map[])

  /** An entry of the new section becomes entry `n`, in no bucket yet. */
  function AddNew(t: Tables, d: DiskInfo): Tables {
    var n := |t.random|;
    t.(infos := t.infos[n := Thaw(d, false, n)], addrs := t.addrs[d.addr := n], random := t.random + [n],
       nNew := t.nNew + 1, counts := Bump(t.counts, d.addr.network, false, 1))
  }

  /** An entry of the tried section takes its slot, or is lost if it is invalid or the slot is taken. */
  function AddTried(h: Hashes, t: Tables, d: DiskInfo): Tables {
    var n, s := |t.random|, h.TriedSlot(d.addr);
    if d.addr.valid && s !in t.vvTried then
      t.(infos := t.infos[n := Thaw(d, true, n)], addrs := t.addrs[d.addr := n], random := t.random + [n],
         vvTried := t.vvTried[s := n], nTried := t.nTried + 1, counts := Bump(t.counts, d.addr.network, true, 1))
    else t
  }

  /**
   A reference from bucket `e.0` to entry `e.1`: in the same bucket if the bucketing is unchanged, else by its
   source.
   */
  function PlaceOne(h: Hashes, t: Tables, restore: bool, e: (int, int)): Tables {
    if e.1 !in t.infos || !t.infos[e.1].addr.valid || t.infos[e.1].refCount >= NEW_BUCKETS_PER_ADDRESS then t
    else
      var i := t.infos[e.1];
      var s := h.NewSlot(i.addr, e.0);
      if restore && s !in t.vvNew then T.Place(t, s, e.1)
      else
        var s' := h.NewSlot(i.addr, h.NewBucket(i.addr, i.source));
        if s' !in t.vvNew then T.Place(t, s', e.1) else t
  }

  function LoadNew(ds: seq<DiskInfo>): Tables {
    if ds == [] then EMPTY else AddNew(LoadNew(ds[..|ds| - 1]), ds[|ds| - 1])
  }

  function LoadTried(h: Hashes, t: Tables, ds: seq<DiskInfo>): Tables {
    if ds == [] then t else AddTried(h, LoadTried(h, t, ds[..|ds| - 1]), ds[|ds| - 1])
  }

  function PlaceAll(h: Hashes, t: Tables, restore: bool, es: seq<(int, int)>): Tables {
    if es == [] then t else PlaceOne(h, PlaceAll(h, t, restore, es[..|es| - 1]), restore, es[|es| - 1])
  }

  /** The references of the buckets before `b`, those out of range left out. */
  function References(buckets: seq<seq<int>>, b: nat, nNew: int): seq<(int, int)>
    requires b <= |buckets|
  {
    if b == 0 then [] else References(buckets, b - 1, nNew) + RowReferences(b - 1, buckets[b - 1], nNew)
  }

  function RowReferences(b: int, row: seq<int>, nNew: int): seq<(int, int)> {
    if row == [] then []
    else
      var n := row[|row| - 1];
      RowReferences(b, row[..|row| - 1], nNew) + (if 0 <= n < nNew then [(b, n)] else [])
  }

  datatype Loaded = Corrupt | Unsupported | Inconsistent(code: int) | Restored(t: Tables, idCount: int)

  /** Every section has the length its count announces. */
  predicate WellFramed(d: Disk) {
    && (0 <= d.nNew ==> |d.news| == d.nNew) && (0 <= d.nTried ==> |d.trieds| == d.nTried)
    && |d.buckets| == (if Buckets(d) < 0 then 0 else Buckets(d))
  }

  function Buckets(d: Disk): int {
    if d.format >= 1 then FlipFlag(d.nUBuckets) else d.nUBuckets
  }

  predicate Restore(d: Disk, asmap: int) {
    Buckets(d) == NEW_BUCKET_COUNT && (if d.format >= 2 then d.asmap else 0) == asmap
  }

  /** The tables before entries without a bucket are pruned. */
  function Rebuilt(h: Hashes, asmap: int, d: Disk): Tables {
    PlaceAll(h, LoadTried(h, LoadNew(d.news), d.trieds), Restore(d, asmap), References(d.buckets, |d.buckets|, d.nNew))
  }

  // ---------- What loading keeps, whatever the file says ----------

  /** mapAddr leads to an entry with the address looked up. */
  ghost predicate AddrsBack(infos: map<Id, Info>, addrs: map<Service, Id>) {
    forall a :: a in addrs ==> var id := addrs[a]; id in infos && infos[id].addr == a
  }

  predicate Referenced(t: Tables, id: Id) {
    id in t.infos && (t.infos[id].inTried || t.infos[id].refCount != 0)
  }

  ghost predicate PlacedValid(t: Tables) {
    forall id :: Referenced(t, id) ==> t.infos[id].addr.valid
  }

  /** All of the invariant but the times and the way from an entry to mapAddr; entries may be in no bucket yet. */
  ghost predicate Loose(h: Hashes, t: Tables) {
    && AddrsBack(t.infos, t.addrs) && RandomOk(t.infos, t.random)
    && TriedOk(h, t.infos, t.vvTried) && NewOk(h, t.infos, t.vvNew)
    && RefsOk(t.infos, t.vvNew, {}, t.infos.Keys) && CountsOk(t, {})
    && PlacedValid(t)
  }

  /** Entries are numbered in the order of loading, and their addresses are known. */
  ghost predicate Dense(t: Tables) {
    forall id :: id in t.infos ==> 0 <= id < |t.random| && t.infos[id].addr in t.addrs
  }

  lemma EmptyLoose(h: Hashes)
    ensures Loose(h, EMPTY) && Dense(EMPTY)
  {
    forall k: bool, net: Option<Network> ensures CountExact(EMPTY, {}, k, net) {
      assert Group(EMPTY.infos, {}, k, net) == {};
    }
  }

  lemma AddNewLoose(h: Hashes, t: Tables, d: DiskInfo)
    requires Loose(h, t) && Dense(t)
    ensures Loose(h, AddNew(t, d)) && Dense(AddNew(t, d))
  {
    hide RandomOk, TriedOk, NewOk, CountsOk, SlotsOf, Bump;
    var n := |t.random|;
    var info := Thaw(d, false, n);
    NoSlots(h, t.infos, t.vvNew, n);
    RandomPush(t.infos, t.random, n, info);
    TriedUpdate(h, t.infos, t.vvTried, n, info);
    NewUpdate(h, t.infos, t.vvNew, n, info);
    CountsGain(t, AddNew(t, d), {}, {}, n, false);
  }

  lemma TriedAdd(h: Hashes, infos: map<Id, Info>, vvTried: map<Slot, Id>, id: Id, info: Info)
    requires TriedOk(h, infos, vvTried) && id !in infos && info.inTried && h.TriedSlot(info.addr) !in vvTried
    ensures TriedOk(h, infos[id := info], vvTried[h.TriedSlot(info.addr) := id])
  {}

  lemma TriedParts(h: Hashes, t: Tables, d: DiskInfo)
    requires Loose(h, t) && Dense(t) && d.addr.valid && h.TriedSlot(d.addr) !in t.vvTried
    ensures var u := AddTried(h, t, d);
      RefsOk(u.infos, u.vvNew, {}, u.infos.Keys) && AddrsBack(u.infos, u.addrs) && PlacedValid(u)
  {
    hide RandomOk, TriedOk, NewOk, CountsOk, SlotsOf, Bump, Hashes.TriedSlot;
    NoSlots(h, t.infos, t.vvNew, |t.random|);
  }

  lemma AddTriedLoose(h: Hashes, t: Tables, d: DiskInfo)
    requires Loose(h, t) && Dense(t)
    ensures Loose(h, AddTried(h, t, d)) && Dense(AddTried(h, t, d))
  {
    hide AddrsBack, RandomOk, TriedOk, NewOk, RefsOk, CountsOk, PlacedValid, Bump, Hashes.TriedSlot;
    var n := |t.random|;
    var info := Thaw(d, true, n);
    if d.addr.valid && h.TriedSlot(d.addr) !in t.vvTried {
      TriedParts(h, t, d);
      RandomPush(t.infos, t.random, n, info);
      TriedAdd(h, t.infos, t.vvTried, n, info);
      NewUpdate(h, t.infos, t.vvNew, n, info);
      CountsGain(t, AddTried(h, t, d), {}, {}, n, true);
    }
  }

  lemma PlaceParts(t: Tables, s: Slot, id: Id)
    requires RefsOk(t.infos, t.vvNew, {}, t.infos.Keys) && AddrsBack(t.infos, t.addrs) && PlacedValid(t)
    requires s !in t.vvNew && id in t.infos && t.infos[id].refCount < NEW_BUCKETS_PER_ADDRESS && t.infos[id].addr.valid
    ensures var u := T.Place(t, s, id);
      RefsOk(u.infos, u.vvNew, {}, u.infos.Keys) && AddrsBack(u.infos, u.addrs) && PlacedValid(u)
  {
    SlotsPut(t.vvNew, s, id);
    hide SlotsOf;
  }

  lemma PlaceLoose(h: Hashes, t: Tables, s: Slot, id: Id)
    requires Loose(h, t) && s !in t.vvNew && id in t.infos && !t.infos[id].inTried && t.infos[id].addr.valid
    requires 0 <= s.bucket < NEW_BUCKET_COUNT && s == h.NewSlot(t.infos[id].addr, s.bucket)
    requires t.infos[id].refCount < NEW_BUCKETS_PER_ADDRESS
    ensures Loose(h, T.Place(t, s, id))
  {
    hide AddrsBack, RandomOk, TriedOk, NewOk, RefsOk, CountsOk, PlacedValid, Hashes.NewSlot;
    PlaceParts(t, s, id);
    var info := t.infos[id].(refCount := t.infos[id].refCount + 1);
    CountsKept(t, T.Place(t, s, id), {});
    RandomUpdate(t.infos, t.random, id, info);
    TriedUpdate(h, t.infos, t.vvTried, id, info);
    NewPut(h, t.infos, t.vvNew, s, id);
    NewUpdate(h, t.infos, t.vvNew[s := id], id, info);
  }

  /** Placing references touches reference counts only. */
  ghost predicate SameEntries(t: Tables, u: Tables) {
    && u.infos.Keys == t.infos.Keys && u.addrs == t.addrs && u.random == t.random
    && (forall id :: id in t.infos ==> u.infos[id] == t.infos[id].(refCount := u.infos[id].refCount))
  }

  lemma SameKind(t: Tables, u: Tables, id: Id)
    requires SameEntries(t, u) && id in u.infos
    ensures id in t.infos && u.infos[id].inTried == t.infos[id].inTried
  {}

  /** A reference is only ever placed for an entry of the new section. */
  lemma PlaceOneLoose(h: Hashes, t: Tables, restore: bool, e: (int, int))
    requires Loose(h, t) && (restore ==> 0 <= e.0 < NEW_BUCKET_COUNT) && (e.1 in t.infos ==> !t.infos[e.1].inTried)
    ensures Loose(h, PlaceOne(h, t, restore, e)) && SameEntries(t, PlaceOne(h, t, restore, e))
  {
    hide Loose;
    if e.1 in t.infos && t.infos[e.1].addr.valid && t.infos[e.1].refCount < NEW_BUCKETS_PER_ADDRESS {
      var i := t.infos[e.1];
      var s, s' := h.NewSlot(i.addr, e.0), h.NewSlot(i.addr, h.NewBucket(i.addr, i.source));
      if restore && s !in t.vvNew {
        PlaceLoose(h, t, s, e.1);
      } else if s' !in t.vvNew {
        PlaceLoose(h, t, s', e.1);
      }
    }
  }

  lemma LooseInRange(h: Hashes, t: Tables)
    requires Loose(h, t)
    ensures AddrCheck.InRange(t) && RandomOk(t.infos, t.random)
  {}

  // ---------- Pruning ----------

  /** Some entry with this address was deleted between `t` and `u`. */
  ghost predicate Vanished(t: Tables, u: Tables, a: Service) {
    exists id :: id in t.infos && id !in u.infos && t.infos[id].addr == a
  }

  /** Entries were deleted, their addresses with them, and nothing else changed. */
  ghost predicate Shrunk(t: Tables, u: Tables) {
    && u.infos.Keys <= t.infos.Keys && u.vvNew == t.vvNew && u.vvTried == t.vvTried
    && (forall id :: id in u.infos ==> u.infos[id] == t.infos[id].(randomPos := u.infos[id].randomPos))
    && (forall a :: a in u.addrs ==> a in t.addrs && u.addrs[a] == t.addrs[a])
    && (forall a :: a in t.addrs ==> (a !in u.addrs <==> Vanished(t, u, a)))
  }

  /** Exactly the entries without a reference are gone. */
  ghost predicate Pruned(t: Tables, u: Tables) {
    Shrunk(t, u) && forall id :: id in u.infos <==> Referenced(t, id)
  }

  lemma SwapShape(t: Tables, p: int, q: int)
    requires RandomOk(t.infos, t.random) && 0 <= p < |t.random| && 0 <= q < |t.random|
    ensures var u := Swap(t, p, q);
      && u.infos.Keys == t.infos.Keys && |u.random| == |t.random|
      && (forall id :: id in t.infos ==> u.infos[id] == t.infos[id].(randomPos := u.infos[id].randomPos))
      && t.random[p] in u.infos && u.infos[t.random[p]].randomPos == q
  {
    var a, b := t.random[p], t.random[q];
    assert a in t.infos && b in t.infos && t.infos[a].randomPos == p;
    hide RandomOk;
  }

  lemma SwapAlike(t: Tables, p: int, q: int)
    requires RandomOk(t.infos, t.random) && 0 <= p < |t.random| && 0 <= q < |t.random|
    ensures Alike(t, Swap(t, p, q))
  {
    assert t.random[p] in t.infos && t.random[q] in t.infos;
    hide RandomOk;
  }

  lemma SwapRandomOk(t: Tables, p: int, q: int)
    requires RandomOk(t.infos, t.random) && 0 <= p < |t.random| && 0 <= q < |t.random|
    ensures RandomOk(Swap(t, p, q).infos, Swap(t, p, q).random)
  {}

  lemma AlikeLoose(h: Hashes, t: Tables, u: Tables)
    requires Loose(h, t) && Alike(t, u) && RandomOk(u.infos, u.random)
    ensures Loose(h, u)
  {
    hide RandomOk, SlotsOf;
    CountsKept(t, u, {});
    hide CountsOk;
    assert TriedOk(h, u.infos, u.vvTried) by { hide AddrsBack, NewOk, RefsOk, PlacedValid; }
    hide TriedOk;
    assert PlacedValid(u) by {
      forall id | Referenced(u, id) ensures u.infos[id].addr.valid { assert Referenced(t, id); }
    }
    hide PlacedValid;
  }

  lemma DeleteLastLoose(h: Hashes, t: Tables, id: Id)
    requires Loose(h, t) && id in t.infos && !Referenced(t, id)
    requires t.random != [] && t.infos[id].randomPos == |t.random| - 1
    ensures Loose(h, DeleteLast(t, id))
  {
    hide RandomOk, TriedOk, NewOk, CountsOk, SlotsOf, Bump;
    var u := DeleteLast(t, id);
    CountsDrop(t, u, {}, {}, id, false);
    RandomPop(t.infos, t.random, id);
    TriedDrop(h, t.infos, t.vvTried, id);
    NewUnused(h, t.infos, t.vvNew, id, t.infos[id]);
    forall x | Referenced(u, x) ensures u.infos[x].addr.valid { assert Referenced(t, x); }
  }

  lemma DeleteShrinks(t0: Tables, t: Tables, u: Tables, id: Id)
    requires Shrunk(t0, t) && id in t.infos && u.infos.Keys == t.infos.Keys && u.addrs == t.addrs && u.random != []
    requires u.vvNew == t.vvNew && u.vvTried == t.vvTried
    requires forall x :: x in t.infos ==> u.infos[x] == t.infos[x].(randomPos := u.infos[x].randomPos)
    ensures Shrunk(t0, DeleteLast(u, id)) && DeleteLast(u, id).infos.Keys == t.infos.Keys - {id}
  {
    hide Bump;
    var w := DeleteLast(u, id);
    forall a | a in t0.addrs ensures a !in w.addrs <==> Vanished(t0, w, a) {
      if Vanished(t0, t, a) {
        var x :| x in t0.infos && x !in t.infos && t0.infos[x].addr == a;
        assert x in t0.infos && x !in w.infos;
      }
      if a == t0.infos[id].addr { assert id in t0.infos && id !in w.infos; }
    }
  }

  lemma DeleteLoose(h: Hashes, t0: Tables, t: Tables, id: Id)
    requires Loose(h, t) && Shrunk(t0, t) && id in t.infos && !Referenced(t, id)
    ensures RandomOk(t.infos, t.random)
    ensures var u := T.Delete(t, id); Loose(h, u) && Shrunk(t0, u) && u.infos.Keys == t.infos.Keys - {id}
  {
    hide Loose, Shrunk, Swap, DeleteLast, Alike;
    LooseInRange(h, t);
    var p, q := t.infos[id].randomPos, |t.random| - 1;
    SwapShape(t, p, q);
    SwapAlike(t, p, q);
    SwapRandomOk(t, p, q);
    hide RandomOk;
    var u := Swap(t, p, q);
    AlikeLoose(h, t, u);
    AlikeFields(t, u);
    DeleteLastLoose(h, u, id);
    DeleteShrinks(t0, t, u, id);
  }

  lemma AlikeFields(t: Tables, u: Tables)
    requires Alike(t, u)
    ensures u.addrs == t.addrs && u.vvNew == t.vvNew && u.vvTried == t.vvTried
  {}

  /** Remove the new entries that ended up in no bucket. */
  method Prune(h: Hashes, t0: Tables) returns (t: Tables)
    requires Loose(h, t0)
    ensures Loose(h, t) && Pruned(t0, t)
    ensures (forall id :: id in t0.infos ==> Referenced(t0, id)) ==> t == t0
  {
    hide Loose, Shrunk, Referenced, T.Delete;
    t := t0;
    ShrunkStart(t0);
    var rest := t.infos.Keys;
    while rest != {}
      invariant Loose(h, t) && Shrunk(t0, t) && rest <= t.infos.Keys <= t0.infos.Keys
      invariant forall id :: id in t0.infos && id !in rest ==> (id in t.infos <==> Referenced(t0, id))
      invariant (forall id :: id in t0.infos ==> Referenced(t0, id)) ==> t == t0
    {
      AddrCheck.PickOne(rest);
      var id :| id in rest;
      ShrunkReferenced(t0, t, id);
      if !Referenced(t, id) {
        DeleteLoose(h, t0, t, id);
        t := T.Delete(t, id);
      }
      rest := rest - {id};
    }
    forall id ensures id in t.infos <==> Referenced(t0, id) { ReferencedKnown(t0, id); }
  }

  lemma ShrunkStart(t: Tables)
    ensures Shrunk(t, t)
  {}

  lemma ShrunkReferenced(t: Tables, u: Tables, id: Id)
    requires Shrunk(t, u) && id in u.infos
    ensures Referenced(u, id) <==> Referenced(t, id)
  {}

  lemma ReferencedKnown(t: Tables, id: Id)
    ensures Referenced(t, id) ==> id in t.infos
  {}

  // ---------- Which files are accepted ----------

  predicate TimeOk(i: Info) {
    i.lastTry >= 0 && i.lastSuccess >= 0 && (i.inTried ==> i.lastSuccess > 0)
  }

  /** A key, sane times, and no second entry with the address of an entry that stays. */
  ghost predicate Acceptable(h: Hashes, t: Tables) {
    && h.key != 0
    && (forall id :: Referenced(t, id) ==> TimeOk(t.infos[id]))
    && (forall id, x :: Referenced(t, id) && x in t.infos && t.infos[x].addr == t.infos[id].addr ==> x == id)
  }

  /** Every entry is found under its address. */
  ghost predicate AddrsForth(t: Tables) {
    forall id :: id in t.infos ==> t.infos[id].addr in t.addrs && t.addrs[t.infos[id].addr] == id
  }

  lemma SettledConsistent(h: Hashes, t: Tables)
    requires Loose(h, t) && AddrsForth(t) && TimesOk(t.infos) && forall id :: id in t.infos ==> Referenced(t, id)
    ensures Consistent(h, t, {}, {})
  {
    hide RandomOk, TriedOk, NewOk, CountsOk, SlotsOf, TimesOk;
    assert AllValid(t.infos) by {
      forall id | id in t.infos ensures t.infos[id].addr.valid { assert Referenced(t, id); }
    }
    assert RefsOk(t.infos, t.vvNew, {}, {}) by {
      forall id | id in t.infos && t.infos[id].refCount == 0 ensures t.infos[id].inTried { assert Referenced(t, id); }
    }
  }

  lemma CheckedParts(h: Hashes, t: Tables)
    requires AddrCheck.Checked(h, t)
    ensures h.key != 0 && AddrsForth(t) && TimesOk(t.infos)
  {
    hide AddrCheck.TriedChecked, AddrCheck.NewChecked, AddrCheck.NetworksChecked, AddrCheck.EntryCode;
    forall id | id in t.infos
      ensures t.infos[id].addr in t.addrs && t.addrs[t.infos[id].addr] == id && TimeOk(t.infos[id])
    {
      EntryPasses(t, id, t.infos[id]);
    }
  }

  lemma EntryPasses(t: Tables, id: Id, i: Info)
    requires AddrCheck.EntryCode(t, id, i) == 0
    ensures i.addr in t.addrs && t.addrs[i.addr] == id && TimeOk(i)
  {}

  lemma ForthIff(t: Tables, u: Tables)
    requires AddrsBack(t.infos, t.addrs) && Dense(t) && Pruned(t, u)
    ensures AddrsForth(u) <==>
      forall id, x :: Referenced(t, id) && x in t.infos && t.infos[x].addr == t.infos[id].addr ==> x == id
  {
    if AddrsForth(u) {
      forall id, x | Referenced(t, id) && x in t.infos && t.infos[x].addr == t.infos[id].addr ensures x == id {
        assert id in u.infos && u.infos[id].addr in u.addrs;
        assert !Vanished(t, u, t.infos[x].addr);
      }
    } else {
      var id :| id in u.infos && !(u.infos[id].addr in u.addrs && u.addrs[u.infos[id].addr] == id);
      var a := u.infos[id].addr;
      assert Referenced(t, id) && a in t.addrs;
      if a in u.addrs {
        var x := t.addrs[a];
        assert x in t.infos && t.infos[x].addr == a && x != id;
      } else {
        var x :| x in t.infos && x !in u.infos && t.infos[x].addr == a;
        assert x != id;
      }
    }
  }

  /** The check passes exactly if the tables were acceptable before pruning, and then they are consistent. */
  lemma Judged(h: Hashes, t: Tables, u: Tables)
    requires Loose(h, t) && Dense(t) && Loose(h, u) && Pruned(t, u)
    ensures AddrCheck.Checked(h, u) <==> Acceptable(h, t)
    ensures Acceptable(h, t) ==> Consistent(h, u, {}, {})
  {
    hide Loose, AddrCheck.Checked, AddrsForth, Shrunk, Referenced;
    assert AddrsBack(t.infos, t.addrs) by { LooseAddrs(h, t); }
    ForthIff(t, u);
    forall id | id in u.infos
      ensures id in t.infos && Referenced(u, id) && (TimeOk(u.infos[id]) <==> TimeOk(t.infos[id]))
    {
      PrunedEntry(t, u, id);
    }
    if AddrCheck.Checked(h, u) { CheckedParts(h, u); }
    if Acceptable(h, t) {
      forall id | id in u.infos ensures TimeOk(u.infos[id]) { assert Referenced(t, id); }
      SettledConsistent(h, u);
      AddrCheck.ConsistentPasses(h, u);
    }
  }

  lemma LooseAddrs(h: Hashes, t: Tables)
    requires Loose(h, t)
    ensures AddrsBack(t.infos, t.addrs)
  {}

  lemma PrunedEntry(t: Tables, u: Tables, id: Id)
    requires Pruned(t, u) && id in u.infos
    ensures id in t.infos && Referenced(u, id) && (TimeOk(u.infos[id]) <==> TimeOk(t.infos[id]))
  {}

  // ---------- Files in which no address appears twice ----------

  ghost function AddrSet(ds: seq<DiskInfo>): set<Service> {
    set k | 0 <= k < |ds| :: ds[k].addr
  }

  /** No address appears twice in the two sections, and the times are sane. */
  ghost predicate DistinctEntries(d: Disk) {
    var all := d.news + d.trieds;
    && (forall i, j :: 0 <= i < j < |all| ==> all[i].addr != all[j].addr)
    && (forall i :: 0 <= i < |all| ==> all[i].lastSuccess >= 0 && (i >= |d.news| ==> all[i].lastSuccess > 0))
  }

  /** The entries have sane times and distinct addresses from `known`. */
  ghost predicate Apart(t: Tables, known: set<Service>) {
    && (forall id :: id in t.infos ==> t.infos[id].addr in known && TimeOk(t.infos[id]))
    && (forall id, x :: id in t.infos && x in t.infos && t.infos[x].addr == t.infos[id].addr ==> x == id)
  }

  lemma ApartNext(t: Tables, known: set<Service>, d: DiskInfo, u: Tables, n: Id, tried: bool)
    requires Apart(t, known) && d.addr !in known && u.infos == t.infos[n := Thaw(d, tried, n)]
    requires d.lastSuccess >= 0 && (tried ==> d.lastSuccess > 0)
    ensures Apart(u, known + {d.addr})
  {}

  lemma ApartMore(t: Tables, known: set<Service>, more: set<Service>)
    requires Apart(t, known) && known <= more
    ensures Apart(t, more)
  {}

  lemma AddrSetNext(ds: seq<DiskInfo>, n: nat)
    requires n < |ds|
    ensures AddrSet(ds[..n + 1]) == AddrSet(ds[..n]) + {ds[n].addr}
    ensures (forall i, j :: 0 <= i < j < |ds| ==> ds[i].addr != ds[j].addr) ==> ds[n].addr !in AddrSet(ds[..n])
  {
    var a, b := AddrSet(ds[..n + 1]), AddrSet(ds[..n]) + {ds[n].addr};
    forall x ensures x in a <==> x in b {
      if x in a {
        var k :| 0 <= k < n + 1 && ds[..n + 1][k].addr == x;
        if k < n { assert ds[..n][k].addr == x; }
      }
      if x in AddrSet(ds[..n]) {
        var k :| 0 <= k < n && ds[..n][k].addr == x;
        assert ds[..n + 1][k].addr == x;
      }
      assert ds[..n + 1][n].addr == ds[n].addr;
    }
  }

  lemma {:induction false} LoadNewApart(d: Disk, n: nat)
    requires DistinctEntries(d) && n <= |d.news|
    ensures Apart(LoadNew(d.news[..n]), AddrSet((d.news + d.trieds)[..n]))
    decreases n
  {
    hide AddrSet, Apart, Bump;
    var all := d.news + d.trieds;
    if n == 0 {
      ApartEmpty(AddrSet(all[..0]));
    } else {
      LoadNewApart(d, n - 1);
      AddrSetNext(all, n - 1);
      var t := LoadNew(d.news[..n - 1]);
      assert d.news[..n][..n - 1] == d.news[..n - 1] && all[n - 1] == d.news[n - 1];
      ApartNext(t, AddrSet(all[..n - 1]), d.news[n - 1], AddNew(t, d.news[n - 1]), |t.random|, false);
    }
  }

  lemma ApartEmpty(known: set<Service>)
    ensures Apart(EMPTY, known)
  {}

  lemma {:induction false} LoadTriedApart(h: Hashes, d: Disk, n: nat)
    requires DistinctEntries(d) && n <= |d.trieds|
    ensures Apart(LoadTried(h, LoadNew(d.news), d.trieds[..n]), AddrSet((d.news + d.trieds)[..|d.news| + n]))
    decreases n
  {
    hide AddrSet, Apart, Bump, Hashes.TriedSlot;
    var all, m := d.news + d.trieds, |d.news| + n - 1;
    if n == 0 {
      assert d.news[..|d.news|] == d.news;
      LoadNewApart(d, |d.news|);
    } else {
      LoadTriedApart(h, d, n - 1);
      AddrSetNext(all, m);
      var e, t := d.trieds[n - 1], LoadTried(h, LoadNew(d.news), d.trieds[..n - 1]);
      assert d.trieds[..n][..n - 1] == d.trieds[..n - 1] && all[m] == e;
      if e.addr.valid && h.TriedSlot(e.addr) !in t.vvTried {
        ApartNext(t, AddrSet(all[..m]), e, AddTried(h, t, e), |t.random|, true);
      } else {
        ApartMore(t, AddrSet(all[..m]), AddrSet(all[..m + 1]));
      }
    }
  }

  lemma {:induction false} PlaceAllSame(h: Hashes, t: Tables, restore: bool, es: seq<(int, int)>)
    ensures SameEntries(t, PlaceAll(h, t, restore, es))
  {
    hide Hashes.NewSlot, Hashes.NewBucket;
    if es != [] { PlaceAllSame(h, t, restore, es[..|es| - 1]); }
  }

  /** Whatever the buckets and the asmap, a file in which no address appears twice is accepted. */
  lemma DistinctAccepted(h: Hashes, asmap: int, d: Disk)
    requires h.key != 0 && DistinctEntries(d)
    ensures Acceptable(h, Rebuilt(h, asmap, d))
  {
    hide LoadNew, LoadTried, PlaceAll, References, AddrSet;
    LoadTriedApart(h, d, |d.trieds|);
    assert d.trieds[..|d.trieds|] == d.trieds;
    var t := LoadTried(h, LoadNew(d.news), d.trieds);
    PlaceAllSame(h, t, Restore(d, asmap), References(d.buckets, |d.buckets|, d.nNew));
  }

  lemma ConsistentAcceptable(h: Hashes, t: Tables)
    requires Consistent(h, t, {}, {}) && h.key != 0
    ensures Acceptable(h, t)
  {
    hide RandomOk, TriedOk, NewOk, RefsOk, CountsOk;
  }

  // ---------- Unserialize ----------

  method LoadEntries(h: Hashes, d: Disk) returns (t: Tables)
    ensures Loose(h, t) && Dense(t) && t == LoadTried(h, LoadNew(d.news), d.trieds)
    ensures forall id :: 0 <= id < |d.news| ==> id in t.infos && !t.infos[id].inTried
  {
    hide Loose, Dense, AddTried;
    t := EMPTY;
    EmptyLoose(h);
    for n := 0 to |d.news|
      invariant Loose(h, t) && Dense(t) && t == LoadNew(d.news[..n]) && |t.random| == n
      invariant forall id :: 0 <= id < n ==> id in t.infos && !t.infos[id].inTried
    {
      AddNewLoose(h, t, d.news[n]);
      assert d.news[..n + 1][..n] == d.news[..n];
      t := AddNew(t, d.news[n]);
    }
    assert d.news[..|d.news|] == d.news;
    for n := 0 to |d.trieds|
      invariant Loose(h, t) && Dense(t) && t == LoadTried(h, LoadNew(d.news), d.trieds[..n]) && |d.news| <= |t.random|
      invariant forall id :: 0 <= id < |d.news| ==> id in t.infos && !t.infos[id].inTried
    {
      AddTriedLoose(h, t, d.trieds[n]);
      AddTriedAfter(h, t, d.trieds[n]);
      assert d.trieds[..n + 1][..n] == d.trieds[..n];
      t := AddTried(h, t, d.trieds[n]);
    }
    assert d.trieds[..|d.trieds|] == d.trieds;
  }

  lemma AddTriedAfter(h: Hashes, t: Tables, d: DiskInfo)
    ensures var u := AddTried(h, t, d);
      && |t.random| <= |u.random|
      && forall id :: id in t.infos && id < |t.random| ==> id in u.infos && u.infos[id] == t.infos[id]
  {}

  /** Every reference comes from a bucket before `b` and leads to an entry of the new section. */
  ghost predicate RefsWithin(es: seq<(int, int)>, b: int, nNew: int) {
    forall e :: e in es ==> 0 <= e.0 < b && 0 <= e.1 < nNew
  }

  method CollectRow(b: nat, row: seq<int>, nNew: int) returns (es: seq<(int, int)>)
    ensures es == RowReferences(b, row, nNew) && RefsWithin(es, b + 1, nNew)
  {
    es := [];
    for n := 0 to |row|
      invariant es == RowReferences(b, row[..n], nNew) && RefsWithin(es, b + 1, nNew)
    {
      assert row[..n + 1][..n] == row[..n];
      if 0 <= row[n] < nNew { es := es + [(b, row[n])]; }
    }
    assert row[..|row|] == row;
  }

  /** Collect the references of all buckets, to be applied later. */
  method CollectReferences(buckets: seq<seq<int>>, nNew: int) returns (es: seq<(int, int)>)
    ensures es == References(buckets, |buckets|, nNew) && RefsWithin(es, |buckets|, nNew)
  {
    es := [];
    for b := 0 to |buckets|
      invariant es == References(buckets, b, nNew) && RefsWithin(es, b, nNew)
    {
      var more := CollectRow(b, buckets[b], nNew);
      es := es + more;
    }
  }

  predicate InBounds(d: Disk) {
    0 <= d.nNew <= NEW_BUCKET_COUNT * BUCKET_SIZE && 0 <= d.nTried <= TRIED_BUCKET_COUNT * BUCKET_SIZE
  }

  /** The references are applied in order. */
  method PlaceReferences(h: Hashes, t0: Tables, restore: bool, es: seq<(int, int)>) returns (t: Tables)
    requires Loose(h, t0) && Dense(t0)
    requires forall e :: e in es ==>
      (restore ==> 0 <= e.0 < NEW_BUCKET_COUNT) && (e.1 in t0.infos ==> !t0.infos[e.1].inTried)
    ensures Loose(h, t) && Dense(t) && t == PlaceAll(h, t0, restore, es) && SameEntries(t0, t)
  {
    hide Loose, PlaceOne;
    t := t0;
    for n := 0 to |es|
      invariant Loose(h, t) && t == PlaceAll(h, t0, restore, es[..n]) && SameEntries(t0, t)
    {
      var e := es[n];
      assert e in es;
      if e.1 in t.infos { SameKind(t0, t, e.1); }
      PlaceOneLoose(h, t, restore, e);
      assert es[..n + 1][..n] == es[..n];
      t := PlaceOne(h, t, restore, e);
    }
    assert es[..|es|] == es;
  }

  /** Acceptance is decided by the key, the times and the addresses; what is accepted is consistent. */
  method Unserialize(h0: Hashes, asmap: int, d: Disk) returns (r: Loaded)
    requires WellFramed(d)
    ensures r.Corrupt? <==>
      (d.compat < INCOMPATIBILITY_BASE || (d.compat - INCOMPATIBILITY_BASE <= FILE_FORMAT && !InBounds(d)))
    ensures r.Unsupported? <==> d.compat - INCOMPATIBILITY_BASE > FILE_FORMAT
    ensures r.Restored? <==> Readable(d) && Acceptable(h0.(key := d.key), Rebuilt(h0.(key := d.key), asmap, d))
    ensures r.Inconsistent? ==> r.code != 0
    ensures r.Restored? ==>
      Consistent(h0.(key := d.key), r.t, {}, {}) && Pruned(Rebuilt(h0.(key := d.key), asmap, d), r.t)
    ensures r.Restored? ==> 0 <= r.idCount && forall id :: id in r.t.infos ==> 0 <= id < r.idCount
    ensures var t := Rebuilt(h0.(key := d.key), asmap, d);
      r.Restored? && (forall id :: id in t.infos ==> Referenced(t, id)) ==> r.t == t
  {
    hide AddrCheck.Checked, Loose, Shrunk, Acceptable;
    if d.compat < INCOMPATIBILITY_BASE { return Corrupt; }
    if d.compat - INCOMPATIBILITY_BASE > FILE_FORMAT { return Unsupported; }
    if d.nNew > NEW_BUCKET_COUNT * BUCKET_SIZE || d.nNew < 0 { return Corrupt; }
    if d.nTried > TRIED_BUCKET_COUNT * BUCKET_SIZE || d.nTried < 0 { return Corrupt; }
    var h := h0.(key := d.key);
    var loaded := LoadEntries(h, d);
    var es := CollectReferences(d.buckets, d.nNew);
    var placed := PlaceReferences(h, loaded, Restore(d, asmap), es);
    var t := Prune(h, placed);
    LooseInRange(h, t);
    Judged(h, placed, t);
    var code := AddrCheck.CheckAddrman(h, t);
    if code != 0 { return Inconsistent(code); }
    return Restored(t, |placed.random|);
  }

  /** The format is supported and the counts are within the sizes of the tables. */
  predicate Readable(d: Disk) {
    INCOMPATIBILITY_BASE <= d.compat <= INCOMPATIBILITY_BASE + FILE_FORMAT && InBounds(d)
  }
}
