/**
 The state of the address manager (addrman_impl.h) as a value, and the invariant its consistency
 check (`CheckAddrman`) tests.  Bucket functions are parameters reduced modulo the table sizes.
 */
module AddrTables {

  const TRIED_BUCKET_COUNT := 256
  const NEW_BUCKET_COUNT := 1024
  const BUCKET_SIZE := 64
  const NEW_BUCKETS_PER_ADDRESS := 8

  type Id = int
  type Network = int
  type NetAddr = int

  datatype Option<+T> = None | Some(value: T)

  /** An address and port, with what GetNetwork, GetNetClass, IsValid and IsRoutable find. */
  datatype Service = Service(host: NetAddr, port: int, network: Network, netClass: Network, valid: bool, routable: bool)

  datatype Info = Info(
    addr: Service, source: NetAddr, time: int, services: set<int>,
    lastTry: int, lastCountAttempt: int, lastSuccess: int, attempts: int,
    refCount: int, inTried: bool, randomPos: int)

  datatype Slot = Slot(bucket: int, pos: int)

  /** The keyed hashes behind GetTriedBucket, GetNewBucket and GetBucketPosition. */
  datatype Hashes = Hashes(key: int, triedHash: (int, Service) -> nat, newHash: (int, Service, NetAddr) -> nat,
                           posHash: (int, bool, int, Service) -> nat)
  {
    function TriedSlot(a: Service): Slot {
      var b := triedHash(key, a) % TRIED_BUCKET_COUNT;
      Slot(b, posHash(key, false, b, a) % BUCKET_SIZE)
    }

    function NewBucket(a: Service, source: NetAddr): int {
      newHash(key, a, source) % NEW_BUCKET_COUNT
    }

    function NewSlot(a: Service, bucket: int): Slot {
      Slot(bucket, posHash(key, true, bucket, a) % BUCKET_SIZE)
    }
  }

  datatype NewTried = NewTried(n_new: int, n_tried: int)

  /** mapInfo, mapAddr, vRandom, vvNew, vvTried (an absent slot holds -1), nNew, nTried and m_network_counts. */
  datatype Tables = Tables(
    infos: map<Id, Info>, addrs: map<Service, Id>, random: seq<Id>,
    vvNew: map<Slot, Id>, vvTried: map<Slot, Id>,
    nNew: int, nTried: int, counts: map<Network, NewTried>)

  // ---------- The invariant ----------

  /** mapAddr is the inverse of mapInfo. */
  ghost predicate AddrsOk(infos: map<Id, Info>, addrs: map<Service, Id>) {
    && (forall id :: id in infos ==> infos[id].addr in addrs && addrs[infos[id].addr] == id)
    && (forall a :: a in addrs ==> var id := addrs[a]; id in infos && infos[id].addr == a)
  }

  /** vRandom lists every id once, and each entry knows its place. */
  ghost predicate RandomOk(infos: map<Id, Info>, random: seq<Id>) {
    && (forall id :: id in infos ==> 0 <= infos[id].randomPos < |random| && random[infos[id].randomPos] == id)
    && (forall k :: 0 <= k < |random| ==> var id := random[k]; id in infos && infos[id].randomPos == k)
  }

  /** The tried table holds exactly the tried entries, each in the slot its address hashes to. */
  ghost predicate TriedOk(h: Hashes, infos: map<Id, Info>, vvTried: map<Slot, Id>) {
    && (forall s :: s in vvTried ==>
        var id := vvTried[s]; id in infos && infos[id].inTried && h.TriedSlot(infos[id].addr) == s)
    && (forall id :: id in infos && infos[id].inTried ==>
          var s := h.TriedSlot(infos[id].addr); s in vvTried && vvTried[s] == id)
  }

  /** The slots of the new table that hold `id`. */
  ghost function SlotsOf(vvNew: map<Slot, Id>, id: Id): set<Slot> {
    set s | s in vvNew && vvNew[s] == id
  }

  /** The new table holds new entries only, each where its address hashes to in that bucket. */
  ghost predicate NewOk(h: Hashes, infos: map<Id, Info>, vvNew: map<Slot, Id>) {
    forall s :: s in vvNew ==>
      var id := vvNew[s];
      id in infos && !infos[id].inTried && 0 <= s.bucket < NEW_BUCKET_COUNT && h.NewSlot(infos[id].addr, s.bucket) == s
  }

  /**
   nRefCount is the number of slots of the new table that hold the entry.  A settled entry has at least one;
   ids in `limbo` are being moved and counted nowhere, ids in `pending` are counted but not placed yet.
   */
  ghost predicate RefsOk(infos: map<Id, Info>, vvNew: map<Slot, Id>, limbo: set<Id>, pending: set<Id>) {
    forall id :: id in infos ==>
      && infos[id].refCount == |SlotsOf(vvNew, id)| <= NEW_BUCKETS_PER_ADDRESS
      && (id in limbo ==> !infos[id].inTried && infos[id].refCount == 0)
      && (infos[id].refCount == 0 ==> infos[id].inTried || id in limbo || id in pending)
  }

  ghost predicate TimesOk(infos: map<Id, Info>) {
    forall id :: id in infos ==>
      infos[id].lastTry >= 0 && infos[id].lastSuccess >= 0 && (infos[id].inTried ==> infos[id].lastSuccess > 0)
  }

  ghost predicate AllValid(infos: map<Id, Info>) {
    forall id :: id in infos ==> infos[id].addr.valid
  }

  /** The entries counted as tried or as new, in one network or (`None`) in all. */
  ghost function Group(infos: map<Id, Info>, limbo: set<Id>, tried: bool, net: Option<Network>): set<Id> {
    set id | id in infos && id !in limbo && infos[id].inTried == tried &&
        (net.None? || infos[id].addr.network == net.value)
  }

  function CountOf(nNew: int, nTried: int, counts: map<Network, NewTried>, tried: bool, net: Option<Network>): int {
    if net.None? then (if tried then nTried else nNew)
    else if net.value !in counts then 0
    else if tried then counts[net.value].n_tried else counts[net.value].n_new
  }

  ghost predicate CountExact(t: Tables, limbo: set<Id>, tried: bool, net: Option<Network>) {
    CountOf(t.nNew, t.nTried, t.counts, tried, net) == |Group(t.infos, limbo, tried, net)|
  }

  ghost predicate CountsOk(t: Tables, limbo: set<Id>) {
    forall tried: bool, net: Option<Network> :: CountExact(t, limbo, tried, net)
  }

  ghost predicate Consistent(h: Hashes, t: Tables, limbo: set<Id>, pending: set<Id>) {
    && AddrsOk(t.infos, t.addrs) && RandomOk(t.infos, t.random)
    && TriedOk(h, t.infos, t.vvTried) && NewOk(h, t.infos, t.vvNew)
    && RefsOk(t.infos, t.vvNew, limbo, pending)
    && TimesOk(t.infos) && AllValid(t.infos)
    && CountsOk(t, limbo)
  }

  // ---------- Counting ----------

  function Bump(counts: map<Network, NewTried>, net: Network, tried: bool, delta: int): map<Network, NewTried> {
    var c := if net in counts then counts[net] else NewTried(0, 0);
    counts[net := if tried then NewTried(c.n_new, c.n_tried + delta) else NewTried(c.n_new + delta, c.n_tried)]
  }

  /** `t'` counts `delta` more entries of the kind `tried` in network `net`. */
  ghost predicate Bumped(t: Tables, t': Tables, tried: bool, net: Network, delta: int) {
    && t'.nTried == t.nTried + (if tried then delta else 0)
    && t'.nNew == t.nNew + (if tried then 0 else delta)
    && t'.counts == Bump(t.counts, net, tried, delta)
  }

  /** Entry `id` apart, the same entries are counted in the same way. */
  ghost predicate CountedAlike(infos: map<Id, Info>, infos': map<Id, Info>, limbo: set<Id>, limbo': set<Id>, id: Id) {
    forall x :: x != id ==>
      && (x in infos && x !in limbo <==> x in infos' && x !in limbo')
      && (x in infos && x in infos' ==> infos'[x].inTried == infos[x].inTried && infos'[x].addr == infos[x].addr)
  }

  lemma GroupWithout(infos: map<Id, Info>, infos': map<Id, Info>, limbo: set<Id>, limbo': set<Id>, id: Id, tried: bool,
                     net: Option<Network>)
    requires CountedAlike(infos, infos', limbo, limbo', id)
    requires id in infos && id !in limbo && (id !in infos' || id in limbo')
    ensures Group(infos', limbo', tried, net) == Group(infos, limbo, tried, net) - {id}
    ensures |Group(infos', limbo', tried, net)| == |Group(infos, limbo, tried, net)|
              - if infos[id].inTried == tried && (net.None? || infos[id].addr.network == net.value) then 1 else 0
  {
    var g, g' := Group(infos, limbo, tried, net), Group(infos', limbo', tried, net);
    forall x ensures x in g' <==> x in g - {id} {}
    assert g' == g - {id};
  }

  lemma CountsDrop(t: Tables, t': Tables, limbo: set<Id>, limbo': set<Id>, id: Id, tried: bool)
    requires CountsOk(t, limbo) && CountedAlike(t.infos, t'.infos, limbo, limbo', id)
    requires id in t.infos && id !in limbo && t.infos[id].inTried == tried && (id !in t'.infos || id in limbo')
    requires Bumped(t, t', tried, t.infos[id].addr.network, -1)
    ensures CountsOk(t', limbo')
  {
    forall k: bool, net: Option<Network> ensures CountExact(t', limbo', k, net) {
      GroupWithout(t.infos, t'.infos, limbo, limbo', id, k, net);
      assert CountExact(t, limbo, k, net);
    }
  }

  lemma CountsGain(t: Tables, t': Tables, limbo: set<Id>, limbo': set<Id>, id: Id, tried: bool)
    requires CountsOk(t, limbo) && CountedAlike(t.infos, t'.infos, limbo, limbo', id)
    requires id in t'.infos && id !in limbo' && t'.infos[id].inTried == tried && (id !in t.infos || id in limbo)
    requires Bumped(t, t', tried, t'.infos[id].addr.network, 1)
    ensures CountsOk(t', limbo')
  {
    forall k: bool, net: Option<Network> ensures CountExact(t', limbo', k, net) {
      GroupWithout(t'.infos, t.infos, limbo', limbo, id, k, net);
      assert CountExact(t, limbo, k, net);
    }
  }

  lemma CountsKept(t: Tables, t': Tables, limbo: set<Id>)
    requires CountsOk(t, limbo) && t'.nNew == t.nNew && t'.nTried == t.nTried && t'.counts == t.counts
    requires forall x :: x in t'.infos <==> x in t.infos
    requires forall x :: x in t.infos ==>
      t'.infos[x].inTried == t.infos[x].inTried && t'.infos[x].addr == t.infos[x].addr
    ensures CountsOk(t', limbo)
  {
    forall k: bool, net: Option<Network> ensures CountExact(t', limbo, k, net) {
      var g, g' := Group(t.infos, limbo, k, net), Group(t'.infos, limbo, k, net);
      forall x ensures x in g' <==> x in g {}
      assert g' == g;
      assert CountExact(t, limbo, k, net);
    }
  }

  // ---------- References ----------

  lemma SlotsPut(vvNew: map<Slot, Id>, s: Slot, id: Id)
    requires s !in vvNew
    ensures SlotsOf(vvNew[s := id], id) == SlotsOf(vvNew, id) + {s}
    ensures |SlotsOf(vvNew[s := id], id)| == |SlotsOf(vvNew, id)| + 1
    ensures forall x :: x != id ==> SlotsOf(vvNew[s := id], x) == SlotsOf(vvNew, x)
  {
    assert SlotsOf(vvNew[s := id], id) == SlotsOf(vvNew, id) + {s};
  }

  lemma SlotsDrop(vvNew: map<Slot, Id>, s: Slot)
    requires s in vvNew
    ensures var id := vvNew[s];
      && SlotsOf(vvNew - {s}, id) == SlotsOf(vvNew, id) - {s}
      && |SlotsOf(vvNew - {s}, id)| == |SlotsOf(vvNew, id)| - 1
      && forall x :: x != id ==> SlotsOf(vvNew - {s}, x) == SlotsOf(vvNew, x)
  {
    assert SlotsOf(vvNew - {s}, vvNew[s]) == SlotsOf(vvNew, vvNew[s]) - {s};
    assert s in SlotsOf(vvNew, vvNew[s]);
  }

  // ---------- The elementary moves ----------

  function SetInfo(t: Tables, id: Id, info: Info): Tables {
    t.(infos := t.infos[id := info])
  }

  /** Times, services and statistics of an entry change; its place does not. */
  predicate SamePlace(a: Info, b: Info) {
    a.addr == b.addr && a.refCount == b.refCount && a.inTried == b.inTried && a.randomPos == b.randomPos
  }

  /** Nothing changes but vRandom, the positions in it, and the statistics of entries. */
  ghost predicate Alike(t: Tables, t': Tables) {
    && (forall x :: x in t'.infos <==> x in t.infos)
    && t'.addrs == t.addrs && t'.vvNew == t.vvNew && t'.vvTried == t.vvTried
    && t'.nNew == t.nNew && t'.nTried == t.nTried && t'.counts == t.counts
    && (forall x :: x in t.infos ==>
          t'.infos[x].addr == t.infos[x].addr && t'.infos[x].inTried == t.infos[x].inTried &&
              t'.infos[x].refCount == t.infos[x].refCount)
  }

  lemma AlikeKeeps(h: Hashes, t: Tables, t': Tables, limbo: set<Id>, pending: set<Id>)
    requires Consistent(h, t, limbo, pending) && Alike(t, t') && TimesOk(t'.infos) && RandomOk(t'.infos, t'.random)
    ensures Consistent(h, t', limbo, pending)
  {
    hide RandomOk, TimesOk, SlotsOf;
    assert CountsOk(t', limbo) by { CountsKept(t, t', limbo); }
    hide CountsOk;
    assert AddrsOk(t'.infos, t'.addrs) by { hide TriedOk, NewOk, RefsOk, AllValid; }
    assert TriedOk(h, t'.infos, t'.vvTried) by { hide AddrsOk, NewOk, RefsOk, AllValid; }
    hide AddrsOk, TriedOk;
  }

  lemma TouchKeeps(h: Hashes, t: Tables, id: Id, info: Info, limbo: set<Id>, pending: set<Id>)
    requires Consistent(h, t, limbo, pending) && id in t.infos && SamePlace(info, t.infos[id])
    requires info.lastTry >= 0 && info.lastSuccess >= 0 && (info.inTried ==> info.lastSuccess > 0)
    ensures Consistent(h, SetInfo(t, id, info), limbo, pending)
  {
    hide AddrsOk, TriedOk, NewOk, RefsOk, CountsOk, AllValid;
    AlikeKeeps(h, t, SetInfo(t, id, info), limbo, pending);
  }

  function Swap(t: Tables, p: int, q: int): Tables
    requires 0 <= p < |t.random| && 0 <= q < |t.random|
    requires t.random[p] in t.infos && t.random[q] in t.infos
  {
    if p == q then t
    else
      var a, b := t.random[p], t.random[q];
      t.(infos := t.infos[a := t.infos[a].(randomPos := q)][b := t.infos[b].(randomPos := p)],
         random := t.random[p := b][q := a])
  }

  lemma SwapKeeps(h: Hashes, t: Tables, p: int, q: int, limbo: set<Id>, pending: set<Id>)
    requires Consistent(h, t, limbo, pending) && 0 <= p < |t.random| && 0 <= q < |t.random|
    ensures Consistent(h, Swap(t, p, q), limbo, pending)
  {
    hide AddrsOk, TriedOk, NewOk, RefsOk, CountsOk, AllValid;
    if p != q { AlikeKeeps(h, t, Swap(t, p, q), limbo, pending); }
  }

  // ---------- One entry changes: what each part of the invariant needs ----------

  lemma AddrsUpdate(infos: map<Id, Info>, addrs: map<Service, Id>, id: Id, info: Info)
    requires AddrsOk(infos, addrs) && id in infos && info.addr == infos[id].addr
    ensures AddrsOk(infos[id := info], addrs)
  {}

  lemma AddrsAdd(infos: map<Id, Info>, addrs: map<Service, Id>, id: Id, info: Info)
    requires AddrsOk(infos, addrs) && id !in infos && info.addr !in addrs
    ensures AddrsOk(infos[id := info], addrs[info.addr := id])
  {}

  lemma AddrsDrop(infos: map<Id, Info>, addrs: map<Service, Id>, id: Id)
    requires AddrsOk(infos, addrs) && id in infos
    ensures AddrsOk(infos - {id}, addrs - {infos[id].addr})
  {}

  lemma RandomUpdate(infos: map<Id, Info>, random: seq<Id>, id: Id, info: Info)
    requires RandomOk(infos, random) && id in infos && info.randomPos == infos[id].randomPos
    ensures RandomOk(infos[id := info], random)
  {}

  lemma RandomPush(infos: map<Id, Info>, random: seq<Id>, id: Id, info: Info)
    requires RandomOk(infos, random) && id !in infos && info.randomPos == |random|
    ensures RandomOk(infos[id := info], random + [id])
  {}

  lemma RandomPop(infos: map<Id, Info>, random: seq<Id>, id: Id)
    requires RandomOk(infos, random) && id in infos && infos[id].randomPos == |random| - 1
    ensures RandomOk(infos - {id}, random[..|random| - 1])
  {}

  lemma TriedUpdate(h: Hashes, infos: map<Id, Info>, vvTried: map<Slot, Id>, id: Id, info: Info)
    requires TriedOk(h, infos, vvTried)
    requires if id in infos then info.addr == infos[id].addr && info.inTried == infos[id].inTried else !info.inTried
    ensures TriedOk(h, infos[id := info], vvTried)
  {}

  lemma TriedDrop(h: Hashes, infos: map<Id, Info>, vvTried: map<Slot, Id>, id: Id)
    requires TriedOk(h, infos, vvTried) && id in infos && !infos[id].inTried
    ensures TriedOk(h, infos - {id}, vvTried)
  {}

  lemma NewUpdate(h: Hashes, infos: map<Id, Info>, vvNew: map<Slot, Id>, id: Id, info: Info)
    requires NewOk(h, infos, vvNew)
    requires id in infos ==> info.addr == infos[id].addr && info.inTried == infos[id].inTried
    ensures NewOk(h, infos[id := info], vvNew)
  {}

  /** An entry without slots may go, or become tried. */
  lemma NewUnused(h: Hashes, infos: map<Id, Info>, vvNew: map<Slot, Id>, id: Id, info: Info)
    requires NewOk(h, infos, vvNew) && SlotsOf(vvNew, id) == {}
    ensures NewOk(h, infos - {id}, vvNew) && NewOk(h, infos[id := info], vvNew)
  {
    assert forall s :: s in vvNew && vvNew[s] == id ==> s in SlotsOf(vvNew, id);
  }

  lemma NoSlots(h: Hashes, infos: map<Id, Info>, vvNew: map<Slot, Id>, id: Id)
    requires NewOk(h, infos, vvNew) && (id !in infos || infos[id].inTried)
    ensures SlotsOf(vvNew, id) == {}
  {}

  // ---------- Creating and deleting entries ----------

  /** A new entry, counted as new but not yet in any bucket. */
  function Create(t: Tables, id: Id, addr: Service, source: NetAddr, time: int, services: set<int>): Tables {
    t.(infos := t.infos[id := Info(addr, source, time, services, 0, 0, 0, 0, 0, false, |t.random|)],
       addrs := t.addrs[addr := id], random := t.random + [id],
       nNew := t.nNew + 1, counts := Bump(t.counts, addr.network, false, 1))
  }

  lemma CreateKeeps(h: Hashes, t: Tables, id: Id, addr: Service, source: NetAddr, time: int, services: set<int>,
                    limbo: set<Id>, pending: set<Id>)
    requires Consistent(h, t, limbo, pending) && id !in t.infos && addr !in t.addrs && id !in limbo
    requires addr.valid
    ensures Consistent(h, Create(t, id, addr, source, time, services), limbo, pending + {id})
  {
    hide AddrsOk, RandomOk, TriedOk, NewOk, CountsOk, SlotsOf;
    var t' := Create(t, id, addr, source, time, services);
    var info := t'.infos[id];
    NoSlots(h, t.infos, t.vvNew, id);
    CountsGain(t, t', limbo, limbo, id, false);
    AddrsAdd(t.infos, t.addrs, id, info);
    RandomPush(t.infos, t.random, id, info);
    TriedUpdate(h, t.infos, t.vvTried, id, info);
    NewUpdate(h, t.infos, t.vvNew, id, info);
  }

  /** Forget the entry at the end of vRandom. */
  function DeleteLast(t: Tables, id: Id): Tables
    requires id in t.infos && t.random != []
  {
    t.(infos := t.infos - {id}, addrs := t.addrs - {t.infos[id].addr}, random := t.random[..|t.random| - 1],
       nNew := t.nNew - 1, counts := Bump(t.counts, t.infos[id].addr.network, false, -1))
  }

  /** Forget a new entry that is in no bucket: swap it to the end of vRandom and pop it. */
  function Delete(t: Tables, id: Id): Tables
    requires RandomOk(t.infos, t.random) && id in t.infos
  {
    DeleteLast(Swap(t, t.infos[id].randomPos, |t.random| - 1), id)
  }

  lemma DeleteLastKeeps(h: Hashes, t: Tables, id: Id, limbo: set<Id>, pending: set<Id>)
    requires Consistent(h, t, limbo, pending) && id in t.infos && id !in limbo
    requires !t.infos[id].inTried && t.infos[id].refCount == 0
    requires t.random != [] && t.infos[id].randomPos == |t.random| - 1
    ensures Consistent(h, DeleteLast(t, id), limbo, pending - {id})
  {
    hide AddrsOk, RandomOk, TriedOk, NewOk, CountsOk, SlotsOf;
    CountsDrop(t, DeleteLast(t, id), limbo, limbo, id, false);
    AddrsDrop(t.infos, t.addrs, id);
    RandomPop(t.infos, t.random, id);
    TriedDrop(h, t.infos, t.vvTried, id);
    NewUnused(h, t.infos, t.vvNew, id, t.infos[id]);
  }

  lemma DeleteKeeps(h: Hashes, t: Tables, id: Id, limbo: set<Id>, pending: set<Id>)
    requires Consistent(h, t, limbo, pending) && id in t.infos && id !in limbo
    requires !t.infos[id].inTried && t.infos[id].refCount == 0
    ensures Consistent(h, Delete(t, id), limbo, pending - {id})
  {
    hide AddrsOk, TriedOk, NewOk, RefsOk, CountsOk, TimesOk, AllValid;
    SwapKeeps(h, t, t.infos[id].randomPos, |t.random| - 1, limbo, pending);
    DeleteLastKeeps(h, Swap(t, t.infos[id].randomPos, |t.random| - 1), id, limbo, pending);
  }

  // ---------- References from the new table ----------

  /** Take one reference away. */
  function Unplace(t: Tables, s: Slot): Tables
    requires s in t.vvNew && t.vvNew[s] in t.infos
  {
    var id := t.vvNew[s];
    t.(vvNew := t.vvNew - {s}, infos := t.infos[id := t.infos[id].(refCount := t.infos[id].refCount - 1)])
  }

  lemma NewHolds(h: Hashes, infos: map<Id, Info>, vvNew: map<Slot, Id>, s: Slot)
    requires NewOk(h, infos, vvNew) && s in vvNew
    ensures NewOk(h, infos, vvNew - {s})
    ensures vvNew[s] in infos && !infos[vvNew[s]].inTried && h.NewSlot(infos[vvNew[s]].addr, s.bucket) == s
    ensures 0 <= s.bucket < NEW_BUCKET_COUNT && s in SlotsOf(vvNew, vvNew[s])
  {}

  lemma UnplaceKeeps(h: Hashes, t: Tables, s: Slot, limbo: set<Id>, pending: set<Id>)
    requires Consistent(h, t, limbo, pending) && s in t.vvNew
    ensures t.vvNew[s] in t.infos && t.infos[t.vvNew[s]].refCount > 0
    ensures Consistent(h, Unplace(t, s), limbo, pending + {t.vvNew[s]})
  {
    hide AddrsOk, RandomOk, TriedOk, NewOk, CountsOk, SlotsOf;
    var id := t.vvNew[s];
    NewHolds(h, t.infos, t.vvNew, s);
    SlotsDrop(t.vvNew, s);
    var info := t.infos[id].(refCount := t.infos[id].refCount - 1);
    CountsKept(t, Unplace(t, s), limbo);
    AddrsUpdate(t.infos, t.addrs, id, info);
    RandomUpdate(t.infos, t.random, id, info);
    TriedUpdate(h, t.infos, t.vvTried, id, info);
    NewUpdate(h, t.infos, t.vvNew - {s}, id, info);
  }

  /** Add a reference in an empty slot. */
  function Place(t: Tables, s: Slot, id: Id): Tables
    requires id in t.infos
  {
    t.(vvNew := t.vvNew[s := id], infos := t.infos[id := t.infos[id].(refCount := t.infos[id].refCount + 1)])
  }

  lemma NewPut(h: Hashes, infos: map<Id, Info>, vvNew: map<Slot, Id>, s: Slot, id: Id)
    requires NewOk(h, infos, vvNew) && id in infos && !infos[id].inTried
    requires 0 <= s.bucket < NEW_BUCKET_COUNT && s == h.NewSlot(infos[id].addr, s.bucket)
    ensures NewOk(h, infos, vvNew[s := id])
  {}

  lemma PlaceKeeps(h: Hashes, t: Tables, s: Slot, id: Id, limbo: set<Id>, pending: set<Id>)
    requires Consistent(h, t, limbo, pending) && s !in t.vvNew && id in t.infos && !t.infos[id].inTried && id !in limbo
    requires 0 <= s.bucket < NEW_BUCKET_COUNT && s == h.NewSlot(t.infos[id].addr, s.bucket)
    requires t.infos[id].refCount < NEW_BUCKETS_PER_ADDRESS
    ensures Consistent(h, Place(t, s, id), limbo, pending - {id})
  {
    hide AddrsOk, RandomOk, TriedOk, NewOk, CountsOk, SlotsOf;
    SlotsPut(t.vvNew, s, id);
    var info := t.infos[id].(refCount := t.infos[id].refCount + 1);
    CountsKept(t, Place(t, s, id), limbo);
    AddrsUpdate(t.infos, t.addrs, id, info);
    RandomUpdate(t.infos, t.random, id, info);
    TriedUpdate(h, t.infos, t.vvTried, id, info);
    NewPut(h, t.infos, t.vvNew, s, id);
    NewUpdate(h, t.infos, t.vvNew[s := id], id, info);
  }

  // ---------- Between the new and the tried table ----------

  /** Stop counting an entry without references as new. */
  function Shelve(t: Tables, id: Id): Tables
    requires id in t.infos
  {
    t.(nNew := t.nNew - 1, counts := Bump(t.counts, t.infos[id].addr.network, false, -1))
  }

  lemma ShelveKeeps(h: Hashes, t: Tables, id: Id, limbo: set<Id>, pending: set<Id>)
    requires Consistent(h, t, limbo, pending) && id in t.infos && id !in limbo
    requires !t.infos[id].inTried && t.infos[id].refCount == 0
    ensures Consistent(h, Shelve(t, id), limbo + {id}, pending)
  {
    hide AddrsOk, RandomOk, TriedOk, NewOk, CountsOk, SlotsOf;
    CountsDrop(t, Shelve(t, id), limbo, limbo + {id}, id, false);
  }

  /** Count it as new again. */
  function Unshelve(t: Tables, id: Id): Tables
    requires id in t.infos
  {
    t.(nNew := t.nNew + 1, counts := Bump(t.counts, t.infos[id].addr.network, false, 1))
  }

  lemma UnshelveKeeps(h: Hashes, t: Tables, id: Id, limbo: set<Id>, pending: set<Id>)
    requires Consistent(h, t, limbo, pending) && id in t.infos && id in limbo
    ensures Consistent(h, Unshelve(t, id), limbo - {id}, pending + {id})
  {
    hide AddrsOk, RandomOk, TriedOk, NewOk, CountsOk, SlotsOf;
    CountsGain(t, Unshelve(t, id), limbo, limbo - {id}, id, false);
  }

  /** Take a tried entry out of its slot. */
  function Evict(t: Tables, s: Slot): Tables
    requires s in t.vvTried && t.vvTried[s] in t.infos
  {
    var id := t.vvTried[s];
    t.(vvTried := t.vvTried - {s}, infos := t.infos[id := t.infos[id].(inTried := false)],
       nTried := t.nTried - 1, counts := Bump(t.counts, t.infos[id].addr.network, true, -1))
  }

  lemma TriedHolds(h: Hashes, infos: map<Id, Info>, vvTried: map<Slot, Id>, s: Slot)
    requires TriedOk(h, infos, vvTried) && s in vvTried
    ensures vvTried[s] in infos && infos[vvTried[s]].inTried && h.TriedSlot(infos[vvTried[s]].addr) == s
    ensures TriedOk(h, infos[vvTried[s] := infos[vvTried[s]].(inTried := false)], vvTried - {s})
  {}

  lemma EvictKeeps(h: Hashes, t: Tables, s: Slot, limbo: set<Id>, pending: set<Id>)
    requires Consistent(h, t, limbo, pending) && s in t.vvTried
    ensures t.vvTried[s] in t.infos && t.vvTried[s] !in limbo && t.infos[t.vvTried[s]].inTried
    ensures Consistent(h, Evict(t, s), limbo + {t.vvTried[s]}, pending)
  {
    hide AddrsOk, RandomOk, TriedOk, NewOk, CountsOk, SlotsOf;
    var id := t.vvTried[s];
    TriedHolds(h, t.infos, t.vvTried, s);
    var info := t.infos[id].(inTried := false);
    NoSlots(h, t.infos, t.vvNew, id);
    CountsDrop(t, Evict(t, s), limbo, limbo + {id}, id, true);
    AddrsUpdate(t.infos, t.addrs, id, info);
    RandomUpdate(t.infos, t.random, id, info);
    NewUnused(h, t.infos, t.vvNew, id, info);
  }

  /** Put an entry that is counted nowhere into its free tried slot. */
  function Promote(t: Tables, s: Slot, id: Id): Tables
    requires id in t.infos
  {
    t.(vvTried := t.vvTried[s := id], infos := t.infos[id := t.infos[id].(inTried := true)],
       nTried := t.nTried + 1, counts := Bump(t.counts, t.infos[id].addr.network, true, 1))
  }

  lemma TriedPut(h: Hashes, infos: map<Id, Info>, vvTried: map<Slot, Id>, id: Id)
    requires TriedOk(h, infos, vvTried) && id in infos && !infos[id].inTried && h.TriedSlot(infos[id].addr) !in vvTried
    ensures TriedOk(h, infos[id := infos[id].(inTried := true)], vvTried[h.TriedSlot(infos[id].addr) := id])
  {}

  lemma PromoteKeeps(h: Hashes, t: Tables, id: Id, limbo: set<Id>, pending: set<Id>)
    requires Consistent(h, t, limbo, pending) && id in t.infos && id in limbo && t.infos[id].lastSuccess > 0
    requires h.TriedSlot(t.infos[id].addr) !in t.vvTried
    ensures Consistent(h, Promote(t, h.TriedSlot(t.infos[id].addr), id), limbo - {id}, pending)
  {
    hide AddrsOk, RandomOk, TriedOk, NewOk, CountsOk, SlotsOf;
    var info := t.infos[id].(inTried := true);
    NewUnused(h, t.infos, t.vvNew, id, info);
    CountsGain(t, Promote(t, h.TriedSlot(t.infos[id].addr), id), limbo, limbo - {id}, id, true);
    AddrsUpdate(t.infos, t.addrs, id, info);
    RandomUpdate(t.infos, t.random, id, info);
    TriedPut(h, t.infos, t.vvTried, id);
  }

  lemma InfoFacts(h: Hashes, t: Tables, id: Id)
    requires Consistent(h, t, {}, {}) && id in t.infos
    ensures t.infos[id].addr in t.addrs && t.addrs[t.infos[id].addr] == id
    ensures 0 <= t.infos[id].refCount <= NEW_BUCKETS_PER_ADDRESS
    ensures t.infos[id].lastTry >= 0 && t.infos[id].lastSuccess >= 0
    ensures (t.infos[id].inTried ==> t.infos[id].lastSuccess > 0)
    ensures !t.infos[id].inTried ==> t.infos[id].refCount > 0
    ensures t.infos[id].addr.valid
  {
    hide RandomOk, TriedOk, NewOk, CountsOk, SlotsOf;
  }

  lemma PendingMore(h: Hashes, t: Tables, limbo: set<Id>, pending: set<Id>, more: set<Id>)
    requires Consistent(h, t, limbo, pending) && pending <= more
    ensures Consistent(h, t, limbo, more)
  {
    hide AddrsOk, RandomOk, TriedOk, NewOk, CountsOk, SlotsOf;
  }
}
