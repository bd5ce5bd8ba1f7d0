/**
 The address manager (addrman.cpp).  Every public operation keeps the consistency invariant, so the
 assertions inside MakeTried, ClearNew and Delete never fail and CheckAddrman never reports an error.
 Random numbers and clock readings are parameters.
 */
module AddrMan {
  import opened AddrTables
  import T = AddrTables
  import AddrCheck

  const HORIZON := 30 * 24 * 3600
  const RETRIES := 3
  const MAX_FAILURES := 10
  const MIN_FAIL := 7 * 24 * 3600
  const REPLACEMENT := 4 * 3600
  const SET_TRIED_COLLISION_SIZE := 10
  const TEST_WINDOW := 40 * 60

  predicate IsTerrible(i: Info, now: int) {
    if now - i.lastTry <= 60 then false
    else if i.time > now + 600 then true
    else if now - i.time > HORIZON then true
    else if i.lastSuccess == 0 && i.attempts >= RETRIES then true
    else now - i.lastSuccess > MIN_FAIL && i.attempts >= MAX_FAILURES
  }

  function Max(a: int, b: int): int { if a < b then b else a }

  /** Only the entry of `addr`, if there is one, changes, and it changes by `f`. */
  ghost predicate Edited(m: map<Id, Info>, m': map<Id, Info>, ids: map<Service, Id>, addr: Service, f: Info -> Info) {
    m'.Keys == m.Keys && forall id :: id in m ==> m'[id] == if addr in ids && ids[addr] == id then f(m[id]) else m[id]
  }

  /** An attempt counts as a failure only once since the last time we were online. */
  function Attempted(i: Info, countFailure: bool, time: int, lastGood: int): Info {
    if countFailure && i.lastCountAttempt < lastGood
    then i.(lastTry := time, lastCountAttempt := time, attempts := i.attempts + 1)
    else i.(lastTry := time)
  }

  /** News of a known address: a much later time is taken over, less the penalty, and the services are added. */
  function Refreshed(i: Info, time: int, services: set<int>, penalty: int, now: int): Info {
    var interval := if now - time < 24 * 3600 then 3600 else 24 * 3600;
    i.(time := if i.time < time - interval - penalty then Max(0, time - penalty) else i.time,
       services := i.services + services)
  }

  /** Fresh news may gain a new entry another reference, each one half as likely as the one before. */
  predicate MayGain(i: Info, time: int, roll: nat) {
    time > i.time && !i.inTried && i.refCount < NEW_BUCKETS_PER_ADDRESS &&
        (i.refCount == 0 || roll % Pow2(i.refCount) == 0)
  }

  /** An entry gives up its slot if it is terrible, or if it has other references and the newcomer has none. */
  ghost predicate Yields(m: map<Id, Info>, x: Id, newcomer: Info, now: int) {
    x in m && (IsTerrible(m[x], now) || (m[x].refCount > 1 && newcomer.refCount == 0))
  }

  datatype Fate = Forget | Replace | Wait

  /** Keep an occupant that was reached lately, replace one that failed or could not be tested in time, else wait. */
  function Verdict(waiting: Info, occupant: Info, now: int): Fate {
    if now - occupant.lastSuccess < REPLACEMENT then Forget
    else if now - occupant.lastTry < REPLACEMENT then (if now - occupant.lastTry > 60 then Replace else Wait)
    else if now - waiting.lastSuccess > TEST_WINDOW then Replace
    else Wait
  }

  /** Ids are handed out in order, and every live entry waiting for a tried slot finds that slot taken. */
  ghost predicate IdsOk(h: Hashes, infos: map<Id, Info>, tried: map<Slot, Id>, idCount: int, waiting: set<Id>) {
    && 0 <= idCount && (forall id :: id in infos ==> 0 <= id < idCount)
    && (forall id :: id in waiting ==> id < idCount)
    && (forall id :: id in waiting && id in infos ==> h.TriedSlot(infos[id].addr) in tried)
  }

  /** Entries may go, new ones get unused ids, and no occupied tried slot is ever vacated. */
  ghost predicate Evolved(infos: map<Id, Info>, tried: map<Slot, Id>, idCount: int,
                          infos': map<Id, Info>, tried': map<Slot, Id>, idCount': int) {
    && idCount <= idCount'
    && (forall id :: id in infos' ==> if id in infos then infos'[id].addr == infos[id].addr else idCount <= id)
    && (forall s :: s in tried ==> s in tried')
  }

  /** Where entries only go, and tried slots only fill, ids stay in order. */
  lemma IdsShrink(h: Hashes, infos: map<Id, Info>, tried: map<Slot, Id>, infos': map<Id, Info>, tried': map<Slot, Id>,
                  idCount: int, waiting: set<Id>)
    requires IdsOk(h, infos, tried, idCount, waiting)
    requires forall id :: id in infos' ==> id in infos && infos'[id].addr == infos[id].addr
    requires forall s :: s in tried ==> s in tried'
    ensures IdsOk(h, infos', tried', idCount, waiting) && Evolved(infos, tried, idCount, infos', tried', idCount)
  {}

  lemma IdsGrow(h: Hashes, infos: map<Id, Info>, tried: map<Slot, Id>, infos': map<Id, Info>, idCount: int,
                waiting: set<Id>)
    requires IdsOk(h, infos, tried, idCount, waiting)
    requires forall id :: id in infos' ==> id == idCount || (id in infos && infos'[id].addr == infos[id].addr)
    ensures IdsOk(h, infos', tried, idCount + 1, waiting) && Evolved(infos, tried, idCount, infos', tried, idCount + 1)
  {}

  lemma IdsWait(h: Hashes, infos: map<Id, Info>, tried: map<Slot, Id>, idCount: int, waiting: set<Id>, id: Id)
    requires IdsOk(h, infos, tried, idCount, waiting) && id in infos && h.TriedSlot(infos[id].addr) in tried
    ensures IdsOk(h, infos, tried, idCount, waiting + {id})
  {}

  lemma NextIdUnused(h: Hashes, infos: map<Id, Info>, tried: map<Slot, Id>, idCount: int, waiting: set<Id>)
    requires IdsOk(h, infos, tried, idCount, waiting)
    ensures idCount !in infos
  {}

  lemma EvolvedTwice(h: Hashes, waiting: set<Id>, infos: map<Id, Info>, tried: map<Slot, Id>, idCount: int,
                     infos': map<Id, Info>, tried': map<Slot, Id>, idCount': int,
                     infos'': map<Id, Info>, tried'': map<Slot, Id>, idCount'': int)
    requires IdsOk(h, infos, tried, idCount, waiting)
    requires Evolved(infos, tried, idCount, infos', tried', idCount')
    requires Evolved(infos', tried', idCount', infos'', tried'', idCount'')
    ensures Evolved(infos, tried, idCount, infos'', tried'', idCount'')
  {}

  class AddrMan {
    const h: Hashes
    var mapInfo: map<Id, Info>
    var mapAddr: map<Service, Id>
    var vRandom: seq<Id>
    var vvNew: map<Slot, Id>
    var vvTried: map<Slot, Id>
    var nNew: int
    var nTried: int
    var networkCounts: map<Network, NewTried>
    var idCount: int
    var lastGood: int
    var triedCollisions: set<Id>

    function Tab(): Tables
      reads this
    {
      Tables(mapInfo, mapAddr, vRandom, vvNew, vvTried, nNew, nTried, networkCounts)
    }

    ghost predicate Valid()
      reads this
    {
      h.key != 0 && Consistent(h, Tab(), {}, {}) && IdsOk(h, mapInfo, vvTried, idCount, triedCollisions)
    }

    twostate predicate Evolves()
      reads this
    {
      Evolved(old(mapInfo), old(vvTried), old(idCount), mapInfo, vvTried, idCount)
    }

    constructor (h: Hashes)
      requires h.key != 0
      ensures Valid() && mapInfo == map[] && idCount == 0
    {
      this.h := h;
      mapInfo, mapAddr, vRandom, vvNew, vvTried := map[], map[], [], map[], map[];
      nNew, nTried, networkCounts := 0, 0, map[];
      idCount, lastGood, triedCollisions := 0, 1, {};
      new;
      EmptyConsistent(h);
    }

    /** The state that loading leaves: the given tables, nothing waiting for a tried slot. */
    constructor Loaded(h: Hashes, t: Tables, idCount: int)
      requires h.key != 0 && Consistent(h, t, {}, {}) && 0 <= idCount
      requires forall id :: id in t.infos ==> 0 <= id < idCount
      ensures Valid() && this.h == h && Tab() == t && this.idCount == idCount && triedCollisions == {}
    {
      this.h := h;
      mapInfo, mapAddr, vRandom, vvNew, vvTried := t.infos, t.addrs, t.random, t.vvNew, t.vvTried;
      nNew, nTried, networkCounts := t.nNew, t.nTried, t.counts;
      this.idCount, lastGood, triedCollisions := idCount, 1, {};
      new;
      hide Consistent;
    }

    // ---------- Elementary operations ----------

    method SwapRandom(p: int, q: int)
      requires RandomOk(mapInfo, vRandom) && 0 <= p < |vRandom| && 0 <= q < |vRandom|
      modifies `mapInfo, `vRandom
      ensures Tab() == Swap(old(Tab()), p, q)
    {
      if p == q { return; }
      var a, b := vRandom[p], vRandom[q];
      mapInfo := mapInfo[a := mapInfo[a].(randomPos := q)];
      mapInfo := mapInfo[b := mapInfo[b].(randomPos := p)];
      vRandom := vRandom[p := b];
      vRandom := vRandom[q := a];
    }

    method Bump(net: Network, tried: bool, delta: int)
      modifies `networkCounts
      ensures networkCounts == T.Bump(old(networkCounts), net, tried, delta)
    {
      var c := if net in networkCounts then networkCounts[net] else NewTried(0, 0);
      c := if tried then NewTried(c.n_new, c.n_tried + delta) else NewTried(c.n_new + delta, c.n_tried);
      networkCounts := networkCounts[net := c];
    }

    method Delete(id: Id)
      requires RandomOk(mapInfo, vRandom) && id in mapInfo
      modifies `mapInfo, `mapAddr, `vRandom, `nNew, `networkCounts
      ensures Tab() == T.Delete(old(Tab()), id)
    {
      hide T.Bump;
      var info := mapInfo[id];
      SwapRandom(info.randomPos, |vRandom| - 1);
      Bump(info.addr.network, false, -1);
      vRandom := vRandom[..|vRandom| - 1];
      mapAddr := mapAddr - {info.addr};
      mapInfo := mapInfo - {id};
      nNew := nNew - 1;
    }

    method Create(addr: Service, source: NetAddr, time: int, services: set<int>) returns (id: Id)
      modifies this
      ensures id == old(idCount) && idCount == old(idCount) + 1
      ensures Tab() == T.Create(old(Tab()), id, addr, source, time, services)
      ensures lastGood == old(lastGood) && triedCollisions == old(triedCollisions)
    {
      hide T.Bump;
      id := idCount;
      idCount := idCount + 1;
      mapInfo := mapInfo[id := Info(addr, source, time, services, 0, 0, 0, 0, 0, false, |vRandom|)];
      mapAddr := mapAddr[addr := id];
      vRandom := vRandom + [id];
      nNew := nNew + 1;
      Bump(addr.network, false, 1);
    }

    /** Empty a slot of the new table, deleting the entry there if this was its last reference. */
    method ClearNew(s: Slot, ghost limbo: set<Id>, ghost pending: set<Id>)
      requires Consistent(h, Tab(), limbo, pending) && (s in vvNew ==> vvNew[s] !in pending)
      modifies `mapInfo, `mapAddr, `vRandom, `vvNew, `nNew, `networkCounts
      ensures Consistent(h, Tab(), limbo, pending) && vvNew == old(vvNew) - {s}
      ensures InfosKept(old(mapInfo), mapInfo, if s in old(vvNew) then Some(old(vvNew)[s]) else None)
      ensures s in old(vvNew) ==> old(vvNew)[s] !in limbo
    {
      hide Consistent, T.Delete;
      if s in vvNew {
        ghost var t := Tab();
        var id := vvNew[s];
        UnplaceKeeps(h, t, s, limbo, pending);
        Referenced(h, t, limbo, pending, id);
        ConsistentParts(h, Unplace(t, s), limbo, pending + {id});
        assert mapInfo[id].refCount > 0;
        mapInfo := mapInfo[id := mapInfo[id].(refCount := mapInfo[id].refCount - 1)];
        vvNew := vvNew - {s};
        if mapInfo[id].refCount == 0 {
          ClearedLast(h, t, s, limbo, pending);
          Delete(id);
        } else {
          SettledKeeps(h, Unplace(t, s), id, limbo, pending);
        }
      }
    }

    /**
     The first loop of MakeTried: walk the ring of new buckets from the entry's own bucket and stop as soon as
     the reference count is zero.  The early stop never leaves a reference behind, and a full turn always gets to zero.
     */
    method ClearReferences(id: Id)
      requires Consistent(h, Tab(), {}, {}) && id in mapInfo
      modifies `mapInfo, `vvNew
      ensures Consistent(h, Tab(), {}, {id})
      ensures mapInfo == old(mapInfo)[id := old(mapInfo)[id].(refCount := 0)]
    {
      hide Consistent;
      var addr := mapInfo[id].addr;
      var start := h.NewBucket(addr, mapInfo[id].source);
      PendingWeaker(h, Tab(), {}, id);
      var n := 0;
      while n < NEW_BUCKET_COUNT
        invariant 0 <= n <= NEW_BUCKET_COUNT && Consistent(h, Tab(), {}, {id})
        invariant id in mapInfo && mapInfo == old(mapInfo)[id := old(mapInfo)[id].(refCount := mapInfo[id].refCount)]
        invariant forall k :: 0 <= k < n ==> Vacated(h, vvNew, addr, id, start, k)
      {
        var bucket := (start + n) % NEW_BUCKET_COUNT;
        var s := h.NewSlot(addr, bucket);
        if s in vvNew && vvNew[s] == id {
          UnplaceKeeps(h, Tab(), s, {}, {id});
          assert {id} + {id} == {id};
          ghost var was := vvNew;
          vvNew := vvNew - {s};
          forall k | 0 <= k < n ensures Vacated(h, vvNew, addr, id, start, k) {
            assert Vacated(h, was, addr, id, start, k);
          }
          mapInfo := mapInfo[id := mapInfo[id].(refCount := mapInfo[id].refCount - 1)];
          if mapInfo[id].refCount == 0 { break; }
        }
        n := n + 1;
      }
      if n == NEW_BUCKET_COUNT { RingCovered(h, Tab(), id, start); }
    }

    /** Move the tried entry in slot `s` back to the new table, into its own bucket, whatever is there. */
    method MoveToNew(s: Slot, ghost id: Id)
      requires Consistent(h, Tab(), {id}, {}) && s in vvTried && id in mapInfo
      modifies `mapInfo, `mapAddr, `vRandom, `vvNew, `vvTried, `nNew, `nTried, `networkCounts
      ensures Consistent(h, Tab(), {id}, {}) && vvTried == old(vvTried) - {s}
      ensures forall x :: x in mapInfo ==> x in old(mapInfo) && mapInfo[x].addr == old(mapInfo)[x].addr
      ensures id in mapInfo && mapInfo[id] == old(mapInfo)[id].(randomPos := mapInfo[id].randomPos)
      ensures BackInNew(h, mapInfo, vvNew, old(vvTried)[s])
    {
      hide Consistent, T.Bump, BackInNew;
      EvictKeeps(h, Tab(), s, {id}, {});
      LimboInfo(h, Tab(), {id}, {}, id);
      var x := vvTried[s];
      mapInfo := mapInfo[x := mapInfo[x].(inTried := false)];
      vvTried := vvTried - {s};
      nTried := nTried - 1;
      Bump(mapInfo[x].addr.network, true, -1);
      PutBack(x, id);
    }

    /** The second half: an entry that is in no table takes its slot in the new table. */
    method PutBack(x: Id, ghost id: Id)
      requires Consistent(h, Tab(), {id} + {x}, {}) && x in mapInfo && id in mapInfo && x != id
      modifies `mapInfo, `mapAddr, `vRandom, `vvNew, `nNew, `networkCounts
      ensures Consistent(h, Tab(), {id}, {})
      ensures forall y :: y in mapInfo ==> y in old(mapInfo) && mapInfo[y].addr == old(mapInfo)[y].addr
      ensures id in mapInfo && mapInfo[id] == old(mapInfo)[id].(randomPos := mapInfo[id].randomPos)
      ensures BackInNew(h, mapInfo, vvNew, x)
    {
      hide Consistent, T.Bump;
      var bucket := h.NewBucket(mapInfo[x].addr, mapInfo[x].source);
      var slot := h.NewSlot(mapInfo[x].addr, bucket);
      ClearNew(slot, {id} + {x}, {});
      LimboInfo(h, Tab(), {id} + {x}, {}, x);
      UnshelveKeeps(h, Tab(), x, {id} + {x}, {});
      PlaceKeeps(h, Unshelve(Tab(), x), slot, x, {id} + {x} - {x}, {} + {x});
      assert {id} + {x} - {x} == {id} && {} + {x} - {x} == {};
      mapInfo := mapInfo[x := mapInfo[x].(refCount := 1)];
      vvNew := vvNew[slot := x];
      nNew := nNew + 1;
      Bump(mapInfo[x].addr.network, false, 1);
    }

    /** Take an entry out of the new table altogether. */
    method Retire(id: Id)
      requires Consistent(h, Tab(), {}, {}) && id in mapInfo && !mapInfo[id].inTried
      modifies `mapInfo, `vvNew, `nNew, `networkCounts
      ensures Consistent(h, Tab(), {id}, {})
      ensures mapInfo == old(mapInfo)[id := old(mapInfo)[id].(refCount := 0)]
    {
      hide Consistent, T.Bump;
      ClearReferences(id);
      ShelveKeeps(h, Tab(), id, {}, {id});
      nNew := nNew - 1;
      Bump(mapInfo[id].addr.network, false, -1);
      assert mapInfo[id].refCount == 0;
      assert {} + {id} == {id};
      ShelvedKeeps(h, Tab(), id);
    }

    /** MakeTried: move a new entry to its tried slot, sending back whatever is there. */
    method MakeTried(id: Id)
      requires Consistent(h, Tab(), {}, {}) && id in mapInfo && !mapInfo[id].inTried && mapInfo[id].lastSuccess > 0
      modifies `mapInfo, `mapAddr, `vRandom, `vvNew, `vvTried, `nNew, `nTried, `networkCounts
      ensures Consistent(h, Tab(), {}, {}) && id in mapInfo && mapInfo[id].inTried
      ensures forall x :: x in mapInfo ==> x in old(mapInfo) && mapInfo[x].addr == old(mapInfo)[x].addr
      ensures vvTried == old(vvTried)[h.TriedSlot(old(mapInfo)[id].addr) := id]
      ensures var s := h.TriedSlot(old(mapInfo)[id].addr); s in old(vvTried) ==>
        BackInNew(h, mapInfo, vvNew, old(vvTried)[s])
    {
      hide Consistent, BackInNew;
      Retire(id);
      var s := h.TriedSlot(mapInfo[id].addr);
      if s in vvTried { MoveToNew(s, id); }
      ghost var m := mapInfo;
      Promote(id, s);
      if s in old(vvTried) { BackStays(h, m, mapInfo, vvNew, old(vvTried)[s], id); }
    }

    /** The end of MakeTried: an entry that is in no table takes its free tried slot. */
    method Promote(id: Id, s: Slot)
      requires Consistent(h, Tab(), {id}, {}) && id in mapInfo && mapInfo[id].lastSuccess > 0
      requires s == h.TriedSlot(mapInfo[id].addr) && s !in vvTried
      modifies `mapInfo, `vvTried, `nTried, `networkCounts
      ensures Consistent(h, Tab(), {}, {}) && vvTried == old(vvTried)[s := id]
      ensures mapInfo == old(mapInfo)[id := old(mapInfo)[id].(inTried := true)] && !old(mapInfo)[id].inTried
      ensures old(mapInfo)[id].refCount == 0
    {
      hide Consistent, T.Bump;
      LimboInfo(h, Tab(), {id}, {}, id);
      PromoteKeeps(h, Tab(), id, {id}, {});
      assert {id} - {id} == {};
      vvTried := vvTried[s := id];
      nTried := nTried + 1;
      mapInfo := mapInfo[id := mapInfo[id].(inTried := true)];
      Bump(mapInfo[id].addr.network, true, 1);
    }

    /**
     The second half of AddSingle: put a known entry into the bucket its source calls for, over an entry that is
     terrible or has other references, or else forget the entry again if it has no reference at all.
     */
    method Settle(id: Id, slot: Slot, now: int) returns (inserted: bool)
      requires Consistent(h, Tab(), {}, {id}) && id in mapInfo && !mapInfo[id].inTried
      requires 0 <= slot.bucket < NEW_BUCKET_COUNT && slot == h.NewSlot(mapInfo[id].addr, slot.bucket)
      requires mapInfo[id].refCount < NEW_BUCKETS_PER_ADDRESS
      modifies `mapInfo, `mapAddr, `vRandom, `vvNew, `nNew, `networkCounts
      ensures Consistent(h, Tab(), {}, {})
      ensures forall x :: x in mapInfo ==> x in old(mapInfo) && mapInfo[x].addr == old(mapInfo)[x].addr
      ensures inserted <==>
        slot !in old(vvNew) || (old(vvNew)[slot] != id && Yields(old(mapInfo), old(vvNew)[slot], old(mapInfo)[id], now))
      ensures vvNew == if inserted then old(vvNew)[slot := id] else old(vvNew)
      ensures inserted ==> id in mapInfo && mapInfo[id].refCount == old(mapInfo)[id].refCount + 1
      ensures id in mapInfo <==> inserted || old(mapInfo)[id].refCount != 0
      ensures forall x :: x in old(mapInfo) && x != id && !HeldBy(old(vvNew), slot, x) ==> x in mapInfo
    {
      hide Consistent, T.Delete;
      inserted := slot !in vvNew;
      if slot in vvNew { SlotHolds(h, Tab(), slot, {}, {id}); }
      assert {} + {id} == {id};
      if slot in vvNew && vvNew[slot] == id {
        SettledKeeps(h, Tab(), id, {}, {});
        return;
      }
      if !inserted {
        var existing := mapInfo[vvNew[slot]];
        if IsTerrible(existing, now) || (existing.refCount > 1 && mapInfo[id].refCount == 0) {
          inserted := true;
        }
      }
      if inserted {
        ClearNew(slot, {}, {id});
        PlaceKeeps(h, Tab(), slot, id, {}, {id});
        assert {id} - {id} == {};
        mapInfo := mapInfo[id := mapInfo[id].(refCount := mapInfo[id].refCount + 1)];
        vvNew := vvNew[slot := id];
      } else if mapInfo[id].refCount == 0 {
        ConsistentParts(h, Tab(), {}, {id});
        DeleteKeeps(h, Tab(), id, {}, {id});
        DeleteInfos(Tab(), id);
        assert {id} - {id} == {};
        Delete(id);
      } else {
        SettledKeeps(h, Tab(), id, {}, {});
      }
    }

    /** The statistics of one entry change. */
    method Touch(id: Id, info: Info)
      requires Valid() && id in mapInfo && SamePlace(info, mapInfo[id])
      requires info.lastTry >= 0 && info.lastSuccess >= 0 && (info.inTried ==> info.lastSuccess > 0)
      modifies `mapInfo
      ensures Valid() && Evolves() && mapInfo == old(mapInfo)[id := info]
    {
      hide Consistent, IdsOk, Evolved;
      TouchKeeps(h, Tab(), id, info, {}, {});
      mapInfo := mapInfo[id := info];
      IdsShrink(h, old(mapInfo), vvTried, mapInfo, vvTried, idCount, triedCollisions);
    }

    /** AddSingle on an address already known: refresh it and decide whether it may get another reference. */
    method Refresh(id: Id, time: int, services: set<int>, penalty: int, now: int, roll: nat) returns (proceed: bool)
      requires Valid() && id in mapInfo
      modifies `mapInfo
      ensures Valid() && Evolves()
      ensures mapInfo == old(mapInfo)[id := Refreshed(old(mapInfo)[id], time, services, penalty, now)]
      ensures id in mapInfo && SamePlace(mapInfo[id], old(mapInfo)[id])
      ensures proceed <==> MayGain(mapInfo[id], time, roll)
    {
      hide Consistent, Pow2, IdsOk, Evolved;
      InfoFacts(h, Tab(), id);
      var info := mapInfo[id];
      var interval := if now - time < 24 * 3600 then 3600 else 24 * 3600;
      if info.time < time - interval - penalty { info := info.(time := Max(0, time - penalty)); }
      info := info.(services := info.services + services);
      Touch(id, info);
      if time <= info.time || info.inTried || info.refCount == NEW_BUCKETS_PER_ADDRESS { return false; }
      return info.refCount <= 0 || roll % Pow2(info.refCount) == 0;
    }

    /** AddSingle on a new address: create an entry, counted as new, that is in no bucket yet. */
    method Enroll(addr: Service, source: NetAddr, time: int, services: set<int>, penalty: int) returns (id: Id)
      requires Valid() && addr !in mapAddr && addr.valid
      modifies this
      ensures Consistent(h, Tab(), {}, {id}) && id == old(idCount) && idCount == id + 1
      ensures IdsOk(h, mapInfo, vvTried, idCount, triedCollisions) && Evolves()
      ensures mapInfo.Keys == old(mapInfo.Keys) + {id}
      ensures mapInfo[id] == Info(addr, source, Max(0, time - penalty), services, 0, 0, 0, 0, 0, false, |old(vRandom)|)
      ensures forall x :: x in old(mapInfo) ==> x in mapInfo && mapInfo[x] == old(mapInfo)[x]
      ensures vvTried == old(vvTried) && vvNew == old(vvNew) && triedCollisions == old(triedCollisions)
    {
      hide Consistent, IdsOk, Evolved;
      ghost var t := Tab();
      NextIdUnused(h, mapInfo, vvTried, idCount, triedCollisions);
      id := Create(addr, source, time, services);
      CreateKeeps(h, t, id, addr, source, time, services, {}, {});
      assert {} + {id} == {id};
      var info := mapInfo[id].(time := Max(0, mapInfo[id].time - penalty));
      TouchKeeps(h, Tab(), id, info, {}, {id});
      mapInfo := mapInfo[id := info];
      IdsGrow(h, old(mapInfo), vvTried, mapInfo, id, triedCollisions);
    }

    /** AddSingle up to the choice of a bucket: the entry of a routable address that may gain a reference, if any. */
    method Prepare(addr: Service, time: int, services: set<int>, source: NetAddr, penalty: int, now: int, roll: nat)
      returns (id: Option<Id>)
      requires Valid() && addr.valid
      modifies this
      ensures Evolves() && IdsOk(h, mapInfo, vvTried, idCount, triedCollisions)
      ensures vvTried == old(vvTried) && vvNew == old(vvNew)
      ensures id.None? ==> Valid() && addr in old(mapAddr)
      ensures id.Some? ==> Consistent(h, Tab(), {}, {id.value}) && id.value in mapInfo && mapInfo[id.value].addr == addr
      ensures id.Some? ==> !mapInfo[id.value].inTried && mapInfo[id.value].refCount < NEW_BUCKETS_PER_ADDRESS
    {
      hide Consistent, Refreshed, IdsOk, Evolved;
      if addr in mapAddr {
        var known := mapAddr[addr];
        KnownAddr(h, Tab(), addr);
        InfoFacts(h, Tab(), known);
        var proceed := Refresh(known, time, services, penalty, now, roll);
        if !proceed { return None; }
        PendingWeaker(h, Tab(), {}, known);
        return Some(known);
      }
      var created := Enroll(addr, source, time, services, penalty);
      return Some(created);
    }

    method AddSingle(addr: Service, time: int, services: set<int>, source: NetAddr, timePenalty: int, now: int,
                     roll: nat)
      returns (inserted: bool)
      requires Valid()
      modifies this
      ensures Valid() && Evolves() && vvTried == old(vvTried)
      ensures inserted ==>
        addr in mapAddr && vvNew == old(vvNew)[h.NewSlot(addr, h.NewBucket(addr, source)) := mapAddr[addr]]
      ensures inserted <==> vvNew != old(vvNew)
      ensures !(addr.valid && addr.routable) ==> unchanged(this)
    {
      hide Consistent, Yields, HeldBy, IdsOk, Evolved;
      if !(addr.valid && addr.routable) {
        IdsShrink(h, mapInfo, vvTried, mapInfo, vvTried, idCount, triedCollisions);
        return false;
      }
      var penalty := if addr.host == source then 0 else timePenalty;
      var entry := Prepare(addr, time, services, source, penalty, now, roll);
      if entry.None? { return false; }
      ghost var infos := mapInfo;
      inserted := Settle(entry.value, h.NewSlot(addr, h.NewBucket(addr, source)), now);
      IdsShrink(h, infos, vvTried, mapInfo, vvTried, idCount, triedCollisions);
      EvolvedTwice(h, old(triedCollisions), old(mapInfo), old(vvTried), old(idCount), infos, vvTried, idCount,
                   mapInfo, vvTried, idCount);
      if inserted { InfoFacts(h, Tab(), entry.value); }
    }

    /** Add: one address after the other, each with its own clock reading and random number. */
    method Add(addrs: seq<(Service, int, set<int>)>, source: NetAddr, timePenalty: int, clock: nat -> int,
               rolls: nat -> nat)
      returns (added: bool)
      requires Valid()
      modifies this
      ensures Valid() && Evolves() && vvTried == old(vvTried)
      ensures !added ==> vvNew == old(vvNew)
    {
      hide Consistent, IdsOk, Evolved;
      added := false;
      IdsShrink(h, mapInfo, vvTried, mapInfo, vvTried, idCount, triedCollisions);
      for i := 0 to |addrs|
        invariant Valid() && Evolves() && vvTried == old(vvTried) && (!added ==> vvNew == old(vvNew))
      {
        ghost var infos, n := mapInfo, idCount;
        var one := AddSingle(addrs[i].0, addrs[i].1, addrs[i].2, source, timePenalty, clock(i), rolls(i));
        EvolvedTwice(h, old(triedCollisions), old(mapInfo), old(vvTried), old(idCount), infos, vvTried, n,
                     mapInfo, vvTried, idCount);
        added := added || one;
      }
    }

    predicate IsNew(addr: Service)
      reads this
    {
      addr in mapAddr && mapAddr[addr] in mapInfo && !mapInfo[mapAddr[addr]].inTried
    }

    /** Good: an entry we connected to moves to the tried table, unless its slot is taken and must be tested first. */
    method Good(addr: Service, testBeforeEvict: bool, time: int) returns (moved: bool)
      requires Valid() && time > 0
      modifies this
      ensures Valid() && Evolves()
      ensures moved <==> old(IsNew(addr)) && !(testBeforeEvict && h.TriedSlot(addr) in old(vvTried))
      ensures moved ==> vvTried == old(vvTried)[h.TriedSlot(addr) := old(mapAddr)[addr]]
      ensures !moved ==> vvTried == old(vvTried) && vvNew == old(vvNew)
      ensures !moved ==> Edited(old(mapInfo), mapInfo, mapAddr, addr,
        (i: Info) => i.(lastSuccess := time, lastTry := time, attempts := 0))
      ensures triedCollisions == if old(IsNew(addr)) && !moved && |old(triedCollisions)| < SET_TRIED_COLLISION_SIZE
                then old(triedCollisions) + {old(mapAddr)[addr]} else old(triedCollisions)
      ensures lastGood == time
    {
      hide Consistent, IdsOk, Evolved, BackInNew;
      lastGood := time;
      if addr !in mapAddr {
        IdsShrink(h, mapInfo, vvTried, mapInfo, vvTried, idCount, triedCollisions);
        return false;
      }
      var id := mapAddr[addr];
      KnownAddr(h, Tab(), addr);
      InfoFacts(h, Tab(), id);
      Touch(id, mapInfo[id].(lastSuccess := time, lastTry := time, attempts := 0));
      if mapInfo[id].inTried || mapInfo[id].refCount <= 0 { return false; }
      var slot := h.TriedSlot(addr);
      if testBeforeEvict && slot in vvTried {
        if |triedCollisions| < SET_TRIED_COLLISION_SIZE {
          IdsWait(h, mapInfo, vvTried, idCount, triedCollisions, id);
          triedCollisions := triedCollisions + {id};
        }
        return false;
      }
      MakeTried(id);
      IdsShrink(h, old(mapInfo), old(vvTried), mapInfo, vvTried, idCount, triedCollisions);
      return true;
    }

    method Attempt(addr: Service, countFailure: bool, time: int)
      requires Valid() && time >= 0
      modifies `mapInfo
      ensures Valid() && Evolves()
      ensures var last := lastGood; Edited(old(mapInfo), mapInfo, mapAddr, addr,
        (i: Info) => Attempted(i, countFailure, time, last))
    {
      hide Consistent;
      if addr !in mapAddr { return; }
      var id := mapAddr[addr];
      KnownAddr(h, Tab(), addr);
      InfoFacts(h, Tab(), id);
      var info := mapInfo[id].(lastTry := time);
      if countFailure && info.lastCountAttempt < lastGood {
        info := info.(lastCountAttempt := time, attempts := info.attempts + 1);
      }
      Touch(id, info);
    }

    method Connected(addr: Service, time: int)
      requires Valid()
      modifies `mapInfo
      ensures Valid() && Evolves()
      ensures Edited(old(mapInfo), mapInfo, mapAddr, addr,
        (i: Info) => if time - i.time > 20 * 60 then i.(time := time) else i)
    {
      hide Consistent;
      if addr !in mapAddr { return; }
      var id := mapAddr[addr];
      KnownAddr(h, Tab(), addr);
      InfoFacts(h, Tab(), id);
      if time - mapInfo[id].time > 20 * 60 { Touch(id, mapInfo[id].(time := time)); }
    }

    method SetServices(addr: Service, services: set<int>)
      requires Valid()
      modifies `mapInfo
      ensures Valid() && Evolves()
      ensures Edited(old(mapInfo), mapInfo, mapAddr, addr, (i: Info) => i.(services := services))
    {
      hide Consistent;
      if addr !in mapAddr { return; }
      var id := mapAddr[addr];
      KnownAddr(h, Tab(), addr);
      InfoFacts(h, Tab(), id);
      Touch(id, mapInfo[id].(services := services));
    }

    /**
     One waiting entry of ResolveCollisions.  The source also handles a slot that has become free in the meantime;
     the invariant shows that this never happens.
     */
    method ResolveOne(id: Id, now: int)
      requires Valid() && id in triedCollisions && now > 0
      modifies this
      ensures Valid() && Evolves()
      ensures var fate := old(FateOf(id, now));
        && triedCollisions == (if fate.Wait? then old(triedCollisions) else old(triedCollisions) - {id})
        && (!fate.Replace? ==> mapInfo == old(mapInfo) && vvNew == old(vvNew) && vvTried == old(vvTried))
        && (fate.Replace? && old(IsNew(mapInfo[id].addr)) ==>
            vvTried == old(vvTried)[h.TriedSlot(old(mapInfo)[id].addr) := id])
    {
      hide Consistent;
      var erase := true;
      if id in mapInfo && mapInfo[id].addr.valid {
        InfoFacts(h, Tab(), id);
        var slot := h.TriedSlot(mapInfo[id].addr);
        if slot in vvTried {
          TriedSlotHolds(h, Tab(), slot);
          var info := mapInfo[vvTried[slot]];
          if now - info.lastSuccess < REPLACEMENT {
            erase := true;
          } else if now - info.lastTry < REPLACEMENT {
            if now - info.lastTry > 60 {
              var moved := Good(mapInfo[id].addr, false, now);
            } else {
              erase := false;
            }
          } else if now - mapInfo[id].lastSuccess > TEST_WINDOW {
            var moved := Good(mapInfo[id].addr, false, now);
          } else {
            erase := false;
          }
        } else {
          assert false;
        }
      }
      if erase { triedCollisions := triedCollisions - {id}; }
    }

    /** What becomes of an entry waiting for a tried slot. */
    ghost function FateOf(id: Id, now: int): Fate
      reads this
    {
      if id !in mapInfo || !mapInfo[id].addr.valid then Forget
      else
        var slot := h.TriedSlot(mapInfo[id].addr);
        if slot in vvTried && vvTried[slot] in mapInfo then Verdict(mapInfo[id], mapInfo[vvTried[slot]], now)
        else Replace
    }

    /** ResolveCollisions: settle the entries waiting for a tried slot, in some order. */
    method ResolveCollisions(clock: Id -> int)
      requires Valid() && forall x :: clock(x) > 0
      modifies this
      ensures Valid() && Evolves() && triedCollisions <= old(triedCollisions)
    {
      hide Consistent;
      var todo := triedCollisions;
      while todo != {}
        invariant Valid() && Evolves() && todo <= triedCollisions <= old(triedCollisions)
      {
        NonEmpty(todo);
        var id :| id in todo;
        todo := todo - {id};
        ResolveOne(id, clock(id));
      }
    }

    /**
     SelectTriedCollision: some entry that a waiting one would evict.  The look-ups `mapInfo[...]` of the source
     never meet an unknown id, so they never create an entry.
     */
    method SelectTriedCollision() returns (r: Option<Info>)
      requires Valid()
      modifies `triedCollisions
      ensures Valid() && Evolves()
      ensures r.Some? ==> triedCollisions == old(triedCollisions)
      ensures r.Some? ==> exists id :: id in triedCollisions && Challenges(id, r.value)
      ensures old(triedCollisions) == {} ==> r.None? && triedCollisions == {}
      ensures r.None? && old(triedCollisions) != {} ==>
                exists id :: id in old(triedCollisions) - mapInfo.Keys && triedCollisions == old(triedCollisions) - {id}
    {
      hide Consistent;
      if triedCollisions == {} { return None; }
      NonEmpty(triedCollisions);
      var id :| id in triedCollisions;
      if id !in mapInfo {
        triedCollisions := triedCollisions - {id};
        return None;
      }
      var slot := h.TriedSlot(mapInfo[id].addr);
      TriedSlotHolds(h, Tab(), slot);
      r := Some(mapInfo[vvTried[slot]]);
      assert Challenges(id, r.value);
    }

    /** `info` is the tried entry in the slot that `id` is waiting for. */
    ghost predicate Challenges(id: Id, info: Info)
      reads this
    {
      && id in mapInfo
      && var slot := h.TriedSlot(mapInfo[id].addr);
      && slot in vvTried && vvTried[slot] in mapInfo && info == mapInfo[vvTried[slot]] && info.inTried
    }

    /** One draw of the partial shuffle: some entry not drawn before comes to position `n`. */
    method Draw(n: nat, p: nat) returns (info: Info)
      requires Valid() && n <= p < |vRandom|
      modifies `mapInfo, `vRandom
      ensures Valid() && RandomOk(old(mapInfo), old(vRandom)) && Tab() == Swap(old(Tab()), n, p)
      ensures InfosKept(old(mapInfo), mapInfo, None)
      ensures vRandom[n] in mapInfo && info == mapInfo[vRandom[n]] && info.randomPos == n
    {
      hide Consistent;
      ConsistentParts(h, Tab(), {}, {});
      SwapKeeps(h, Tab(), n, p, {}, {});
      SwapInfos(Tab(), n, p);
      SwapRandom(n, p);
      ConsistentParts(h, Tab(), {}, {});
      hide Swap;
      info := mapInfo[vRandom[n]];
    }

    /**
     GetAddr: a random sample without repetition, by a partial shuffle of vRandom.  Only vRandom and the
     positions recorded in the entries change.
     */
    method GetAddr(maxAddresses: nat, maxPct: nat, network: Option<Network>, filtered: bool, now: int,
                   rolls: nat -> nat)
      returns (r: seq<Service>)
      requires Valid()
      modifies `mapInfo, `vRandom
      ensures Valid() && Evolves() && InfosKept(old(mapInfo), mapInfo, None)
      ensures NoRepeats(r) && forall a :: a in r ==> Sampled(Tab(), a, |vRandom|, network, filtered, now)
      ensures |r| <= SampleLimit(maxAddresses, maxPct, |vRandom|)
      ensures |r| < SampleLimit(maxAddresses, maxPct, |vRandom|) ==>
        forall id :: id in mapInfo && Eligible(mapInfo[id], network, filtered, now) ==> mapInfo[id].addr in r
    {
      hide Consistent, IdsOk, Evolved, SampleOk, SampleLimit, Swap;
      var limit := SampleLimit(maxAddresses, maxPct, |vRandom|);
      ConsistentParts(h, Tab(), {}, {});
      r := [];
      SampleStart(Tab(), network, filtered, now);
      var n := 0;
      while n < |vRandom| && |r| < limit
        invariant 0 <= n <= |vRandom| == |old(vRandom)| && |r| <= limit
        invariant Valid() && InfosKept(old(mapInfo), mapInfo, None) && SampleOk(Tab(), r, n, network, filtered, now)
        decreases |vRandom| - n
      {
        ghost var t := Tab();
        var p := n + rolls(n) % (|vRandom| - n);
        var info := Draw(n, p);
        SwapLength(t, n, p);
        SampleStep(h, t, n, p, network, filtered, now, r);
        if Eligible(info, network, filtered, now) { r := r + [info.addr]; }
        n := n + 1;
      }
      IdsShrink(h, old(mapInfo), vvTried, mapInfo, vvTried, idCount, triedCollisions);
      ConsistentParts(h, Tab(), {}, {});
      SampleEnd(Tab(), r, n, network, filtered, now);
    }

    /** The consistency check never reports an error. */
    method Check() returns (code: int)
      requires Valid()
      ensures code == 0
    {
      hide Consistent, AddrCheck.Checked;
      AddrCheck.ConsistentPasses(h, Tab());
      code := AddrCheck.CheckAddrman(h, Tab());
    }

    /** Over every run the check passes, ids are never reused and no tried slot is vacated. */
    method Run(ops: seq<Op>)
      requires Valid() && forall op :: op in ops ==> op.Timely()
      modifies this
      ensures Valid() && Evolves()
    {
      hide Consistent;
      for i := 0 to |ops|
        invariant Valid() && Evolves()
      {
        assert ops[i] in ops;
        Apply(ops[i]);
        var code := Check();
        assert code == 0;
      }
    }

    method Apply(op: Op)
      requires Valid() && op.Timely()
      modifies this
      ensures Valid() && Evolves()
    {
      hide Consistent;
      match op
      case AddOp(addrs, source, penalty, nows, rolls) => var added := Add(addrs, source, penalty, nows, rolls);
      case GoodOp(addr, time) => var moved := Good(addr, true, time);
      case AttemptOp(addr, countFailure, time) => Attempt(addr, countFailure, time);
      case ConnectedOp(addr, time) => Connected(addr, time);
      case SetServicesOp(addr, services) => SetServices(addr, services);
      case ResolveOp(clock) => ResolveCollisions(clock);
      case SelectOp => var r := SelectTriedCollision();
      case GetAddrOp(maxAddresses, maxPct, network, filtered, now, rolls) =>
        var r := GetAddr(maxAddresses, maxPct, network, filtered, now, rolls);
    }
  }

  /** The public operations, with the clock readings and random numbers they meet. */
  datatype Op =
    | AddOp(addrs: seq<(Service, int, set<int>)>, source: NetAddr, penalty: int, nows: nat -> int, rolls: nat -> nat)
    | GoodOp(addr: Service, time: int)
    | AttemptOp(addr: Service, countFailure: bool, time: int)
    | ConnectedOp(addr: Service, time: int)
    | SetServicesOp(addr: Service, services: set<int>)
    | ResolveOp(clock: Id -> int)
    | SelectOp
    | GetAddrOp(maxAddresses: nat, maxPct: nat, network: Option<Network>, filtered: bool, now: int, rolls: nat -> nat)
  {
    /** The clock is past the epoch. */
    ghost predicate Timely() {
      match this
      case GoodOp(_, time) => time > 0
      case AttemptOp(_, _, time) => time >= 0
      case ResolveOp(clock) => forall x :: clock(x) > 0
      case _ => true
    }
  }

  ghost predicate NoRepeats(r: seq<Service>) {
    forall i, j :: 0 <= i < j < |r| ==> r[i] != r[j]
  }

  lemma NoRepeatsAppend(r: seq<Service>, x: Service)
    requires NoRepeats(r) && x !in r
    ensures NoRepeats(r + [x])
  {}

  function Min(a: int, b: int): int { if a < b then a else b }

  lemma ShareFits(pct: nat, size: nat)
    requires pct <= 100
    ensures 0 <= pct * size / 100 <= size
  {
    var x := pct * size;
    assert 0 <= x <= 100 * size;
    ShareBound(x, size);
  }

  lemma ShareBound(x: int, size: nat)
    requires 0 <= x <= 100 * size
    ensures 0 <= x / 100 <= size
  {}

  /** The number of addresses asked for: a share of all, a number, or both; zero means no bound. */
  function SampleLimit(maxAddresses: nat, maxPct: nat, size: nat): (n: nat)
    ensures n <= size && (maxAddresses != 0 ==> n <= maxAddresses)
  {
    ShareFits(Min(maxPct, 100), size);
    var share := if maxPct != 0 then Min(maxPct, 100) * size / 100 else size;
    if maxAddresses != 0 then Min(share, maxAddresses) else share
  }

  predicate Eligible(i: Info, network: Option<Network>, filtered: bool, now: int) {
    (network.None? || i.addr.netClass == network.value) && !(filtered && IsTerrible(i, now))
  }

  /** `a` is a known address that passes the filters and stands before position `n` of vRandom. */
  ghost predicate Sampled(t: Tables, a: Service, n: int, network: Option<Network>, filtered: bool, now: int) {
    && a in t.addrs
    && var id := t.addrs[a];
    && id in t.infos && t.infos[id].addr == a && t.infos[id].randomPos < n
    && (network.Some? ==> a.netClass == network.value)
    && (filtered ==> !IsTerrible(t.infos[id], now))
  }

  lemma SwapInfos(t: Tables, p: int, q: int)
    requires RandomOk(t.infos, t.random) && 0 <= p < |t.random| && 0 <= q < |t.random|
    ensures InfosKept(t.infos, Swap(t, p, q).infos, None)
  {
    if p != q { assert t.random[p] in t.infos && t.random[q] in t.infos; }
    hide RandomOk;
  }

  lemma SwapLength(t: Tables, p: int, q: int)
    requires RandomOk(t.infos, t.random) && 0 <= p < |t.random| && 0 <= q < |t.random|
    ensures |Swap(t, p, q).random| == |t.random|
  {}

  /** Swapping later positions does not disturb the sample. */
  lemma SampledKept(t: Tables, p: int, q: int, a: Service, network: Option<Network>, filtered: bool, now: int)
    requires RandomOk(t.infos, t.random) && 0 <= p <= q < |t.random| && Sampled(t, a, p, network, filtered, now)
    ensures Sampled(Swap(t, p, q), a, p, network, filtered, now)
  {}

  lemma SampledBefore(t: Tables, a: Service, n: int, network: Option<Network>, filtered: bool, now: int)
    requires Sampled(t, a, n, network, filtered, now)
    ensures forall m :: n <= m ==> Sampled(t, a, m, network, filtered, now)
    ensures a in t.addrs && t.addrs[a] in t.infos && t.infos[t.addrs[a]].randomPos < n
  {}

  lemma SampleNext(h: Hashes, t: Tables, id: Id, network: Option<Network>, filtered: bool, now: int)
    requires Consistent(h, t, {}, {}) && id in t.infos
    requires Eligible(t.infos[id], network, filtered, now)
    ensures Sampled(t, t.infos[id].addr, t.infos[id].randomPos + 1, network, filtered, now)
  {
    hide Consistent, IsTerrible;
    InfoFacts(h, t, id);
  }

  /** `r` is the sample after `n` draws: no repeats, and exactly the eligible entries drawn. */
  ghost predicate SampleOk(t: Tables, r: seq<Service>, n: int, network: Option<Network>, filtered: bool, now: int) {
    && NoRepeats(r) && (forall a :: a in r ==> Sampled(t, a, n, network, filtered, now))
    && (forall id :: id in t.infos && t.infos[id].randomPos < n && Eligible(t.infos[id], network, filtered, now) ==>
          t.infos[id].addr in r)
  }

  lemma SampleStart(t: Tables, network: Option<Network>, filtered: bool, now: int)
    requires RandomOk(t.infos, t.random)
    ensures SampleOk(t, [], 0, network, filtered, now)
  {}

  /** Drawing position `n` leaves the entries before it where they are. */
  lemma DrawnBefore(t: Tables, n: int, p: int, network: Option<Network>, filtered: bool, now: int, r: seq<Service>)
    requires RandomOk(t.infos, t.random) && 0 <= n <= p < |t.random|
    requires forall id ::
      id in t.infos && t.infos[id].randomPos < n && Eligible(t.infos[id], network, filtered, now) ==>
        t.infos[id].addr in r
    ensures var u := Swap(t, n, p);
      && (forall id :: id in u.infos && u.infos[id].randomPos < n && Eligible(u.infos[id], network, filtered, now) ==>
          u.infos[id].addr in r)
      && (forall id :: id in u.infos && u.infos[id].randomPos == n ==> id == u.random[n])
  {}

  lemma SampleStep(h: Hashes, t: Tables, n: int, p: int, network: Option<Network>, filtered: bool, now: int,
                   r: seq<Service>)
    requires RandomOk(t.infos, t.random) && 0 <= n <= p < |t.random| && SampleOk(t, r, n, network, filtered, now)
    requires Consistent(h, Swap(t, n, p), {}, {})
    requires var u := Swap(t, n, p); n < |u.random| && u.random[n] in u.infos && u.infos[u.random[n]].randomPos == n
    ensures var u := Swap(t, n, p); var info := u.infos[u.random[n]];
      SampleOk(u, if Eligible(info, network, filtered, now) then r + [info.addr] else r, n + 1, network, filtered, now)
  {
    hide Consistent, Sampled, NoRepeats, Eligible;
    var u := Swap(t, n, p);
    var id := u.random[n];
    var info := u.infos[id];
    InfoFacts(h, u, id);
    forall a | a in r ensures a != info.addr && Sampled(u, a, n + 1, network, filtered, now) {
      SampledKept(t, n, p, a, network, filtered, now);
      SampledBefore(u, a, n, network, filtered, now);
    }
    DrawnBefore(t, n, p, network, filtered, now, r);
    hide Swap, RandomOk;
    if Eligible(info, network, filtered, now) {
      SampleNext(h, u, id, network, filtered, now);
      NoRepeatsAppend(r, info.addr);
    }
  }

  /** A sample that stopped at position `n` holds everything eligible if `n` is the end. */
  lemma SampleEnd(t: Tables, r: seq<Service>, n: int, network: Option<Network>, filtered: bool, now: int)
    requires SampleOk(t, r, n, network, filtered, now) && n <= |t.random| && RandomOk(t.infos, t.random)
    ensures NoRepeats(r) && forall a :: a in r ==> Sampled(t, a, |t.random|, network, filtered, now)
    ensures n == |t.random| ==> forall id :: id in t.infos && Eligible(t.infos[id], network, filtered, now) ==>
      t.infos[id].addr in r
  {
    hide NoRepeats, Eligible;
  }

  /** An evicted entry is in its own bucket of the new table, as its only reference. */
  ghost predicate BackInNew(h: Hashes, m: map<Id, Info>, vvNew: map<Slot, Id>, x: Id) {
    x in m && !m[x].inTried && m[x].refCount == 1 &&
        HeldBy(vvNew, h.NewSlot(m[x].addr, h.NewBucket(m[x].addr, m[x].source)), x)
  }

  lemma BackStays(h: Hashes, m: map<Id, Info>, m': map<Id, Info>, vvNew: map<Slot, Id>, x: Id, id: Id)
    requires BackInNew(h, m, vvNew, x) && id in m && m[id].refCount == 0 && m' == m[id := m[id].(inTried := true)]
    ensures BackInNew(h, m', vvNew, x)
  {}

  lemma TriedSlotHolds(h: Hashes, t: Tables, s: Slot)
    requires Consistent(h, t, {}, {}) && s in t.vvTried
    ensures t.vvTried[s] in t.infos && t.infos[t.vvTried[s]].inTried && h.TriedSlot(t.infos[t.vvTried[s]].addr) == s
  {
    hide AddrsOk, RandomOk, NewOk, CountsOk, SlotsOf;
  }

  lemma NonEmpty(s: set<Id>)
    requires s != {}
    ensures exists x :: x in s
  {
    if forall x :: x !in s { assert false; }
  }

  predicate HeldBy(table: map<Slot, Id>, s: Slot, id: Id) {
    s in table && table[s] == id
  }

  function Pow2(n: int): (r: int)
    ensures r > 0
  {
    if n <= 0 then 1 else 2 * Pow2(n - 1)
  }

  lemma KnownAddr(h: Hashes, t: Tables, addr: Service)
    requires Consistent(h, t, {}, {}) && addr in t.addrs
    ensures t.addrs[addr] in t.infos && t.infos[t.addrs[addr]].addr == addr
  {
    hide RandomOk, TriedOk, NewOk, CountsOk, SlotsOf;
  }

  lemma SlotHolds(h: Hashes, t: Tables, s: Slot, limbo: set<Id>, pending: set<Id>)
    requires Consistent(h, t, limbo, pending) && s in t.vvNew
    ensures t.vvNew[s] in t.infos && t.infos[t.vvNew[s]].refCount > 0
  {
    UnplaceKeeps(h, t, s, limbo, pending);
  }

  lemma LimboInfo(h: Hashes, t: Tables, limbo: set<Id>, pending: set<Id>, id: Id)
    requires Consistent(h, t, limbo, pending) && id in limbo && id in t.infos
    ensures !t.infos[id].inTried && t.infos[id].refCount == 0
  {
    hide AddrsOk, RandomOk, TriedOk, NewOk, CountsOk, SlotsOf;
  }

  /** An entry in limbo is no longer pending. */
  lemma ShelvedKeeps(h: Hashes, t: Tables, id: Id)
    requires Consistent(h, t, {id}, {id})
    ensures Consistent(h, t, {id}, {})
  {
    hide AddrsOk, RandomOk, TriedOk, NewOk, CountsOk, SlotsOf;
  }

  /** The `k`-th bucket of the ring from `start` does not hold the entry. */
  predicate Vacated(h: Hashes, vvNew: map<Slot, Id>, addr: Service, id: Id, start: int, k: int) {
    var s := h.NewSlot(addr, (start + k) % NEW_BUCKET_COUNT);
    !(s in vvNew && vvNew[s] == id)
  }

  /** After a full turn of the ring no slot holds the entry. */
  lemma RingCovered(h: Hashes, t: Tables, id: Id, start: int)
    requires Consistent(h, t, {}, {id}) && id in t.infos && 0 <= start < NEW_BUCKET_COUNT
    requires forall k :: 0 <= k < NEW_BUCKET_COUNT ==> Vacated(h, t.vvNew, t.infos[id].addr, id, start, k)
    ensures t.infos[id].refCount == 0
  {
    hide AddrsOk, RandomOk, TriedOk, NewOk, CountsOk;
    if s :| s in SlotsOf(t.vvNew, id) {
      NewHolds(h, t.infos, t.vvNew, s);
      var k := if start <= s.bucket then s.bucket - start else s.bucket - start + NEW_BUCKET_COUNT;
      var vacated := Vacated(h, t.vvNew, t.infos[id].addr, id, start, k);
      assert false;
    }
  }

  lemma PendingWeaker(h: Hashes, t: Tables, limbo: set<Id>, id: Id)
    requires Consistent(h, t, limbo, {})
    ensures Consistent(h, t, limbo, {id})
  {
    hide AddrsOk, RandomOk, TriedOk, NewOk, CountsOk, SlotsOf;
  }

  /**
   Every surviving entry keeps its address; entries other than `x` survive and keep all but their place in vRandom.
   */
  ghost predicate InfosKept(m: map<Id, Info>, m': map<Id, Info>, x: Option<Id>) {
    && (forall id :: id in m' ==> id in m && m'[id].addr == m[id].addr)
    && (forall id :: id in m && Some(id) != x ==> id in m' && m'[id] == m[id].(randomPos := m'[id].randomPos))
  }

  lemma ConsistentParts(h: Hashes, t: Tables, limbo: set<Id>, pending: set<Id>)
    requires Consistent(h, t, limbo, pending)
    ensures RandomOk(t.infos, t.random)
  {}

  /** An entry that turns out to have references is settled. */
  lemma SettledKeeps(h: Hashes, t: Tables, id: Id, limbo: set<Id>, pending: set<Id>)
    requires Consistent(h, t, limbo, pending + {id}) && (id in t.infos ==> t.infos[id].refCount != 0)
    ensures Consistent(h, t, limbo, pending)
  {
    hide AddrsOk, RandomOk, TriedOk, NewOk, CountsOk, SlotsOf;
  }

  /** Clearing the slot of an entry with one reference deletes it. */
  lemma ClearedLast(h: Hashes, t: Tables, s: Slot, limbo: set<Id>, pending: set<Id>)
    requires Consistent(h, t, limbo, pending) && s in t.vvNew
    requires t.vvNew[s] in t.infos && t.infos[t.vvNew[s]].refCount == 1
    requires t.vvNew[s] !in pending
    ensures var u := Unplace(t, s);
      && RandomOk(u.infos, u.random)
      && Consistent(h, T.Delete(u, t.vvNew[s]), limbo, pending)
      && T.Delete(u, t.vvNew[s]).vvNew == t.vvNew - {s}
      && InfosKept(t.infos, T.Delete(u, t.vvNew[s]).infos, Some(t.vvNew[s]))
  {
    hide AddrsOk, RandomOk, TriedOk, NewOk, RefsOk, CountsOk, TimesOk, AllValid, SlotsOf, T.Bump, T.Delete;
    var id := t.vvNew[s];
    UnplaceKeeps(h, t, s, limbo, pending);
    Referenced(h, t, limbo, pending, id);
    DeleteKeeps(h, Unplace(t, s), id, limbo, pending + {id});
    assert pending + {id} - {id} == pending;
    DeleteInfos(Unplace(t, s), id);
  }

  lemma DeleteInfos(t: Tables, id: Id)
    requires RandomOk(t.infos, t.random) && id in t.infos
    ensures T.Delete(t, id).vvNew == t.vvNew && T.Delete(t, id).vvTried == t.vvTried
    ensures InfosKept(t.infos, T.Delete(t, id).infos, Some(id)) && id !in T.Delete(t, id).infos
  {
    hide T.Bump;
  }

  lemma Referenced(h: Hashes, t: Tables, limbo: set<Id>, pending: set<Id>, id: Id)
    requires Consistent(h, t, limbo, pending) && id in t.infos && t.infos[id].refCount != 0
    ensures id !in limbo && !t.infos[id].inTried
  {
    if t.infos[id].inTried { NoSlots(h, t.infos, t.vvNew, id); }
    hide AddrsOk, RandomOk, TriedOk, NewOk, CountsOk;
  }

  lemma EmptyConsistent(h: Hashes)
    ensures Consistent(h, Tables(map[], map[], [], map[], map[], 0, 0, map[]), {}, {})
  {
    var t := Tables(map[], map[], [], map[], map[], 0, 0, map[]);
    forall k: bool, net: Option<Network> ensures CountExact(t, {}, k, net) {
      assert Group(t.infos, {}, k, net) == {};
    }
  }
}
