/**
 The consistency check of the address manager, `CheckAddrman` in addrman.cpp, run on a value of its state.
 It returns 0 exactly when the declarative predicate `Checked` holds, and every consistent state passes.
 */
module AddrCheck {
  import opened AddrTables

  /** What the first loop asks of each entry, by error code. */
  function EntryCode(t: Tables, id: Id, i: Info): int {
    if i.inTried && i.lastSuccess == 0 then -1
    else if i.inTried && i.refCount != 0 then -2
    else if !i.inTried && (i.refCount < 0 || i.refCount > NEW_BUCKETS_PER_ADDRESS) then -3
    else if !i.inTried && i.refCount == 0 then -4
    else if i.addr !in t.addrs || t.addrs[i.addr] != id then -5
    else if i.randomPos < 0 || i.randomPos >= |t.random| || t.random[i.randomPos] != id then -14
    else if i.lastTry < 0 then -6
    else if i.lastSuccess < 0 then -8
    else 0
  }

  /** The tables are fixed-size arrays. */
  ghost predicate InRange(t: Tables) {
    && (forall s :: s in t.vvTried ==> 0 <= s.bucket < TRIED_BUCKET_COUNT && 0 <= s.pos < BUCKET_SIZE)
    && (forall s :: s in t.vvNew ==> 0 <= s.bucket < NEW_BUCKET_COUNT && 0 <= s.pos < BUCKET_SIZE)
  }

  ghost function TriedIds(infos: map<Id, Info>): set<Id> { set id | id in infos && infos[id].inTried }

  ghost function NewRefs(infos: map<Id, Info>): map<Id, int> {
    map id | id in infos && !infos[id].inTried :: infos[id].refCount
  }

  ghost function Networks(infos: map<Id, Info>): set<Network> { set id | id in infos :: infos[id].addr.network }

  /** What the first loop collects, seen as tables so that the counting lemmas apply. */
  function Summary(infos: map<Id, Info>, setTried: set<Id>, mapNew: map<Id, int>,
                   local: map<Network, NewTried>): Tables {
    Tables(infos, map[], [], map[], map[], |mapNew|, |setTried|, local)
  }

  ghost predicate Collected(infos: map<Id, Info>, setTried: set<Id>, mapNew: map<Id, int>,
                            local: map<Network, NewTried>) {
    && setTried == TriedIds(infos) && mapNew == NewRefs(infos) && local.Keys == Networks(infos)
    && CountsOk(Summary(infos, setTried, mapNew, local), {})
  }

  /** The entries that are no longer to be visited. */
  ghost function Seen(infos: map<Id, Info>, rest: set<Id>): map<Id, Info> {
    map id | id in infos && id !in rest :: infos[id]
  }

  lemma CollectStart()
    ensures Collected(map[], {}, map[], map[])
  {
    var t := Summary(map[], {}, map[], map[]);
    forall k: bool, net: Option<Network> ensures CountExact(t, {}, k, net) {
      assert Group(t.infos, {}, k, net) == {};
    }
  }

  lemma CollectStep(seen: map<Id, Info>, setTried: set<Id>, mapNew: map<Id, int>, local: map<Network, NewTried>,
                    id: Id, i: Info)
    requires Collected(seen, setTried, mapNew, local) && id !in seen
    ensures Collected(seen[id := i], if i.inTried then setTried + {id} else setTried,
                      if i.inTried then mapNew else mapNew[id := i.refCount], Bump(local, i.addr.network, i.inTried, 1))
  {
    hide TriedIds, NewRefs, Networks, CountsOk, Collected, Bump;
    if i.inTried {
      CollectTried(seen, setTried, mapNew, local, id, i);
    } else {
      CollectNew(seen, setTried, mapNew, local, id, i);
    }
  }

  lemma CollectTried(seen: map<Id, Info>, setTried: set<Id>, mapNew: map<Id, int>, local: map<Network, NewTried>,
                     id: Id, i: Info)
    requires Collected(seen, setTried, mapNew, local) && id !in seen && i.inTried
    ensures Collected(seen[id := i], setTried + {id}, mapNew, Bump(local, i.addr.network, true, 1))
  {
    hide TriedIds, NewRefs, Networks, CountsOk, Bump;
    IdsPut(seen, id, i);
    NetworksPut(seen, id, i);
    BumpKeys(local, i.addr.network, true);
    var local' := Bump(local, i.addr.network, true, 1);
    CountsGain(Summary(seen, setTried, mapNew, local),
               Summary(seen[id := i], setTried + {id}, mapNew, local'), {}, {}, id, true);
  }

  lemma CollectNew(seen: map<Id, Info>, setTried: set<Id>, mapNew: map<Id, int>, local: map<Network, NewTried>, id: Id,
                   i: Info)
    requires Collected(seen, setTried, mapNew, local) && id !in seen && !i.inTried
    ensures Collected(seen[id := i], setTried, mapNew[id := i.refCount], Bump(local, i.addr.network, false, 1))
  {
    hide TriedIds, NewRefs, Networks, CountsOk, Bump;
    IdsPut(seen, id, i);
    NetworksPut(seen, id, i);
    BumpKeys(local, i.addr.network, false);
    var local' := Bump(local, i.addr.network, false, 1);
    CountsGain(Summary(seen, setTried, mapNew, local),
               Summary(seen[id := i], setTried, mapNew[id := i.refCount], local'), {}, {}, id, false);
  }

  lemma BumpKeys(counts: map<Network, NewTried>, net: Network, tried: bool)
    ensures Bump(counts, net, tried, 1).Keys == counts.Keys + {net}
  {}

  lemma IdsPut(infos: map<Id, Info>, id: Id, i: Info)
    requires id !in infos
    ensures id !in TriedIds(infos) && id !in NewRefs(infos)
    ensures TriedIds(infos[id := i]) == if i.inTried then TriedIds(infos) + {id} else TriedIds(infos)
    ensures NewRefs(infos[id := i]) == if i.inTried then NewRefs(infos) else NewRefs(infos)[id := i.refCount]
  {}

  lemma NetworksPut(infos: map<Id, Info>, id: Id, i: Info)
    requires id !in infos
    ensures Networks(infos[id := i]) == Networks(infos) + {i.addr.network}
  {
    var m := infos[id := i];
    forall n ensures n in Networks(m) <==> n in Networks(infos) + {i.addr.network} {
      if n in Networks(infos) {
        var x :| x in infos && infos[x].addr.network == n;
        assert x in m && m[x].addr.network == n;
      }
      if n == i.addr.network { assert id in m && m[id].addr.network == n; }
    }
  }

  /** The first loop: check every entry, and collect the tried ids, the reference counts and the counts per network. */
  method CheckEntries(t: Tables)
    returns (code: int, setTried: set<Id>, mapNew: map<Id, int>, local: map<Network, NewTried>)
    ensures code == 0 <==> forall id :: id in t.infos ==> EntryCode(t, id, t.infos[id]) == 0
    ensures code == 0 ==> Collected(t.infos, setTried, mapNew, local)
  {
    hide Collected, EntryCode;
    setTried, mapNew, local := {}, map[], map[];
    var rest := t.infos.Keys;
    CollectStart();
    assert Seen(t.infos, rest) == map[];
    while rest != {}
      invariant rest <= t.infos.Keys && Collected(Seen(t.infos, rest), setTried, mapNew, local)
      invariant forall id :: id in t.infos && id !in rest ==> EntryCode(t, id, t.infos[id]) == 0
    {
      PickOne(rest);
      var id :| id in rest;
      var i := t.infos[id];
      code := EntryCode(t, id, i);
      if code != 0 { return; }
      CollectStep(Seen(t.infos, rest), setTried, mapNew, local, id, i);
      assert Seen(t.infos, rest - {id}) == Seen(t.infos, rest)[id := i];
      if i.inTried { setTried := setTried + {id}; } else { mapNew := mapNew[id := i.refCount]; }
      local := Bump(local, i.addr.network, i.inTried, 1);
      rest := rest - {id};
    }
    assert Seen(t.infos, rest) == t.infos;
    code := 0;
  }

  lemma PickOne(s: set<Id>)
    requires s != {}
    ensures exists x :: x in s
  {
    if forall x :: x !in s { assert false; }
  }

  // ---------- The tried table ----------

  ghost predicate TriedSlotOk(h: Hashes, t: Tables, s: Slot)
    requires s in t.vvTried
  {
    var id := t.vvTried[s];
    id in t.infos && t.infos[id].inTried && h.TriedSlot(t.infos[id].addr) == s
  }

  /** The scan, row by row, has passed slot `s` when it stands at bucket `b`, position `p`. */
  predicate Before(s: Slot, b: int, p: int) {
    s.bucket < b || (s.bucket == b && s.pos < p)
  }

  ghost predicate Found(h: Hashes, t: Tables, id: Id, b: int, p: int)
    requires id in t.infos
  {
    var s := h.TriedSlot(t.infos[id].addr);
    Before(s, b, p) && s in t.vvTried && t.vvTried[s] == id
  }

  ghost predicate TriedScan(h: Hashes, t: Tables, left: set<Id>, b: int, p: int) {
    && (forall s :: s in t.vvTried && Before(s, b, p) ==> TriedSlotOk(h, t, s))
    && (forall id :: id in left <==> id in t.infos && t.infos[id].inTried && !Found(h, t, id, b, p))
  }

  lemma TriedStep(h: Hashes, t: Tables, left: set<Id>, s: Slot)
    requires TriedScan(h, t, left, s.bucket, s.pos)
    ensures s !in t.vvTried ==> TriedScan(h, t, left, s.bucket, s.pos + 1)
    ensures s in t.vvTried && t.vvTried[s] !in left ==> !TriedSlotOk(h, t, s)
    ensures s in t.vvTried && TriedSlotOk(h, t, s) ==> TriedScan(h, t, left - {t.vvTried[s]}, s.bucket, s.pos + 1)
  {
  }

  method CheckTried(h: Hashes, t: Tables, setTried: set<Id>) returns (code: int, left: set<Id>)
    requires InRange(t) && setTried == TriedIds(t.infos)
    ensures code == 0 <==> forall s :: s in t.vvTried ==> TriedSlotOk(h, t, s)
    ensures code == 0 ==>
      (left == {} <==> forall id :: id in t.infos && t.infos[id].inTried ==> Found(h, t, id, TRIED_BUCKET_COUNT, 0))
  {
    hide TriedScan;
    left := setTried;
    code := 0;
    var b := 0;
    TriedStart(h, t, left);
    while b < TRIED_BUCKET_COUNT
      invariant 0 <= b <= TRIED_BUCKET_COUNT && TriedScan(h, t, left, b, 0)
    {
      var p := 0;
      while p < BUCKET_SIZE
        invariant 0 <= p <= BUCKET_SIZE && TriedScan(h, t, left, b, p)
      {
        var s := Slot(b, p);
        TriedStep(h, t, left, s);
        if s in t.vvTried {
          var id := t.vvTried[s];
          if id !in left { return -11, left; }
          if id !in t.infos || h.TriedSlot(t.infos[id].addr).bucket != b { return -17, left; }
          if h.TriedSlot(t.infos[id].addr).pos != p { return -18, left; }
          TriedLeft(h, t, left, b, p, id);
          left := left - {id};
        }
        p := p + 1;
      }
      TriedRow(h, t, left, b);
      b := b + 1;
    }
    TriedEnd(h, t, left);
  }

  lemma TriedStart(h: Hashes, t: Tables, left: set<Id>)
    requires InRange(t) && left == TriedIds(t.infos)
    ensures TriedScan(h, t, left, 0, 0)
  {}

  lemma TriedLeft(h: Hashes, t: Tables, left: set<Id>, b: int, p: int, id: Id)
    requires TriedScan(h, t, left, b, p) && id in left
    ensures id in t.infos && t.infos[id].inTried
  {}

  lemma TriedRow(h: Hashes, t: Tables, left: set<Id>, b: int)
    requires InRange(t) && TriedScan(h, t, left, b, BUCKET_SIZE)
    ensures TriedScan(h, t, left, b + 1, 0)
  {}

  lemma TriedEnd(h: Hashes, t: Tables, left: set<Id>)
    requires InRange(t) && TriedScan(h, t, left, TRIED_BUCKET_COUNT, 0)
    ensures forall s :: s in t.vvTried ==> TriedSlotOk(h, t, s)
    ensures left == {} <==> forall id :: id in t.infos && t.infos[id].inTried ==> Found(h, t, id, TRIED_BUCKET_COUNT, 0)
  {
    if forall id :: id in t.infos && t.infos[id].inTried ==> Found(h, t, id, TRIED_BUCKET_COUNT, 0) {
      forall id ensures id !in left {}
      assert left == {};
    }
  }

  // ---------- The new table ----------

  ghost predicate NewSlotOk(h: Hashes, t: Tables, s: Slot)
    requires s in t.vvNew
  {
    var id := t.vvNew[s];
    id in t.infos && !t.infos[id].inTried && h.NewSlot(t.infos[id].addr, s.bucket) == s
  }

  /** The part of the table that has been scanned. */
  ghost function Scanned(vvNew: map<Slot, Id>, b: int, p: int): map<Slot, Id> {
    map s | s in vvNew && Before(s, b, p) :: vvNew[s]
  }

  /** Each id has as many references left as its count minus the slots seen, and is dropped at zero. */
  ghost predicate Remaining(refs: map<Id, int>, left: map<Id, int>, part: map<Slot, Id>) {
    && (forall id :: id in refs ==> |SlotsOf(part, id)| <= refs[id])
    && (forall id :: id in left <==> id in refs && |SlotsOf(part, id)| < refs[id])
    && (forall id :: id in left ==> left[id] == refs[id] - |SlotsOf(part, id)|)
  }

  ghost predicate NewScan(h: Hashes, t: Tables, refs: map<Id, int>, left: map<Id, int>, b: int, p: int) {
    && (forall s :: s in t.vvNew && Before(s, b, p) ==> NewSlotOk(h, t, s))
    && Remaining(refs, left, Scanned(t.vvNew, b, p))
  }

  lemma ScannedStep(vvNew: map<Slot, Id>, s: Slot)
    ensures s !in Scanned(vvNew, s.bucket, s.pos)
    ensures Scanned(vvNew, s.bucket, s.pos + 1)
         == if s in vvNew then Scanned(vvNew, s.bucket, s.pos)[s := vvNew[s]] else Scanned(vvNew, s.bucket, s.pos)
  {}

  lemma {:induction false} SlotsGrow(part: map<Slot, Id>, whole: map<Slot, Id>, id: Id)
    requires forall s :: s in part ==> s in whole && whole[s] == part[s]
    ensures |SlotsOf(part, id)| <= |SlotsOf(whole, id)|
  {
    SubsetSize(SlotsOf(part, id), SlotsOf(whole, id));
  }

  lemma {:induction false} SubsetSize(a: set<Slot>, b: set<Slot>)
    requires a <= b
    ensures |a| <= |b|
  {
    if a != {} {
      var x :| x in a;
      SubsetSize(a - {x}, b - {x});
    }
  }

  function Decrement(left: map<Id, int>, id: Id): map<Id, int>
    requires id in left
  {
    if left[id] - 1 == 0 then left - {id} else left[id := left[id] - 1]
  }

  lemma RemainingStep(refs: map<Id, int>, left: map<Id, int>, part: map<Slot, Id>, s: Slot, id: Id)
    requires Remaining(refs, left, part) && s !in part && id in left
    ensures Remaining(refs, Decrement(left, id), part[s := id])
  {
    SlotsPut(part, s, id);
    hide SlotsOf;
  }

  /** A slot whose id has no reference left shows that the table holds too many, or the wrong, references. */
  lemma OverReferenced(refs: map<Id, int>, left: map<Id, int>, part: map<Slot, Id>, vvNew: map<Slot, Id>, s: Slot)
    requires Remaining(refs, left, part) && s in vvNew && s !in part && vvNew[s] !in left && vvNew[s] in refs
    requires forall x :: x in part ==> x in vvNew && vvNew[x] == part[x]
    ensures |SlotsOf(vvNew, vvNew[s])| > refs[vvNew[s]]
  {
    SlotsPut(part, s, vvNew[s]);
    SlotsGrow(part[s := vvNew[s]], vvNew, vvNew[s]);
    hide SlotsOf;
  }

  /** Slots hold new entries in their places, and every reference count is right. */
  ghost predicate NewChecked(h: Hashes, t: Tables) {
    && (forall s :: s in t.vvNew ==> NewSlotOk(h, t, s))
    && (forall id :: id in t.infos && !t.infos[id].inTried ==> |SlotsOf(t.vvNew, id)| == t.infos[id].refCount)
  }

  lemma NewStep(h: Hashes, t: Tables, refs: map<Id, int>, left: map<Id, int>, s: Slot)
    requires refs == NewRefs(t.infos) && NewScan(h, t, refs, left, s.bucket, s.pos)
    ensures s !in t.vvNew ==> NewScan(h, t, refs, left, s.bucket, s.pos + 1)
    ensures s in t.vvNew && t.vvNew[s] !in left ==> !NewChecked(h, t)
    ensures s in t.vvNew && t.vvNew[s] in left && NewSlotOk(h, t, s) ==>
              NewScan(h, t, refs, Decrement(left, t.vvNew[s]), s.bucket, s.pos + 1)
    ensures s in t.vvNew && t.vvNew[s] in left ==> t.vvNew[s] in t.infos && !t.infos[t.vvNew[s]].inTried
  {
    ScannedStep(t.vvNew, s);
    var part := Scanned(t.vvNew, s.bucket, s.pos);
    if s in t.vvNew {
      if t.vvNew[s] in left {
        RemainingStep(refs, left, part, s, t.vvNew[s]);
      } else if t.vvNew[s] in refs {
        OverReferenced(refs, left, part, t.vvNew, s);
      }
    }
    hide SlotsOf, Remaining, Scanned;
  }

  lemma NewStart(h: Hashes, t: Tables, refs: map<Id, int>)
    requires InRange(t) && refs == NewRefs(t.infos) && forall id :: id in refs ==> refs[id] > 0
    ensures NewScan(h, t, refs, refs, 0, 0)
  {
    assert Scanned(t.vvNew, 0, 0) == map[];
    assert forall id :: SlotsOf(map[], id) == {};
    hide SlotsOf;
  }

  lemma NewRow(h: Hashes, t: Tables, refs: map<Id, int>, left: map<Id, int>, b: int)
    requires InRange(t) && NewScan(h, t, refs, left, b, BUCKET_SIZE)
    ensures NewScan(h, t, refs, left, b + 1, 0)
  {
    assert Scanned(t.vvNew, b, BUCKET_SIZE) == Scanned(t.vvNew, b + 1, 0);
    hide Remaining, Scanned;
  }

  lemma NewEnd(h: Hashes, t: Tables, refs: map<Id, int>, left: map<Id, int>)
    requires InRange(t) && refs == NewRefs(t.infos) && NewScan(h, t, refs, left, NEW_BUCKET_COUNT, 0)
    ensures left == map[] <==> NewChecked(h, t)
  {
    assert Scanned(t.vvNew, NEW_BUCKET_COUNT, 0) == t.vvNew;
    hide Scanned, SlotsOf;
    if NewChecked(h, t) {
      forall id ensures id !in left { if id in refs { assert |SlotsOf(t.vvNew, id)| == refs[id]; } }
      assert left == map[];
    }
    if left == map[] {
      forall id | id in t.infos && !t.infos[id].inTried ensures |SlotsOf(t.vvNew, id)| == t.infos[id].refCount {
        assert id in refs && id !in left;
      }
    }
  }

  method CheckNew(h: Hashes, t: Tables, mapNew: map<Id, int>) returns (code: int, left: map<Id, int>)
    requires InRange(t) && mapNew == NewRefs(t.infos) && forall id :: id in mapNew ==> mapNew[id] > 0
    ensures code == 0 && left == map[] <==> NewChecked(h, t)
  {
    hide NewScan, NewChecked, NewRefs;
    left := mapNew;
    code := 0;
    var b := 0;
    NewStart(h, t, mapNew);
    while b < NEW_BUCKET_COUNT
      invariant 0 <= b <= NEW_BUCKET_COUNT && NewScan(h, t, mapNew, left, b, 0)
    {
      var p := 0;
      while p < BUCKET_SIZE
        invariant 0 <= p <= BUCKET_SIZE && NewScan(h, t, mapNew, left, b, p)
      {
        var s := Slot(b, p);
        NewStep(h, t, mapNew, left, s);
        if s in t.vvNew {
          var id := t.vvNew[s];
          if id !in left { return -12, left; }
          if id !in t.infos || h.NewSlot(t.infos[id].addr, b).pos != p {
            Misplaced(h, t, s);
            return -19, left;
          }
          left := if left[id] - 1 == 0 then left - {id} else left[id := left[id] - 1];
        }
        p := p + 1;
      }
      NewRow(h, t, mapNew, left, b);
      b := b + 1;
    }
    NewEnd(h, t, mapNew, left);
  }

  lemma Misplaced(h: Hashes, t: Tables, s: Slot)
    requires s in t.vvNew && !NewSlotOk(h, t, s)
    ensures !NewChecked(h, t)
  {
    hide SlotsOf;
  }

  // ---------- The whole check ----------

  ghost predicate TriedChecked(h: Hashes, t: Tables) {
    && (forall s :: s in t.vvTried ==> TriedSlotOk(h, t, s))
    && (forall id :: id in t.infos && t.infos[id].inTried ==> Found(h, t, id, TRIED_BUCKET_COUNT, 0))
  }

  /** Every network on record has its exact counts, and there are at least as many on record as there are in use. */
  ghost predicate NetworksChecked(t: Tables) {
    && |t.counts| >= |Networks(t.infos)|
    && (forall net :: net in t.counts ==>
          t.counts[net] == NewTried(|Group(t.infos, {}, false, Some(net))|, |Group(t.infos, {}, true, Some(net))|))
  }

  ghost predicate Checked(h: Hashes, t: Tables) {
    && |t.random| == t.nTried + t.nNew
    && (forall id :: id in t.infos ==> EntryCode(t, id, t.infos[id]) == 0)
    && |TriedIds(t.infos)| == t.nTried && |NewRefs(t.infos)| == t.nNew
    && TriedChecked(h, t) && NewChecked(h, t)
    && h.key != 0
    && NetworksChecked(t)
  }

  method CheckNetworks(t: Tables, setTried: set<Id>, mapNew: map<Id, int>, local: map<Network, NewTried>)
    returns (code: int)
    requires Collected(t.infos, setTried, mapNew, local)
    ensures code == 0 <==> NetworksChecked(t)
  {
    if |t.counts| < |local| {
      assert |local.Keys| == |local|;
      return -20;
    }
    assert |local.Keys| == |local|;
    var rest := t.counts.Keys;
    while rest != {}
      invariant rest <= t.counts.Keys
      invariant forall net :: net in t.counts && net !in rest ==>
                  t.counts[net] == NewTried(|Group(t.infos, {}, false, Some(net))|,
                      |Group(t.infos, {}, true, Some(net))|)
    {
      PickOne(rest);
      var net :| net in rest;
      var c := if net in local then local[net] else NewTried(0, 0);
      LocalExact(t.infos, setTried, mapNew, local, net);
      if c.n_new != t.counts[net].n_new || c.n_tried != t.counts[net].n_tried { return -21; }
      rest := rest - {net};
    }
    return 0;
  }

  lemma LocalExact(infos: map<Id, Info>, setTried: set<Id>, mapNew: map<Id, int>, local: map<Network, NewTried>,
                   net: Network)
    requires Collected(infos, setTried, mapNew, local)
    ensures (if net in local then local[net] else NewTried(0, 0))
         == NewTried(|Group(infos, {}, false, Some(net))|, |Group(infos, {}, true, Some(net))|)
  {
    var t := Summary(infos, setTried, mapNew, local);
    assert CountExact(t, {}, false, Some(net)) && CountExact(t, {}, true, Some(net));
  }

  /** CheckAddrman returns 0 exactly on the states that satisfy `Checked`. */
  method CheckAddrman(h: Hashes, t: Tables) returns (code: int)
    requires InRange(t)
    ensures code == 0 <==> Checked(h, t)
  {
    hide EntryCode, TriedSlotOk, Found, NewChecked, NetworksChecked, CountsOk;
    if |t.random| != t.nTried + t.nNew { return -7; }
    var setTried, mapNew, local;
    code, setTried, mapNew, local := CheckEntries(t);
    if code != 0 { return; }
    if |setTried| != t.nTried { return -9; }
    if |mapNew| != t.nNew { return -10; }
    var triedLeft, newLeft;
    code, triedLeft := CheckTried(h, t, setTried);
    if code != 0 { return; }
    PositiveRefs(t);
    code, newLeft := CheckNew(h, t, mapNew);
    if code != 0 { return; }
    if triedLeft != {} { return -13; }
    if newLeft != map[] { return -15; }
    if h.key == 0 { return -16; }
    code := CheckNetworks(t, setTried, mapNew, local);
  }

  lemma PositiveRefs(t: Tables)
    requires forall id :: id in t.infos ==> EntryCode(t, id, t.infos[id]) == 0
    ensures forall id :: id in NewRefs(t.infos) ==> NewRefs(t.infos)[id] > 0
  {}

  // ---------- Consistent states pass ----------

  lemma {:induction false} RandomSize(s: seq<Id>)
    requires forall i, j :: 0 <= i < j < |s| ==> s[i] != s[j]
    ensures |set x | x in s| == |s|
  {
    if s != [] {
      var n := |s| - 1;
      RandomSize(s[..n]);
      assert (set x | x in s) == (set x | x in s[..n]) + {s[n]};
      assert s[n] !in s[..n];
    }
  }

  lemma RandomCount(infos: map<Id, Info>, random: seq<Id>)
    requires RandomOk(infos, random)
    ensures |random| == |Group(infos, {}, true, None)| + |Group(infos, {}, false, None)|
  {
    RandomSize(random);
    forall x ensures x in random <==> x in infos {
      if x in infos { assert random[infos[x].randomPos] == x; }
    }
    assert (set x | x in random) == infos.Keys;
    assert infos.Keys == Group(infos, {}, true, None) + Group(infos, {}, false, None);
    assert Group(infos, {}, true, None) !! Group(infos, {}, false, None);
  }

  lemma GroupIds(infos: map<Id, Info>)
    ensures TriedIds(infos) == Group(infos, {}, true, None)
    ensures NewRefs(infos).Keys == Group(infos, {}, false, None) && |NewRefs(infos)| == |NewRefs(infos).Keys|
  {}

  /** Networks in use are on record when the counts are exact. */
  lemma NetworksOnRecord(t: Tables)
    requires CountsOk(t, {})
    ensures Networks(t.infos) <= t.counts.Keys
  {
    forall net | net in Networks(t.infos) ensures net in t.counts {
      var id :| id in t.infos && t.infos[id].addr.network == net;
      assert id in Group(t.infos, {}, t.infos[id].inTried, Some(net));
      assert CountExact(t, {}, t.infos[id].inTried, Some(net));
    }
  }

  lemma {:induction false} NetSubsetSize(a: set<Network>, b: set<Network>)
    requires a <= b
    ensures |a| <= |b|
  {
    if a != {} {
      PickOne(a);
      var x :| x in a;
      NetSubsetSize(a - {x}, b - {x});
    }
  }

  lemma NetworksPass(t: Tables)
    requires CountsOk(t, {})
    ensures NetworksChecked(t)
  {
    NetworksOnRecord(t);
    NetSubsetSize(Networks(t.infos), t.counts.Keys);
    assert |t.counts.Keys| == |t.counts|;
    forall net | net in t.counts
      ensures t.counts[net] == NewTried(|Group(t.infos, {}, false, Some(net))|, |Group(t.infos, {}, true, Some(net))|)
    {
      assert CountExact(t, {}, false, Some(net)) && CountExact(t, {}, true, Some(net));
    }
  }

  lemma EntriesPass(h: Hashes, t: Tables)
    requires Consistent(h, t, {}, {})
    ensures forall id :: id in t.infos ==> EntryCode(t, id, t.infos[id]) == 0
  {
    hide CountsOk, SlotsOf;
    forall id | id in t.infos ensures EntryCode(t, id, t.infos[id]) == 0 {
      if t.infos[id].inTried { NoSlots(h, t.infos, t.vvNew, id); }
    }
  }

  lemma TablesPass(h: Hashes, t: Tables)
    requires Consistent(h, t, {}, {})
    ensures InRange(t) && TriedChecked(h, t) && NewChecked(h, t)
  {
    hide CountsOk, SlotsOf, AddrsOk, RandomOk;
  }

  /** Every consistent state passes the check. */
  lemma ConsistentPasses(h: Hashes, t: Tables)
    requires Consistent(h, t, {}, {}) && h.key != 0
    ensures InRange(t) && Checked(h, t)
  {
    EntriesPass(h, t);
    TablesPass(h, t);
    NetworksPass(t);
    RandomCount(t.infos, t.random);
    GroupIds(t.infos);
    assert CountExact(t, {}, true, None) && CountExact(t, {}, false, None);
    hide EntryCode, TriedChecked, NewChecked, NetworksChecked, Group, RandomOk;
  }

  // ---------- What the check does not see ----------

  lemma NoneInNetwork(infos: map<Id, Info>, tried: bool, net: Network)
    requires net !in Networks(infos)
    ensures Group(infos, {}, tried, Some(net)) == {}
  {
    forall id | id in infos ensures infos[id].addr.network != net {
      assert infos[id].addr.network in Networks(infos);
    }
  }

  /**
   The check compares only the networks on record.  On a state that passes, the network counts are exact
   if and only if every network in use is on record.
   */
  lemma CountsExactIff(h: Hashes, t: Tables)
    requires Checked(h, t)
    ensures CountsOk(t, {}) <==> Networks(t.infos) <= t.counts.Keys
  {
    if CountsOk(t, {}) { NetworksOnRecord(t); }
    if Networks(t.infos) <= t.counts.Keys {
      GroupIds(t.infos);
      forall k: bool, net: Option<Network> ensures CountExact(t, {}, k, net) {
        if net.Some? && net.value !in t.counts {
          NoneInNetwork(t.infos, k, net.value);
        }
      }
    }
  }

  /** One entry of network 1 in the new table, and a record of network 2 only. */
  ghost function LoneEntry(): Info {
    Info(Service(7, 1, 1, 1, true, true), 7, 0, {}, 0, 0, 0, 0, 1, false, 0)
  }

  ghost function LoneTables(): Tables {
    var i := LoneEntry();
    Tables(map[0 := i], map[i.addr := 0], [0], map[Slot(0, 0) := 0], map[], 1, 0, map[2 := NewTried(0, 0)])
  }

  ghost function LoneHashes(): Hashes {
    Hashes(1, (k, a) => 0, (k, a, s) => 0, (k, f, b, a) => 0)
  }

  lemma LoneNew()
    ensures NewChecked(LoneHashes(), LoneTables()) && TriedChecked(LoneHashes(), LoneTables()) && InRange(LoneTables())
  {
    var h, t := LoneHashes(), LoneTables();
    assert SlotsOf(t.vvNew, 0) == {Slot(0, 0)};
    assert h.NewSlot(LoneEntry().addr, 0) == Slot(0, 0);
  }

  lemma LoneNetworks()
    ensures NetworksChecked(LoneTables()) && Networks(LoneTables().infos) == {1}
  {
    var t := LoneTables();
    assert Networks(t.infos) == {1} by { assert 0 in t.infos && t.infos[0].addr.network == 1; }
    assert |t.counts| == 1;
    assert Group(t.infos, {}, false, Some(2)) == {} && Group(t.infos, {}, true, Some(2)) == {};
  }

  lemma LoneEntries()
    ensures var t := LoneTables();
      && |t.random| == t.nTried + t.nNew && (forall id :: id in t.infos ==> EntryCode(t, id, t.infos[id]) == 0)
      && |TriedIds(t.infos)| == t.nTried && |NewRefs(t.infos)| == t.nNew
  {
    var t := LoneTables();
    assert TriedIds(t.infos) == {} && NewRefs(t.infos) == map[0 := 1];
  }

  /** The check passes although the counts of network 1 are missing. */
  lemma MissingNetworkPasses() returns (h: Hashes, t: Tables)
    ensures InRange(t) && Checked(h, t) && !CountsOk(t, {})
  {
    hide NewChecked, TriedChecked, NetworksChecked, CountsOk, InRange, TriedIds, NewRefs, Networks, EntryCode;
    h, t := LoneHashes(), LoneTables();
    LoneNew();
    LoneNetworks();
    LoneEntries();
    CountsExactIff(h, t);
    assert 1 !in t.counts;
  }
}
