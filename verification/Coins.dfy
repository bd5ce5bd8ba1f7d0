/**
 The layered cache of unspent transaction outputs (coins.h, coins.cpp).

 Each `CoinsCache` overlays a base, either another cache or the coins database.
 An entry carries the flags DIRTY and FRESH, the dirty entries are threaded on an
 intrusive doubly linked list, and two counters are kept up to date.  The module
 proves that a stack of such caches behaves as a stack of plain maps.
 */
module Coins {

  datatype OutPoint = OutPoint(txid: nat, n: nat)

  /** A coin; `Spent` is the nulled-out coin.  `memory` is the heap memory its script occupies. */
  datatype Coin = Spent | Unspent(value: int, height: nat, coinbase: bool, unspendable: bool, memory: nat) {
    function Usage(): nat { if Spent? then 0 else memory }
  }

  /** A node of the flagged list: the sentinel, or the map node of a key. */
  datatype Link = Sentinel | At(key: OutPoint)

  /** What one cache knows about one outpoint. */
  datatype Cell = Absent | Cached(coin: Coin, isDirty: bool, isFresh: bool) {
    predicate Flagged() { Cached? && (isDirty || isFresh) }
  }

  type Entry = c: Cell | c.Cached? witness Cached(Spent, true, false)
  type Table = map<OutPoint, Entry>
  type View = map<OutPoint, Coin>

  function CellAt(m: Table, o: OutPoint): Cell {
    if o in m then m[o] else Absent
  }

  function Lookup(v: View, o: OutPoint): Coin {
    if o in v then v[o] else Spent
  }

  /** The coin seen through a cell on top of base coin `b`. */
  function Resolve(c: Cell, b: Coin): Coin {
    if c.Cached? then c.coin else b
  }

  /** One of the four legal states, FRESH and DIRTY meaning what they should relative to base coin `b`. */
  predicate CellOk(c: Cell, b: Coin) {
    c.Cached? ==>
      && (c.coin.Spent? ==> c.isDirty && !c.isFresh)
      && (c.isFresh ==> c.isDirty && b.Spent?)
      && (!c.isDirty ==> c.coin == b)
  }

  datatype Attempt = Thrown | Done(cell: Cell)

  function AddCell(c: Cell, coin: Coin, overwrite: bool): Attempt {
    if !overwrite && c.Cached? && c.coin.Unspent? then Thrown
    else
      var isFresh := !overwrite && !(c.Cached? && c.isDirty);
      Done(Cached(coin, true, isFresh || (c.Cached? && c.isFresh)))
  }

  function SpendCell(c: Cell): Cell {
    if c.Absent? || c.isFresh then Absent else Cached(Spent, true, false)
  }

  /** The receiving side of a batch write: child entry (`coin`, `isFresh`) arrives at cell `p`. */
  function WriteCell(p: Cell, coin: Coin, isFresh: bool): Attempt {
    if p.Absent? then
      if isFresh && coin.Spent? then Done(Absent) else Done(Cached(coin, true, isFresh))
    else if isFresh && p.coin.Unspent? then Thrown
    else if p.isFresh && coin.Spent? then Done(Absent)
    else Done(Cached(coin, true, p.isFresh))
  }

  /** Adding a coin is safe exactly when an overwrite was announced or there is nothing to overwrite. */
  lemma AddCellExact(c: Cell, b: Coin, coin: Coin, overwrite: bool)
    requires CellOk(c, b) && coin.Unspent?
    ensures var r := AddCell(c, coin, overwrite);
      (r.Done? && CellOk(r.cell, b) && Resolve(r.cell, b) == coin) <==> (overwrite || Resolve(c, b).Spent?)
  {}

  /** A child entry lands correctly exactly when its FRESH flag tells the truth about the receiving view. */
  lemma WriteCellExact(p: Cell, b: Coin, coin: Coin, isFresh: bool)
    requires CellOk(p, b)
    ensures var r := WriteCell(p, coin, isFresh);
      (r.Done? && CellOk(r.cell, b) && Resolve(r.cell, b) == coin) <==> (isFresh ==> Resolve(p, b).Spent?)
  {}

  lemma SpendCellKeeps(c: Cell, b: Coin)
    requires CellOk(c, b) && (c.Absent? ==> b.Spent?)
    ensures CellOk(SpendCell(c), b) && Resolve(SpendCell(c), b).Spent?
  {}

  // ---------- The intrusive list ----------

  /** The pointers `m_prev` or `m_next` of all nodes; a node without one holds the null pointer. */
  type Links = map<Link, Link>

  ghost predicate Distinct(ring: seq<Link>) {
    forall i, j :: 0 <= i < j < |ring| ==> ring[i] != ring[j]
  }

  /** `m_next` leads once around the circular list `ring`, which starts at the sentinel. */
  ghost predicate NextOk(next: Links, ring: seq<Link>) {
    && (forall i :: 0 <= i < |ring| ==> ring[i] in next)
    && (forall i {:trigger next[ring[i]]} :: 0 <= i < |ring| - 1 ==> next[ring[i]] == ring[i + 1])
    && (|ring| > 0 ==> next[ring[|ring| - 1]] == ring[0])
  }

  /** `m_prev` undoes `m_next`. */
  ghost predicate PrevOk(prev: Links, next: Links, ring: seq<Link>) {
    forall i {:trigger next[ring[i]]} :: 0 <= i < |ring| ==>
      ring[i] in next && next[ring[i]] in prev && prev[next[ring[i]]] == ring[i]
  }

  ghost predicate RingOk(prev: Links, next: Links, ring: seq<Link>) {
    |ring| > 0 && ring[0] == Sentinel && Distinct(ring) && NextOk(next, ring) && PrevOk(prev, next, ring)
  }

  /** The list holds exactly the flagged entries of `m`, once each, and no other node has pointers. */
  ghost predicate ListOk(m: Table, prev: Links, next: Links, ring: seq<Link>) {
    && RingOk(prev, next, ring)
    && (forall i :: 0 < i < |ring| ==> ring[i].At? && CellAt(m, ring[i].key).Flagged())
    && (forall o :: CellAt(m, o).Flagged() ==> At(o) in ring)
    && (forall l :: l in prev || l in next ==> l.At? ==> CellAt(m, l.key).Flagged())
  }

  lemma NextAppend(next: Links, ring: seq<Link>, x: Link)
    requires |ring| > 0 && NextOk(next, ring) && Distinct(ring) && x !in ring
    ensures NextOk(next[x := ring[0]][ring[|ring| - 1] := x], ring + [x])
  {
    var r, n := ring + [x], next[x := ring[0]][ring[|ring| - 1] := x];
    forall i | 0 <= i < |r| - 1 ensures n[r[i]] == r[i + 1] {
      assert i < |ring| - 1 ==> next[ring[i]] == ring[i + 1];
    }
  }

  lemma RingAppend(prev: Links, next: Links, ring: seq<Link>, x: Link)
    requires RingOk(prev, next, ring) && x !in ring
    ensures Sentinel in prev && prev[Sentinel] in next
    ensures RingOk(prev[x := prev[Sentinel]][Sentinel := x], next[x := Sentinel][prev[Sentinel] := x], ring + [x])
  {
    var l := ring[|ring| - 1];
    assert next[l] == Sentinel;
    NextAppend(next, ring, x);
    var r, p, n := ring + [x], prev[x := l][Sentinel := x], next[x := Sentinel][l := x];
    forall i | 0 <= i < |r| ensures r[i] in n && n[r[i]] in p && p[n[r[i]]] == r[i] {
      if i < |ring| - 1 {
        assert r[i] == ring[i];
        assert next[ring[i]] == ring[i + 1];
      }
    }
  }

  /** `r` is `ring` without its `i`-th element. */
  ghost predicate Without(r: seq<Link>, ring: seq<Link>, i: nat) {
    && i < |ring| && |r| == |ring| - 1
    && (forall j {:trigger r[j]} :: 0 <= j < |r| ==> r[j] == ring[if j < i then j else j + 1])
  }

  lemma DistinctWithout(r: seq<Link>, ring: seq<Link>, i: nat)
    requires Without(r, ring, i) && Distinct(ring)
    ensures Distinct(r)
  {}

  lemma NextWithout(next: Links, r: seq<Link>, ring: seq<Link>, i: nat)
    requires Without(r, ring, i) && Distinct(ring) && NextOk(next, ring) && 0 < i
    ensures NextOk(next[ring[i - 1] := next[ring[i]]], r)
  {
    var n := next[ring[i - 1] := next[ring[i]]];
    forall j | 0 <= j < |r| - 1 ensures n[r[j]] == r[j + 1] {
      var k := if j < i then j else j + 1;
      assert r[j] == ring[k];
      if k == i - 1 {
        assert next[ring[i]] == ring[i + 1];
      } else {
        assert next[ring[k]] == ring[k + 1];
        assert ring[k] != ring[i - 1];
      }
    }
  }

  lemma PrevWithout(prev: Links, next: Links, r: seq<Link>, ring: seq<Link>, i: nat)
    requires Without(r, ring, i) && Distinct(ring) && NextOk(next, ring) && PrevOk(prev, next, ring) && 0 < i
    ensures PrevOk(prev[next[ring[i]] := ring[i - 1]], next[ring[i - 1] := next[ring[i]]], r)
  {
    var p, n := prev[next[ring[i]] := ring[i - 1]], next[ring[i - 1] := next[ring[i]]];
    forall j | 0 <= j < |r| ensures r[j] in n && n[r[j]] in p && p[n[r[j]]] == r[j] {
      var k := if j < i then j else j + 1;
      assert r[j] == ring[k];
      assert prev[next[ring[k]]] == ring[k] != ring[i] == prev[next[ring[i]]];
    }
  }

  lemma RingRemove(prev: Links, next: Links, r: seq<Link>, ring: seq<Link>, i: nat)
    requires RingOk(prev, next, ring) && 0 < i && Without(r, ring, i)
    ensures var x := ring[i];
      && x in next && x in prev && prev[x] in next
      && RingOk(prev[next[x] := prev[x]], next[prev[x] := next[x]], r)
  {
    assert next[ring[i - 1]] == ring[i];
    assert prev[ring[i]] == ring[i - 1];
    DistinctWithout(r, ring, i);
    NextWithout(next, r, ring, i);
    PrevWithout(prev, next, r, ring, i);
  }

  lemma ListAppend(m: Table, prev: Links, next: Links, ring: seq<Link>, o: OutPoint, e: Entry)
    requires ListOk(m, prev, next, ring) && !CellAt(m, o).Flagged() && e.Flagged()
    ensures Sentinel in prev
    ensures ListOk(m[o := e], prev[At(o) := prev[Sentinel]][Sentinel := At(o)],
                   next[At(o) := Sentinel][prev[Sentinel] := At(o)],
                   ring + [At(o)])
  {
    hide NextOk, PrevOk, Distinct;
    RingAppend(prev, next, ring, At(o));
    hide RingOk;
    forall k | CellAt(m[o := e], k).Flagged() ensures At(k) in ring + [At(o)] {
      assert k != o ==> CellAt(m, k).Flagged();
    }
  }

  lemma ListRemove(m: Table, prev: Links, next: Links, r: seq<Link>, ring: seq<Link>, i: nat, c: Coin)
    requires ListOk(m, prev, next, ring) && 0 < i && Without(r, ring, i)
    ensures var x := ring[i];
      && x in next && x in prev && prev[x] in next && x.At?
      && ListOk(m[x.key := Cached(c, false, false)], prev[next[x] := prev[x]] - {x}, next[prev[x] := next[x]] - {x}, r)
  {
    hide NextOk, PrevOk;
    var x := ring[i];
    RingRemove(prev, next, r, ring, i);
    RingShrink(prev[next[x] := prev[x]], next[prev[x] := next[x]], r, x);
    RingNeighbours(prev, next, ring, i);
    forall k | k != x.key && CellAt(m, k).Flagged() ensures At(k) in r {
      var j :| 0 <= j < |ring| && ring[j] == At(k);
      assert r[if j < i then j else j - 1] == At(k);
    }
  }

  lemma RingNeighbours(prev: Links, next: Links, ring: seq<Link>, i: nat)
    requires RingOk(prev, next, ring) && 0 < i < |ring|
    ensures ring[i] in next && ring[i] in prev
    ensures next[ring[i]] in prev && prev[ring[i]] in next
  {
    assert next[ring[i - 1]] == ring[i];
  }

  lemma RingShrink(prev: Links, next: Links, ring: seq<Link>, x: Link)
    requires RingOk(prev, next, ring) && x !in ring
    ensures RingOk(prev - {x}, next - {x}, ring)
  {
    forall i | 0 <= i < |ring| ensures next[ring[i]] != x {
      assert next[ring[i]] == ring[if i + 1 == |ring| then 0 else i + 1];
    }
  }

  lemma ListSame(m: Table, m': Table, prev: Links, next: Links, ring: seq<Link>)
    requires ListOk(m, prev, next, ring)
    requires forall k :: CellAt(m', k).Flagged() == CellAt(m, k).Flagged()
    ensures ListOk(m', prev, next, ring)
  {
    hide RingOk;
  }

  lemma ListFlagged(m: Table, prev: Links, next: Links, ring: seq<Link>, o: OutPoint)
    requires ListOk(m, prev, next, ring) && CellAt(m, o).Flagged()
    ensures |ring| > 1
  {
    hide NextOk, PrevOk, Distinct;
  }

  lemma ListNext(m: Table, prev: Links, next: Links, ring: seq<Link>, i: nat)
    requires ListOk(m, prev, next, ring) && i < |ring|
    ensures Distinct(ring) && ring[0] == Sentinel && forall k :: 0 < k < |ring| ==> ring[k].At?
    ensures ring[i] in next && next[ring[i]] == if i + 1 < |ring| then ring[i + 1] else Sentinel
    ensures 0 < i ==> ring[i].At? && CellAt(m, ring[i].key).Flagged()
  {
    assert i + 1 < |ring| ==> next[ring[i]] == ring[i + 1];
    assert ring[0] == Sentinel;
  }

  // ---------- Memory accounting ----------

  function CoinsOf(m: Table): View {
    map o | o in m :: m[o].coin
  }

  ghost function UsageSum(cs: View): nat {
    if cs == map[] then 0
    else
      var o :| o in cs;
      cs[o].Usage() + UsageSum(cs - {o})
  }

  lemma {:induction false} UsageSumRemove(cs: View, o: OutPoint)
    requires o in cs
    ensures UsageSum(cs) == cs[o].Usage() + UsageSum(cs - {o})
    decreases |cs|
  {
    var p :| p in cs && UsageSum(cs) == cs[p].Usage() + UsageSum(cs - {p});
    if p != o {
      UsageSumRemove(cs - {p}, o);
      UsageSumRemove(cs - {o}, p);
      assert cs - {p} - {o} == cs - {o} - {p};
    }
  }

  lemma UsageSumPut(cs: View, o: OutPoint, c: Coin)
    ensures UsageSum(cs[o := c]) == c.Usage() + UsageSum(cs - {o})
  {
    UsageSumRemove(cs[o := c], o);
    assert cs[o := c] - {o} == cs - {o};
  }

  lemma UsageSumDrop(m: Table, o: OutPoint)
    requires o in m
    ensures UsageSum(CoinsOf(m)) == m[o].coin.Usage() + UsageSum(CoinsOf(m - {o}))
  {
    UsageSumRemove(CoinsOf(m), o);
    assert CoinsOf(m) - {o} == CoinsOf(m - {o});
  }

  lemma UsageSumSet(m: Table, o: OutPoint, e: Entry)
    ensures UsageSum(CoinsOf(m[o := e])) == e.coin.Usage() + UsageSum(CoinsOf(m - {o}))
  {
    UsageSumPut(CoinsOf(m), o, e.coin);
    assert CoinsOf(m[o := e]) == CoinsOf(m)[o := e.coin];
    assert CoinsOf(m) - {o} == CoinsOf(m - {o});
  }

  // ---------- Views as plain maps ----------

  /** Views hold unspent coins only. */
  ghost predicate Canonical(v: View) {
    forall o :: o in v ==> v[o].Unspent?
  }

  function Put(v: View, o: OutPoint, c: Coin): View {
    if c.Spent? then v - {o} else v[o := c]
  }

  lemma SameView(v: View, w: View)
    requires Canonical(v) && Canonical(w)
    requires forall o :: Lookup(v, o) == Lookup(w, o)
    ensures v == w
  {
    forall o ensures o in v <==> o in w {
      assert Lookup(v, o) == Lookup(w, o);
    }
    forall o | o in v ensures v[o] == w[o] {
      assert Lookup(v, o) == Lookup(w, o);
    }
  }

  /** Every cell is legal over base view `b`, and the cache stands for the map `v`. */
  ghost predicate LayerOk(m: Table, v: View, b: View) {
    && Canonical(v)
    && (forall o :: CellOk(CellAt(m, o), Lookup(b, o)))
    && (forall o :: Lookup(v, o) == Resolve(CellAt(m, o), Lookup(b, o)))
  }

  function SetCell(m: Table, o: OutPoint, c: Cell): Table {
    if c.Cached? then m[o := c] else m - {o}
  }

  lemma SetTwice(m: Table, o: OutPoint, c: Entry, d: Entry)
    ensures m[o := c][o := d] == m[o := d]
  {}

  lemma LayerPut(m: Table, v: View, b: View, o: OutPoint, c: Cell)
    requires LayerOk(m, v, b) && CellOk(c, Lookup(b, o))
    ensures LayerOk(SetCell(m, o, c), Put(v, o, Resolve(c, Lookup(b, o))), b)
  {
    var m', v' := SetCell(m, o, c), Put(v, o, Resolve(c, Lookup(b, o)));
    forall k ensures CellOk(CellAt(m', k), Lookup(b, k)) && Lookup(v', k) == Resolve(CellAt(m', k), Lookup(b, k)) {
      assert CellOk(CellAt(m, k), Lookup(b, k)) && Lookup(v, k) == Resolve(CellAt(m, k), Lookup(b, k));
    }
  }

  lemma LayerAt(m: Table, v: View, b: View, o: OutPoint)
    requires LayerOk(m, v, b)
    ensures CellOk(CellAt(m, o), Lookup(b, o)) && Lookup(v, o) == Resolve(CellAt(m, o), Lookup(b, o))
    ensures o in v <==> Lookup(v, o).Unspent?
  {}

  lemma EmptyLayer(b: View)
    requires Canonical(b)
    ensures ListOk(map[], map[Sentinel := Sentinel], map[Sentinel := Sentinel], [Sentinel])
    ensures UsageSum(CoinsOf(map[])) == 0 && LayerOk(map[], b, b)
  {}

  lemma LayerCanonical(m: Table, v: View, b: View)
    requires LayerOk(m, v, b)
    ensures Canonical(v)
  {}

  /** On a miss the base decides, and its coin may be cached as a clean entry. */
  lemma LayerMiss(m: Table, v: View, b: View, o: OutPoint)
    requires LayerOk(m, v, b) && o !in m
    ensures Lookup(v, o) == Lookup(b, o)
    ensures Lookup(v, o).Unspent? ==> LayerOk(m[o := Cached(Lookup(v, o), false, false)], v, b)
  {
    assert CellAt(m, o) == Absent;
    assert Lookup(v, o) == Resolve(CellAt(m, o), Lookup(b, o));
    if Lookup(v, o).Unspent? {
      LayerPut(m, v, b, o, Cached(Lookup(v, o), false, false));
      assert Put(v, o, Lookup(v, o)) == v;
    }
  }

  /** Replacing a coin moves the recorded memory by the difference. */
  lemma UsageSetCell(m: Table, o: OutPoint, c: Cell)
    ensures UsageSum(CoinsOf(SetCell(m, o, c)))
         == UsageSum(CoinsOf(m)) - (if o in m then m[o].coin.Usage() else 0) + (if c.Cached? then c.coin.Usage() else 0)
    ensures o in m ==> m[o].coin.Usage() <= UsageSum(CoinsOf(m))
  {
    if o in m { UsageSumDrop(m, o); } else { assert m - {o} == m; }
    if c.Cached? { UsageSumSet(m, o, c); }
  }

  // ---------- Batch writes ----------

  /** `o` is among the first entries of the list, before position `i`. */
  ghost predicate Visited(ring: seq<Link>, i: int, o: OutPoint) {
    exists j :: 0 < j < i && j < |ring| && ring[j] == At(o)
  }

  /** What Sync leaves of a flagged entry. */
  function Synced(c: Cell): Cell {
    if c.Absent? || c.coin.Spent? then Absent else Cached(c.coin, false, false)
  }

  /** The receiver, once `v0`, has taken over the entries of `m` before position `i`. */
  ghost predicate Written(v: View, v0: View, m: Table, ring: seq<Link>, i: int) {
    && Canonical(v)
    && (forall o :: Lookup(v, o) == if Visited(ring, i, o) then Resolve(CellAt(m, o), Spent) else Lookup(v0, o))
  }

  /** The sender, once `m0` with list `ring0`, has been swept up to position `i`. */
  ghost predicate Swept(m: Table, ring: seq<Link>, m0: Table, ring0: seq<Link>, i: int, willErase: bool) {
    if willErase then m == m0 && ring == ring0
    else
      && |ring| == |ring0| - i + 1
      && (forall j {:trigger ring[j]} :: 0 < j < |ring| ==> 0 < i + j - 1 < |ring0| && ring[j] == ring0[i + j - 1])
      && (forall o :: CellAt(m, o) == if Visited(ring0, i, o) then Synced(CellAt(m0, o)) else CellAt(m0, o))
  }

  lemma VisitedStep(ring: seq<Link>, i: int, o: OutPoint)
    requires Distinct(ring) && 0 < i < |ring| && ring[i] == At(o)
    ensures !Visited(ring, i, o)
    ensures forall k :: Visited(ring, i + 1, k) <==> (Visited(ring, i, k) || k == o)
  {
    assert Visited(ring, i + 1, o);
    forall k | Visited(ring, i + 1, k) && k != o ensures Visited(ring, i, k) {
      var j :| 0 < j < i + 1 && j < |ring| && ring[j] == At(k);
    }
  }

  lemma WrittenStep(v: View, v0: View, m: Table, ring: seq<Link>, i: int, o: OutPoint)
    requires Distinct(ring) && 0 < i < |ring| && ring[i] == At(o)
    requires Written(v, v0, m, ring, i)
    ensures Lookup(v, o) == Lookup(v0, o)
    ensures Written(Put(v, o, Resolve(CellAt(m, o), Spent)), v0, m, ring, i + 1)
  {
    VisitedStep(ring, i, o);
    hide Visited;
  }

  lemma SweptStep(m: Table, ring: seq<Link>, m': Table, ring': seq<Link>, m0: Table, ring0: seq<Link>, i: int,
                  o: OutPoint)
    requires Distinct(ring0) && 0 < i < |ring0| && ring0[i] == At(o)
    requires Swept(m, ring, m0, ring0, i, false)
    requires m' == SetCell(m, o, Synced(CellAt(m, o))) && Without(ring', ring, 1)
    ensures CellAt(m, o) == CellAt(m0, o)
    ensures Swept(m', ring', m0, ring0, i + 1, false)
  {
    VisitedStep(ring0, i, o);
    hide Visited;
  }

  lemma VisitedFlagged(m: Table, prev: Links, next: Links, ring: seq<Link>, o: OutPoint)
    requires ListOk(m, prev, next, ring)
    ensures Visited(ring, |ring|, o) <==> CellAt(m, o).Flagged()
  {
    hide NextOk, PrevOk, Distinct;
    if CellAt(m, o).Flagged() {
      var j :| 0 <= j < |ring| && ring[j] == At(o);
    }
  }

  lemma SweepStart(m: Table, prev: Links, next: Links, ring: seq<Link>, v: View)
    requires ListOk(m, prev, next, ring) && Canonical(v)
    ensures Written(v, v, m, ring, 1) && forall e :: Swept(m, ring, m, ring, 1, e)
  {
    hide NextOk, PrevOk, Distinct;
  }

  lemma SweptAt(m: Table, r: seq<Link>, m0: Table, ring: seq<Link>, i: int, willErase: bool, o: OutPoint)
    requires Distinct(ring) && 0 < i < |ring| && ring[i] == At(o) && Swept(m, r, m0, ring, i, willErase)
    ensures CellAt(m, o) == CellAt(m0, o)
  {
    VisitedStep(ring, i, o);
  }

  lemma WrittenAt(v: View, v0: View, m: Table, ring: seq<Link>, i: int, o: OutPoint)
    requires Distinct(ring) && 0 < i < |ring| && ring[i] == At(o) && Written(v, v0, m, ring, i)
    ensures Lookup(v, o) == Lookup(v0, o)
  {
    VisitedStep(ring, i, o);
  }

  /** Taking over all flagged entries leaves the receiver with the sender's whole view. */
  lemma WrittenAll(w: View, m: Table, v: View, b: View, prev: Links, next: Links, ring: seq<Link>)
    requires LayerOk(m, v, b) && ListOk(m, prev, next, ring) && Written(w, b, m, ring, |ring|)
    ensures w == v
  {
    hide ListOk, Visited;
    forall o ensures Lookup(w, o) == Lookup(v, o) {
      LayerAt(m, v, b, o);
      VisitedFlagged(m, prev, next, ring, o);
    }
    SameView(w, v);
  }

  /** After a full sweep the sender's clean entries agree with the receiver, which now equals its view. */
  lemma SweptAll(m: Table, r: seq<Link>, m0: Table, v: View, b: View, prev: Links, next: Links, ring: seq<Link>)
    requires LayerOk(m0, v, b) && ListOk(m0, prev, next, ring) && Swept(m, r, m0, ring, |ring|, false)
    ensures LayerOk(m, v, v) && forall o :: CellAt(m, o) == Synced(CellAt(m0, o))
  {
    hide ListOk, Visited;
    forall o
      ensures CellAt(m, o) == Synced(CellAt(m0, o))
      ensures CellOk(CellAt(m, o), Lookup(v, o)) && Resolve(CellAt(m, o), Lookup(v, o)) == Lookup(v, o)
    {
      LayerAt(m0, v, b, o);
      VisitedFlagged(m0, prev, next, ring, o);
    }
  }

  // ---------- The database and the caches ----------

  /** The coins database at the bottom of the stack: a plain map. */
  class CoinsDb {
    var coins: View

    constructor ()
      ensures coins == map[]
    {
      coins := map[];
    }

    /** The database's BatchWrite: store unspent coins, erase spent ones. */
    method BatchWrite(child: CoinsCache, willErase: bool)
      requires child.Valid() && child.base == null && child.db == this
      modifies this, child
      ensures Canonical(coins) && coins == child.view == old(child.view)
      ensures child.Sweeping(coins, old(coins), old(child.cacheCoins), old(child.ring), |old(child.ring)|, willErase)
    {
      hide ListOk, LayerOk, Canonical, UsageSum, CoinsOf, Visited, Written, Swept;
      ghost var m0, ring0, v0 := child.cacheCoins, child.ring, coins;
      ListNext(m0, child.prev, child.next, ring0, 0);
      SweepStart(m0, child.prev, child.next, ring0, v0);
      var it := child.next[Sentinel];
      ghost var i := 1;
      while it != Sentinel
        invariant child.Sweeping(coins, v0, m0, ring0, i, willErase) && child.view == old(child.view)
        invariant it == if i < |ring0| then ring0[i] else Sentinel
        decreases |ring0| - i
      {
        ListNext(m0, old(child.prev), old(child.next), ring0, i);
        LayerAt(m0, child.view, v0, it.key);
        SweptAt(child.cacheCoins, child.ring, m0, ring0, i, willErase, it.key);
        var e := child.cacheCoins[it.key];
        if e.isDirty {
          ghost var v := coins;
          coins := if e.coin.Spent? then coins - {it.key} else coins[it.key := e.coin];
          it := child.Advance(it.key, willErase, v, v0, m0, ring0, i);
        }
        i := i + 1;
      }
      WrittenAll(coins, m0, child.view, v0, old(child.prev), old(child.next), ring0);
      LayerCanonical(m0, child.view, v0);
    }
  }

  class CoinsCache {
    const db: CoinsDb
    const base: CoinsCache?  // null when this cache sits directly on the database
    const overlay: bool      // a CoinsViewOverlay, which peeks instead of filling the layers below
    var cacheCoins: Table
    var prev: Links
    var next: Links
    var dirtyCount: nat
    var coinsUsage: nat

    ghost const below: seq<CoinsCache>  // the caches underneath, bottom first
    ghost var ring: seq<Link>           // the flagged list
    ghost var view: View                // the map this cache stands for

    ghost function BaseView(): View
      reads base, db
    {
      if base == null then db.coins else base.view
    }

    ghost predicate Counted()
      reads this
    {
      && ListOk(cacheCoins, prev, next, ring)
      && dirtyCount == |ring| - 1
      && coinsUsage == UsageSum(CoinsOf(cacheCoins))
    }

    /** The invariant of one layer relative to its base. */
    ghost predicate Local()
      reads this, base, db
    {
      Counted() && LayerOk(cacheCoins, view, BaseView())
    }

    /** The layers below, down to the database, form one stack. */
    ghost predicate Shape() {
      && base == (if below == [] then null else below[|below| - 1])
      && (forall i {:trigger below[i].below} :: 0 <= i < |below| ==> below[i].below == below[..i])
      && (forall i {:trigger below[i].base} :: 0 <= i < |below| ==>
          below[i].base == if i == 0 then null else below[i - 1])
      && (forall l :: l in below ==> l.db == db)
    }

    ghost predicate Valid()
      reads this, below, db
    {
      && Shape()
      && Canonical(db.coins)
      && Local()
      && (forall l :: l in below ==> l.Local())
    }

    /** No view of the stack has changed. */
    twostate predicate SameViews()
      reads this, below
    {
      view == old(view) && forall l :: l in below ==> l.view == old(l.view)
    }

    constructor OnDb(db: CoinsDb, overlay: bool)
      requires Canonical(db.coins)
      ensures Valid() && this.db == db && below == [] && view == db.coins
    {
      this.db, this.base, this.overlay, below := db, null, overlay, [];
      cacheCoins, prev, next := map[], map[Sentinel := Sentinel], map[Sentinel := Sentinel];
      dirtyCount, coinsUsage := 0, 0;
      ring, view := [Sentinel], db.coins;
      new;
      hide ListOk, LayerOk, UsageSum, Canonical;
      EmptyLayer(db.coins);
    }

    constructor OnCache(base: CoinsCache, overlay: bool)
      requires base.Valid()
      ensures Valid() && db == base.db && below == base.below + [base] && view == base.view
    {
      this.db, this.base, this.overlay, below := base.db, base, overlay, base.below + [base];
      cacheCoins, prev, next := map[], map[Sentinel := Sentinel], map[Sentinel := Sentinel];
      dirtyCount, coinsUsage := 0, 0;
      ring, view := [Sentinel], base.view;
      new;
      hide ListOk, LayerOk, UsageSum, CoinsOf, Canonical, Shape;
      LayerCanonical(base.cacheCoins, base.view, base.BaseView());
      ShapeOnBase();
      EmptyLayer(base.view);
    }

    lemma ShapeOnBase()
      requires base != null && base.Shape() && db == base.db && below == base.below + [base]
      ensures Shape()
    {}

    lemma BaseValid()
      requires Valid() && base != null
      ensures base.Valid() && below == base.below + [base]
    {
      hide LayerOk;
    }

    /** Nothing below points back up to this layer. */
    lemma Apart()
      requires Shape()
      ensures if base == null then below == [] else base in below
      ensures forall l :: l in below ==> l != this && l.base != this && l.db == db && (l.base == null || l.base != base)
    {
      forall l | l in below ensures l != this && l.base != this && (l.base == null || l.base != base) {
        var i :| 0 <= i < |below| && below[i] == l;
        assert |below[i].below| == i;
        if i > 0 { assert below[i].base == below[i - 1] && |below[i - 1].below| == i - 1; }
        assert |below[|below| - 1].below| == |below| - 1;
      }
    }

    lemma BaseCanonical()
      requires Valid()
      ensures Canonical(BaseView())
    {
      hide Counted;
      if base != null { assert base in below; }
    }

    // ----- the linked list -----

    /** AddFlags: link an unflagged entry in front of the sentinel, then raise the flags. */
    method AddFlags(o: OutPoint, dirty: bool, isFresh: bool)
      requires o in cacheCoins && (dirty || isFresh)
      requires ListOk(cacheCoins, prev, next, ring)
      modifies `cacheCoins, `prev, `next, `ring
      ensures ListOk(cacheCoins, prev, next, ring)
      ensures |ring| == |old(ring)| + if old(cacheCoins[o].Flagged()) then 0 else 1
      ensures cacheCoins == old(cacheCoins)[o :=
                Cached(old(cacheCoins)[o].coin, dirty || old(cacheCoins)[o].isDirty,
                       isFresh || old(cacheCoins)[o].isFresh)]
    {
      hide NextOk, PrevOk, Distinct;
      if !cacheCoins[o].Flagged() {
        ListAppend(cacheCoins, prev, next, ring, o,
            Cached(cacheCoins[o].coin, dirty || cacheCoins[o].isDirty, isFresh || cacheCoins[o].isFresh));
        prev := prev[At(o) := prev[Sentinel]];
        next := next[At(o) := Sentinel];
        prev := prev[Sentinel := At(o)];
        next := next[prev[At(o)] := At(o)];
        ring := ring + [At(o)];
      }
      var e := Cached(cacheCoins[o].coin, dirty || cacheCoins[o].isDirty, isFresh || cacheCoins[o].isFresh);
      cacheCoins := cacheCoins[o := e];
    }

    /** SetClean: unlink a flagged entry and lower its flags. */
    method SetClean(o: OutPoint)
      requires o in cacheCoins
      requires ListOk(cacheCoins, prev, next, ring)
      modifies `cacheCoins, `prev, `next, `ring
      ensures ListOk(cacheCoins, prev, next, ring)
      ensures |ring| == |old(ring)| - if old(cacheCoins[o].Flagged()) then 1 else 0
      ensures |old(ring)| > 1 && old(ring)[1] == At(o) ==> Without(ring, old(ring), 1)
      ensures cacheCoins == old(cacheCoins)[o := Cached(old(cacheCoins)[o].coin, false, false)]
    {
      hide NextOk, PrevOk, Distinct;
      if cacheCoins[o].Flagged() {
        assert At(o) in ring && ring[0] != At(o);
        ghost var i := if ring[1] == At(o) then 1 else var j :| 0 < j < |ring| && ring[j] == At(o); j;
        ghost var r := ring[..i] + ring[i + 1..];
        ListRemove(cacheCoins, prev, next, r, ring, i, cacheCoins[o].coin);
        prev := prev[next[At(o)] := prev[At(o)]];
        next := next[prev[At(o)] := next[At(o)]];
        prev, next := prev - {At(o)}, next - {At(o)};
        cacheCoins := cacheCoins[o := Cached(cacheCoins[o].coin, false, false)];
        ring := r;
      }
    }

    /** Erasing a map node runs the entry's destructor, which is SetClean. */
    method Erase(o: OutPoint)
      requires o in cacheCoins
      requires ListOk(cacheCoins, prev, next, ring)
      modifies `cacheCoins, `prev, `next, `ring
      ensures ListOk(cacheCoins, prev, next, ring)
      ensures |ring| == |old(ring)| - if old(cacheCoins[o].Flagged()) then 1 else 0
      ensures |old(ring)| > 1 && old(ring)[1] == At(o) ==> Without(ring, old(ring), 1)
      ensures cacheCoins == old(cacheCoins) - {o}
    {
      hide ListOk;
      SetClean(o);
      ListSame(cacheCoins, cacheCoins - {o}, prev, next, ring);
      cacheCoins := cacheCoins - {o};
    }

    // ----- reading -----

    method PeekCoin(o: OutPoint) returns (c: Coin)
      requires Valid()
      ensures c == Lookup(view, o)
      decreases |below|
    {
      hide ListOk, CellOk;
      if o in cacheCoins {
        c := cacheCoins[o].coin;
      } else if base == null {
        c := Lookup(db.coins, o);
      } else {
        BaseValid();
        c := base.PeekCoin(o);
      }
    }

    /** An overlay peeks at its base; a plain cache lets the base cache the coin too. */
    method FetchCoinFromBase(o: OutPoint) returns (c: Coin)
      requires Valid()
      modifies below
      ensures Valid() && SameViews()
      ensures c == Lookup(BaseView(), o)
      decreases |below|, 0
    {
      hide Counted, LayerOk, Canonical;
      if base == null {
        c := Lookup(db.coins, o);
      } else {
        BaseValid();
        if overlay { c := base.PeekCoin(o); } else { c := base.GetCoin(o); }
      }
    }

    /** On a miss, bring the base's coin in as a clean entry.  No view changes, here or below. */
    method FetchCoin(o: OutPoint) returns (found: bool)
      requires Valid()
      modifies this, below
      ensures Valid() && SameViews()
      ensures found <==> o in cacheCoins
      ensures cacheCoins == if o in old(cacheCoins) || Lookup(view, o).Spent? then old(cacheCoins)
                            else old(cacheCoins)[o := Cached(Lookup(view, o), false, false)]
      decreases |below|, 1
    {
      hide ListOk, LayerOk, Canonical, UsageSum, CoinsOf, Shape;
      Apart();
      if o in cacheCoins { return true; }
      var c := FetchCoinFromBase(o);
      LayerMiss(cacheCoins, view, BaseView(), o);
      if c.Spent? { return false; }
      UsageSetCell(cacheCoins, o, Cached(c, false, false));
      ListSame(cacheCoins, cacheCoins[o := Cached(c, false, false)], prev, next, ring);
      cacheCoins := cacheCoins[o := Cached(c, false, false)];
      coinsUsage := coinsUsage + c.Usage();
      return true;
    }

    method GetCoin(o: OutPoint) returns (c: Coin)
      requires Valid()
      modifies this, below
      ensures Valid() && SameViews()
      ensures c == Lookup(view, o)
      decreases |below|, 2
    {
      var found := FetchCoin(o);
      c := if found then cacheCoins[o].coin else Spent;
    }

    // ----- modifying -----

    /** Put a coin in the entry for `o`, creating it if need be, mark it dirty and keep the counters exact. */
    method Store(o: OutPoint, coin: Coin, isFresh: bool)
      requires Counted() && (o in cacheCoins && cacheCoins[o].isFresh ==> cacheCoins[o].isDirty)
      modifies `cacheCoins, `prev, `next, `ring, `dirtyCount, `coinsUsage
      ensures Counted()
      ensures cacheCoins ==
        old(cacheCoins)[o := Cached(coin, true, isFresh || (o in old(cacheCoins) && old(cacheCoins)[o].isFresh))]
    {
      hide ListOk, UsageSum, CoinsOf;
      ghost var m := cacheCoins;
      UsageSetCell(m, o, Cached(coin, true, isFresh || (o in m && m[o].isFresh)));
      if CellAt(m, o).Flagged() { ListFlagged(m, prev, next, ring, o); }
      var wasDirty := o in cacheCoins && cacheCoins[o].isDirty;
      var wasFresh := o in cacheCoins && cacheCoins[o].isFresh;
      if o in cacheCoins {
        dirtyCount := dirtyCount - if wasDirty then 1 else 0;
        coinsUsage := coinsUsage - cacheCoins[o].coin.Usage();
      }
      cacheCoins := cacheCoins[o := Cached(coin, wasDirty, wasFresh)];
      ListSame(m, cacheCoins, prev, next, ring);
      AddFlags(o, true, false);
      SetTwice(m, o, Cached(coin, wasDirty, wasFresh), Cached(coin, true, wasFresh));
      dirtyCount := dirtyCount + 1;
      if isFresh {
        AddFlags(o, false, true);
        SetTwice(m, o, Cached(coin, true, wasFresh), Cached(coin, true, true));
      }
      coinsUsage := coinsUsage + coin.Usage();
    }

    /** Drop the entry for `o` and keep the counters exact. */
    method Drop(o: OutPoint)
      requires Counted() && o in cacheCoins && (cacheCoins[o].isFresh ==> cacheCoins[o].isDirty)
      modifies `cacheCoins, `prev, `next, `ring, `dirtyCount, `coinsUsage
      ensures Counted() && cacheCoins == old(cacheCoins) - {o}
    {
      hide ListOk, UsageSum, CoinsOf;
      UsageSetCell(cacheCoins, o, Absent);
      if cacheCoins[o].Flagged() { ListFlagged(cacheCoins, prev, next, ring, o); }
      dirtyCount := dirtyCount - if cacheCoins[o].isDirty then 1 else 0;
      coinsUsage := coinsUsage - cacheCoins[o].coin.Usage();
      Erase(o);
    }

    /**
     AddCoin.  The call throws when it would silently overwrite an unspent entry of this cache.
     It keeps the invariant, and puts the coin in the view, whenever the caller announced a
     possible overwrite or the view holds no coin there; `AddCellExact` shows that nothing less will do.
     */
    method AddCoin(o: OutPoint, coin: Coin, overwrite: bool) returns (thrown: bool)
      requires Valid() && coin.Unspent?
      modifies this
      ensures Counted()
      ensures thrown <==> !coin.unspendable && AddCell(old(CellAt(cacheCoins, o)), coin, overwrite).Thrown?
      ensures thrown || coin.unspendable ==> unchanged(this)
      ensures !thrown && !coin.unspendable ==>
                cacheCoins == old(cacheCoins)[o := AddCell(old(CellAt(cacheCoins, o)), coin, overwrite).cell]
      ensures !coin.unspendable && (overwrite || Lookup(old(view), o).Spent?) ==>
                !thrown && Valid() && view == old(view)[o := coin]
    {
      hide ListOk, LayerOk, Canonical, UsageSum, CoinsOf, Shape;
      Apart();
      if coin.unspendable { return false; }
      LayerAt(cacheCoins, view, BaseView(), o);
      var isFresh := false;
      if !overwrite {
        if o in cacheCoins && cacheCoins[o].coin.Unspent? { return true; }
        isFresh := !(o in cacheCoins && cacheCoins[o].isDirty);
      }
      AddCellExact(CellAt(cacheCoins, o), Lookup(BaseView(), o), coin, overwrite);
      if overwrite || Lookup(view, o).Spent? {
        LayerPut(cacheCoins, view, BaseView(), o, AddCell(CellAt(cacheCoins, o), coin, overwrite).cell);
      }
      Store(o, coin, isFresh);
      view := view[o := coin];
      return false;
    }

    /**
     SpendCoin.  `found` says that an entry existed, which may already be spent here;
     whatever it says, afterwards the view holds no coin at `o` and is otherwise unchanged.
     */
    method SpendCoin(o: OutPoint) returns (found: bool, moved: Coin)
      requires Valid()
      modifies this, below
      ensures Valid() && view == old(view) - {o}
      ensures forall l :: l in below ==> l.view == old(l.view)
      ensures found <==> o in old(cacheCoins) || o in old(view)
      ensures moved == Lookup(old(view), o)
    {
      hide ListOk, LayerOk, Canonical, UsageSum, CoinsOf, Shape;
      Apart();
      found := FetchCoin(o);
      LayerAt(cacheCoins, view, BaseView(), o);
      moved := Spent;
      if !found { return; }
      SpendCellKeeps(CellAt(cacheCoins, o), Lookup(BaseView(), o));
      LayerPut(cacheCoins, view, BaseView(), o, SpendCell(CellAt(cacheCoins, o)));
      moved := cacheCoins[o].coin;
      if cacheCoins[o].isFresh {
        Drop(o);
      } else {
        Store(o, Spent, false);
      }
      view := view - {o};
    }

    /** Uncache forgets a clean entry and changes no view. */
    method Uncache(o: OutPoint)
      requires Valid()
      modifies this
      ensures Valid() && view == old(view)
      ensures cacheCoins == if CellAt(old(cacheCoins), o).Flagged() then old(cacheCoins) else old(cacheCoins) - {o}
    {
      hide ListOk, LayerOk, Canonical, UsageSum, CoinsOf, Shape;
      Apart();
      LayerAt(cacheCoins, view, BaseView(), o);
      if o in cacheCoins && !cacheCoins[o].isDirty {
        LayerPut(cacheCoins, view, BaseView(), o, Absent);
        assert Put(view, o, Lookup(view, o)) == view;
        Drop(o);
      }
    }

    /** One of the two operations that change no view. */
    method ReadOrUncache(o: OutPoint, read: bool)
      requires Valid()
      modifies this, below
      ensures Valid() && SameViews()
    {
      hide Counted, LayerOk, Shape;
      if read {
        var c := GetCoin(o);
      } else {
        Apart();
        Uncache(o);
      }
    }

    /** Reset throws every entry away, which reverts the view to the base's. */
    method Reset()
      requires Valid()
      modifies this
      ensures Valid() && view == BaseView() && cacheCoins == map[]
    {
      hide ListOk, LayerOk, UsageSum, Canonical, Shape;
      Apart();
      BaseCanonical();
      EmptyLayer(BaseView());
      cacheCoins, prev, next := map[], map[Sentinel := Sentinel], map[Sentinel := Sentinel];
      coinsUsage, dirtyCount := 0, 0;
      ring, view := [Sentinel], BaseView();
    }

    // ----- flushing -----

    /** NextAndMaybeErase, called on the node at position `i` of the list. */
    method NextAndMaybeErase(o: OutPoint, willErase: bool, ghost i: nat) returns (succ: Link)
      requires ListOk(cacheCoins, prev, next, ring) && 0 < i < |ring| && ring[i] == At(o)
      requires dirtyCount > 0 && o in cacheCoins && cacheCoins[o].isDirty && (!willErase ==> i == 1)
      modifies `cacheCoins, `prev, `next, `ring, `dirtyCount
      ensures ListOk(cacheCoins, prev, next, ring)
      ensures succ == if i + 1 < |old(ring)| then old(ring)[i + 1] else Sentinel
      ensures dirtyCount == old(dirtyCount) - 1
      ensures willErase ==> cacheCoins == old(cacheCoins) && ring == old(ring)
      ensures !willErase ==>
        Without(ring, old(ring), 1) && cacheCoins == SetCell(old(cacheCoins), o, Synced(old(cacheCoins)[o]))
    {
      ListNext(cacheCoins, prev, next, ring, i);
      hide ListOk;
      succ := next[At(o)];
      dirtyCount := dirtyCount - 1;
      if !willErase {
        if cacheCoins[o].coin.Spent? { Erase(o); } else { SetClean(o); }
      }
    }

    /**
     One iteration of BatchWrite: an entry of the child arrives at this cache.  When its FRESH flag is
     truthful the call does not throw and the view takes the child's coin.
     */
    method WriteEntry(o: OutPoint, coin: Coin, isFresh: bool) returns (thrown: bool)
      requires Local() && base != this
      modifies this
      ensures Counted()
      ensures thrown <==> WriteCell(old(CellAt(cacheCoins, o)), coin, isFresh).Thrown?
      ensures thrown ==> unchanged(this)
      ensures !thrown ==>
        cacheCoins == SetCell(old(cacheCoins), o, WriteCell(old(CellAt(cacheCoins, o)), coin, isFresh).cell)
      ensures (isFresh ==> Lookup(old(view), o).Spent?) ==> !thrown && Local() && view == Put(old(view), o, coin)
    {
      hide ListOk, LayerOk, Canonical, UsageSum, CoinsOf;
      LayerAt(cacheCoins, view, BaseView(), o);
      WriteCellExact(CellAt(cacheCoins, o), Lookup(BaseView(), o), coin, isFresh);
      if isFresh ==> Lookup(view, o).Spent? {
        LayerPut(cacheCoins, view, BaseView(), o, WriteCell(CellAt(cacheCoins, o), coin, isFresh).cell);
      }
      if o !in cacheCoins {
        if isFresh && coin.Spent? {
          assert cacheCoins - {o} == cacheCoins;
        } else {
          Store(o, coin, isFresh);
        }
      } else if isFresh && cacheCoins[o].coin.Unspent? {
        return true;
      } else if cacheCoins[o].isFresh && coin.Spent? {
        Drop(o);
      } else {
        Store(o, coin, false);
      }
      view := Put(view, o, coin);
      return false;
    }

    /** This cache, still to be swept from position `i`, and a receiver with view `v`, once `v0`. */
    ghost predicate Sweeping(v: View, v0: View, m0: Table, ring0: seq<Link>, i: nat, willErase: bool)
      reads this
    {
      && 1 <= i <= |ring0| && Written(v, v0, m0, ring0, i)
      && ListOk(cacheCoins, prev, next, ring)
      && Swept(cacheCoins, ring, m0, ring0, i, willErase)
      && dirtyCount == |ring0| - i && coinsUsage == UsageSum(CoinsOf(cacheCoins))
    }

    /** The cursor moves on once the receiver has taken over the entry it points to. */
    method Advance(o: OutPoint, willErase: bool, ghost v: View, ghost v0: View, ghost m0: Table,
                   ghost ring0: seq<Link>, ghost i: nat)
      returns (succ: Link)
      requires Sweeping(v, v0, m0, ring0, i, willErase) && Distinct(ring0)
      requires i < |ring0| && ring0[i] == At(o) && CellAt(m0, o).Cached? && CellAt(m0, o).isDirty
      modifies `cacheCoins, `prev, `next, `ring, `dirtyCount
      ensures Sweeping(Put(v, o, CellAt(m0, o).coin), v0, m0, ring0, i + 1, willErase)
      ensures succ == if i + 1 < |ring0| then ring0[i + 1] else Sentinel
    {
      hide ListOk, Written, UsageSum, CoinsOf;
      WrittenStep(v, v0, m0, ring0, i, o);
      VisitedStep(ring0, i, o);
      ghost var m, r := cacheCoins, ring;
      succ := NextAndMaybeErase(o, willErase, if willErase then i else 1);
      if !willErase {
        SweptStep(m, r, cacheCoins, ring, m0, ring0, i, o);
        UsageSetCell(m, o, Synced(m[o]));
      }
    }

    /** BatchWrite: take over every flagged entry of the cache above.  The call never throws. */
    method BatchWrite(child: CoinsCache, willErase: bool) returns (thrown: bool)
      requires child.Valid() && child.base == this
      modifies this, child
      ensures !thrown && Local() && view == child.view == old(child.view)
      ensures child.Sweeping(view, old(view), old(child.cacheCoins), old(child.ring), |old(child.ring)|, willErase)
    {
      hide ListOk, LayerOk, Canonical, UsageSum, CoinsOf, Shape, Visited, Written, Swept;
      child.Apart();
      child.BaseCanonical();
      child.BaseValid();
      Apart();
      ghost var m0, ring0, v0 := child.cacheCoins, child.ring, view;
      ListNext(m0, child.prev, child.next, ring0, 0);
      SweepStart(m0, child.prev, child.next, ring0, v0);
      var it := child.next[Sentinel];
      ghost var i := 1;
      while it != Sentinel
        invariant Local() && child.Sweeping(view, v0, m0, ring0, i, willErase) && child.view == old(child.view)
        invariant it == if i < |ring0| then ring0[i] else Sentinel
        decreases |ring0| - i
      {
        ListNext(m0, old(child.prev), old(child.next), ring0, i);
        LayerAt(m0, child.view, v0, it.key);
        SweptAt(child.cacheCoins, child.ring, m0, ring0, i, willErase, it.key);
        WrittenAt(view, v0, m0, ring0, i, it.key);
        var e := child.cacheCoins[it.key];
        if e.isDirty {
          ghost var v := view;
          thrown := WriteEntry(it.key, e.coin, e.isFresh);
          if thrown { return; }
          it := child.Advance(it.key, willErase, v, v0, m0, ring0, i);
        }
        i := i + 1;
      }
      WrittenAll(view, m0, child.view, v0, old(child.prev), old(child.next), ring0);
      return false;
    }

    /** Hand the flagged entries to the base, whichever it is. */
    method WriteToBase(willErase: bool) returns (thrown: bool)
      requires Valid()
      modifies this, if base == null then {db} else {base}
      ensures !thrown && Canonical(db.coins) && Canonical(view) && BaseView() == view == old(view)
      ensures base != null ==> base.Local()
      ensures Sweeping(view, old(BaseView()), old(cacheCoins), old(ring), |old(ring)|, willErase)
    {
      hide Counted, LayerOk, Canonical, Shape, Written, Swept, ListOk;
      LayerCanonical(cacheCoins, view, BaseView());
      if base == null {
        db.BatchWrite(this, willErase);
        return false;
      } else {
        thrown := base.BatchWrite(this, willErase);
      }
    }

    /** Flush pushes everything down and empties the cache: the base takes over this cache's view. */
    method Flush() returns (thrown: bool)
      requires Valid()
      modifies this, if base == null then {db} else {base}
      ensures !thrown && Valid() && view == old(view) == BaseView() && cacheCoins == map[]
    {
      hide LayerOk, Canonical, Shape, UsageSum, CoinsOf, ListOk, Written, Swept;
      Apart();
      thrown := WriteToBase(true);
      if thrown { return; }
      Clear();
    }

    /** Forget every entry of a layer that shows its base. */
    method Clear()
      requires Shape() && Canonical(db.coins) && view == BaseView() && Canonical(view) && dirtyCount == 0
      requires forall l :: l in below ==> l.Local()
      modifies `cacheCoins, `prev, `next, `coinsUsage, `ring
      ensures Valid() && cacheCoins == map[]
    {
      hide LayerOk, Canonical, UsageSum, CoinsOf, ListOk;
      EmptyLayer(BaseView());
      cacheCoins, prev, next := map[], map[Sentinel := Sentinel], map[Sentinel := Sentinel];
      coinsUsage := 0;
      ring := [Sentinel];
    }

    /** Sync pushes everything down and keeps the unspent entries, now clean. */
    method Sync() returns (thrown: bool)
      requires Valid()
      modifies this, if base == null then {db} else {base}
      ensures !thrown && Valid() && view == old(view) == BaseView() && dirtyCount == 0
      ensures forall o :: CellAt(cacheCoins, o) == Synced(old(CellAt(cacheCoins, o)))
    {
      hide LayerOk, Canonical, Shape, UsageSum, CoinsOf, ListOk, Written;
      Apart();
      ghost var p, n := prev, next;
      thrown := WriteToBase(false);
      if thrown { return; }
      SweptAll(cacheCoins, ring, old(cacheCoins), view, old(BaseView()), p, n, old(ring));
      ListNext(cacheCoins, prev, next, ring, 0);
      // the sentinel must be alone on the list
      if next[Sentinel] != Sentinel { return true; }
    }

    /** The executable self-check: every one of its assertions holds in every reachable state. */
    method SanityCheck() returns (ok: bool)
      requires Valid()
      ensures ok
    {
      hide UsageSum, CoinsOf, Canonical, Shape, ListOk, LayerOk, DirtyKeys;
      ghost var b := BaseView();
      var usage, dirty, linked := 0, 0, 0;
      var rest := cacheCoins.Keys;
      ok := true;
      WholeTable(cacheCoins);
      while rest != {}
        invariant ok && rest <= cacheCoins.Keys
        invariant usage + UsageSum(CoinsOf(Only(cacheCoins, rest))) == coinsUsage
        invariant dirty + |DirtyKeys(cacheCoins, rest)| == |DirtyKeys(cacheCoins, cacheCoins.Keys)|
      {
        SomeKey(rest);
        var o :| o in rest;
        var entry := cacheCoins[o];
        LayerAt(cacheCoins, view, b, o);
        if entry.coin.Spent? {
          ok := ok && entry.isDirty && !entry.isFresh;
        } else {
          ok := ok && (entry.isDirty || !entry.isFresh);
        }
        VisitKey(cacheCoins, rest, o);
        usage := usage + entry.coin.Usage();
        if entry.isDirty { dirty := dirty + 1; }
        rest := rest - {o};
      }
      NoKeys(cacheCoins);
      DirtyListed(cacheCoins, view, b, prev, next, ring);
      ListNext(cacheCoins, prev, next, ring, 0);
      var it := next[Sentinel];
      ghost var i := 1;
      while it != Sentinel
        invariant ok && 1 <= i <= |ring| && linked == i - 1 && it == if i < |ring| then ring[i] else Sentinel
        decreases |ring| - i
      {
        ListNext(cacheCoins, prev, next, ring, i);
        LinkedBothWays(cacheCoins, prev, next, ring, i);
        LayerAt(cacheCoins, view, b, it.key);
        ok := ok && prev[next[it]] == it && next[prev[it]] == it && cacheCoins[it.key].isDirty;
        linked := linked + 1;
        it := next[it];
        i := i + 1;
      }
      ok := ok && dirty == linked && dirty == dirtyCount && usage == coinsUsage;
    }
  }

  // ---------- The self-check ----------

  function Only(m: Table, s: set<OutPoint>): Table {
    map o | o in m && o in s :: m[o]
  }

  ghost function DirtyKeys(m: Table, s: set<OutPoint>): set<OutPoint> {
    set o | o in s && o in m && m[o].isDirty
  }

  lemma WholeTable(m: Table)
    ensures Only(m, m.Keys) == m
  {}

  lemma SomeKey(s: set<OutPoint>)
    requires s != {}
    ensures exists o :: o in s
  {
    if forall o :: o !in s { assert false; }
  }

  lemma NoKeys(m: Table)
    ensures UsageSum(CoinsOf(Only(m, {}))) == 0 && DirtyKeys(m, {}) == {}
  {
    assert CoinsOf(Only(m, {})) == map[];
  }

  lemma VisitKey(m: Table, s: set<OutPoint>, o: OutPoint)
    requires o in s && s <= m.Keys
    ensures UsageSum(CoinsOf(Only(m, s))) == m[o].coin.Usage() + UsageSum(CoinsOf(Only(m, s - {o})))
    ensures |DirtyKeys(m, s)| == |DirtyKeys(m, s - {o})| + if m[o].isDirty then 1 else 0
  {
    hide UsageSum, CoinsOf;
    UsageSumDrop(Only(m, s), o);
    assert Only(m, s) - {o} == Only(m, s - {o});
    assert DirtyKeys(m, s) == DirtyKeys(m, s - {o}) + if m[o].isDirty then {o} else {};
  }

  /** There are as many dirty entries as list members. */
  lemma DirtyListed(m: Table, v: View, b: View, prev: Links, next: Links, ring: seq<Link>)
    requires ListOk(m, prev, next, ring) && LayerOk(m, v, b)
    ensures |DirtyKeys(m, m.Keys)| == |ring| - 1
  {
    hide NextOk, PrevOk, Canonical;
    KeysSize(ring, |ring|);
    forall o ensures o in DirtyKeys(m, m.Keys) <==> o in KeysOf(ring, |ring|) {
      DirtyIsFlagged(m, v, b, o);
    }
    assert DirtyKeys(m, m.Keys) == KeysOf(ring, |ring|);
  }

  lemma DirtyIsFlagged(m: Table, v: View, b: View, o: OutPoint)
    requires LayerOk(m, v, b)
    ensures CellAt(m, o).Flagged() <==> o in m && m[o].isDirty
  {
    LayerAt(m, v, b, o);
  }

  ghost function KeysOf(ring: seq<Link>, n: int): set<OutPoint> {
    set i | 0 < i < n && i < |ring| && ring[i].At? :: ring[i].key
  }

  lemma {:induction false} KeysSize(ring: seq<Link>, n: nat)
    requires 1 <= n <= |ring| && Distinct(ring) && forall i :: 0 < i < |ring| ==> ring[i].At?
    ensures |KeysOf(ring, n)| == n - 1
    ensures forall o :: o in KeysOf(ring, n) <==> exists i :: 0 < i < n && ring[i] == At(o)
  {
    if n == 1 {
      assert KeysOf(ring, 1) == {};
    } else {
      KeysSize(ring, n - 1);
      var o := ring[n - 1].key;
      assert KeysOf(ring, n) == KeysOf(ring, n - 1) + {o};
    }
  }

  lemma LinkedBothWays(m: Table, prev: Links, next: Links, ring: seq<Link>, i: nat)
    requires ListOk(m, prev, next, ring) && 0 < i < |ring|
    ensures var x := ring[i];
      && x in next && x in prev && next[x] in prev && prev[x] in next
      && prev[next[x]] == x && next[prev[x]] == x
  {
    RingNeighbours(prev, next, ring, i);
    assert next[ring[i - 1]] == ring[i] && prev[next[ring[i - 1]]] == ring[i - 1];
    assert prev[next[ring[i]]] == ring[i];
  }

  // ---------- Runs of a whole stack ----------

  /** Operations on a stack.  Coins change at the top; layer `l` may be read, uncached, synced or flushed. */
  datatype Op =
    | Add(o: OutPoint, coin: Coin, overwrite: bool)
    | Spend(o: OutPoint)
    | Reset
    | Get(l: nat, o: OutPoint)
    | Uncache(l: nat, o: OutPoint)
    | Sync(l: nat)
    | Flush(l: nat)

  /** A stack seen as plain maps: the database, then one map per layer. */
  type Views = vs: seq<View> | |vs| >= 2 witness [map[], map[]]

  function Top(vs: Views): View { vs[|vs| - 1] }

  /** What the callers must respect: layers exist, and an overwrite of an unspent coin is announced. */
  predicate Permitted(vs: Views, op: Op) {
    match op
    case Add(o, coin, overwrite) => coin.Unspent? && (overwrite || coin.unspendable || o !in Top(vs))
    case Spend(_) => true
    case Reset => true
    case Get(l, _) => l < |vs| - 1
    case Uncache(l, _) => l < |vs| - 1
    case Sync(l) => l < |vs| - 1
    case Flush(l) => l < |vs| - 1
  }

  function StepViews(vs: Views, op: Op): (r: Views)
    requires Permitted(vs, op)
    ensures |r| == |vs|
  {
    match op
    case Add(o, coin, _) => if coin.unspendable then vs else vs[|vs| - 1 := Top(vs)[o := coin]]
    case Spend(o) => vs[|vs| - 1 := Top(vs) - {o}]
    case Reset => vs[|vs| - 1 := vs[|vs| - 2]]
    case Get(_, _) => vs
    case Uncache(_, _) => vs
    case Sync(l) => vs[l := vs[l + 1]]
    case Flush(l) => vs[l := vs[l + 1]]
  }

  ghost predicate PermittedRun(vs: Views, ops: seq<Op>)
    decreases |ops|
  {
    ops == [] || (Permitted(vs, ops[0]) && PermittedRun(StepViews(vs, ops[0]), ops[1..]))
  }

  ghost function RunViews(vs: Views, ops: seq<Op>): (r: Views)
    requires PermittedRun(vs, ops)
    ensures |r| == |vs|
    decreases |ops|
  {
    if ops == [] then vs else RunViews(StepViews(vs, ops[0]), ops[1..])
  }

  /** `stack` is a whole stack over `db`, bottom layer first. */
  ghost predicate StackOk(db: CoinsDb, stack: seq<CoinsCache>)
    reads db, stack
  {
    && stack != []
    && stack[|stack| - 1].db == db && stack[|stack| - 1].below == stack[..|stack| - 1]
    && stack[|stack| - 1].Valid()
  }

  ghost predicate Reflects(db: CoinsDb, stack: seq<CoinsCache>, vs: Views)
    reads db, stack
  {
    && |vs| == |stack| + 1
    && db.coins == vs[0]
    && forall i :: 0 <= i < |stack| ==> stack[i].view == vs[i + 1]
  }

  /** Any layer of a stack is the top of a smaller stack. */
  lemma SubShape(db: CoinsDb, stack: seq<CoinsCache>, l: nat)
    requires l < |stack| && stack[|stack| - 1].Shape()
    requires stack[|stack| - 1].db == db && stack[|stack| - 1].below == stack[..|stack| - 1]
    ensures stack[l].Shape() && stack[l].db == db && stack[l].below == stack[..l]
    ensures stack[l].base == if l == 0 then null else stack[l - 1]
  {
    var top := stack[|stack| - 1];
    if l < |stack| - 1 {
      assert top.below[l] == stack[l];
      assert top.below[l].below == top.below[..l];
      assert top.below[l].base == if l == 0 then null else top.below[l - 1];
      assert forall i :: 0 <= i < l ==> stack[i] == top.below[i];
    }
  }

  lemma Substack(db: CoinsDb, stack: seq<CoinsCache>, l: nat)
    requires StackOk(db, stack) && l < |stack|
    ensures stack[l].Valid()
  {
    hide CoinsCache.Counted, LayerOk;
    SubShape(db, stack, l);
    hide CoinsCache.Shape;
    assert forall i :: 0 <= i < |stack| - 1 ==> stack[|stack| - 1].below[i] == stack[i];
  }

  /** A valid substack with sound layers on top is a valid stack. */
  lemma Restack(db: CoinsDb, stack: seq<CoinsCache>, l: nat)
    requires l < |stack| && stack[|stack| - 1].Shape()
    requires stack[|stack| - 1].db == db && stack[|stack| - 1].below == stack[..|stack| - 1]
    requires stack[l].Valid() && forall k :: l < k < |stack| ==> stack[k].Local()
    ensures StackOk(db, stack)
  {
    hide CoinsCache.Counted, LayerOk;
    SubShape(db, stack, l);
    hide CoinsCache.Shape;
    forall k | 0 <= k < |stack| ensures stack[k].Local() {
      if k < l { assert stack[k] in stack[l].below; }
    }
  }

  lemma StackApart(db: CoinsDb, stack: seq<CoinsCache>)
    requires StackOk(db, stack)
    ensures forall i, j :: 0 <= i < j < |stack| ==> stack[i] != stack[j]
  {
    forall i, j | 0 <= i < j < |stack| ensures stack[i] != stack[j] {
      SubShape(db, stack, i);
      SubShape(db, stack, j);
      assert |stack[i].below| == i && |stack[j].below| == j;
    }
  }

  /** Reading or uncaching at any layer changes no view. */
  method StepQuiet(db: CoinsDb, stack: seq<CoinsCache>, l: nat, o: OutPoint, read: bool, ghost vs: Views)
    requires StackOk(db, stack) && Reflects(db, stack, vs) && l < |stack|
    modifies stack
    ensures StackOk(db, stack) && Reflects(db, stack, vs)
  {
    hide CoinsCache.Counted, LayerOk, CoinsCache.Shape;
    StackApart(db, stack);
    Substack(db, stack, l);
    SubShape(db, stack, l);
    assert forall k :: 0 <= k < l ==> stack[k] in stack[l].below;
    forall k | l < k < |stack| ensures stack[k].Local() && stack[k].base == stack[k - 1] {
      Substack(db, stack, k);
      SubShape(db, stack, k);
    }
    stack[l].ReadOrUncache(o, read);
    forall k | l < k < |stack| ensures stack[k].Local() {
      assert old(stack[k].Local());
      assert stack[k].base == stack[k - 1] && stack[k - 1].view == old(stack[k - 1].view);
      assert stack[k].BaseView() == old(stack[k].BaseView());
    }
    Restack(db, stack, l);
  }

  /** Syncing or flushing layer `l` copies its view onto the layer below. */
  method StepDown(db: CoinsDb, stack: seq<CoinsCache>, l: nat, erase: bool, ghost vs: Views)
    requires StackOk(db, stack) && Reflects(db, stack, vs) && l < |stack|
    modifies db, stack
    ensures StackOk(db, stack) && Reflects(db, stack, vs[l := vs[l + 1]])
  {
    hide CoinsCache.Counted, LayerOk, CoinsCache.Shape;
    StackApart(db, stack);
    Substack(db, stack, l);
    SubShape(db, stack, l);
    forall k | l < k < |stack| ensures stack[k].Local() && stack[k].base == stack[k - 1] {
      Substack(db, stack, k);
      SubShape(db, stack, k);
    }
    var thrown;
    if erase {
      thrown := stack[l].Flush();
    } else {
      thrown := stack[l].Sync();
    }
    forall k | l < k < |stack| ensures stack[k].Local() {
      assert old(stack[k].Local());
      assert stack[k].base == stack[k - 1] && stack[k - 1].view == old(stack[k - 1].view);
      assert stack[k].BaseView() == old(stack[k].BaseView());
    }
    Restack(db, stack, l);
  }

  /** Adding puts the coin in the top view. */
  method StepAdd(db: CoinsDb, stack: seq<CoinsCache>, o: OutPoint, coin: Coin, overwrite: bool, ghost vs: Views)
    requires StackOk(db, stack) && Reflects(db, stack, vs)
    requires Permitted(vs, Add(o, coin, overwrite)) && !coin.unspendable
    modifies stack
    ensures StackOk(db, stack) && Reflects(db, stack, vs[|vs| - 1 := Top(vs)[o := coin]])
  {
    hide CoinsCache.Counted, LayerOk, CoinsCache.Shape, AddCell;
    StackApart(db, stack);
    SubShape(db, stack, |stack| - 1);
    var top := stack[|stack| - 1];
    assert forall k :: 0 <= k < |stack| - 1 ==> stack[k] in top.below;
    var thrown := top.AddCoin(o, coin, overwrite);
  }

  /** Spending removes the coin from the top view. */
  method StepSpend(db: CoinsDb, stack: seq<CoinsCache>, o: OutPoint, ghost vs: Views)
    requires StackOk(db, stack) && Reflects(db, stack, vs)
    modifies stack
    ensures StackOk(db, stack) && Reflects(db, stack, vs[|vs| - 1 := Top(vs) - {o}])
  {
    hide CoinsCache.Counted, LayerOk, CoinsCache.Shape, AddCell;
    StackApart(db, stack);
    SubShape(db, stack, |stack| - 1);
    var top := stack[|stack| - 1];
    assert forall k :: 0 <= k < |stack| - 1 ==> stack[k] in top.below;
    assert Top(vs) == top.view;
    var found, moved := top.SpendCoin(o);
    assert top.view == Top(vs) - {o};
  }

  /** Resetting reverts the top view to the one below. */
  method StepReset(db: CoinsDb, stack: seq<CoinsCache>, ghost vs: Views)
    requires StackOk(db, stack) && Reflects(db, stack, vs)
    modifies stack
    ensures StackOk(db, stack) && Reflects(db, stack, vs[|vs| - 1 := vs[|vs| - 2]])
  {
    hide CoinsCache.Counted, LayerOk, CoinsCache.Shape, AddCell;
    StackApart(db, stack);
    SubShape(db, stack, |stack| - 1);
    var top := stack[|stack| - 1];
    assert forall k :: 0 <= k < |stack| - 1 ==> stack[k] in top.below;
    top.Reset();
  }

  /** Every permitted run of a stack of any depth is a run of plain maps. */
  method Run(db: CoinsDb, stack: seq<CoinsCache>, ops: seq<Op>, ghost vs: Views)
    requires StackOk(db, stack) && Reflects(db, stack, vs) && PermittedRun(vs, ops)
    modifies db, stack
    ensures StackOk(db, stack) && Reflects(db, stack, RunViews(vs, ops))
    decreases |ops|
  {
    if ops != [] {
      match ops[0] {
        case Get(l, o) => StepQuiet(db, stack, l, o, true, vs);
        case Uncache(l, o) => StepQuiet(db, stack, l, o, false, vs);
        case Sync(l) => StepDown(db, stack, l, false, vs);
        case Flush(l) => StepDown(db, stack, l, true, vs);
        case Add(o, coin, overwrite) => if !coin.unspendable { StepAdd(db, stack, o, coin, overwrite, vs); }
        case Spend(o) => StepSpend(db, stack, o, vs);
        case Reset => StepReset(db, stack, vs);
      }
      Run(db, stack, ops[1..], StepViews(vs, ops[0]));
    }
  }

  // ---------- What the runs amount to ----------

  /** One plain map, which knows nothing of layers. */
  function PlainStep(v: View, op: Op): View {
    match op
    case Add(o, coin, _) => if coin.Unspent? && !coin.unspendable then v[o := coin] else v
    case Spend(o) => v - {o}
    case _ => v
  }

  function PlainRun(v: View, ops: seq<Op>): View
    decreases |ops|
  {
    if ops == [] then v else PlainRun(PlainStep(v, ops[0]), ops[1..])
  }

  /** Caching is invisible: reads, uncaching, syncs and flushes at any layer do not touch the top view. */
  lemma {:induction false} TopIsPlain(vs: Views, ops: seq<Op>)
    requires PermittedRun(vs, ops) && Reset !in ops
    ensures Top(RunViews(vs, ops)) == PlainRun(Top(vs), ops)
    decreases |ops|
  {
    if ops != [] {
      assert ops[0] in ops;
      assert Top(StepViews(vs, ops[0])) == PlainStep(Top(vs), ops[0]);
      TopIsPlain(StepViews(vs, ops[0]), ops[1..]);
    }
  }

  /** Flush layers `n - 1` down to 0. */
  function FlushFrom(n: nat): seq<Op> {
    if n == 0 then [] else [Flush(n - 1)] + FlushFrom(n - 1)
  }

  ghost predicate AllAre(vs: Views, v: View) {
    forall i :: 0 <= i < |vs| ==> vs[i] == v
  }

  lemma {:induction false} FlushFromLevels(vs: Views, n: nat)
    requires n < |vs| && forall i :: n <= i < |vs| ==> vs[i] == Top(vs)
    ensures PermittedRun(vs, FlushFrom(n))
    ensures AllAre(RunViews(vs, FlushFrom(n)), Top(vs))
    decreases n
  {
    if n > 0 {
      var ws := StepViews(vs, Flush(n - 1));
      assert FlushFrom(n)[1..] == FlushFrom(n - 1);
      FlushFromLevels(ws, n - 1);
    }
  }

  lemma {:induction false} RunConcat(vs: Views, a: seq<Op>, b: seq<Op>)
    requires PermittedRun(vs, a) && PermittedRun(RunViews(vs, a), b)
    ensures PermittedRun(vs, a + b) && RunViews(vs, a + b) == RunViews(RunViews(vs, a), b)
    decreases |a|
  {
    if a == [] {
      assert a + b == b;
    } else {
      assert (a + b)[1..] == a[1..] + b;
      RunConcat(StepViews(vs, a[0]), a[1..], b);
    }
  }

  /** After any run, flushing every layer downwards leaves the database, and every layer, equal to the top view. */
  lemma RunThenFlush(vs: Views, ops: seq<Op>)
    requires PermittedRun(vs, ops)
    ensures PermittedRun(vs, ops + FlushFrom(|vs| - 1))
    ensures AllAre(RunViews(vs, ops + FlushFrom(|vs| - 1)), Top(RunViews(vs, ops)))
  {
    FlushFromLevels(RunViews(vs, ops), |vs| - 1);
    RunConcat(vs, ops, FlushFrom(|vs| - 1));
  }

  /** A run without resets, flushed downwards, leaves every layer equal to the plain map. */
  lemma FlushedRunIsPlain(vs: Views, ops: seq<Op>)
    requires PermittedRun(vs, ops) && Reset !in ops
    ensures PermittedRun(vs, ops + FlushFrom(|vs| - 1))
    ensures AllAre(RunViews(vs, ops + FlushFrom(|vs| - 1)), PlainRun(Top(vs), ops))
  {
    TopIsPlain(vs, ops);
    RunThenFlush(vs, ops);
  }
}
