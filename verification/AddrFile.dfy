/**
 The address manager across restarts (addrman.cpp): what is loaded from any accepted file is a manager on which every
 run of operations keeps the consistency check at zero, and what such a manager saves is accepted again.
 */
module AddrFile {
  import opened AddrTables
  import opened AddrLoad
  import opened AddrMan
  import AddrPersist

  /** A manager exactly if the file is readable and acceptable. */
  method Load(h0: Hashes, asmap: int, d: Disk) returns (m: AddrMan?)
    requires WellFramed(d)
    ensures m != null <==> Readable(d) && Acceptable(h0.(key := d.key), Rebuilt(h0.(key := d.key), asmap, d))
    ensures m != null ==> fresh(m) && m.Valid() && m.h == h0.(key := d.key)
    ensures m != null ==> Pruned(Rebuilt(m.h, asmap, d), m.Tab())
  {
    hide Consistent, Pruned, Rebuilt, WellFramed;
    var r := Unserialize(h0, asmap, d);
    if !r.Restored? { return null; }
    m := new AddrMan.Loaded(h0.(key := d.key), r.t, r.idCount);
  }

  /** Any file, then any operations: if the file is accepted, the check answers zero after each of them. */
  method LoadAndRun(h0: Hashes, asmap: int, d: Disk, ops: seq<Op>) returns (m: AddrMan?)
    requires WellFramed(d) && forall op :: op in ops ==> op.Timely()
    ensures m != null <==> Readable(d) && Acceptable(h0.(key := d.key), Rebuilt(h0.(key := d.key), asmap, d))
    ensures m != null ==> m.Valid()
  {
    hide Consistent, Pruned, Rebuilt, WellFramed, Acceptable;
    m := Load(h0, asmap, d);
    if m != null { m.Run(ops); }
  }

  /** A node that saves its manager and starts again gets the same manager back, ids renamed. */
  method Restart(m: AddrMan, asmap: int, order: seq<Id>, h0: Hashes) returns (m': AddrMan)
    requires m.Valid() && AddrPersist.Traversal(m.mapInfo, order) && h0.(key := m.h.key) == m.h
    ensures fresh(m') && m'.Valid() && m'.h == m.h
    ensures AddrPersist.Renamed(m.Tab(), m'.Tab(), AddrPersist.FileOrder(m.Tab(), order))
  {
    hide Consistent, Rebuilt, Acceptable, AddrPersist.Renamed, AddrPersist.FileOrder, AddrPersist.Traversal;
    var r := AddrPersist.SaveAndLoad(m.h, m.Tab(), asmap, order, h0);
    m' := new AddrMan.Loaded(m.h, r.t, r.idCount);
  }

  /** Under another asmap it still gets a valid manager. */
  method Migrate(m: AddrMan, asmap: int, order: seq<Id>, h0: Hashes, asmap0: int) returns (m': AddrMan)
    requires m.Valid() && AddrPersist.Traversal(m.mapInfo, order)
    ensures fresh(m') && m'.Valid() && m'.h == h0.(key := m.h.key)
    ensures Pruned(Rebuilt(m'.h, asmap0, AddrPersist.DiskOf(m.h, m.Tab(), asmap, order)), m'.Tab())
  {
    hide Consistent, Pruned, Rebuilt, Acceptable, AddrPersist.DiskOf;
    var r := AddrPersist.SaveAndMigrate(m.h, m.Tab(), asmap, order, h0, asmap0);
    m' := new AddrMan.Loaded(h0.(key := m.h.key), r.t, r.idCount);
  }
}
