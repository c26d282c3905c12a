/**
 `Paging.cpp`: the code of map, unmap and translate. It sees memory only through
 virtual addresses; every access is translated by the processor's walk.
 */
module Paging {
  import opened Forms
  import opened PageTables
  import opened RecursiveSlot
  import PagingSpec
  import opened PagingRefinement

  type Status = PagingSpec.Status

  class Mmu {
    var m: Memory
    var src: PagingSpec.PageSource
    const cr3: nat
    const constant: Form

    ghost function Machine(): PagingSpec.Machine
      reads this
    {
      PagingSpec.Machine(m, src)
    }

    ghost predicate Valid(own: Owners)
      reads this
    {
      PagingSpec.Inv(Machine(), cr3, own)
    }

    constructor (m: Memory, src: PagingSpec.PageSource, cr3: nat, constant: Form)
      ensures this.m == m && this.src == src && this.cr3 == cr3 && this.constant == constant
    {
      this.m, this.src, this.cr3, this.constant := m, src, cr3, constant;
    }

    function P4Base(): nat {
      if constant.Corrected? then P4_SELF_ENTRY else P4_RECURSIVE_ENTRY
    }

    /** Read `*ptr`. */
    method Load(ptr: nat) returns (e: Option<Entry>)
      ensures e == match Target(m, cr3, ptr) case None => None case Some(s) => Some(m(s))
    {
      var t := Target(m, cr3, ptr);
      e := if t.None? then None else Some(m(t.value));
    }

    /** Write `*ptr`; without a translation nothing is written. */
    method Store(ptr: nat, e: Entry) returns (ok: bool)
      modifies this`m
      ensures ok == Target(old(m), cr3, ptr).Some?
      ensures m == if ok then Write(old(m), Target(old(m), cr3, ptr).value, e) else old(m)
    {
      var t := Target(m, cr3, ptr);
      ok := t.Some?;
      if ok { m := Write(m, t.value, e); }
    }

    /** `memset((void *) page, 0, PAGING_SIZE)` on a page address. */
    method ClearPage(v: nat) returns (ok: bool)
      modifies this`m
      ensures ok == Walk(old(m), cr3, PathOf(v)).Some?
      ensures m == if ok then ZeroFrame(old(m), Walk(old(m), cr3, PathOf(v)).value.frame) else old(m)
    {
      var e := Walk(m, cr3, PathOf(v));
      ok := e.Some?;
      if ok { m := ZeroFrame(m, e.value.frame); }
    }

    method GetNewPage(ghost own: Owners) returns (st: Status, page: nat)
      requires Valid(own)
      modifies this
      ensures (PagingSpec.Outcome(Machine(), st), page) == PagingSpec.GetNewPage(old(Machine()), cr3)
      ensures st == PagingSpec.Done
    {
      var (p, src') := PagingSpec.TakePage(src);
      page, src, st := p, src', PagingSpec.Done;
      if page != 0 {
        var p1Addr := P1Ptr(PathOf(PagingSpec.TEMP_VIRT));
        TempPath();
        TempWindow(m, cr3, own, page);
        var ok := Store(p1Addr, Entry(page, PagingSpec.DEFAULT_TABLE_FLAGS));
        ok := ClearPage(PagingSpec.TEMP_VIRT);
      }
    }

    /** `if (*ptr == 0) { newPage = GetNewPage(); ... *ptr = newPage | flags; }` */
    method EnsureEntry(ptr: nat, flags: nat, ghost own: Owners, ghost slot: Slot) returns (st: Status)
      requires Valid(own) && TableFlags(flags)
      requires PathOf(ptr).p4 == RECURSIVE && Target(m, cr3, ptr) == Some(slot)
      requires slot.table in own && !own[slot.table].L1? && (slot.table == cr3 ==> slot.idx != RECURSIVE)
      modifies this
      ensures PagingSpec.Outcome(Machine(), st) == PagingSpec.EnsureTable(old(Machine()), cr3, slot, flags)
    {
      st := PagingSpec.Done;
      var e := Load(ptr);
      if e == Some(EMPTY) {
        ghost var m0 := m;
        TempKept(m, cr3, own);
        PagingSpec.TakeFresh(src, own, L1(0, 0, 0));
        var st', newPage := GetNewPage(own);
        if newPage == 0 {
          return PagingSpec.Panic;
        }
        WindowKept(m0, m, cr3, own, PathOf(ptr));
        var ok := Store(ptr, Entry(newPage, flags));
      }
    }

    /** The P3 and P2 steps of `PagingMapPage`, after the root entry was found set. */
    method ExamineP3P2(path: Path, tblFlags: nat, ghost own: Owners) returns (st: Status, ghost leaf: Slot)
      requires Valid(own) && InRange(path) && path.p4 != RECURSIVE && TableFlags(tblFlags)
      requires m(Slot(cr3, path.p4)) != EMPTY
      modifies this
      ensures (PagingSpec.Outcome(Machine(), st), leaf)
           == PagingSpec.DescendP3(old(Machine()), cr3, old(m(Slot(cr3, path.p4)).frame), path, tblFlags)
    {
      ghost var s4 := Machine();
      ghost var slot3 := Slot(m(Slot(cr3, path.p4)).frame, path.p3);
      WindowLands(m, cr3, own, path);
      var ptr := P3Ptr(path);
      st := EnsureEntry(ptr, tblFlags, own, slot3);
      leaf := Slot(0, 0);
      PagingSpec.EnsureTableKeeps(s4, cr3, own, slot3, tblFlags);
      if st != PagingSpec.Done { return; }
      ghost var own3 := PagingSpec.Grown(s4, own, slot3);
      ghost var slot2 := Slot(m(slot3).frame, path.p2);
      WindowLands(m, cr3, own3, path);
      ptr := P2Ptr(path);
      st := EnsureEntry(ptr, tblFlags, own3, slot2);
      leaf := Slot(m(slot2).frame, path.p1);
    }

    /** The walk down to the lowest table; when done, the P1 pointer reaches the page's entry. */
    method ExamineTables(path: Path, tblFlags: nat, ghost own: Owners) returns (st: Status, ghost leaf: Slot)
      requires Valid(own) && InRange(path) && PagingSpec.Ordinary(path) && TableFlags(tblFlags)
      modifies this
      ensures (PagingSpec.Outcome(Machine(), st), leaf)
           == PagingSpec.Descend(constant, old(Machine()), cr3, path, tblFlags)
    {
      ghost var s0 := Machine();
      var ptr := P4Ptr(P4Base(), path);
      ghost var probe := ProbeTarget(m, cr3, own, constant, path);
      st := EnsureEntry(ptr, tblFlags, own, probe);
      leaf := Slot(0, 0);
      PagingSpec.EnsureTableKeeps(s0, cr3, own, probe, tblFlags);
      if st != PagingSpec.Done { return; }
      ghost var own4 := PagingSpec.Grown(s0, own, probe);
      WindowLands(m, cr3, own4, path);
      var e := Load(P3Ptr(path));
      if e.None? {
        return PagingSpec.PageFault, leaf;
      }
      st, leaf := ExamineP3P2(path, tblFlags, own4);
    }

    method PagingMapPage(v: nat, p: nat, tblFlags: nat, pgFlags: nat, canOverride: bool, ghost own: Owners)
      returns (st: Status)
      requires Valid(own) && PagingSpec.MapArgs(v, tblFlags, pgFlags)
      modifies this
      ensures PagingSpec.Outcome(Machine(), st)
           == PagingSpec.MapPage(constant, old(Machine()), cr3, v, p, tblFlags, pgFlags, canOverride)
    {
      if v == 0 && p == 0 {
        return PagingSpec.ArgNull;
      }
      if v % 4096 != 0 || p % 4096 != 0 {
        return PagingSpec.Unaligned;
      }
      var path := PathOf(v);
      ghost var s0 := Machine();
      ghost var leaf;
      st, leaf := ExamineTables(path, tblFlags, own);
      if st != PagingSpec.Done { return; }
      LeafWindow(constant, s0, cr3, own, path, tblFlags);
      var ptr := P1Ptr(path);
      var e := Load(ptr);
      if e == Some(EMPTY) || canOverride {
        var ok := Store(ptr, Entry(p / 4096, pgFlags));
      } else {
        return PagingSpec.EntryExists;
      }
    }

    /** The lookup shared, line for line, by translate and unmap. */
    method Examine(v: nat, ghost own: Owners) returns (st: Status, ptr: nat, e: Entry)
      requires Valid(own) && PagingSpec.Ordinary(PathOf(v))
      ensures var (st', s) := PagingSpec.Lookup(constant, m, cr3, PathOf(v));
              st == st' && (st == PagingSpec.Done ==> Target(m, cr3, ptr) == Some(s) && e == m(s))
    {
      var path := PathOf(v);
      e := EMPTY;
      ptr := P4Ptr(P4Base(), path);
      ghost var probe := ProbeTarget(m, cr3, own, constant, path);
      WindowLands(m, cr3, own, path);
      assert m(Slot(cr3, path.p4)) != EMPTY ==> Present(m(Slot(cr3, path.p4)));
      var x := Load(ptr);
      if x == Some(EMPTY) { return PagingSpec.NotMapped, ptr, e; }
      ptr := P3Ptr(path);
      x := Load(ptr);
      if x.None? { return PagingSpec.PageFault, ptr, e; }
      if x == Some(EMPTY) { return PagingSpec.NotMapped, ptr, e; }
      ptr := P2Ptr(path);
      x := Load(ptr);
      if x == Some(EMPTY) { return PagingSpec.NotMapped, ptr, e; }
      ptr := P1Ptr(path);
      x := Load(ptr);
      if x == Some(EMPTY) { return PagingSpec.NotMapped, ptr, e; }
      st, e := PagingSpec.Done, x.value;
    }

    method PagingVirtToPhys(v: nat, ghost own: Owners) returns (st: Status, phys: nat)
      requires Valid(own) && PagingSpec.Ordinary(PathOf(v))
      ensures (st, phys) == PagingSpec.VirtToPhys(constant, m, cr3, v)
    {
      var ptr, e;
      st, ptr, e := Examine(v, own);
      phys := if st == PagingSpec.Done then PagingSpec.PhysAddr(e.frame, v) else 0;
    }

    method PagingUnmapPage(v: nat, ghost own: Owners) returns (st: Status)
      requires Valid(own) && PagingSpec.Ordinary(PathOf(v))
      modifies this
      ensures PagingSpec.Outcome(Machine(), st) == PagingSpec.UnmapPage(constant, old(Machine()), cr3, v)
    {
      if v == 0 { return PagingSpec.ArgNull; }
      if v % 4096 != 0 { return PagingSpec.Unaligned; }
      var ptr, e;
      st, ptr, e := Examine(v, own);
      if st != PagingSpec.Done { return; }
      if e.frame == 0 { return PagingSpec.NotMapped; }
      var ok := Store(ptr, EMPTY);
    }
  }

  /** In a tree, the window pointers of an ordinary page reach its entries, level by level. */
  lemma WindowLands(m: Memory, cr3: nat, own: Owners, p: Path)
    requires Tree(m, cr3, own, PagingSpec.SKIP) && Recursive(m, cr3) && InRange(p) && p.p4 != RECURSIVE
    ensures PathOf(P3Ptr(p)).p4 == RECURSIVE && PathOf(P2Ptr(p)).p4 == RECURSIVE
    ensures var e4 := m(Slot(cr3, p.p4));
            && (e4 == EMPTY <==> !Present(e4))
            && Target(m, cr3, P3Ptr(p)) == (if e4 == EMPTY then None else Some(Slot(e4.frame, p.p3)))
            && (e4 != EMPTY ==>
                  var s3 := Slot(e4.frame, p.p3);
                  && s3.table in own && own[s3.table] == L3(p.p4)
                  && Target(m, cr3, P2Ptr(p)) == (if m(s3) == EMPTY then None else Some(Slot(m(s3).frame, p.p2)))
                  && (m(s3) != EMPTY ==>
                        var s2 := Slot(m(s3).frame, p.p2);
                        && s2.table in own && own[s2.table] == L2(p.p4, p.p3)
                        && Target(m, cr3, P1Ptr(p)) == Locate(m, cr3, p)))
  {
    PointersLand(m, cr3, p);
    PointerPaths(p);
  }

  lemma TempPath()
    ensures PathOf(PagingSpec.TEMP_VIRT) == PagingSpec.TEMP
  {
    Digits(0xFFFF, 511, 511, 511, 511);
  }

  /** The temporary page's entry is reached by its pointer, and once written maps the page to be cleared. */
  lemma TempWindow(m: Memory, cr3: nat, own: Owners, page: nat)
    requires Tree(m, cr3, own, PagingSpec.SKIP) && Recursive(m, cr3) && Locate(m, cr3, PagingSpec.TEMP).Some?
    ensures var t := Locate(m, cr3, PagingSpec.TEMP);
            && Target(m, cr3, P1Ptr(PagingSpec.TEMP)) == t
            && Walk(Write(m, t.value, Entry(page, PagingSpec.DEFAULT_TABLE_FLAGS)), cr3, PagingSpec.TEMP)
               == Some(Entry(page, PagingSpec.DEFAULT_TABLE_FLAGS))
  {
    WindowLands(m, cr3, own, PagingSpec.TEMP);
    assert Target(m, cr3, P1Ptr(PagingSpec.TEMP)) == Locate(m, cr3, PagingSpec.TEMP);
    SetLeaf(m, cr3, own, PagingSpec.SKIP, PagingSpec.TEMP, Entry(page, PagingSpec.DEFAULT_TABLE_FLAGS));
  }

  /** After a completed descent the P1 pointer reaches the slot that the descent found. */
  lemma LeafWindow(c: Form, s: PagingSpec.Machine, cr3: nat, own: Owners, path: Path, flags: nat)
    requires PagingSpec.Inv(s, cr3, own) && PagingSpec.Ordinary(path) && InRange(path) && TableFlags(flags)
    requires PagingSpec.Descend(c, s, cr3, path, flags).0.st == PagingSpec.Done
    ensures var (o, leaf) := PagingSpec.Descend(c, s, cr3, path, flags);
            Target(o.s.m, cr3, P1Ptr(path)) == Some(leaf)
  {
    DescendKeeps(c, s, cr3, own, path, flags);
    var o := PagingSpec.Descend(c, s, cr3, path, flags).0;
    WindowLands(o.s.m, cr3, Descended(c, s, cr3, own, path, flags), path);
  }

  /** A translation of the recursive window goes through links only, so it survives what keeps links. */
  lemma WindowKept(m: Memory, m': Memory, cr3: nat, own: Owners, p: Path)
    requires Tree(m, cr3, own, PagingSpec.SKIP) && Recursive(m, cr3) && PagingSpec.KeepsLinks(m, m', own)
    requires p.p4 == RECURSIVE && Walk(m, cr3, p).Some?
    ensures Walk(m', cr3, p) == Walk(m, cr3, p)
  {
  }

  /** Writing the temporary entry and zeroing a frame that is no table keeps links. */
  lemma TempKept(m: Memory, cr3: nat, own: Owners)
    requires Tree(m, cr3, own, PagingSpec.SKIP) && Locate(m, cr3, PagingSpec.TEMP).Some?
    ensures forall e: Entry, page: nat | page !in own ::
      PagingSpec.KeepsLinks(m, ZeroFrame(Write(m, Locate(m, cr3, PagingSpec.TEMP).value, e), page), own)
  {
    WalkIsLocate(m, cr3, own, PagingSpec.SKIP, PagingSpec.TEMP);
  }

  /** Where the first lookup lands, for either constant. */
  lemma ProbeTarget(m: Memory, cr3: nat, own: Owners, c: Form, p: Path) returns (probe: Slot)
    requires Tree(m, cr3, own, PagingSpec.SKIP) && Recursive(m, cr3) && Locate(m, cr3, PagingSpec.TEMP).Some?
    requires InRange(p) && p.p4 != RECURSIVE
    ensures PagingSpec.Probe(c, m, cr3, p.p4) == Some(probe)
    ensures probe.table in own && !own[probe.table].L1? && (probe.table == cr3 ==> probe.idx != RECURSIVE)
    ensures var ptr := P4Ptr(if c.Corrected? then P4_SELF_ENTRY else P4_RECURSIVE_ENTRY, p);
            PathOf(ptr).p4 == RECURSIVE && Target(m, cr3, ptr) == Some(probe)
  {
    WalkIsLocate(m, cr3, own, PagingSpec.SKIP, PagingSpec.TEMP);
    PointersLand(m, cr3, p);
    LiteralP4Lands(m, cr3, p);
    PointerPaths(p);
    probe := PagingSpec.Probe(c, m, cr3, p.p4).value;
  }
}
