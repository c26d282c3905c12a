/**
 What map, unmap and translate do to the tables, followed entry by entry from the
 PML4, and the flat map from pages to frames that they implement.

 The first lookup of each operation goes through a constant. `AsWritten` keeps the
 constant of the source, which reaches the table below root entry 511; `Corrected`
 is the constant that reaches the PML4. Everything else is the same code.
 */
module PagingSpec {
  import opened Forms
  import opened PageTables
  import opened RecursiveSlot

  /** Results of the operations. After a panic or a page fault the system has stopped. */
  datatype Status = Done | ArgNull | Unaligned | NotMapped | EntryExists | Panic | PageFault

  const DEFAULT_TABLE_FLAGS := 3
  const DEFAULT_PAGE_FLAGS := 0x83
  const TEMP_VIRT: nat := 0xFFFF_FFFF_FFFF_F000
  const TEMP := Path(511, 511, 511, 511)

  /**
   Where new pages come from: before initialisation a bump pointer in the kernel
   image's virtual range, afterwards the frame allocator, here the frames it will
   hand out (it answers 0 once they are used up).
   */
  datatype PageSource = Bump(lastUsed: nat, offset: nat) | Frames(next: seq<nat>)

  /** The bump pointer lies in the virtual range, so subtracting the offset does not wrap. */
  predicate SourceOk(src: PageSource) { src.Bump? ==> src.offset <= src.lastUsed }

  function AlignUp(a: nat): nat {
    if a % 4096 != 0 then (a + 4096) / 4096 * 4096 else a
  }

  /** The frame taken (0: none) and the source after it. */
  function TakePage(src: PageSource): (nat, PageSource)
    requires SourceOk(src)
  {
    match src
    case Bump(last, offset) => ((AlignUp(last) - offset) / 4096, Bump(AlignUp(last) + 4096, offset))
    case Frames(next) => if next == [] then (0, src) else (next[0], Frames(next[1..]))
  }

  datatype Machine = Machine(m: Memory, src: PageSource)

  datatype Outcome = Outcome(s: Machine, st: Status)

  /** Take a page and zero it through the temporary mapping. */
  function GetNewPage(s: Machine, cr3: nat): (r: (Outcome, nat))
    requires SourceOk(s.src)
    ensures SourceOk(r.0.s.src) && r.0.s.src.Bump? == s.src.Bump?
  {
    var (page, src) := TakePage(s.src);
    if page == 0 then (Outcome(s.(src := src), Done), 0) else
    match Locate(s.m, cr3, TEMP)
    case None => (Outcome(s.(src := src), PageFault), page)
    case Some(t) =>
      (Outcome(Machine(ZeroFrame(Write(s.m, t, Entry(page, DEFAULT_TABLE_FLAGS)), page), src), Done), page)
  }

  /** Make sure the entry in `slot` is set, hanging a new table below it when it is zero. */
  function EnsureTable(s: Machine, cr3: nat, slot: Slot, flags: nat): (o: Outcome)
    requires SourceOk(s.src)
    ensures SourceOk(o.s.src) && o.s.src.Bump? == s.src.Bump?
  {
    if s.m(slot) != EMPTY then Outcome(s, Done) else
    var (o, page) := GetNewPage(s, cr3);
    if o.st != Done then o
    else if page == 0 then o.(st := Panic)
    else Outcome(o.s.(m := Write(o.s.m, slot, Entry(page, flags))), Done)
  }

  /** The entry that the first lookup tests. */
  function Probe(c: Form, m: Memory, cr3: nat, p4: nat): Option<Slot> {
    match c
    case Corrected => Some(Slot(cr3, p4))
    case AsWritten =>
      var e := m(Slot(cr3, 511));
      if Present(e) then Some(Slot(e.frame, p4)) else None
  }

  /** From the P2 table `t2`: the slot of the page's entry, creating its table when missing. */
  function DescendP2(s: Machine, cr3: nat, t2: nat, path: Path, flags: nat): (r: (Outcome, Slot))
    requires SourceOk(s.src)
    ensures SourceOk(r.0.s.src) && r.0.s.src.Bump? == s.src.Bump?
  {
    var o := EnsureTable(s, cr3, Slot(t2, path.p2), flags);
    (o, Slot(o.s.m(Slot(t2, path.p2)).frame, path.p1))
  }

  function DescendP3(s: Machine, cr3: nat, t3: nat, path: Path, flags: nat): (r: (Outcome, Slot))
    requires SourceOk(s.src)
    ensures SourceOk(r.0.s.src) && r.0.s.src.Bump? == s.src.Bump?
  {
    var o := EnsureTable(s, cr3, Slot(t3, path.p3), flags);
    if o.st != Done then (o, Slot(0, 0))
    else DescendP2(o.s, cr3, o.s.m(Slot(t3, path.p3)).frame, path, flags)
  }

  /** From the root, by way of the entry that the first lookup tests. */
  function Descend(c: Form, s: Machine, cr3: nat, path: Path, flags: nat): (r: (Outcome, Slot))
    requires SourceOk(s.src)
    ensures SourceOk(r.0.s.src) && r.0.s.src.Bump? == s.src.Bump?
  {
    var probe := Probe(c, s.m, cr3, path.p4);
    if probe.None? then (Outcome(s, PageFault), Slot(0, 0)) else
    var o := EnsureTable(s, cr3, probe.value, flags);
    if o.st != Done then (o, Slot(0, 0)) else
    var e4 := o.s.m(Slot(cr3, path.p4));
    if !Present(e4) then (o.(st := PageFault), Slot(0, 0))
    else DescendP3(o.s, cr3, e4.frame, path, flags)
  }

  function MapPage(c: Form, s: Machine, cr3: nat, v: nat, p: nat, tblFlags: nat, pgFlags: nat,
                   canOverride: bool): (o: Outcome)
    requires SourceOk(s.src)
    ensures SourceOk(o.s.src) && o.s.src.Bump? == s.src.Bump?
  {
    if v == 0 && p == 0 then Outcome(s, ArgNull)
    else if v % 4096 != 0 || p % 4096 != 0 then Outcome(s, Unaligned)
    else
      var (o, leaf) := Descend(c, s, cr3, PathOf(v), tblFlags);
      if o.st != Done then o
      else if o.s.m(leaf) == EMPTY || canOverride
      then Outcome(o.s.(m := Write(o.s.m, leaf, Entry(p / 4096, pgFlags))), Done)
      else o.(st := EntryExists)
  }

  /** The entry that decides `path`, or the status with which the lookup gives up. */
  function Lookup(c: Form, m: Memory, cr3: nat, path: Path): (Status, Slot) {
    var none := Slot(0, 0);
    var probe := Probe(c, m, cr3, path.p4);
    if probe.None? then (PageFault, none) else
    if m(probe.value) == EMPTY then (NotMapped, none) else
    var e4 := m(Slot(cr3, path.p4));
    if !Present(e4) then (PageFault, none) else
    match Locate(m, cr3, path)
    case None => (NotMapped, none)
    case Some(s) => if m(s) == EMPTY then (NotMapped, none) else (Done, s)
  }

  /** Status and physical address of `v`; `phys` is meaningful only when done. */
  function PhysAddr(frame: nat, v: nat): nat { frame * 4096 + v % 4096 }

  function VirtToPhys(c: Form, m: Memory, cr3: nat, v: nat): (Status, nat) {
    var (st, s) := Lookup(c, m, cr3, PathOf(v));
    if st != Done then (st, 0) else (Done, PhysAddr(m(s).frame, v))
  }

  function UnmapPage(c: Form, s: Machine, cr3: nat, v: nat): (o: Outcome)
    ensures o.s.src == s.src
  {
    if v == 0 then Outcome(s, ArgNull)
    else if v % 4096 != 0 then Outcome(s, Unaligned)
    else
      var (st, slot) := Lookup(c, s.m, cr3, PathOf(v));
      if st != Done then Outcome(s, st)
      else if s.m(slot).frame == 0 then Outcome(s, NotMapped)
      else Outcome(s.(m := Write(s.m, slot, EMPTY)), Done)
  }

  // ----- The invariant -----

  const SKIP: set<nat> := {RECURSIVE}

  /** The source yields only frames that are no page tables, each once. */
  ghost predicate FreshSource(src: PageSource, own: Owners) {
    match src
    case Bump(last, offset) =>
      offset % 4096 == 0 && offset <= last && forall f | f in own :: f < (AlignUp(last) - offset) / 4096
    case Frames(next) =>
      && (forall i | 0 <= i < |next| :: next[i] != 0 && next[i] !in own)
      && (forall i, j | 0 <= i < j < |next| :: next[i] != next[j])
  }

  ghost predicate Inv(s: Machine, cr3: nat, own: Owners) {
    && Tree(s.m, cr3, own, SKIP)
    && Recursive(s.m, cr3)
    && Locate(s.m, cr3, TEMP).Some?
    && FreshSource(s.src, own)
  }

  /** Pages whose translation the claims are about: not the recursive window, not the temporary page. */
  ghost predicate Ordinary(p: Path) { p.p4 != RECURSIVE && p != TEMP }

  ghost predicate SameWalks(m: Memory, m': Memory, cr3: nat) {
    forall q: Path | Ordinary(q) :: Walk(m', cr3, q) == Walk(m, cr3, q)
  }

  /** Table entries, once set, stay. */
  ghost predicate KeepsLinks(m: Memory, m': Memory, own: Owners) {
    forall s: Slot | s.table in own && !own[s.table].L1? && m(s) != EMPTY :: m'(s) == m(s)
  }

  lemma TakeFresh(src: PageSource, own: Owners, n: Node)
    requires FreshSource(src, own) && own != map[]
    ensures var (page, src') := TakePage(src);
            if page == 0 then src == Frames([]) && src' == src
            else page !in own && FreshSource(src', own[page := n])
  {
    match src
    case Bump(last, offset) =>
      var f :| f in own;
      assert (AlignUp(last) + 4096 - offset) / 4096 == (AlignUp(last) - offset) / 4096 + 1;
    case Frames(next) =>
  }

  /** The tables after `EnsureTable`. */
  ghost function Grown(s: Machine, own: Owners, slot: Slot): Owners
    requires slot.table in own && !own[slot.table].L1?
    requires SourceOk(s.src)
  {
    var page := TakePage(s.src).0;
    if s.m(slot) != EMPTY || page == 0 then own
    else own[page := Child(own[slot.table], slot.idx)]
  }

  /** What every stage of an operation keeps; it panics only when the frames run out. */
  ghost predicate StageKeeps(s: Machine, o: Outcome, cr3: nat, own: Owners, own': Owners, flags: nat) {
    && Inv(o.s, cr3, own')
    && SameWalks(s.m, o.s.m, cr3)
    && KeepsLinks(s.m, o.s.m, own)
    && NewLinks(s.m, o.s.m, own, own', flags)
    && (forall f | f in own :: f in own' && own'[f] == own[f])
    && (o.st == Panic ==> o.s.src == Frames([]))
  }

  /** Every entry that is set in a table is as it was in an old table, or a new link with these flags. */
  ghost predicate NewLinks(m: Memory, m': Memory, own: Owners, own': Owners, flags: nat) {
    forall s: Slot {:trigger m'(s)} | s.table in own' && !own'[s.table].L1? && m'(s) != EMPTY ::
      (s.table in own && m'(s) == m(s)) || (m'(s).flags == flags && m'(s).frame in own' && m'(s).frame !in own)
  }

  /** Zeroing a fresh page through the temporary mapping and linking it. */
  lemma InstallKeeps(m: Memory, cr3: nat, own: Owners, slot: Slot, page: nat, flags: nat)
    requires Tree(m, cr3, own, SKIP) && Recursive(m, cr3) && Locate(m, cr3, TEMP).Some? && TableFlags(flags)
    requires slot.table in own && !own[slot.table].L1? && (slot.table == cr3 ==> slot.idx != RECURSIVE)
    requires page !in own && m(slot) == EMPTY
    ensures var m1 := Write(m, Locate(m, cr3, TEMP).value, Entry(page, DEFAULT_TABLE_FLAGS));
            var m2 := Write(ZeroFrame(m1, page), slot, Entry(page, flags));
            && Tree(m2, cr3, own[page := Child(own[slot.table], slot.idx)], SKIP)
            && Recursive(m2, cr3) && Locate(m2, cr3, TEMP).Some?
            && SameWalks(m, m2, cr3) && KeepsLinks(m, m2, own)
            && NewLinks(m, m2, own, own[page := Child(own[slot.table], slot.idx)], flags)
  {
    var e := Entry(page, DEFAULT_TABLE_FLAGS);
    WalkIsLocate(m, cr3, own, SKIP, TEMP);
    SetLeaf(m, cr3, own, SKIP, TEMP, e);
    var m1 := Write(m, Locate(m, cr3, TEMP).value, e);
    AddTable(m1, Write(ZeroFrame(m1, page), slot, Entry(page, flags)), cr3, own, SKIP, slot, Entry(page, flags));
  }

  lemma EnsureTableKeeps(s: Machine, cr3: nat, own: Owners, slot: Slot, flags: nat)
    requires Inv(s, cr3, own) && TableFlags(flags)
    requires slot.table in own && !own[slot.table].L1? && (slot.table == cr3 ==> slot.idx != RECURSIVE)
    ensures var o := EnsureTable(s, cr3, slot, flags);
            && StageKeeps(s, o, cr3, own, Grown(s, own, slot), flags)
            && (o.st == Done || o.st == Panic)
            && (o.st == Done ==> o.s.m(slot) != EMPTY)
  {
    if s.m(slot) == EMPTY {
      TakeFresh(s.src, own, Child(own[slot.table], slot.idx));
      var page := TakePage(s.src).0;
      if page != 0 {
        InstallKeeps(s.m, cr3, own, slot, page, flags);
      }
    }
  }

  /** The premises on a mapping request: an ordinary page and flags that mark entries present. */
  ghost predicate MapArgs(v: nat, tblFlags: nat, pgFlags: nat) {
    Ordinary(PathOf(v)) && TableFlags(tblFlags) && pgFlags < 4096 && pgFlags % 2 == 1
  }

  /** What a flat map answers to a mapping request, given the page's present translation. */
  function MapStatus(old_: Option<Entry>, v: nat, p: nat, canOverride: bool): Status {
    if v == 0 && p == 0 then ArgNull
    else if v % 4096 != 0 || p % 4096 != 0 then Unaligned
    else if old_.Some? && !canOverride then EntryExists
    else Done
  }

  /** With root entry `p4` set, or with the corrected constant, no lookup faults. */
  ghost predicate Served(c: Form, m: Memory, cr3: nat, p4: nat) {
    c.Corrected? || m(Slot(cr3, p4)) != EMPTY
  }

  /** The entry that the first lookup tests for `p4` is set. */
  ghost predicate Probed(c: Form, m: Memory, cr3: nat, p4: nat) {
    Probe(c, m, cr3, p4).Some? && m(Probe(c, m, cr3, p4).value) != EMPTY
  }
}
