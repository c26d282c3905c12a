/**
 Four-level page tables as the processor sees them, and the two updates from
 which every edit of the kernel is built: hanging a fresh all-zero table below
 an empty entry, and writing one entry of a lowest-level table.

 Addresses are numbers. Physical memory is a total function from (4 KiB frame,
 qword index) to entries, and an entry is a qword split at bit 12 into a frame
 number and the flag bits below it, so `frame | flags` loses nothing.
 */
module PageTables {

  datatype Option<+T> = None | Some(value: T)

  datatype Entry = Entry(frame: nat, flags: nat)

  const EMPTY := Entry(0, 0)

  /** One qword of physical memory: a frame number and an index below 512. */
  datatype Slot = Slot(table: nat, idx: nat)

  type Memory = Slot -> Entry

  function Write(m: Memory, s: Slot, e: Entry): Memory {
    (t: Slot) => if t == s then e else m(t)
  }

  function ZeroFrame(m: Memory, frame: nat): Memory {
    (t: Slot) => if t.table == frame then EMPTY else m(t)
  }

  predicate Present(e: Entry) { e.flags % 2 == 1 }

  /** Bit 7, which in the two middle levels makes the entry map a large page. */
  predicate Huge(e: Entry) { e.flags / 128 % 2 == 1 }

  /** Flags that make an entry a link to the next table: present, no size bit, nothing above bit 11. */
  predicate TableFlags(flags: nat) {
    flags < 4096 && flags % 2 == 1 && flags / 128 % 2 == 0
  }

  /** The four indices that select a virtual page. */
  datatype Path = Path(p4: nat, p3: nat, p2: nat, p1: nat)

  /** The indices of virtual page `page`, that is of the addresses 4096 * page + offset. */
  function PathOfPage(page: nat): (p: Path)
    ensures p.p4 < 512 && p.p3 < 512 && p.p2 < 512 && p.p1 < 512
  {
    Path(page / 0x800_0000 % 512, page / 0x4_0000 % 512, page / 512 % 512, page % 512)
  }

  function PathOf(v: nat): Path { PathOfPage(v / 4096) }

  /**
   The processor's walk from the table in frame `root` (AMD64 Architecture
   Programmer's Manual, Volume 2, section 5.3): the entry that decides the page, with
   the frame that holds it, or `None` for a page fault.
   */
  function Walk(m: Memory, root: nat, p: Path): Option<Entry> {
    var e4 := m(Slot(root, p.p4));
    if !Present(e4) then None else
    var e3 := m(Slot(e4.frame, p.p3));
    if !Present(e3) then None else
    if Huge(e3) then Some(Entry(e3.frame / 0x4_0000 * 0x4_0000 + p.p2 * 512 + p.p1, e3.flags)) else
    var e2 := m(Slot(e3.frame, p.p2));
    if !Present(e2) then None else
    if Huge(e2) then Some(Entry(e2.frame / 512 * 512 + p.p1, e2.flags)) else
    var e1 := m(Slot(e2.frame, p.p1));
    if !Present(e1) then None else Some(e1)
  }

  /** The entry of the lowest table that decides `p`, found by testing entries for zero. */
  function Locate(m: Memory, root: nat, p: Path): Option<Slot> {
    var e4 := m(Slot(root, p.p4));
    if e4 == EMPTY then None else
    var e3 := m(Slot(e4.frame, p.p3));
    if e3 == EMPTY then None else
    var e2 := m(Slot(e3.frame, p.p2));
    if e2 == EMPTY then None else
    Some(Slot(e2.frame, p.p1))
  }

  // ----- Well-formed trees -----

  /** The place of a table in the tree, named by the indices that lead to it. */
  datatype Node = Root | L3(i: nat) | L2(i: nat, j: nat) | L1(i: nat, j: nat, k: nat)

  function Child(n: Node, idx: nat): Node
    requires !n.L1?
  {
    match n
    case Root => L3(idx)
    case L3(i) => L2(i, idx)
    case L2(i, j) => L1(i, j, idx)
  }

  type Owners = map<nat, Node>

  ghost predicate TableEntry(e: Entry, own: Owners, n: Node) {
    e == EMPTY || (Present(e) && !Huge(e) && e.frame in own && own[e.frame] == n)
  }

  /**
   The tables named by `own` form a tree below `root`. Since `own` gives each frame
   one place, no table is reachable along two paths. Root entries whose index is in
   `skip` are unconstrained: the recursive entry is not part of the tree.
   */
  ghost predicate Tree(m: Memory, root: nat, own: Owners, skip: set<nat>) {
    && root in own
    && (forall f | f in own :: own[f].Root? <==> f == root)
    && (forall i: nat | i !in skip :: TableEntry(m(Slot(root, i)), own, L3(i)))
    && (forall f, i: nat | f in own && !own[f].Root? && !own[f].L1? ::
          TableEntry(m(Slot(f, i)), own, Child(own[f], i)))
    && (forall f, i: nat | f in own && own[f].L1? ::
          m(Slot(f, i)) == EMPTY || Present(m(Slot(f, i))))
  }

  /** In a tree the zero tests of the software and the present bits of the processor agree. */
  lemma WalkIsLocate(m: Memory, root: nat, own: Owners, skip: set<nat>, p: Path)
    requires Tree(m, root, own, skip) && p.p4 !in skip
    ensures Walk(m, root, p) ==
            match Locate(m, root, p)
            case None => None
            case Some(s) => if m(s) == EMPTY then None else Some(m(s))
    ensures match Locate(m, root, p)
            case None => true
            case Some(s) => s.table in own && own[s.table] == L1(p.p4, p.p3, p.p2) && s.idx == p.p1
  {
  }

  /** `m'` is `m` with entry `e` in `s` and the frame it names zeroed. */
  ghost predicate Hung(m: Memory, m': Memory, s: Slot, e: Entry) {
    forall t: Slot :: m'(t) == if t == s then e else if t.table == e.frame then EMPTY else m(t)
  }

  lemma AddTableTree(m: Memory, m': Memory, root: nat, own: Owners, skip: set<nat>, s: Slot, e: Entry)
    requires Tree(m, root, own, skip) && Hung(m, m', s, e)
    requires s.table in own && !own[s.table].L1?
    requires e.frame !in own && Present(e) && !Huge(e)
    requires m(s) == EMPTY || (s.table == root && s.idx in skip)
    ensures Tree(m', root, own[e.frame := Child(own[s.table], s.idx)], if s.table == root then skip - {s.idx} else skip)
  {
  }

  lemma AddTableWalk(m: Memory, m': Memory, root: nat, own: Owners, skip: set<nat>, s: Slot, e: Entry, p: Path)
    requires Tree(m, root, own, skip) && p.p4 !in skip && Hung(m, m', s, e)
    requires s.table in own && !own[s.table].L1?
    requires e.frame !in own && Present(e) && !Huge(e)
    requires m(s) == EMPTY || (s.table == root && s.idx in skip)
    ensures Walk(m', root, p) == Walk(m, root, p)
    ensures Locate(m, root, p).Some? ==> Locate(m', root, p) == Locate(m, root, p)
  {
    var s4 := Slot(root, p.p4);
    if s4 == s || m(s4) == EMPTY { return; }
    var s3 := Slot(m(s4).frame, p.p3);
    if s3 == s || m(s3) == EMPTY { return; }
    var s2 := Slot(m(s3).frame, p.p2);
    if s2 == s || m(s2) == EMPTY { return; }
  }

  /** Hanging a fresh zeroed table below an empty entry keeps the tree and every translation. */
  lemma AddTable(m: Memory, m': Memory, root: nat, own: Owners, skip: set<nat>, s: Slot, e: Entry)
    requires Tree(m, root, own, skip) && Hung(m, m', s, e)
    requires s.table in own && !own[s.table].L1?
    requires s.table == root ==> s.idx !in skip
    requires e.frame !in own && Present(e) && !Huge(e)
    requires m(s) == EMPTY
    ensures Tree(m', root, own[e.frame := Child(own[s.table], s.idx)], skip)
    ensures forall p: Path | p.p4 !in skip :: Walk(m', root, p) == Walk(m, root, p)
    ensures forall p: Path | p.p4 !in skip && Locate(m, root, p).Some? :: Locate(m', root, p) == Locate(m, root, p)
  {
    AddTableTree(m, m', root, own, skip, s, e);
    assert s.table == root ==> skip - {s.idx} == skip;
    forall p: Path | p.p4 !in skip
      ensures Walk(m', root, p) == Walk(m, root, p)
      ensures Locate(m, root, p).Some? ==> Locate(m', root, p) == Locate(m, root, p)
    {
      AddTableWalk(m, m', root, own, skip, s, e, p);
    }
  }

  /** Replacing an unconstrained root entry by a fresh zeroed table makes its pages unmapped. */
  lemma ReplaceRootEntry(m: Memory, m': Memory, root: nat, own: Owners, skip: set<nat>, idx: nat, e: Entry)
    requires Tree(m, root, own, skip) && Hung(m, m', Slot(root, idx), e) && idx in skip
    requires e.frame !in own && Present(e) && !Huge(e)
    ensures Tree(m', root, own[e.frame := L3(idx)], skip - {idx})
    ensures forall p: Path | p.p4 !in skip :: Walk(m', root, p) == Walk(m, root, p)
    ensures forall p: Path | p.p4 == idx :: Walk(m', root, p) == None
  {
    AddTableTree(m, m', root, own, skip, Slot(root, idx), e);
    forall p: Path | p.p4 !in skip
      ensures Walk(m', root, p) == Walk(m, root, p)
    {
      AddTableWalk(m, m', root, own, skip, Slot(root, idx), e, p);
    }
  }

  /** Zeroing a frame that holds no table changes no translation. */
  lemma ZeroData(m: Memory, root: nat, own: Owners, skip: set<nat>, frame: nat)
    requires Tree(m, root, own, skip) && frame !in own
    ensures Tree(ZeroFrame(m, frame), root, own, skip)
    ensures forall p: Path | p.p4 !in skip ::
      && Locate(ZeroFrame(m, frame), root, p) == Locate(m, root, p)
      && Walk(ZeroFrame(m, frame), root, p) == Walk(m, root, p)
  {
    forall p: Path | p.p4 !in skip
      ensures Locate(ZeroFrame(m, frame), root, p) == Locate(m, root, p)
      ensures Walk(ZeroFrame(m, frame), root, p) == Walk(m, root, p)
    {
      WalkIsLocate(m, root, own, skip, p);
    }
  }

  /** Writing one lowest-level entry changes the translation of exactly that page. */
  lemma SetLeaf(m: Memory, root: nat, own: Owners, skip: set<nat>, p: Path, e: Entry)
    requires Tree(m, root, own, skip) && p.p4 !in skip
    requires Locate(m, root, p).Some? && (e == EMPTY || Present(e))
    ensures var m' := Write(m, Locate(m, root, p).value, e);
            && Tree(m', root, own, skip)
            && (forall q: Path | q.p4 !in skip ::
                  && Locate(m', root, q) == Locate(m, root, q)
                  && Walk(m', root, q) ==
                     if q != p then Walk(m, root, q)
                     else if e == EMPTY then None else Some(e))
  {
    var s := Locate(m, root, p).value;
    var m' := Write(m, s, e);
    WalkIsLocate(m, root, own, skip, p);
    assert Tree(m', root, own, skip);
    forall q: Path | q.p4 !in skip
      ensures Locate(m', root, q) == Locate(m, root, q)
      ensures Walk(m', root, q) ==
              if q != p then Walk(m, root, q)
              else if e == EMPTY then None else Some(e)
    {
      WalkIsLocate(m, root, own, skip, q);
      WalkIsLocate(m', root, own, skip, q);
    }
  }

  /** The tree seen from another frame, to which the root has been copied. */
  function Reroot(own: Owners, root: nat, root': nat): Owners { (own - {root})[root' := Root] }

  lemma MoveRoot(m: Memory, m': Memory, root: nat, root': nat, own: Owners, skip: set<nat>)
    requires Tree(m, root, own, skip) && root' !in own
    requires forall t: Slot :: m'(t) == if t.table == root' then m(Slot(root, t.idx)) else m(t)
    ensures Tree(m', root', Reroot(own, root, root'), skip)
    ensures forall p: Path | p.p4 !in skip :: Walk(m', root', p) == Walk(m, root, p)
    ensures forall p: Path | p.p4 !in skip :: Locate(m', root', p) == Locate(m, root, p)
  {
    forall p: Path | p.p4 !in skip
      ensures Walk(m', root', p) == Walk(m, root, p)
      ensures Locate(m', root', p) == Locate(m, root, p)
    {
      WalkIsLocate(m, root, own, skip, p);
    }
  }

  /** Clearing an unconstrained root entry makes it part of the tree. */
  lemma ClearRootEntry(m: Memory, root: nat, own: Owners, skip: set<nat>, idx: nat)
    requires Tree(m, root, own, skip)
    ensures Tree(Write(m, Slot(root, idx), EMPTY), root, own, skip - {idx})
    ensures forall p: Path | p.p4 !in skip && p.p4 != idx ::
      && Walk(Write(m, Slot(root, idx), EMPTY), root, p) == Walk(m, root, p)
      && Locate(Write(m, Slot(root, idx), EMPTY), root, p) == Locate(m, root, p)
    ensures forall p: Path | p.p4 == idx :: Walk(Write(m, Slot(root, idx), EMPTY), root, p) == None
  {
    forall p: Path | p.p4 !in skip && p.p4 != idx
      ensures Walk(Write(m, Slot(root, idx), EMPTY), root, p) == Walk(m, root, p)
      ensures Locate(Write(m, Slot(root, idx), EMPTY), root, p) == Locate(m, root, p)
    {
      WalkIsLocate(m, root, own, skip, p);
    }
  }
}
