/**
 `PagingInitialize`: building the first tables of the kernel, at boot, when the loader's
 identity map still lets it write tables through their physical addresses. The tables
 must also map themselves, in a loop whose bound every new table raises.
 */
module PagingInit {
  import opened Forms
  import opened PageTables
  import opened RecursiveSlot
  import opened PagingSpec
  import opened PagingRefinement

  /** First page of the 1 GiB slot (root entry 511, P3 entry 510) that holds the kernel image. */
  const SLOT: nat := 0xF_FFFF_FFF8_0000
  const SLOT_END: nat := SLOT + 0x4_0000
  const KERNEL_VIRT_START: nat := 0xFFFF_FE80_0000_0000
  const HEAP_PAGES: nat := 0x2000
  const VIDEO := Path(511, 511, 511, 509)
  const VIDEO_FRAME: nat := 0xB8
  const VIDEO_ENTRY := Entry(VIDEO_FRAME, DEFAULT_PAGE_FLAGS)
  /** Most pages the tables can take: 24 fixed ones and one lowest table per 2 MiB of the slot. */
  const MOST_TABLES: nat := 536

  function CopyFrame(m: Memory, from: nat, to: nat): Memory {
    (t: Slot) => if t.table == to then m(Slot(from, t.idx)) else m(t)
  }

  lemma SlotPath(n: nat)
    requires SLOT <= n < SLOT_END
    ensures PathOfPage(n) == Path(511, 510, (n - SLOT) / 512, n % 512)
  {
    assert n == 0xFFFF * 0x10_0000_0000 + 511 * 0x800_0000 + 510 * 0x4_0000 + (n - SLOT) / 512 * 512 + n % 512;
    Digits(0xFFFF, 511, 510, (n - SLOT) / 512, n % 512);
  }

  lemma SlotInjective(n: nat, n': nat)
    requires SLOT <= n < SLOT_END && SLOT <= n' < SLOT_END && PathOfPage(n) == PathOfPage(n')
    ensures n == n'
  {
    SlotPath(n);
    SlotPath(n');
    SlotNumber(n);
    SlotNumber(n');
  }

  lemma SlotNumber(n: nat)
    requires SLOT <= n
    ensures n == SLOT + 512 * ((n - SLOT) / 512) + n % 512
  {
  }

  /** One of the pages `lo` up to `end`. */
  ghost predicate PageWithin(q: Path, lo: nat, end: nat) { exists n: nat :: lo <= n < end && q == PathOfPage(n) }

  /** Page `n` mapped to itself minus `d`, with the flags of a kernel page. */
  function Own(n: nat, d: nat): Entry
    requires d <= n
  {
    Entry(n - d, DEFAULT_PAGE_FLAGS)
  }

  /** Beside pages in `extra`, `f` maps exactly the pages `lo` up to `hi`, each to itself minus `d`. */
  ghost predicate Shifts(f: Flat, lo: nat, hi: nat, d: nat, extra: set<Path>) {
    && d <= lo
    && (forall n: nat | lo <= n < hi :: Get(f, PathOfPage(n)) == Some(Own(n, d)))
    && (forall q | q in f && q !in extra :: exists n: nat :: lo <= n < hi && q == PathOfPage(n))
  }

  lemma ShiftsStep(f: Flat, lo: nat, n: nat, d: nat, extra: set<Path>)
    requires Shifts(f, lo, n, d, extra) && SLOT <= lo <= n < SLOT_END
    ensures Shifts(f[PathOfPage(n) := Own(n, d)], lo, n + 1, d, extra)
  {
    var f' := f[PathOfPage(n) := Own(n, d)];
    forall k: nat | lo <= k < n + 1
      ensures Get(f', PathOfPage(k)) == Some(Own(k, d))
    {
      if PathOfPage(k) == PathOfPage(n) {
        SlotInjective(k, n);
      }
    }
    forall q | q in f' && q !in extra
      ensures exists k: nat :: lo <= k < n + 1 && q == PathOfPage(k)
    {
      if q != PathOfPage(n) {
        var k: nat :| lo <= k < n && q == PathOfPage(k);
      }
    }
  }

  lemma PageQuotient(n: nat, v: nat, d: nat, offset: nat)
    requires v == 4096 * n && offset == 4096 * d && d <= n
    ensures v / 4096 == n && v % 4096 == 0 && PathOf(v) == PathOfPage(n) && (v - offset) / 4096 == n - d
  {
  }

  /** Every link to a table has a table's flags. */
  ghost predicate TableLinks(m: Memory, root: nat, own: Owners, skip: set<nat>) {
    forall t: Slot {:trigger m(t)} |
      t.table in own && !own[t.table].L1? && (t.table == root ==> t.idx !in skip) && m(t) != EMPTY ::
        m(t).flags == DEFAULT_TABLE_FLAGS
  }

  class BootTables {
    var m: Memory
    /** `krnlEnd / 0x1000`: the frame the next table will take. */
    var next: nat
    ghost var own: Owners
    ghost var flat: Flat

    ghost predicate Valid(root: nat, skip: set<nat>)
      reads this
    {
      && Tree(m, root, own, skip)
      && (forall f | f in own :: root <= f < next)
      && (forall q: Path | q.p4 !in skip :: Walk(m, root, q) == Get(flat, q))
      && TableLinks(m, root, own, skip)
    }

    constructor (m: Memory)
      ensures this.m == m
    {
      this.m, next, own, flat := m, 0, map[], map[];
    }

    method SetNewTable(dir: nat, idx: nat, flags: nat, checkForMissing: bool, ghost root: nat, ghost skip: set<nat>)
      returns (ghost created: bool)
      requires Valid(root, skip) && dir in own && !own[dir].L1? && flags == DEFAULT_TABLE_FLAGS
      requires dir == root && idx in skip ==> !checkForMissing && forall q | q in flat :: q.p4 != idx
      requires !checkForMissing ==> m(Slot(dir, idx)) == EMPTY || (dir == root && idx in skip)
      modifies this
      ensures Valid(root, if dir == root then skip - {idx} else skip)
      ensures flat == old(flat)
      ensures created == (!checkForMissing || old(m)(Slot(dir, idx)) == EMPTY)
      ensures if created then
                && next == old(next) + 1
                && own == old(own)[old(next) := Child(old(own)[dir], idx)]
                && Hung(old(m), m, Slot(dir, idx), Entry(old(next), flags))
              else next == old(next) && own == old(own) && m == old(m)
    {
      var slot := Slot(dir, idx);
      created := !checkForMissing || m(slot) == EMPTY;
      if (checkForMissing && m(slot) == EMPTY) || !checkForMissing {
        var e := Entry(next, flags);
        ghost var m0 := m;
        m := Write(m, slot, e);
        m := ZeroFrame(m, next);
        if dir == root && idx in skip {
          ReplaceRootEntry(m0, m, root, own, skip, idx, e);
        } else {
          AddTable(m0, m, root, own, skip, slot, e);
          assert dir == root ==> skip - {idx} == skip;
        }
        own := own[next := Child(own[dir], idx)];
        next := next + 1;
      } else {
        assert dir == root ==> skip - {idx} == skip;
      }
    }

    /** `p1Tbl[GET_P1_IDX(v)] = phys | flags` for the page with path `p`. */
    method SetPage(p1: nat, p: Path, e: Entry, ghost root: nat, ghost skip: set<nat>)
      requires Valid(root, skip) && p.p4 !in skip && Locate(m, root, p) == Some(Slot(p1, p.p1)) && Present(e)
      modifies this`m, this`flat
      ensures Valid(root, skip) && flat == old(flat)[p := e]
      ensures m == Write(old(m), Slot(p1, p.p1), e)
      ensures p1 in own && own[p1] == L1(p.p4, p.p3, p.p2)
      ensures forall q: Path | q.p4 !in skip :: Locate(m, root, q) == Locate(old(m), root, q)
    {
      WalkIsLocate(m, root, own, skip, p);
      SetLeaf(m, root, own, skip, p, e);
      m := Write(m, Slot(p1, p.p1), e);
      flat := flat[p := e];
    }

    /** The image's slot: its P2 table `p2` has lowest tables exactly at `k0` up to `top`. */
    ghost predicate ImageSlot(root: nat, p3: nat, p2: nat, k0: nat, top: nat)
      reads this
    {
      && m(Slot(root, 511)) == Entry(p3, DEFAULT_TABLE_FLAGS)
      && m(Slot(p3, 510)) == Entry(p2, DEFAULT_TABLE_FLAGS)
      && p3 in own && own[p3] == L3(511) && p2 in own && own[p2] == L2(511, 510)
      && (forall k: nat :: m(Slot(p2, k)) != EMPTY <==> k0 <= k <= top)
    }

    /** The last frame taken holds a table in use. */
    ghost predicate LastIsTable()
      reads `next, `own
    {
      0 < next && next - 1 in own
    }

    /** Entries of the upper tables other than `p2` are as in `m0`. */
    ghost predicate UpperKept(m0: Memory, own0: Owners, p2: nat)
      reads this
    {
      && (forall f | f in own0 :: f in own && own[f] == own0[f])
      && (forall t: Slot | t.table in own0 && !own0[t.table].L1? && t.table != p2 :: m(t) == m0(t))
    }

    /** The first two tables of the image's slot. */
    method StartUpper(root: nat, path: Path) returns (p3: nat, p2: nat)
      requires Valid(root, {0, 510, 511}) && own == map[root := Root] && next == root + 1 && flat == map[]
      requires path.p4 == 511 && path.p3 == 510
      modifies this
      ensures Valid(root, {0, 510}) && flat == map[] && next == root + 3 && p3 == root + 1 && p2 == root + 2
      ensures own == map[root := Root, p3 := L3(511), p2 := L2(511, 510)]
      ensures m(Slot(root, 511)) == Entry(p3, DEFAULT_TABLE_FLAGS) && m(Slot(p3, 510)) == Entry(p2, DEFAULT_TABLE_FLAGS)
      ensures (forall k: nat :: m(Slot(p2, k)) == EMPTY) && m(Slot(p3, 511)) == EMPTY
      ensures forall i: nat | i != 511 :: m(Slot(root, i)) == old(m)(Slot(root, i))
    {
      ghost var c := SetNewTable(root, path.p4, DEFAULT_TABLE_FLAGS, false, root, {0, 510, 511});
      assert {0, 510, 511} - {511} == {0, 510};
      p3 := m(Slot(root, path.p4)).frame;
      c := SetNewTable(p3, path.p3, DEFAULT_TABLE_FLAGS, false, root, {0, 510});
      p2 := m(Slot(p3, path.p3)).frame;
    }

    /** The first tables of the image's slot; `path` are the indices of the image's first page. */
    method StartImage(root: nat, path: Path) returns (p3: nat, p2: nat)
      requires Valid(root, {0, 510, 511}) && own == map[root := Root] && next == root + 1 && flat == map[]
      requires path.p4 == 511 && path.p3 == 510
      modifies this
      ensures Valid(root, {0, 510}) && flat == map[] && next == root + 4
      ensures ImageSlot(root, p3, p2, path.p2, path.p2) && m(Slot(p3, 511)) == EMPTY
      ensures p3 == root + 1 && next - 1 in own
      ensures forall i: nat | i != 511 :: m(Slot(root, i)) == old(m)(Slot(root, i))
    {
      p3, p2 := StartUpper(root, path);
      ghost var c := SetNewTable(p2, path.p2, DEFAULT_TABLE_FLAGS, false, root, {0, 510});
    }

    /** The lowest table of `path`, new exactly when its P2 entry is the first one missing. */
    method LowestTable(path: Path, root: nat, p3: nat, p2: nat, ghost k0: nat, ghost top: nat)
      returns (p1: nat)
      requires Valid(root, {0, 510}) && ImageSlot(root, p3, p2, k0, top)
      requires path.p4 == 511 && path.p3 == 510 && k0 <= top <= path.p2 <= top + 1 && LastIsTable()
      modifies this
      ensures LastIsTable()
      ensures Valid(root, {0, 510}) && ImageSlot(root, p3, p2, k0, path.p2) && flat == old(flat)
      ensures next == old(next) + path.p2 - top
      ensures Locate(m, root, path) == Some(Slot(p1, path.p1))
      ensures UpperKept(old(m), old(own), p2)
    {
      ghost var c := SetNewTable(p2, path.p2, DEFAULT_TABLE_FLAGS, true, root, {0, 510});
      p1 := m(Slot(p2, path.p2)).frame;
    }

    /**
     The tables implement `f` and have the slot's lowest tables number `k0` up to `top`;
     the upper entries of an earlier memory `m0` are still there.
     */
    ghost predicate Covers(m0: Memory, own0: Owners, root: nat, p3: nat, p2: nat, k0: nat, top: nat, base: int, f: Flat)
      reads this
    {
      && Valid(root, {0, 510}) && flat == f
      && k0 <= top
      && ImageSlot(root, p3, p2, k0, top)
      && next == base + top && LastIsTable()
      && root in own0 && p3 in own0 && p2 in own0
      && UpperKept(m0, own0, p2)
    }

    /**
     Map the page with indices `path`, creating its lowest table when it is the next one;
     with `onlyEmpty` an entry that is already set is left alone.
     */
    method MapPath(path: Path, frame: nat, onlyEmpty: bool, root: nat, p3: nat, p2: nat,
                   ghost m0: Memory, ghost own0: Owners, ghost k0: nat, ghost top: nat, ghost base: int)
      requires Covers(m0, own0, root, p3, p2, k0, top, base, flat)
      requires path.p4 == 511 && path.p3 == 510 && top <= path.p2 <= top + 1
      requires onlyEmpty ==> path !in flat
      modifies this
      ensures Covers(m0, own0, root, p3, p2, k0, path.p2, base, old(flat)[path := Entry(frame, DEFAULT_PAGE_FLAGS)])
    {
      var p1Tbl := LowestTable(path, root, p3, p2, k0, top);
      WalkIsLocate(m, root, own, {0, 510}, path);
      if !onlyEmpty || m(Slot(p1Tbl, path.p1)) == EMPTY {
        SetPage(p1Tbl, path, Entry(frame, DEFAULT_PAGE_FLAGS), root, {0, 510});
      }
    }

    /** One page of the last loop, from the root down. */
    method MapTablePage(path: Path, frame: nat, root: nat, ghost p3: nat, ghost p2: nat,
                        ghost m0: Memory, ghost own0: Owners, ghost k0: nat, ghost top: nat, ghost base: int)
      requires Covers(m0, own0, root, p3, p2, k0, top, base, flat)
      requires path.p4 == 511 && path.p3 == 510 && top <= path.p2 <= top + 1 && path !in flat
      modifies this
      ensures Covers(m0, own0, root, p3, p2, k0, path.p2, base, old(flat)[path := Entry(frame, DEFAULT_PAGE_FLAGS)])
    {
      ghost var c := SetNewTable(root, path.p4, DEFAULT_TABLE_FLAGS, true, root, {0, 510});
      var p3Dir := m(Slot(root, path.p4)).frame;
      c := SetNewTable(p3Dir, path.p3, DEFAULT_TABLE_FLAGS, true, root, {0, 510});
      var p2Dir := m(Slot(p3Dir, path.p3)).frame;
      MapPath(path, frame, true, root, p3Dir, p2Dir, m0, own0, k0, top, base);
    }

    /** The page at `v`, number `n`, mapped to itself minus the offset; in the last loop from the root down. */
    method MapOwn(v: nat, offset: nat, fromRoot: bool, root: nat, p3: nat, p2: nat,
                  ghost m0: Memory, ghost own0: Owners, ghost k0: nat, ghost top: nat, ghost base: int,
                  ghost lo: nat, ghost n: nat, ghost d: nat, ghost extra: set<Path>)
      returns (ghost top': nat)
      requires Covers(m0, own0, root, p3, p2, k0, top, base, flat) && Shifts(flat, lo, n, d, extra)
      requires v == 4096 * n && offset == 4096 * d && SLOT <= lo <= n < SLOT_END
      requires SLOT + 512 * top <= n <= SLOT + 512 * (top + 1) && forall q | q in extra :: q.p3 != 510
      modifies this
      ensures Covers(m0, own0, root, p3, p2, k0, top', base, flat) && Shifts(flat, lo, n + 1, d, extra)
      ensures top <= top' && SLOT + 512 * top' <= n < SLOT + 512 * (top' + 1)
      ensures forall q | q in extra :: Get(flat, q) == Get(old(flat), q)
    {
      ShiftsStep(flat, lo, n, d, extra);
      NotYet(flat, lo, n, d, extra);
      PageQuotient(n, v, d, offset);
      var path := PathOf(v);
      if fromRoot {
        MapTablePage(path, (v - offset) / 4096, root, p3, p2, m0, own0, k0, top, base);
      } else {
        MapPath(path, (v - offset) / 4096, false, root, p3, p2, m0, own0, k0, top, base);
      }
      top' := path.p2;
    }

    /** The tables of the kernel image, and its pages; `lo`, `hi` and `d` are page counts. */
    method MapImage(root: nat, krnlStart: nat, pageAddr: nat, offset: nat, ghost lo: nat, ghost hi: nat, ghost d: nat)
      returns (p3: nat, p2: nat, ghost m0: Memory, ghost own0: Owners, ghost k0: nat, ghost top: nat)
      requires Valid(root, {0, 510, 511}) && own == map[root := Root] && next == root + 1 && flat == map[]
      requires krnlStart == 4096 * lo && pageAddr == 4096 * hi && offset == 4096 * d
      requires d <= lo && SLOT <= lo <= hi < SLOT_END
      modifies this
      ensures Covers(m0, own0, root, p3, p2, k0, top, root + 4 - k0, flat) && Shifts(flat, lo, hi, d, {})
      ensures SLOT + 512 * top <= hi <= SLOT + 512 * (top + 1)
      ensures m0(Slot(p3, 511)) == EMPTY && p3 == root + 1
      ensures forall i: nat | i != 511 :: m0(Slot(root, i)) == old(m)(Slot(root, i))
    {
      NotYet(map[], lo, lo, d, {});
      PageQuotient(lo, krnlStart, d, offset);
      p3, p2 := StartImage(root, PathOf(krnlStart));
      m0, own0, k0, top := m, own, PathOf(krnlStart).p2, PathOf(krnlStart).p2;
      var v := krnlStart;
      ghost var n := lo;
      while v < pageAddr - 1
        invariant v == 4096 * n && lo <= n <= hi && SLOT + 512 * top <= n <= SLOT + 512 * (top + 1)
        invariant Covers(m0, own0, root, p3, p2, k0, top, root + 4 - k0, flat) && Shifts(flat, lo, n, d, {})
        decreases hi - n
      {
        top := MapOwn(v, offset, false, root, p3, p2, m0, own0, k0, top, root + 4 - k0, lo, n, d, {});
        v, n := v + 4096, n + 1;
      }
    }

    /** `SetNewTable` on an empty entry of a lowest table: the new page is zeroed and mapped. */
    method SetNewPage(p1: nat, p: Path, ghost root: nat, ghost skip: set<nat>)
      requires Valid(root, skip) && p.p4 !in skip && Locate(m, root, p) == Some(Slot(p1, p.p1)) && p !in flat
      modifies this`m, this`flat, this`next
      ensures Valid(root, skip) && flat == old(flat)[p := Entry(old(next), DEFAULT_PAGE_FLAGS)] && next == old(next) + 1
      ensures forall t: Slot | t.table in own && !own[t.table].L1? :: m(t) == old(m)(t)
      ensures forall q: Path | q.p4 !in skip :: Locate(m, root, q) == Locate(old(m), root, q)
    {
      WalkIsLocate(m, root, own, skip, p);
      if m(Slot(p1, p.p1)) == EMPTY {
        SetPage(p1, p, Entry(next, DEFAULT_PAGE_FLAGS), root, skip);
        ZeroData(m, root, own, skip, next);
        m := ZeroFrame(m, next);
        next := next + 1;
      }
    }

    /** The tables that end at root entry 511, P3 entry 511, P2 entry 511. */
    method TempTables(root: nat, p3: nat, ghost p2: nat, ghost k0: nat, ghost top: nat) returns (p1: nat)
      requires Valid(root, {0, 510}) && ImageSlot(root, p3, p2, k0, top) && m(Slot(p3, 511)) == EMPTY && root != p2
      modifies this
      ensures Valid(root, {0, 510}) && ImageSlot(root, p3, p2, k0, top) && flat == old(flat)
      ensures next == old(next) + 2
      ensures forall l: nat :: Locate(m, root, Path(511, 511, 511, l)) == Some(Slot(p1, l))
      ensures p1 != root
      ensures forall i: nat :: m(Slot(root, i)) == old(m)(Slot(root, i))
    {
      ghost var c := SetNewTable(p3, 511, DEFAULT_TABLE_FLAGS, true, root, {0, 510});
      var p2Dir := m(Slot(p3, 511)).frame;
      c := SetNewTable(p2Dir, 511, DEFAULT_TABLE_FLAGS, true, root, {0, 510});
      p1 := m(Slot(p2Dir, 511)).frame;
    }

    /** The temporary page, used to clear new tables later on. */
    method MapTemp(root: nat, p3: nat, ghost p2: nat, ghost k0: nat, ghost top: nat) returns (p1: nat)
      requires Valid(root, {0, 510}) && ImageSlot(root, p3, p2, k0, top) && m(Slot(p3, 511)) == EMPTY && root != p2
      requires TEMP !in flat
      modifies this
      ensures Valid(root, {0, 510}) && ImageSlot(root, p3, p2, k0, top)
      ensures flat == old(flat)[TEMP := Entry(old(next) + 2, DEFAULT_PAGE_FLAGS)] && next == old(next) + 3
      ensures Locate(m, root, VIDEO) == Some(Slot(p1, VIDEO.p1)) && p1 != root
      ensures forall i: nat :: m(Slot(root, i)) == old(m)(Slot(root, i))
    {
      p1 := TempTables(root, p3, p2, k0, top);
      SetNewPage(p1, TEMP, root, {0, 510});
    }

    /** The temporary page and the page of the video memory. */
    method MapTempAndVideo(root: nat, p3: nat, ghost p2: nat, ghost k0: nat, ghost top: nat)
      requires Valid(root, {0, 510}) && ImageSlot(root, p3, p2, k0, top) && m(Slot(p3, 511)) == EMPTY && root != p2
      requires TEMP !in flat
      modifies this
      ensures Valid(root, {0, 510}) && ImageSlot(root, p3, p2, k0, top)
      ensures flat == old(flat)[TEMP := Entry(old(next) + 2, DEFAULT_PAGE_FLAGS)][VIDEO := VIDEO_ENTRY]
      ensures next == old(next) + 3
      ensures forall i: nat :: m(Slot(root, i)) == old(m)(Slot(root, i))
    {
      var p1Tbl := MapTemp(root, p3, p2, k0, top);
      SetPage(p1Tbl, VIDEO, Entry(VIDEO_FRAME, DEFAULT_PAGE_FLAGS), root, {0, 510});
    }

    /** The lowest tables of the heap's region: a P2 table at root entry 509 with its entries 0 to 15 set. */
    ghost predicate HeapTables(root: nat, count: nat)
      reads this
    {
      var h3 := m(Slot(root, 509)).frame;
      var h2 := m(Slot(h3, 0)).frame;
      && m(Slot(root, 509)) != EMPTY && m(Slot(h3, 0)) != EMPTY
      && forall k: nat :: k < count <==> m(Slot(h2, k)) != EMPTY
    }

    /** The heap's P2 table `h2` is in place with `count` lowest tables, all else as in `m0`. */
    ghost predicate Heaping(m0: Memory, root: nat, h2: nat, count: nat, base: int, f: Flat,
                            p3: nat, p2: nat, k0: nat, top: nat)
      reads this
    {
      && Valid(root, {0, 510}) && flat == f && next == base + count
      && ImageSlot(root, p3, p2, k0, top) && root != p2
      && HeapTables(root, count)
      && h2 in own && own[h2] == L2(509, 0) && m(Slot(m(Slot(root, 509)).frame, 0)).frame == h2
      && forall i: nat | i != 509 :: m(Slot(root, i)) == m0(Slot(root, i))
    }

    method StartHeapRoot(root: nat, path: Path, ghost p3: nat, ghost p2: nat, ghost k0: nat, ghost top: nat)
      returns (h3: nat)
      requires Valid(root, {0, 510}) && ImageSlot(root, p3, p2, k0, top) && m(Slot(root, 509)) == EMPTY && root != p2
      requires path.p4 == 509
      modifies this
      ensures Valid(root, {0, 510}) && ImageSlot(root, p3, p2, k0, top) && flat == old(flat) && next == old(next) + 1
      ensures h3 in own && own[h3] == L3(509) && m(Slot(root, 509)) != EMPTY && m(Slot(root, 509)).frame == h3
      ensures (forall i: nat :: m(Slot(h3, i)) == EMPTY) && root != h3 && p3 != h3 && p2 != h3
      ensures forall i: nat | i != 509 :: m(Slot(root, i)) == old(m)(Slot(root, i))
    {
      ghost var c := SetNewTable(root, path.p4, DEFAULT_TABLE_FLAGS, false, root, {0, 510});
      h3 := m(Slot(root, path.p4)).frame;
      assert {0, 510} - {509} == {0, 510};
    }

    method StartHeapUpper(root: nat, path: Path, ghost p3: nat, ghost p2: nat, ghost k0: nat, ghost top: nat)
      returns (h2: nat)
      requires Valid(root, {0, 510}) && ImageSlot(root, p3, p2, k0, top) && m(Slot(root, 509)) == EMPTY && root != p2
      requires path.p4 == 509 && path.p3 == 0
      modifies this
      ensures Heaping(old(m), root, h2, 0, old(next) + 2, old(flat), p3, p2, k0, top)
    {
      var h3 := StartHeapRoot(root, path, p3, p2, k0, top);
      ghost var c := SetNewTable(h3, path.p3, DEFAULT_TABLE_FLAGS, false, root, {0, 510});
      h2 := m(Slot(h3, path.p3)).frame;
    }

    method StartHeap(root: nat, path: Path, ghost p3: nat, ghost p2: nat, ghost k0: nat, ghost top: nat)
      returns (h2: nat)
      requires Valid(root, {0, 510}) && ImageSlot(root, p3, p2, k0, top) && m(Slot(root, 509)) == EMPTY && root != p2
      requires path.p4 == 509 && path.p3 == 0 && path.p2 == 0
      modifies this
      ensures Heaping(old(m), root, h2, 1, old(next) + 2, old(flat), p3, p2, k0, top) && LastIsTable()
    {
      h2 := StartHeapUpper(root, path, p3, p2, k0, top);
      ghost var c := SetNewTable(h2, path.p2, DEFAULT_TABLE_FLAGS, false, root, {0, 510});
    }

    method HeapTable(root: nat, h2: nat, k: nat, ghost m0: Memory, ghost count: nat, ghost base: int, ghost f: Flat,
                     ghost p3: nat, ghost p2: nat, ghost k0: nat, ghost top: nat)
      requires Heaping(m0, root, h2, count, base, f, p3, p2, k0, top) && k <= count <= k + 1 && LastIsTable()
      modifies this
      ensures Heaping(m0, root, h2, k + 1, base, f, p3, p2, k0, top) && LastIsTable()
    {
      ghost var c := SetNewTable(h2, k, DEFAULT_TABLE_FLAGS, true, root, {0, 510});
    }

    /** The first `n` pages need `count` lowest tables, and at least one. */
    predicate Covered(n: nat, count: nat) {
      1 <= count && n <= 512 * count && (512 * (count - 1) < n || n == count - 1 == 0)
    }

    lemma NextCovered(n: nat, count: nat, k: nat)
      requires Covered(n, count) && 512 * k <= n < 512 * (k + 1)
      ensures k <= count <= k + 1 && Covered(n + 1, k + 1)
    {
    }

    /** One page of the heap: its lowest table, if it has none. */
    method HeapTurn(root: nat, h2: nat, v: nat, ghost n: nat, ghost m0: Memory, ghost count: nat, ghost base: int,
                    ghost f: Flat, ghost p3: nat, ghost p2: nat, ghost k0: nat, ghost top: nat)
      returns (ghost count': nat)
      requires v == KERNEL_VIRT_START + 4096 * n && n < HEAP_PAGES && Covered(n, count)
      requires Heaping(m0, root, h2, count, base, f, p3, p2, k0, top) && LastIsTable()
      modifies this
      ensures Covered(n + 1, count')
      ensures Heaping(m0, root, h2, count', base, f, p3, p2, k0, top) && LastIsTable()
    {
      HeapPath(n);
      var k := PathOf(v).p2;
      NextCovered(n, count, k);
      HeapTable(root, h2, k, m0, count, base, f, p3, p2, k0, top);
      count' := k + 1;
    }

    /** Lowest tables, without pages, for the 32 MiB of the kernel heap. */
    method MakeHeapTables(root: nat, ghost p3: nat, ghost p2: nat, ghost k0: nat, ghost top: nat)
      returns (ghost h2: nat)
      requires Valid(root, {0, 510}) && ImageSlot(root, p3, p2, k0, top) && m(Slot(root, 509)) == EMPTY && root != p2
      modifies this
      ensures Heaping(old(m), root, h2, 16, old(next) + 2, old(flat), p3, p2, k0, top) && LastIsTable()
    {
      var v := KERNEL_VIRT_START;
      HeapPath(0);
      var p2Dir := StartHeap(root, PathOf(v), p3, p2, k0, top);
      ghost var n: nat, count: nat, m0, base, f := 0, 1, old(m), old(next) + 2, old(flat);
      while v < KERNEL_VIRT_START + 0x200_0000
        invariant v == KERNEL_VIRT_START + 4096 * n && n <= HEAP_PAGES
        invariant Covered(n, count)
        invariant Heaping(m0, root, p2Dir, count, base, f, p3, p2, k0, top) && LastIsTable()
        decreases HEAP_PAGES - n
      {
        count := HeapTurn(root, p2Dir, v, n, m0, count, base, f, p3, p2, k0, top);
        v, n := v + 0x1000, n + 1;
      }
      h2 := p2Dir;
    }

    /**
     The loop that maps the pages of the new tables themselves. Its bound `krnlEnd` moves on
     with every table it makes; it ends because at most one table is made per 512 pages mapped.
     */
    method MapTables(root: nat, pageAddr: nat, offset: nat, p3: nat, p2: nat,
                     ghost m0: Memory, ghost own0: Owners, ghost k0: nat, ghost top0: nat, ghost base: int,
                     ghost lo: nat, ghost hi: nat, ghost d: nat, ghost extra: set<Path>)
      requires Covers(m0, own0, root, p3, p2, k0, top0, base, flat) && Shifts(flat, lo, hi, d, extra)
      requires pageAddr == 4096 * hi && offset == 4096 * d && SLOT <= lo <= hi && forall q | q in extra :: q.p3 != 510
      requires SLOT + 512 * top0 <= hi <= SLOT + 512 * (top0 + 1)
      requires top0 <= 511 && hi <= next + d && base + 511 + d <= SLOT_END
      modifies this
      ensures exists top :: Covers(m0, own0, root, p3, p2, k0, top, base, flat)
      ensures Shifts(flat, lo, next + d, d, extra) && next + d <= SLOT_END && old(next) <= next
      ensures forall q | q in extra :: Get(flat, q) == Get(old(flat), q)
    {
      var v := pageAddr;
      ghost var n, top := hi, top0;
      while v < next * 4096 + offset
        invariant v == 4096 * n && hi <= n <= next + d && old(next) <= next
        invariant top <= 511 && SLOT + 512 * top <= n <= SLOT + 512 * (top + 1)
        invariant Covers(m0, own0, root, p3, p2, k0, top, base, flat) && Shifts(flat, lo, n, d, extra)
        invariant forall q | q in extra :: Get(flat, q) == Get(old(flat), q)
        decreases SLOT_END - n
      {
        top := MapOwn(v, offset, true, root, p3, p2, m0, own0, k0, top, base, lo, n, d, extra);
        v, n := v + 0x1000, n + 1;
      }
    }

    /** A copy of the loader's root table, in the first frame behind the kernel. */
    method CopyRoot(pd: nat, first: nat) returns (root: nat)
      requires LoaderRoot(m, pd) && pd < first
      modifies this
      ensures root == first && next == root + 1 && own == map[root := Root] && flat == map[]
      ensures Valid(root, {0, 510, 511}) && m == CopyFrame(old(m), pd, root)
    {
      root := first;
      next := first + 1;
      m := CopyFrame(m, pd, root);
      own, flat := map[root := Root], map[];
    }

    /** Clear the loader's identity map and put the new root into place. */
    method InstallRoot(root: nat, pd: nat)
      requires Valid(root, {0, 510}) && pd < root && Locate(m, root, TEMP).Some?
      requires Link(m(Slot(root, 510))) && m(Slot(root, 510)).frame == pd && LastIsTable()
      requires m(Slot(root, 511)).frame == root + 1 && root + 1 in own && own[root + 1] == L3(511)
      modifies this`m, this`own
      ensures Tree(m, pd, own, SKIP) && Recursive(m, pd) && Locate(m, pd, TEMP).Some?
      ensures Answers(m, pd, flat) && TableLinks(m, pd, own, SKIP) && LastIsTable() && KernelTable(m, pd, own, root)
      ensures forall f | f in own :: f < next
      ensures forall q: Path | q.p4 !in {0, 510} :: Locate(m, pd, q) == Locate(old(m), root, q)
      ensures forall i: nat :: m(Slot(pd, i)) == if i == 0 then EMPTY else old(m)(Slot(root, i))
    {
      ghost var own0 := own;
      PutRoot(root, pd);
      Rerooted(m, own0, own, root, pd, next);
    }

    method PutRoot(root: nat, pd: nat)
      requires Valid(root, {0, 510}) && pd < root && Locate(m, root, TEMP).Some?
      requires Link(m(Slot(root, 510))) && m(Slot(root, 510)).frame == pd
      modifies this`m, this`own
      ensures Tree(m, pd, own, SKIP) && Recursive(m, pd) && Locate(m, pd, TEMP).Some?
      ensures Answers(m, pd, flat) && TableLinks(m, pd, own, SKIP) && own == Reroot(old(own), root, pd)
      ensures forall f | f in own :: f < next
      ensures forall q: Path | q.p4 !in {0, 510} :: Locate(m, pd, q) == Locate(old(m), root, q)
      ensures forall i: nat :: m(Slot(pd, i)) == if i == 0 then EMPTY else old(m)(Slot(root, i))
    {
      ClearRootEntry(m, root, own, {0, 510}, 0);
      assert {0, 510} - {0} == SKIP;
      m := Write(m, Slot(root, 0), EMPTY);
      MoveRoot(m, CopyFrame(m, root, pd), root, pd, own, SKIP);
      m := CopyFrame(m, root, pd);
      own := Reroot(own, root, pd);
    }

    /** The tables so far: the image's slot, complete up to page `hi`, and what the loader's root gave. */
    ghost predicate Started(loader: Memory, pd: nat, root: nat, p3: nat, p2: nat, k0: nat, top: nat,
                            lo: nat, hi: nat, d: nat, extra: set<Path>)
      reads this
    {
      && Valid(root, {0, 510}) && ImageSlot(root, p3, p2, k0, top) && root in own && own[root] == Root
      && Shifts(flat, lo, hi, d, extra) && lo <= hi && k0 <= top
      && SLOT + 512 * top <= hi <= SLOT + 512 * (top + 1)
      && m(Slot(root, 510)) == loader(Slot(pd, 510))
      && forall i: nat | i !in {0, 509, 510, 511} :: m(Slot(root, i)) == EMPTY
    }

    method StartTables(pageAddr: nat, krnlStart: nat, offset: nat, pd: nat, ghost lo: nat, ghost hi: nat, ghost d: nat)
      returns (root: nat, p3: nat, p2: nat, ghost k0: nat, ghost top: nat)
      requires LoaderRoot(m, pd) && pd + d < hi
      requires krnlStart == 4096 * lo && pageAddr == 4096 * hi && offset == 4096 * d
      requires d <= lo && SLOT <= lo <= hi && hi + MOST_TABLES <= SLOT_END
      modifies this
      ensures Started(old(m), pd, root, p3, p2, k0, top, lo, hi, d, {})
      ensures root == hi - d && next == root + 4 + top - k0 && p3 == root + 1
      ensures m(Slot(p3, 511)) == EMPTY && m(Slot(root, 509)) == EMPTY
    {
      PageQuotient(hi, pageAddr, d, offset);
      root := CopyRoot(pd, (pageAddr - offset) / 4096);
      ghost var m0, own0;
      p3, p2, m0, own0, k0, top := MapImage(root, krnlStart, pageAddr, offset, lo, hi, d);
    }

    method AddFixedPages(root: nat, p3: nat, ghost p2: nat, ghost k0: nat, ghost top: nat,
                         ghost loader: Memory, ghost pd: nat, ghost lo: nat, ghost hi: nat, ghost d: nat)
      requires Started(loader, pd, root, p3, p2, k0, top, lo, hi, d, {}) && SLOT <= lo && hi <= SLOT_END
      requires m(Slot(p3, 511)) == EMPTY && m(Slot(root, 509)) == EMPTY
      modifies this
      ensures Started(loader, pd, root, p3, p2, k0, top, lo, hi, d, {TEMP, VIDEO})
      ensures next == old(next) + 3 && m(Slot(root, 509)) == EMPTY
      ensures Get(flat, VIDEO) == Some(VIDEO_ENTRY) && TEMP in flat
    {
      NoTempYet(flat, lo, hi, d, Entry(next + 2, DEFAULT_PAGE_FLAGS), VIDEO_ENTRY);
      MapTempAndVideo(root, p3, p2, k0, top);
    }

    method AddHeapTables(root: nat, ghost p3: nat, ghost p2: nat, ghost k0: nat, ghost top: nat,
                         ghost loader: Memory, ghost pd: nat, ghost lo: nat, ghost hi: nat, ghost d: nat)
      returns (ghost h2: nat)
      requires Started(loader, pd, root, p3, p2, k0, top, lo, hi, d, {TEMP, VIDEO}) && m(Slot(root, 509)) == EMPTY
      modifies this
      ensures Started(loader, pd, root, p3, p2, k0, top, lo, hi, d, {TEMP, VIDEO})
      ensures next == old(next) + 18 && flat == old(flat) && LastIsTable()
      ensures HeapTables(root, 16) && h2 in own && own[h2] == L2(509, 0)
      ensures m(Slot(m(Slot(root, 509)).frame, 0)).frame == h2
    {
      h2 := MakeHeapTables(root, p3, p2, k0, top);
    }

    /** The finished tables: own pages up to the end of the tables, and the heap's empty tables. */
    ghost predicate Built(loader: Memory, pd: nat, root: nat, lo: nat, d: nat)
      reads this
    {
      && Valid(root, {0, 510})
      && Shifts(flat, lo, next + d, d, {TEMP, VIDEO})
      && Get(flat, VIDEO) == Some(VIDEO_ENTRY) && TEMP in flat
      && m(Slot(root, 510)) == loader(Slot(pd, 510))
      && (forall i: nat | i !in {0, 509, 510, 511} :: m(Slot(root, i)) == EMPTY)
      && HeapTables(root, 16) && LastIsTable()
      && m(Slot(root, 511)).frame == root + 1 && root + 1 in own && own[root + 1] == L3(511)
    }

    method AddTablePages(root: nat, pageAddr: nat, offset: nat, p3: nat, p2: nat, ghost h2: nat, ghost k0: nat,
                         ghost top: nat, ghost loader: Memory, ghost pd: nat,
                         ghost lo: nat, ghost hi: nat, ghost d: nat)
      requires Started(loader, pd, root, p3, p2, k0, top, lo, hi, d, {TEMP, VIDEO})
      requires next == root + 25 + top - k0 && LastIsTable() && p3 == root + 1
      requires root + d == hi && SLOT <= lo && hi + MOST_TABLES <= SLOT_END
      requires pageAddr == 4096 * hi && offset == 4096 * d
      requires Get(flat, VIDEO) == Some(VIDEO_ENTRY) && TEMP in flat
      requires HeapTables(root, 16) && h2 in own && own[h2] == L2(509, 0)
      requires m(Slot(m(Slot(root, 509)).frame, 0)).frame == h2
      modifies this
      ensures Built(loader, pd, root, lo, d) && hi <= next + d <= SLOT_END
    {
      ghost var m1, own1 := m, own;
      MapTables(root, pageAddr, offset, p3, p2, m1, own1, k0, top, root + 25 - k0, lo, hi, d, {TEMP, VIDEO});
    }

    /** All tables, built next to the loader's; `lo`, `hi` and `d` are page counts. */
    method BuildTables(pageAddr: nat, krnlStart: nat, offset: nat, pd: nat, ghost lo: nat, ghost hi: nat, ghost d: nat)
      returns (root: nat)
      requires LoaderRoot(m, pd) && pd + d < hi
      requires krnlStart == 4096 * lo && pageAddr == 4096 * hi && offset == 4096 * d
      requires d <= lo && SLOT <= lo <= hi && hi + MOST_TABLES <= SLOT_END
      modifies this
      ensures root == hi - d && Built(old(m), pd, root, lo, d) && hi <= next + d <= SLOT_END
    {
      ghost var loader := m;
      var p3, p2;
      ghost var k0, top;
      root, p3, p2, k0, top := StartTables(pageAddr, krnlStart, offset, pd, lo, hi, d);
      AddFixedPages(root, p3, p2, k0, top, loader, pd, lo, hi, d);
      ghost var h2 := AddHeapTables(root, p3, p2, k0, top, loader, pd, lo, hi, d);
      AddTablePages(root, pageAddr, offset, p3, p2, h2, k0, top, loader, pd, lo, hi, d);
    }

    method BuildAndInstall(pageAddr: nat, krnlStart: nat, offset: nat, pd: nat, ghost lo: nat, ghost hi: nat,
                           ghost d: nat)
      returns (root: nat)
      requires LoaderRoot(m, pd) && pd + d < hi
      requires krnlStart == 4096 * lo && pageAddr == 4096 * hi && offset == 4096 * d
      requires d <= lo && SLOT <= lo <= hi && hi + MOST_TABLES <= SLOT_END
      modifies this
      ensures Booted(m, pd, own, flat, lo, next + d, d) && hi <= next + d <= SLOT_END
      ensures root == hi - d && KernelTable(m, pd, own, root)
    {
      ghost var loader := m;
      root := BuildTables(pageAddr, krnlStart, offset, pd, lo, hi, d);
      Install(root, pd, loader, lo, hi, d);
    }

    lemma BuiltLocated(root: nat, loader: Memory, pd: nat, lo: nat, d: nat)
      requires Built(loader, pd, root, lo, d)
      ensures Locate(m, root, TEMP).Some?
      ensures forall k: nat, l: nat | k < 16 :: Locate(m, root, Path(509, 0, k, l)).Some?
    {
      WalkIsLocate(m, root, own, {0, 510}, TEMP);
      HeapLocated(m, root);
    }

    /** The finished tables put into place. */
    method Install(root: nat, pd: nat, ghost loader: Memory, ghost lo: nat, ghost hi: nat, ghost d: nat)
      requires LoaderRoot(loader, pd) && root == hi - d && pd < root && Built(loader, pd, root, lo, d)
      requires d <= lo && SLOT <= lo <= hi <= next + d <= SLOT_END
      modifies this`m, this`own
      ensures Booted(m, pd, own, flat, lo, next + d, d) && KernelTable(m, pd, own, root)
    {
      BuiltLocated(root, loader, pd, lo, d);
      InstallRoot(root, pd);
      Installed(m, pd, own, flat, lo, next, d);
    }

    /**
     `PagingInitialize`. On return every page from the start of the image to the end of the
     tables maps to itself minus the offset, and nothing else but the video and the temporary
     page is mapped. The tables are ready for the operations of `Paging` exactly when these take
     their pages from the new buffer on; the first table of the kernel lies behind the old one.
     */
    method PagingInitialize(buffer: nat, kernelStart: nat, offset: nat, pd: nat)
      returns (newBuffer: nat, ghost first: nat)
      requires BootPremise(m, buffer, kernelStart, offset, pd)
      modifies this
      ensures buffer <= newBuffer <= SLOT_END * 4096 && newBuffer % 4096 == 0
      ensures Booted(m, pd, own, flat, kernelStart / 4096, newBuffer / 4096, offset / 4096)
      ensures first == AlignUp(buffer) / 4096 - offset / 4096 && KernelTable(m, pd, own, first)
      ensures forall last: nat | offset <= last ::
        Inv(Machine(m, Bump(last, offset)), pd, own) <==> AlignUp(last) >= newBuffer
      ensures forall c, src :: Implements(c, Machine(m, src), pd, flat)
    {
      ghost var lo, hi, d := kernelStart / 4096, AlignUp(buffer) / 4096, offset / 4096;
      AlignPages(buffer, hi);
      var pageAddr := AlignUp(buffer);
      var virOffset := offset / 4096 * 4096;
      var krnlStart := kernelStart / 4096 * 4096;
      newBuffer, first := InitPages(pageAddr, krnlStart, virOffset, pd, lo, hi, d);
    }

    /** The same from whole pages. */
    method InitPages(pageAddr: nat, krnlStart: nat, offset: nat, pd: nat, ghost lo: nat, ghost hi: nat, ghost d: nat)
      returns (newBuffer: nat, ghost first: nat)
      requires LoaderRoot(m, pd) && pd + d < hi
      requires krnlStart == 4096 * lo && pageAddr == 4096 * hi && offset == 4096 * d
      requires d <= lo && SLOT <= lo <= hi && hi + MOST_TABLES <= SLOT_END
      modifies this
      ensures pageAddr <= newBuffer <= SLOT_END * 4096 && newBuffer % 4096 == 0
      ensures Booted(m, pd, own, flat, lo, newBuffer / 4096, d)
      ensures first == hi - d && KernelTable(m, pd, own, first)
      ensures forall last: nat | offset <= last ::
        Inv(Machine(m, Bump(last, offset)), pd, own) <==> AlignUp(last) >= newBuffer
      ensures forall c, src :: Implements(c, Machine(m, src), pd, flat)
    {
      first := BuildAndInstall(pageAddr, krnlStart, offset, pd, lo, hi, d);
      newBuffer := next * 4096 + offset;
      PageQuotient(next + d, newBuffer, d, offset);
      BootReady(m, pd, own, flat, lo, next + d, d, newBuffer, offset);
    }
  }

  /**
   The result: pages `lo` up to `end` map to themselves minus `d`, the video page is mapped,
   and no other ordinary page is; the heap's region has its lowest tables; the frame of the last
   page is a table.
   */
  ghost predicate Booted(m: Memory, pd: nat, own: Owners, f: Flat, lo: nat, end: nat, d: nat) {
    && Tree(m, pd, own, SKIP) && Recursive(m, pd) && Locate(m, pd, TEMP).Some?
    && (forall t | t in own :: t + d < end) && d < end && end - 1 - d in own
    && TableLinks(m, pd, own, SKIP)
    && Answers(m, pd, f) && Shifts(f, lo, end, d, {TEMP, VIDEO}) && Get(f, VIDEO) == Some(VIDEO_ENTRY)
    && (forall k: nat, l: nat | k < 16 :: Locate(m, pd, Path(509, 0, k, l)).Some?)
    && (forall i: nat | i !in {509, 510, 511} :: m(Slot(pd, i)) == EMPTY)
    && SLOT <= lo <= end <= SLOT_END
  }

  lemma Installed(m: Memory, pd: nat, own: Owners, f: Flat, lo: nat, next: nat, d: nat)
    requires Tree(m, pd, own, SKIP) && Recursive(m, pd) && Locate(m, pd, TEMP).Some?
    requires 0 < next && next - 1 in own && forall t | t in own :: t < next
    requires TableLinks(m, pd, own, SKIP)
    requires Answers(m, pd, f) && Shifts(f, lo, next + d, d, {TEMP, VIDEO}) && Get(f, VIDEO) == Some(VIDEO_ENTRY)
    requires forall k: nat, l: nat | k < 16 :: Locate(m, pd, Path(509, 0, k, l)).Some?
    requires forall i: nat | i !in {509, 510, 511} :: m(Slot(pd, i)) == EMPTY
    requires SLOT <= lo <= next + d <= SLOT_END
    ensures Booted(m, pd, own, f, lo, next + d, d)
  {
  }

  /** On booted tables the processor finds these pages, and no other ordinary one. */
  lemma BootWalks(m: Memory, pd: nat, own: Owners, f: Flat, lo: nat, end: nat, d: nat)
    requires Booted(m, pd, own, f, lo, end, d)
    ensures forall n: nat | lo <= n < end :: Walk(m, pd, PathOfPage(n)) == Some(Own(n, d))
    ensures Walk(m, pd, VIDEO) == Some(VIDEO_ENTRY)
    ensures forall n: nat | n < HEAP_PAGES :: Locate(m, pd, PathOf(KERNEL_VIRT_START + 4096 * n)).Some?
  {
    forall n: nat | lo <= n < end
      ensures Walk(m, pd, PathOfPage(n)) == Some(Own(n, d))
    {
      SlotPath(n);
    }
    forall n: nat | n < HEAP_PAGES
      ensures Locate(m, pd, PathOf(KERNEL_VIRT_START + 4096 * n)).Some?
    {
      HeapPath(n);
    }
  }

  lemma BootWalksOnly(m: Memory, pd: nat, own: Owners, f: Flat, lo: nat, end: nat, d: nat, q: Path)
    requires Booted(m, pd, own, f, lo, end, d) && Ordinary(q) && Walk(m, pd, q).Some?
    ensures q == VIDEO || PageWithin(q, lo, end)
  {
    assert q in f;
  }

  lemma SlotPaths(f: Flat, lo: nat, end: nat, d: nat)
    requires Shifts(f, lo, end, d, {TEMP, VIDEO}) && SLOT <= lo && end <= SLOT_END
    ensures forall q | q in f :: q.p4 == 511
  {
    forall q | q in f && q !in {TEMP, VIDEO}
      ensures q.p4 == 511
    {
      var n: nat :| lo <= n < end && q == PathOfPage(n);
      SlotPath(n);
    }
  }

  /** The kernel's P3 table is in the frame behind `first`, which holds no table any more. */
  ghost predicate KernelTable(m: Memory, pd: nat, own: Owners, first: nat) {
    && first !in own && pd < first
    && m(Slot(pd, 511)).frame == first + 1 && first + 1 in own && own[first + 1] == L3(511)
  }

  lemma Rerooted(m: Memory, own: Owners, own': Owners, root: nat, pd: nat, next: nat)
    requires own' == Reroot(own, root, pd) && pd < root && 0 < next
    requires next - 1 in own && forall t | t in own :: t < next
    requires m(Slot(pd, 511)).frame == root + 1 && root + 1 in own && own[root + 1] == L3(511)
    ensures next - 1 in own' && KernelTable(m, pd, own', root)
  {
  }

  // ----- Where the next tables come from -----

  lemma AlignPages(last: nat, end: nat)
    ensures AlignUp(last) == 4096 * (AlignUp(last) / 4096)
    ensures AlignUp(last) >= 4096 * end <==> AlignUp(last) / 4096 >= end
  {
  }

  /** The bump pointer gives frames that are no tables exactly when it has passed all of them. */
  lemma BumpFreshIff(own: Owners, end: nat, d: nat, last: nat, offset: nat)
    requires offset == 4096 * d && offset <= last && d < end
    requires end - 1 - d in own && forall t | t in own :: t + d < end
    ensures FreshSource(Bump(last, offset), own) <==> AlignUp(last) >= 4096 * end
  {
    AlignPages(last, end);
    var k := AlignUp(last) / 4096;
    assert (AlignUp(last) - offset) / 4096 == k - d;
    if k >= end {
      assert forall t | t in own :: t < k - d;
    } else {
      assert end - 1 - d >= k - d;
    }
  }

  /**
   What `PagingInitialize` leaves satisfies the invariant of map, unmap and translate exactly
   when the bump pointer has been moved to the new buffer, which the code does only later.
   */
  lemma BootReady(m: Memory, pd: nat, own: Owners, f: Flat, lo: nat, end: nat, d: nat, newBuffer: nat, offset: nat)
    requires Booted(m, pd, own, f, lo, end, d) && newBuffer == 4096 * end && offset == 4096 * d
    ensures newBuffer / 4096 == end && newBuffer % 4096 == 0
    ensures forall last: nat | offset <= last ::
      Inv(Machine(m, Bump(last, offset)), pd, own) <==> AlignUp(last) >= newBuffer
    ensures forall c, src :: Implements(c, Machine(m, src), pd, f)
  {
    forall last: nat | offset <= last
      ensures Inv(Machine(m, Bump(last, offset)), pd, own) <==> AlignUp(last) >= newBuffer
    {
      BumpFreshIff(own, end, d, last, offset);
    }
    SlotPaths(f, lo, end, d);
    BootImplements(m, pd, own, f);
  }

  lemma ReadyFrom(m: Memory, pd: nat, own: Owners, f: Flat, lo: nat, end: nat, d: nat, last: nat)
    requires Booted(m, pd, own, f, lo, end, d) && AlignUp(last) >= 4096 * end
    ensures 4096 * d <= last && Inv(Machine(m, Bump(last, 4096 * d)), pd, own)
  {
    AlignPages(last, end);
    assert 4096 * d <= last;
    BootReady(m, pd, own, f, lo, end, d, 4096 * end, 4096 * d);
  }

  /**
   The constant as written, on the state that the kernel boots into, with pages taken from the new
   buffer on: a mapping below any root entry but the kernel's and the heap's faults, for example
   at address 0x200000.
   */
  lemma LiteralMapFaults(m: Memory, pd: nat, own: Owners, f: Flat, lo: nat, end: nat, d: nat, last: nat)
    requires Booted(m, pd, own, f, lo, end, d) && AlignUp(last) >= 4096 * end
    ensures 4096 * d <= last
    ensures MapPage(AsWritten, Machine(m, Bump(last, 4096 * d)), pd, 0x20_0000, 0x20_0000,
                    DEFAULT_TABLE_FLAGS, DEFAULT_PAGE_FLAGS, false).st == PageFault
  {
    ReadyFrom(m, pd, own, f, lo, end, d, last);
    LowFaults(Machine(m, Bump(last, 4096 * d)), pd, own);
  }

  lemma LowFaults(s: Machine, pd: nat, own: Owners)
    requires Inv(s, pd, own) && s.src.Bump? && s.m(Slot(pd, 0)) == EMPTY
    ensures MapPage(AsWritten, s, pd, 0x20_0000, 0x20_0000, DEFAULT_TABLE_FLAGS, DEFAULT_PAGE_FLAGS, false).st
         == PageFault
  {
    LowPath();
    MapFaultsIff(s, pd, own, 0x20_0000, 0x20_0000, DEFAULT_TABLE_FLAGS, DEFAULT_PAGE_FLAGS, false);
  }

  /** The corrected constant serves the same request. */
  lemma CorrectedMaps(m: Memory, pd: nat, own: Owners, f: Flat, lo: nat, end: nat, d: nat, last: nat)
    requires Booted(m, pd, own, f, lo, end, d) && AlignUp(last) >= 4096 * end
    ensures 4096 * d <= last
    ensures MapPage(Corrected, Machine(m, Bump(last, 4096 * d)), pd, 0x20_0000, 0x20_0000,
                    DEFAULT_TABLE_FLAGS, DEFAULT_PAGE_FLAGS, false).st == Done
  {
    ReadyFrom(m, pd, own, f, lo, end, d, last);
    LowPath();
    Unmapped(m, pd, f);
    LowMaps(Machine(m, Bump(last, 4096 * d)), pd, own);
  }

  // ----- With the bump pointer where the code leaves it -----

  /** The first two pages taken from the old buffer on: an old copy of the root, and the kernel's own P3 table. */
  lemma OldPages(m: Memory, pd: nat, own: Owners, d: nat, first: nat, buffer: nat)
    requires KernelTable(m, pd, own, first) && AlignUp(buffer) == 4096 * (first + d)
    ensures 4096 * d <= buffer
    ensures var (page, src) := TakePage(Bump(buffer, 4096 * d));
            page == first && src == Bump(4096 * (first + 1 + d), 4096 * d) && TakePage(src).0 == m(Slot(pd, 511)).frame
    ensures TakePage(Bump(4096 * (first + 1 + d), 4096 * d)).0 in own
  {
    AlignPages(buffer, first + d);
    AlignPages(4096 * (first + 1 + d), first + 1 + d);
  }

  /** The kernel's root entry leads to an empty table. */
  ghost predicate KernelLost(m: Memory, pd: nat, table: nat) {
    m(Slot(pd, 511)).frame == table && forall i: nat :: m(Slot(table, i)) == EMPTY
  }

  lemma LostWalks(m: Memory, pd: nat, table: nat)
    requires KernelLost(m, pd, table)
    ensures forall q: Path | q.p4 == 511 :: Walk(m, pd, q) == None
    ensures Locate(m, pd, TEMP) == None
  {
  }

  /** Hanging one table in the frame of the old root copy breaks nothing. */
  lemma FirstTable(m: Memory, pd: nat, own: Owners, f: Flat, lo: nat, end: nat, d: nat, first: nat, buffer: nat,
                   slot: Slot)
    requires Booted(m, pd, own, f, lo, end, d) && KernelTable(m, pd, own, first)
    requires AlignUp(buffer) == 4096 * (first + d)
    requires slot.table in own && !own[slot.table].L1?
    requires (slot.table == pd ==> slot.idx != RECURSIVE) && m(slot) == EMPTY
    ensures 4096 * d <= buffer
    ensures var o := EnsureTable(Machine(m, Bump(buffer, 4096 * d)), pd, slot, DEFAULT_TABLE_FLAGS);
            && o.st == Done && o.s.m(slot) == Entry(first, DEFAULT_TABLE_FLAGS)
            && o.s.src == Bump(4096 * (first + 1 + d), 4096 * d)
            && Tree(o.s.m, pd, own[first := Child(own[slot.table], slot.idx)], SKIP)
            && Locate(o.s.m, pd, TEMP).Some? && o.s.m(Slot(pd, 511)).frame == first + 1
            && (forall i: nat :: Slot(first, i) != slot ==> o.s.m(Slot(first, i)) == EMPTY)
            && forall t: Slot | t.table in own && !own[t.table].L1? && t != slot :: o.s.m(t) == m(t)
  {
    OldPages(m, pd, own, d, first, buffer);
    WalkIsLocate(m, pd, own, SKIP, TEMP);
    InstallKeeps(m, pd, own, slot, first, DEFAULT_TABLE_FLAGS);
  }

  /**
   The next table is hung in the frame of the kernel's own P3 table, which is zeroed first: the
   kernel's pages are gone, the temporary page with them.
   */
  lemma SecondTable(s: Machine, pd: nat, own: Owners, d: nat, first: nat, slot: Slot)
    requires Tree(s.m, pd, own, SKIP) && Locate(s.m, pd, TEMP).Some? && s.m(Slot(pd, 511)).frame == first + 1
    requires s.src == Bump(4096 * (first + 1 + d), 4096 * d) && first + 1 in own && first + 1 != pd
    requires s.m(slot) == EMPTY && slot.table != first + 1 && slot != Slot(pd, 511)
    ensures var o := EnsureTable(s, pd, slot, DEFAULT_TABLE_FLAGS);
            o.st == Done && o.s.m(slot).frame == first + 1 && KernelLost(o.s.m, pd, first + 1)
  {
    AlignPages(4096 * (first + 1 + d), first + 1 + d);
    WalkIsLocate(s.m, pd, own, SKIP, TEMP);
  }

  /** The request that the corrected constant serves takes three tables, and now faults at the third. */
  lemma OldBufferFaults(m: Memory, pd: nat, own: Owners, f: Flat, lo: nat, end: nat, d: nat, first: nat, buffer: nat)
    requires Booted(m, pd, own, f, lo, end, d) && KernelTable(m, pd, own, first)
    requires AlignUp(buffer) == 4096 * (first + d)
    ensures 4096 * d <= buffer
    ensures var o := MapPage(Corrected, Machine(m, Bump(buffer, 4096 * d)), pd, 0x20_0000, 0x20_0000,
                             DEFAULT_TABLE_FLAGS, DEFAULT_PAGE_FLAGS, false);
            o.st == PageFault && KernelLost(o.s.m, pd, first + 1)
  {
    FirstTable(m, pd, own, f, lo, end, d, first, buffer, Slot(pd, 0));
    var o1 := EnsureTable(Machine(m, Bump(buffer, 4096 * d)), pd, Slot(pd, 0), DEFAULT_TABLE_FLAGS);
    SecondTable(o1.s, pd, own[first := L3(0)], d, first, Slot(first, 0));
    var o2 := EnsureTable(o1.s, pd, Slot(first, 0), DEFAULT_TABLE_FLAGS);
    ThirdFaults(o2.s, pd, first + 1);
    MapByTables(Machine(m, Bump(buffer, 4096 * d)), o1, o2, pd, first, first + 1);
  }

  /** The tables that the request goes through, the last of which it does not get. */
  lemma MapByTables(s: Machine, o1: Outcome, o2: Outcome, pd: nat, page1: nat, page2: nat)
    requires SourceOk(s.src) && o1 == EnsureTable(s, pd, Slot(pd, 0), DEFAULT_TABLE_FLAGS) && o1.st == Done
    requires o1.s.m(Slot(pd, 0)) == Entry(page1, DEFAULT_TABLE_FLAGS)
    requires o2 == EnsureTable(o1.s, pd, Slot(page1, 0), DEFAULT_TABLE_FLAGS) && o2.st == Done
    requires o2.s.m(Slot(page1, 0)).frame == page2
    requires EnsureTable(o2.s, pd, Slot(page2, 1), DEFAULT_TABLE_FLAGS).st != Done
    ensures MapPage(Corrected, s, pd, 0x20_0000, 0x20_0000, DEFAULT_TABLE_FLAGS, DEFAULT_PAGE_FLAGS, false)
         == EnsureTable(o2.s, pd, Slot(page2, 1), DEFAULT_TABLE_FLAGS)
  {
    LowPath();
  }

  lemma ThirdFaults(s: Machine, pd: nat, table: nat)
    requires KernelLost(s.m, pd, table) && SourceOk(s.src) && s.src.Bump? && TakePage(s.src).0 != 0
    ensures var o := EnsureTable(s, pd, Slot(table, 1), DEFAULT_TABLE_FLAGS);
            o.st == PageFault && KernelLost(o.s.m, pd, table)
  {
    LostWalks(s.m, pd, table);
  }

  /** The lowest table for a page of the kernel's slot is missing, and nothing else; `t2` is the P2 table. */
  ghost predicate LowestMissing(m: Memory, pd: nat, t2: nat, p: Path) {
    var t3 := m(Slot(pd, 511)).frame;
    && p.p4 == 511 && p.p3 == 510 && m(Slot(t3, 510)) != EMPTY && m(Slot(t3, 510)).frame == t2
    && m(Slot(t3, 511)) != EMPTY && m(Slot(t2, p.p2)) == EMPTY && Present(m(Slot(pd, 511)))
  }

  lemma DescendsToLowest(c: Form, s: Machine, pd: nat, t2: nat, p: Path)
    requires LowestMissing(s.m, pd, t2, p) && SourceOk(s.src)
    ensures var o := EnsureTable(s, pd, Slot(t2, p.p2), DEFAULT_TABLE_FLAGS);
            Descend(c, s, pd, p, DEFAULT_TABLE_FLAGS) == (o, Slot(o.s.m(Slot(t2, p.p2)).frame, p.p1))
  {
  }

  lemma MapsInNew(c: Form, s: Machine, pd: nat, t2: nat, v: nat, frame: nat, page: nat)
    requires LowestMissing(s.m, pd, t2, PathOf(v)) && SourceOk(s.src) && v != 0 && v % 4096 == 0
    requires var o := EnsureTable(s, pd, Slot(t2, PathOf(v).p2), DEFAULT_TABLE_FLAGS);
             o.st == Done && o.s.m(Slot(t2, PathOf(v).p2)).frame == page && o.s.m(Slot(page, PathOf(v).p1)) == EMPTY
    ensures var o := EnsureTable(s, pd, Slot(t2, PathOf(v).p2), DEFAULT_TABLE_FLAGS);
            MapPage(c, s, pd, v, 4096 * frame, DEFAULT_TABLE_FLAGS, DEFAULT_PAGE_FLAGS, false) ==
            Outcome(o.s.(m := Write(o.s.m, Slot(page, PathOf(v).p1), Entry(frame, DEFAULT_PAGE_FLAGS))), Done)
  {
    DescendsToLowest(c, s, pd, t2, PathOf(v));
  }

  /** The first page mapped, in a lowest table in the frame of the old root copy. */
  lemma FirstMapped(c: Form, m: Memory, pd: nat, own: Owners, f: Flat, lo: nat, end: nat, d: nat, first: nat,
                    buffer: nat,
                    t2: nat, v: nat, frame: nat)
    requires Booted(m, pd, own, f, lo, end, d) && KernelTable(m, pd, own, first)
    requires AlignUp(buffer) == 4096 * (first + d)
    requires LowestMissing(m, pd, t2, PathOf(v)) && v != 0 && v % 4096 == 0
    ensures 4096 * d <= buffer
    ensures var o := MapPage(c, Machine(m, Bump(buffer, 4096 * d)), pd, v, 4096 * frame,
                             DEFAULT_TABLE_FLAGS, DEFAULT_PAGE_FLAGS, false);
            && o.st == Done && o.s.src == Bump(4096 * (first + 1 + d), 4096 * d)
            && Tree(o.s.m, pd, own[first := L1(511, 510, PathOf(v).p2)], SKIP)
            && Locate(o.s.m, pd, TEMP).Some? && o.s.m(Slot(pd, 511)).frame == first + 1
            && forall q: Path | LowestMissing(m, pd, t2, q) && q.p2 != PathOf(v).p2 :: LowestMissing(o.s.m, pd, t2, q)
  {
    var p, s := PathOf(v), Machine(m, Bump(buffer, 4096 * d));
    FirstTable(m, pd, own, f, lo, end, d, first, buffer, Slot(t2, p.p2));
    MapsInNew(c, s, pd, t2, v, frame, first);
    SetLeaf(EnsureTable(s, pd, Slot(t2, p.p2), DEFAULT_TABLE_FLAGS).s.m, pd, own[first := L1(511, 510, p.p2)], SKIP, p,
            Entry(frame, DEFAULT_PAGE_FLAGS));
  }

  lemma StaysLost(m: Memory, pd: nat, table: nat, i: nat, e: Entry, q: Path)
    requires KernelLost(m, pd, table) && table != pd && q.p4 == 511 && q.p3 != i
    ensures Walk(Write(m, Slot(table, i), e), pd, q) == None
  {
  }

  lemma SecondMapped(c: Form, s: Machine, pd: nat, own: Owners, d: nat, first: nat, t2: nat, v: nat, frame: nat)
    requires Tree(s.m, pd, own, SKIP) && Locate(s.m, pd, TEMP).Some? && s.m(Slot(pd, 511)).frame == first + 1
    requires s.src == Bump(4096 * (first + 1 + d), 4096 * d) && first + 1 in own && first + 1 != pd
    requires LowestMissing(s.m, pd, t2, PathOf(v)) && t2 != first + 1 && t2 != pd && v != 0 && v % 4096 == 0
    ensures var o := MapPage(c, s, pd, v, 4096 * frame, DEFAULT_TABLE_FLAGS, DEFAULT_PAGE_FLAGS, false);
            o.st == Done && forall q: Path | q.p4 == 511 && q.p3 != PathOf(v).p1 :: Walk(o.s.m, pd, q) == None
  {
    SecondTable(s, pd, own, d, first, Slot(t2, PathOf(v).p2));
    MapsInNew(c, s, pd, t2, v, frame, first + 1);
    var lost := EnsureTable(s, pd, Slot(t2, PathOf(v).p2), DEFAULT_TABLE_FLAGS).s.m;
    forall q: Path | q.p4 == 511 && q.p3 != PathOf(v).p1
      ensures Walk(Write(lost, Slot(first + 1, PathOf(v).p1), Entry(frame, DEFAULT_PAGE_FLAGS)), pd, q) == None
    {
      StaysLost(lost, pd, first + 1, PathOf(v).p1, Entry(frame, DEFAULT_PAGE_FLAGS), q);
    }
  }

  /**
   Two pages mapped in the kernel's slot that each need a new lowest table, as for a bitmap that
   crosses two such bounds: both are served, and then the kernel's own pages are gone.
   */
  lemma OldBufferLoses(c: Form, m: Memory, pd: nat, own: Owners, f: Flat, lo: nat, end: nat, d: nat, first: nat,
                       buffer: nat,
                       t2: nat, v: nat, frame: nat, v': nat, frame': nat)
    requires Booted(m, pd, own, f, lo, end, d) && KernelTable(m, pd, own, first)
    requires AlignUp(buffer) == 4096 * (first + d)
    requires LowestMissing(m, pd, t2, PathOf(v))
    requires LowestMissing(m, pd, t2, PathOf(v')) && PathOf(v).p2 != PathOf(v').p2
    requires v != 0 && v % 4096 == 0 && v' != 0 && v' % 4096 == 0
    ensures 4096 * d <= buffer
    ensures var o := MapPage(c, Machine(m, Bump(buffer, 4096 * d)), pd, v, 4096 * frame,
                             DEFAULT_TABLE_FLAGS, DEFAULT_PAGE_FLAGS, false);
            var o' := MapPage(c, o.s, pd, v', 4096 * frame', DEFAULT_TABLE_FLAGS, DEFAULT_PAGE_FLAGS, false);
            && o.st == Done && o'.st == Done
            && forall q: Path | q.p4 == 511 && q.p3 != PathOf(v').p1 :: Walk(o'.s.m, pd, q) == None
  {
    FirstMapped(c, m, pd, own, f, lo, end, d, first, buffer, t2, v, frame);
    var s := MapPage(c, Machine(m, Bump(buffer, 4096 * d)), pd, v, 4096 * frame,
                     DEFAULT_TABLE_FLAGS, DEFAULT_PAGE_FLAGS, false).s;
    SecondMapped(c, s, pd, own[first := L1(511, 510, PathOf(v).p2)], d, first, t2, v', frame');
  }

  lemma Unmapped(m: Memory, pd: nat, f: Flat)
    requires Answers(m, pd, f)
    ensures Walk(m, pd, Path(0, 0, 1, 0)) == None
  {
  }

  lemma LowMaps(s: Machine, pd: nat, own: Owners)
    requires Inv(s, pd, own) && s.src.Bump? && Walk(s.m, pd, Path(0, 0, 1, 0)) == None
    ensures MapPage(Corrected, s, pd, 0x20_0000, 0x20_0000, DEFAULT_TABLE_FLAGS, DEFAULT_PAGE_FLAGS, false).st == Done
  {
    LowPath();
    MapRefines(Corrected, s, pd, own, 0x20_0000, 0x20_0000, DEFAULT_TABLE_FLAGS, DEFAULT_PAGE_FLAGS, false);
  }

  lemma LowPath()
    ensures PathOf(0x20_0000) == Path(0, 0, 1, 0)
  {
  }

  /**
   The state at the call: the offset page-aligned, image and buffer in the image's slot with
   room for the tables, and the root table that of the loader, in a frame below the buffer.
   */
  ghost predicate BootPremise(m: Memory, buffer: nat, kernelStart: nat, offset: nat, pd: nat) {
    && offset % 4096 == 0 && offset <= kernelStart / 4096 * 4096
    && SLOT <= kernelStart / 4096 && kernelStart / 4096 <= AlignUp(buffer) / 4096
    && AlignUp(buffer) / 4096 + MOST_TABLES <= SLOT_END
    && LoaderRoot(m, pd) && pd + offset / 4096 < AlignUp(buffer) / 4096
  }

  /** The new root answers from `f`; the identity map is gone. */
  ghost predicate Answers(m: Memory, pd: nat, f: Flat) {
    && (forall q: Path | q.p4 !in {0, 510} :: Walk(m, pd, q) == Get(f, q))
    && (forall q: Path | q.p4 == 0 :: Walk(m, pd, q) == None)
  }

  lemma BootImplements(m: Memory, pd: nat, own: Owners, f: Flat)
    requires Tree(m, pd, own, SKIP) && Locate(m, pd, TEMP).Some? && Answers(m, pd, f)
    requires forall q | q in f :: q.p4 == 511
    ensures forall c, src :: Implements(c, Machine(m, src), pd, f)
  {
    WalkIsLocate(m, pd, own, SKIP, TEMP);
  }

  lemma HeapLocated(m: Memory, root: nat)
    requires var h3 := m(Slot(root, 509)).frame;
             && m(Slot(root, 509)) != EMPTY && m(Slot(h3, 0)) != EMPTY
             && forall k: nat :: k < 16 <==> m(Slot(m(Slot(h3, 0)).frame, k)) != EMPTY
    ensures forall k: nat, l: nat | k < 16 :: Locate(m, root, Path(509, 0, k, l)).Some?
  {
  }

  /** What the loader leaves in its root table: the identity map, its copy for the kernel, and the recursive entry. */
  ghost predicate LoaderRoot(m: Memory, pd: nat) {
    && Link(m(Slot(pd, 510))) && m(Slot(pd, 510)).frame == pd
    && forall i: nat | i !in {0, 510, 511} :: m(Slot(pd, i)) == EMPTY
  }

  lemma NoTempYet(f: Flat, lo: nat, n: nat, d: nat, a: Entry, b: Entry)
    requires Shifts(f, lo, n, d, {}) && SLOT <= lo && n <= SLOT_END
    ensures TEMP !in f && VIDEO !in f
    ensures Shifts(f[TEMP := a][VIDEO := b], lo, n, d, {TEMP, VIDEO})
  {
    forall k: nat | lo <= k < n
      ensures PathOfPage(k) != TEMP && PathOfPage(k) != VIDEO
    {
      SlotPath(k);
    }
  }

  /** The page after the mapped ones is not mapped, and has the indices of its slot. */
  lemma NotYet(f: Flat, lo: nat, n: nat, d: nat, extra: set<Path>)
    requires Shifts(f, lo, n, d, extra) && SLOT <= lo <= n < SLOT_END && forall q | q in extra :: q.p3 != 510
    ensures var p := PathOfPage(n);
            p !in f && p !in extra && p.p4 == 511 && p.p3 == 510 && SLOT + 512 * p.p2 <= n < SLOT + 512 * (p.p2 + 1)
  {
    SlotPath(n);
    if PathOfPage(n) in f {
      var k: nat :| lo <= k < n && PathOfPage(n) == PathOfPage(k);
      SlotInjective(n, k);
    }
  }

  lemma HeapPath(n: nat)
    requires n < HEAP_PAGES
    ensures var p := PathOf(KERNEL_VIRT_START + 4096 * n);
            p.p4 == 509 && p.p3 == 0 && 512 * p.p2 <= n < 512 * (p.p2 + 1)
  {
    var page := KERNEL_VIRT_START / 4096 + n;
    assert (KERNEL_VIRT_START + 4096 * n) / 4096 == page;
    assert page == 0xFFFF * 0x10_0000_0000 + 509 * 0x800_0000 + 0 * 0x4_0000 + n / 512 * 512 + n % 512;
    Digits(0xFFFF, 509, 0, n / 512, n % 512);
  }
}
