/**
 The recursive window of `Paging.cpp`: PML4 entry 510 points at the PML4 itself,
 so fixed virtual addresses reach the tables of every other address.
 */
module RecursiveSlot {
  import opened PageTables

  const RECURSIVE := 510

  const P1_RECURSIVE_ENTRY: nat := 0xFFFF_FF00_0000_0000
  const P2_RECURSIVE_ENTRY: nat := 0xFFFF_FF7F_8000_0000
  const P3_RECURSIVE_ENTRY: nat := 0xFFFF_FF7F_BFC0_0000
  /** As written in the source: its lowest index is 511, not 510. */
  const P4_RECURSIVE_ENTRY: nat := 0xFFFF_FF7F_BFDF_F000
  /** The address the constant is meant to be: the PML4 seen through itself. */
  const P4_SELF_ENTRY: nat := 0xFFFF_FF7F_BFDF_E000

  function P4Ptr(base: nat, p: Path): nat { base + p.p4 * 8 }

  function P3Ptr(p: Path): nat { P3_RECURSIVE_ENTRY + p.p4 * 0x1000 + p.p3 * 8 }

  function P2Ptr(p: Path): nat { P2_RECURSIVE_ENTRY + p.p4 * 0x20_0000 + p.p3 * 0x1000 + p.p2 * 8 }

  function P1Ptr(p: Path): nat {
    P1_RECURSIVE_ENTRY + p.p4 * 0x4000_0000 + p.p3 * 0x20_0000 + p.p2 * 0x1000 + p.p1 * 8
  }

  /** The qword a pointer names once the processor has translated its page. */
  function Target(m: Memory, cr3: nat, ptr: nat): Option<Slot> {
    match Walk(m, cr3, PathOf(ptr))
    case None => None
    case Some(e) => Some(Slot(e.frame, ptr % 4096 / 8))
  }

  ghost predicate Link(e: Entry) { Present(e) && !Huge(e) }

  /** The recursive entry is in place. */
  ghost predicate Recursive(m: Memory, cr3: nat) {
    Link(m(Slot(cr3, RECURSIVE))) && m(Slot(cr3, RECURSIVE)).frame == cr3
  }

  ghost predicate InRange(p: Path) {
    p.p4 < 512 && p.p3 < 512 && p.p2 < 512 && p.p1 < 512
  }

  /** A page number written in its four nine-bit digits, below any sign extension `hi`. */
  lemma Digits(hi: nat, a: nat, b: nat, c: nat, d: nat)
    requires a < 512 && b < 512 && c < 512 && d < 512
    ensures PathOfPage(hi * 0x10_0000_0000 + a * 0x800_0000 + b * 0x4_0000 + c * 512 + d) == Path(a, b, c, d)
  {
    var p1 := 512 * hi + a;
    var p2 := 512 * p1 + b;
    var p3 := 512 * p2 + c;
    LastDigit(hi, a);
    LastDigit(p1, b);
    LastDigit(p2, c);
    LastDigit(p3, d);
    PageIndices(512 * p3 + d, p3, p2, p1);
  }

  lemma LastDigit(q: nat, d: nat)
    requires d < 512
    ensures (512 * q + d) / 512 == q && (512 * q + d) % 512 == d
  {
  }

  lemma Over18(page: nat, p3: nat, p2: nat)
    requires p3 == page / 512 && p2 == p3 / 512
    ensures p2 == page / 0x4_0000
  {
  }

  lemma Over27(page: nat, p2: nat, p1: nat)
    requires p2 == page / 0x4_0000 && p1 == p2 / 512
    ensures p1 == page / 0x800_0000
  {
  }

  /** The indices by repeated division; each quotient has a name. */
  lemma PageIndices(page: nat, p3: nat, p2: nat, p1: nat)
    requires p3 == page / 512 && p2 == p3 / 512 && p1 == p2 / 512
    ensures PathOfPage(page) == Path(p1 % 512, p2 % 512, p3 % 512, page % 512)
  {
    Over18(page, p3, p2);
    Over27(page, p2, p1);
  }

  lemma PointerPath(ptr: nat, a: nat, b: nat, c: nat, d: nat, idx: nat)
    requires a < 512 && b < 512 && c < 512 && d < 512 && idx < 512
    requires ptr == 4096 * (0xFFFF * 0x10_0000_0000 + a * 0x800_0000 + b * 0x4_0000 + c * 512 + d) + 8 * idx
    ensures PathOf(ptr) == Path(a, b, c, d) && ptr % 4096 / 8 == idx && ptr < 0x1_0000_0000_0000_0000
  {
    Digits(0xFFFF, a, b, c, d);
    assert ptr / 4096 == 0xFFFF * 0x10_0000_0000 + a * 0x800_0000 + b * 0x4_0000 + c * 512 + d;
  }

  lemma PointerPaths(p: Path)
    requires InRange(p)
    ensures PathOf(P1Ptr(p)) == Path(510, p.p4, p.p3, p.p2) && P1Ptr(p) % 4096 / 8 == p.p1
    ensures PathOf(P2Ptr(p)) == Path(510, 510, p.p4, p.p3) && P2Ptr(p) % 4096 / 8 == p.p2
    ensures PathOf(P3Ptr(p)) == Path(510, 510, 510, p.p4) && P3Ptr(p) % 4096 / 8 == p.p3
    ensures PathOf(P4Ptr(P4_SELF_ENTRY, p)) == Path(510, 510, 510, 510) && P4Ptr(P4_SELF_ENTRY, p) % 4096 / 8 == p.p4
    ensures PathOf(P4Ptr(P4_RECURSIVE_ENTRY, p)) == Path(510, 510, 510, 511)
    ensures P4Ptr(P4_RECURSIVE_ENTRY, p) % 4096 / 8 == p.p4
    ensures P1Ptr(p) < 0x1_0000_0000_0000_0000
  {
    PointerPath(P1Ptr(p), 510, p.p4, p.p3, p.p2, p.p1);
    PointerPath(P2Ptr(p), 510, 510, p.p4, p.p3, p.p2);
    PointerPath(P3Ptr(p), 510, 510, 510, p.p4, p.p3);
    PointerPath(P4Ptr(P4_SELF_ENTRY, p), 510, 510, 510, 510, p.p4);
    PointerPath(P4Ptr(P4_RECURSIVE_ENTRY, p), 510, 510, 510, 511, p.p4);
  }

  /**
   Run through the processor's walk, the computed addresses land exactly on the
   entries of `p`, each as soon as the entries above it are links.
   */
  lemma PointersLand(m: Memory, cr3: nat, p: Path)
    requires InRange(p) && Recursive(m, cr3)
    ensures Target(m, cr3, P4Ptr(P4_SELF_ENTRY, p)) == Some(Slot(cr3, p.p4))
    ensures var e4 := m(Slot(cr3, p.p4));
            && Target(m, cr3, P3Ptr(p)) == (if Present(e4) then Some(Slot(e4.frame, p.p3)) else None)
            && (Link(e4) ==>
                  var e3 := m(Slot(e4.frame, p.p3));
                  && Target(m, cr3, P2Ptr(p)) == (if Present(e3) then Some(Slot(e3.frame, p.p2)) else None)
                  && (Link(e3) ==>
                        var e2 := m(Slot(e3.frame, p.p2));
                        Target(m, cr3, P1Ptr(p)) == if Present(e2) then Some(Slot(e2.frame, p.p1)) else None))
  {
    PointerPaths(p);
  }

  /** The constant as written lands in the table below root entry 511 instead. */
  lemma LiteralP4Lands(m: Memory, cr3: nat, p: Path)
    requires InRange(p) && Recursive(m, cr3)
    ensures var e := m(Slot(cr3, 511));
            Target(m, cr3, P4Ptr(P4_RECURSIVE_ENTRY, p)) == if Present(e) then Some(Slot(e.frame, p.p4)) else None
  {
    PointerPaths(p);
  }

  // ----- The same arithmetic on machine words -----

  /** An `int` converted to `size_t`: the sign bit is copied upwards. */
  function SignExtend(x: bv32): bv64 {
    if x & 0x8000_0000 != 0 then 0xFFFF_FFFF_0000_0000 | (x as bv64) else x as bv64
  }

  /** `((int_t) (addr >> shift) & INDEX_MASK)`: a truncation to 32 bits, then the mask. */
  function IndexWord(shifted: bv64): bv32 { (shifted & 0xFFFF_FFFF) as bv32 & 0x1FF }

  /** The truncation loses none of the nine bits. */
  lemma IndexWordExact(x: bv64)
    ensures IndexWord(x) as bv64 == x & 0x1FF
  {
  }
}
