/**
 The pool of virtual address ranges: first fit with a split, and a merge of neighbours on
 release. The list of ranges is a sequence that the methods reassign. Defects of the source are
 kept under `AsWritten`; `Corrected` is the intended computation.
 */
module AddressPools {
  import opened Forms

  datatype Range = Range(base: nat, pages: nat, flags: nat, used: bool)

  type Ranges = seq<Range>

  const DWORDS: nat := 0x1_0000_0000
  const HALF: nat := 0x8000_0000
  const ADDRESSES: nat := 0x1_0000_0000_0000_0000

  /** `GetPageSize` is 4 KiB, 2 MiB or 1 GiB. */
  predicate PageSize(ps: nat) { ps == 0x1000 || ps == 0x20_0000 || ps == 0x4000_0000 }

  /** `Size()`: the product of two 32-bit numbers. */
  function Size(form: Form, r: Range, ps: nat): nat {
    if form == AsWritten then r.pages * ps % DWORDS else r.pages * ps
  }

  /** `Tail()`. */
  function Tail(form: Form, r: Range, ps: nat): int {
    r.base + Size(form, r, ps) - 1
  }

  function End(r: Range, ps: nat): nat { r.base + r.pages * ps }

  // ----- What a pool means -----

  predicate In(r: Range, a: nat, ps: nat) { r.base <= a < End(r, ps) }

  ghost predicate At(rs: Ranges, used: bool, a: nat, ps: nat) {
    exists i: nat :: i < |rs| && rs[i].used == used && In(rs[i], a, ps)
  }

  ghost predicate Apart(r: Range, q: Range, ps: nat) { End(r, ps) <= q.base || End(q, ps) <= r.base }

  /** Ranges are page-aligned, not empty, and disjoint: no two used ranges share a page. */
  ghost predicate Valid(rs: Ranges, ps: nat) {
    && PageSize(ps)
    && (forall i: nat | i < |rs| :: 0 < rs[i].pages < DWORDS && rs[i].base % ps == 0)
    && (forall i: nat, j: nat | i < j < |rs| :: Apart(rs[i], rs[j], ps))
  }

  function Pages(rs: Ranges): nat {
    if rs == [] then 0 else rs[0].pages + Pages(rs[1..])
  }

  /** The same addresses free and used. */
  ghost predicate SameState(rs: Ranges, rs': Ranges, ps: nat) {
    forall used, a: nat :: At(rs', used, a, ps) == At(rs, used, a, ps)
  }

  lemma {:induction false} PagesConcat(a: Ranges, b: Ranges)
    ensures Pages(a + b) == Pages(a) + Pages(b)
  {
    if a == [] {
      assert a + b == b;
    } else {
      assert (a + b)[1..] == a[1..] + b;
      PagesConcat(a[1..], b);
    }
  }

  lemma Split(p: nat, q: nat, ps: nat)
    ensures (p + q) * ps == p * ps + q * ps
  {
  }

  lemma AlignedSum(base: nat, p: nat, ps: nat)
    requires PageSize(ps) && base % ps == 0
    ensures (base + p * ps) % ps == 0
  {
    if ps == 0x1000 {
      assert (base + p * 0x1000) % 0x1000 == 0;
    } else if ps == 0x20_0000 {
      assert (base + p * 0x20_0000) % 0x20_0000 == 0;
    } else {
      assert (base + p * 0x4000_0000) % 0x4000_0000 == 0;
    }
  }

  // ----- One range replaced by two, two by one -----

  /** Range `i` cut into `r` and `q`. */
  function Cut(rs: Ranges, i: nat, r: Range, q: Range): Ranges
    requires i < |rs|
  {
    rs[..i] + [r, q] + rs[i + 1..]
  }

  /** Ranges `i` and `i + 1` joined into `r`. */
  function Join(rs: Ranges, i: nat, r: Range): Ranges
    requires i + 1 < |rs|
  {
    rs[..i] + [r] + rs[i + 2..]
  }

  /** `r` and `q` are the two halves of `whole`. */
  ghost predicate Halves(whole: Range, r: Range, q: Range, ps: nat) {
    && r.base == whole.base && q.base == End(r, ps) && r.pages + q.pages == whole.pages && r.pages > 0 && q.pages > 0
  }

  lemma HalvesMeet(whole: Range, r: Range, q: Range, ps: nat)
    requires Halves(whole, r, q, ps)
    ensures End(q, ps) == End(whole, ps) && r.base <= End(r, ps) <= End(whole, ps)
    ensures forall a: nat :: In(whole, a, ps) <==> In(r, a, ps) || In(q, a, ps)
  {
    Split(r.pages, q.pages, ps);
  }

  lemma CutValid(rs: Ranges, i: nat, r: Range, q: Range, ps: nat)
    requires Valid(rs, ps) && i < |rs| && Halves(rs[i], r, q, ps)
    ensures Valid(Cut(rs, i, r, q), ps)
  {
    var cs := Cut(rs, i, r, q);
    HalvesMeet(rs[i], r, q, ps);
    AlignedSum(r.base, r.pages, ps);
    forall k: nat | k < |cs|
      ensures cs[k] == if k < i then rs[k] else if k == i then r else if k == i + 1 then q else rs[k - 1]
    {
    }
    forall k: nat, l: nat | k < l < |cs|
      ensures Apart(cs[k], cs[l], ps)
    {
      var k' := if k <= i then k else k - 1;
      var l' := if l <= i then l else l - 1;
      if k' < l' {
        assert Apart(rs[k'], rs[l'], ps);
      }
    }
  }

  lemma CutPages(rs: Ranges, i: nat, r: Range, q: Range, ps: nat)
    requires i < |rs| && Halves(rs[i], r, q, ps)
    ensures Pages(Cut(rs, i, r, q)) == Pages(rs)
  {
    assert rs == rs[..i] + [rs[i]] + rs[i + 1..];
    PagesConcat(rs[..i] + [rs[i]], rs[i + 1..]);
    PagesConcat(rs[..i], [rs[i]]);
    PagesConcat(rs[..i] + [r, q], rs[i + 1..]);
    PagesConcat(rs[..i], [r, q]);
    assert [r, q][1..] == [q] && [q][1..] == [] && [rs[i]][1..] == [];
  }

  ghost predicate AtOther(rs: Ranges, i: nat, used: bool, a: nat, ps: nat) {
    exists k: nat :: k < |rs| && k != i && rs[k].used == used && In(rs[k], a, ps)
  }

  ghost predicate Here(r: Range, used: bool, a: nat, ps: nat) { r.used == used && In(r, a, ps) }

  lemma AtSplit(rs: Ranges, i: nat, used: bool, a: nat, ps: nat)
    requires i < |rs|
    ensures At(rs, used, a, ps) <==> Here(rs[i], used, a, ps) || AtOther(rs, i, used, a, ps)
  {
  }

  lemma CutItems(rs: Ranges, i: nat, r: Range, q: Range, k: nat)
    requires i < |rs| && k <= |rs|
    ensures Cut(rs, i, r, q)[k] == if k < i then rs[k] else if k == i then r else if k == i + 1 then q else rs[k - 1]
  {
  }

  lemma CutAtOnly(rs: Ranges, i: nat, r: Range, q: Range, used: bool, a: nat, ps: nat)
    requires i < |rs| && At(Cut(rs, i, r, q), used, a, ps)
    ensures Here(r, used, a, ps) || Here(q, used, a, ps) || AtOther(rs, i, used, a, ps)
  {
    var cs := Cut(rs, i, r, q);
    var k: nat :| k < |cs| && cs[k].used == used && In(cs[k], a, ps);
    CutItems(rs, i, r, q, k);
    if k != i && k != i + 1 {
      var l := if k < i then k else k - 1;
      assert rs[l].used == used && In(rs[l], a, ps);
    }
  }

  lemma CutAtAll(rs: Ranges, i: nat, r: Range, q: Range, used: bool, a: nat, ps: nat)
    requires i < |rs| && AtOther(rs, i, used, a, ps)
    ensures At(Cut(rs, i, r, q), used, a, ps)
  {
    var k: nat :| k < |rs| && k != i && rs[k].used == used && In(rs[k], a, ps);
    var l := if k < i then k else k + 1;
    CutItems(rs, i, r, q, l);
  }

  lemma CutAt(rs: Ranges, i: nat, r: Range, q: Range, used: bool, a: nat, ps: nat)
    requires i < |rs|
    ensures At(Cut(rs, i, r, q), used, a, ps) <==>
              Here(r, used, a, ps) || Here(q, used, a, ps) || AtOther(rs, i, used, a, ps)
  {
    CutItems(rs, i, r, q, i);
    CutItems(rs, i, r, q, i + 1);
    if At(Cut(rs, i, r, q), used, a, ps) {
      CutAtOnly(rs, i, r, q, used, a, ps);
    } else if AtOther(rs, i, used, a, ps) {
      CutAtAll(rs, i, r, q, used, a, ps);
    }
  }

  /** Halves with the use of the whole change no address. */
  lemma CutSame(rs: Ranges, i: nat, r: Range, q: Range, ps: nat)
    requires i < |rs| && Halves(rs[i], r, q, ps) && r.used == q.used == rs[i].used
    ensures SameState(rs, Cut(rs, i, r, q), ps)
  {
    HalvesMeet(rs[i], r, q, ps);
    forall used, a: nat
      ensures At(Cut(rs, i, r, q), used, a, ps) == At(rs, used, a, ps)
    {
      CutAt(rs, i, r, q, used, a, ps);
      AtSplit(rs, i, used, a, ps);
    }
  }

  /** Joining two halves undoes a cut. */
  lemma JoinCuts(rs: Ranges, i: nat, w: Range)
    requires i + 1 < |rs|
    ensures Cut(Join(rs, i, w), i, rs[i], rs[i + 1]) == rs && Join(rs, i, w)[i] == w
  {
    var js := Join(rs, i, w);
    assert js[..i] == rs[..i] && js[i + 1..] == rs[i + 2..];
    assert rs == rs[..i] + [rs[i], rs[i + 1]] + rs[i + 2..];
  }

  lemma JoinSame(rs: Ranges, i: nat, w: Range, ps: nat)
    requires i + 1 < |rs| && Halves(w, rs[i], rs[i + 1], ps) && rs[i].used == rs[i + 1].used == w.used
    ensures SameState(rs, Join(rs, i, w), ps) && Pages(Join(rs, i, w)) == Pages(rs)
  {
    JoinCuts(rs, i, w);
    CutSame(Join(rs, i, w), i, rs[i], rs[i + 1], ps);
    CutPages(Join(rs, i, w), i, rs[i], rs[i + 1], ps);
  }

  lemma JoinValid(rs: Ranges, i: nat, w: Range, ps: nat)
    requires Valid(rs, ps) && i + 1 < |rs| && Halves(w, rs[i], rs[i + 1], ps) && w.pages < DWORDS
    ensures Valid(Join(rs, i, w), ps)
  {
    var js := Join(rs, i, w);
    HalvesMeet(w, rs[i], rs[i + 1], ps);
    forall k: nat | k < |js|
      ensures js[k] == if k < i then rs[k] else if k == i then w else rs[k + 1]
    {
    }
    forall k: nat, l: nat | k < l < |js|
      ensures Apart(js[k], js[l], ps)
    {
      var k' := if k <= i then k else k + 1;
      var l' := if l <= i then l else l + 1;
      assert Apart(rs[k'], rs[l'], ps);
      if k == i {
        assert Apart(rs[i + 1], rs[l'], ps);
      } else if l == i {
        assert Apart(rs[k'], rs[i + 1], ps);
      }
    }
  }

  // ----- Merge -----

  /** Two neighbours in the list that `Merge` joins. */
  predicate Mergeable(form: Form, r: Range, q: Range, ps: nat) {
    && !r.used && !q.used
    && (if form == AsWritten then Tail(form, r, ps) == q.base else Tail(form, r, ps) + 1 == q.base)
  }

  /** The pages are added in the 32 bits of the field. */
  function Merged(r: Range, q: Range): Range { r.(pages := (r.pages + q.pages) % DWORDS) }

  /** `Merge` from range `i` on. */
  function MergeFrom(form: Form, rs: Ranges, i: nat, ps: nat): Ranges
    decreases |rs|, |rs| - i
  {
    if i + 1 >= |rs| then rs
    else if Mergeable(form, rs[i], rs[i + 1], ps) then MergeFrom(form, Join(rs, i, Merged(rs[i], rs[i + 1])), i, ps)
    else MergeFrom(form, rs, i + 1, ps)
  }

  /** No two list neighbours before `n` are free and contiguous. */
  ghost predicate Coalesced(rs: Ranges, n: nat, ps: nat) {
    forall i: nat | i < n && i + 1 < |rs| :: !Mergeable(Corrected, rs[i], rs[i + 1], ps)
  }

  /** Merging keeps every address free or used, and leaves no free neighbours that touch. */
  lemma {:induction false} MergeKeeps(rs: Ranges, i: nat, ps: nat)
    requires Valid(rs, ps) && Coalesced(rs, i, ps) && Pages(rs) < DWORDS
    ensures var ms := MergeFrom(Corrected, rs, i, ps);
            && Valid(ms, ps) && SameState(rs, ms, ps) && Pages(ms) == Pages(rs) && Coalesced(ms, |ms|, ps)
    decreases |rs|, |rs| - i
  {
    if i + 1 >= |rs| {
    } else if Mergeable(Corrected, rs[i], rs[i + 1], ps) {
      var w := Merged(rs[i], rs[i + 1]);
      PairPages(rs, i, w);
      assert Halves(w, rs[i], rs[i + 1], ps);
      JoinSame(rs, i, w, ps);
      JoinValid(rs, i, w, ps);
      JoinCoalesced(rs, i, ps);
      MergeKeeps(Join(rs, i, w), i, ps);
    } else {
      MergeKeeps(rs, i + 1, ps);
    }
  }

  lemma PairPages(rs: Ranges, i: nat, w: Range)
    requires i + 1 < |rs|
    ensures Pages(rs) == Pages(rs[..i]) + rs[i].pages + rs[i + 1].pages + Pages(rs[i + 2..])
    ensures Pages(Join(rs, i, w)) == Pages(rs[..i]) + w.pages + Pages(rs[i + 2..])
  {
    var low, mid, high := rs[..i], [rs[i], rs[i + 1]], rs[i + 2..];
    assert rs == low + mid + high;
    SumThree(low, mid, high);
    SumThree(low, [w], high);
    assert mid[1..] == [rs[i + 1]] && mid[1..][1..] == [] && [w][1..] == [];
  }

  lemma SumThree(low: Ranges, mid: Ranges, high: Ranges)
    ensures Pages(low + mid + high) == Pages(low) + Pages(mid) + Pages(high)
  {
    PagesConcat(low + mid, high);
    PagesConcat(low, mid);
  }

  /**
   Joining two free neighbours keeps every address free or used, the ranges sound and the pages
   exactly when their page counts together fit 32 bits.
   */
  lemma JoinKeepsIff(rs: Ranges, i: nat, ps: nat)
    requires Valid(rs, ps) && i + 1 < |rs| && Mergeable(Corrected, rs[i], rs[i + 1], ps)
    ensures var js := Join(rs, i, Merged(rs[i], rs[i + 1]));
            SameState(rs, js, ps) && Valid(js, ps) && Pages(js) == Pages(rs) <==> rs[i].pages + rs[i + 1].pages < DWORDS
  {
    var w := Merged(rs[i], rs[i + 1]);
    PairPages(rs, i, w);
    if rs[i].pages + rs[i + 1].pages < DWORDS {
      assert Halves(w, rs[i], rs[i + 1], ps);
      JoinSame(rs, i, w, ps);
      JoinValid(rs, i, w, ps);
    }
  }

  /** Merging leaves no free neighbours that touch, whatever the sums. */
  lemma {:induction false} MergeCoalesces(rs: Ranges, i: nat, ps: nat)
    requires Coalesced(rs, i, ps)
    ensures var ms := MergeFrom(Corrected, rs, i, ps); Coalesced(ms, |ms|, ps)
    decreases |rs|, |rs| - i
  {
    if i + 1 >= |rs| {
    } else if Mergeable(Corrected, rs[i], rs[i + 1], ps) {
      JoinCoalesced(rs, i, ps);
      MergeCoalesces(Join(rs, i, Merged(rs[i], rs[i + 1])), i, ps);
    } else {
      MergeCoalesces(rs, i + 1, ps);
    }
  }

  lemma JoinCoalesced(rs: Ranges, i: nat, ps: nat)
    requires i + 1 < |rs| && Coalesced(rs, i, ps)
    ensures Coalesced(Join(rs, i, Merged(rs[i], rs[i + 1])), i, ps)
  {
    var js := Join(rs, i, Merged(rs[i], rs[i + 1]));
    forall k: nat | k < i && k + 1 < |js|
      ensures !Mergeable(Corrected, js[k], js[k + 1], ps)
    {
      assert js[k] == rs[k] && js[k + 1].base == rs[k + 1].base && js[k + 1].used == rs[k + 1].used;
      assert !Mergeable(Corrected, rs[k], rs[k + 1], ps);
    }
  }

  lemma {:induction false} MergeIdle(form: Form, rs: Ranges, i: nat, ps: nat)
    requires forall k: nat | i <= k && k + 1 < |rs| :: !Mergeable(form, rs[k], rs[k + 1], ps)
    ensures MergeFrom(form, rs, i, ps) == rs
    decreases |rs| - i
  {
    if i + 1 < |rs| {
      MergeIdle(form, rs, i + 1, ps);
    }
  }

  lemma MergeIdempotent(rs: Ranges, ps: nat)
    ensures var ms := MergeFrom(Corrected, rs, 0, ps); MergeFrom(Corrected, ms, 0, ps) == ms
  {
    MergeCoalesces(rs, 0, ps);
    MergeIdle(Corrected, MergeFrom(Corrected, rs, 0, ps), 0, ps);
  }

  // ----- Allocate -----

  /** The first free range from index `i` with `t` pages, or the length of the list. */
  function FirstFit(rs: Ranges, t: nat, i: nat): (k: nat)
    requires i <= |rs|
    ensures i <= k <= |rs| && (k < |rs| ==> !rs[k].used && rs[k].pages >= t)
    ensures forall j: nat | i <= j < k :: rs[j].used || rs[j].pages < t
    decreases |rs| - i
  {
    if i == |rs| || (!rs[i].used && rs[i].pages >= t) then i else FirstFit(rs, t, i + 1)
  }

  /** `nRemain`, as written a signed 32-bit number. */
  function Remain(form: Form, r: Range, t: nat): int {
    if form == AsWritten && r.pages - t >= HALF then r.pages - t - DWORDS else r.pages - t
  }

  /** The base of the rest: the tail, as written, is taken before the range shrinks. */
  function RestBase(form: Form, r: Range, t: nat, ps: nat): nat {
    if form == AsWritten then r.base + Size(form, r, ps) else r.base + t * ps
  }

  /** Range `i` taken for `t` pages. */
  function Taken(form: Form, rs: Ranges, i: nat, t: nat, flags: nat, ps: nat): Ranges
    requires i < |rs| && rs[i].pages >= t
  {
    var r := rs[i];
    if Remain(form, r, t) > 0 then
      Cut(rs, i, Range(r.base, t, flags, true), Range(RestBase(form, r, t, ps), Remain(form, r, t), 0, false))
    else rs[i := r.(flags := flags, used := true)]
  }

  /** Pages asked for: none means one. */
  function Wanted(pages: nat): nat { if pages == 0 then 1 else pages }

  lemma MarkOther(rs: Ranges, i: nat, r: Range, used: bool, a: nat, ps: nat)
    requires i < |rs|
    ensures AtOther(rs[i := r], i, used, a, ps) == AtOther(rs, i, used, a, ps)
  {
    assert forall k: nat | k < |rs| && k != i :: rs[i := r][k] == rs[k];
  }

  /** An address of a range is in no other. */
  lemma InOne(rs: Ranges, i: nat, used: bool, a: nat, ps: nat)
    requires Valid(rs, ps) && i < |rs| && In(rs[i], a, ps)
    ensures !AtOther(rs, i, used, a, ps)
  {
  }

  lemma MarkSide(rs: Ranges, i: nat, flags: nat, used: bool, side: bool, a: nat, ps: nat)
    requires Valid(rs, ps) && i < |rs| && rs[i].used != used
    ensures var ms := rs[i := rs[i].(flags := flags, used := used)];
            At(ms, side, a, ps) <==> (side == used && In(rs[i], a, ps)) || AtOther(rs, i, side, a, ps)
    ensures At(rs, side, a, ps) <==> (side != used && In(rs[i], a, ps)) || AtOther(rs, i, side, a, ps)
  {
    var r := rs[i].(flags := flags, used := used);
    AtSplit(rs[i := r], i, side, a, ps);
    AtSplit(rs, i, side, a, ps);
    MarkOther(rs, i, r, side, a, ps);
  }

  lemma MarkOne(rs: Ranges, i: nat, flags: nat, used: bool, a: nat, ps: nat)
    requires Valid(rs, ps) && i < |rs| && rs[i].used != used
    ensures var ms := rs[i := rs[i].(flags := flags, used := used)];
            && (At(ms, used, a, ps) <==> At(rs, used, a, ps) || In(rs[i], a, ps))
            && (At(ms, !used, a, ps) <==> At(rs, !used, a, ps) && !In(rs[i], a, ps))
  {
    MarkSide(rs, i, flags, used, used, a, ps);
    MarkSide(rs, i, flags, used, !used, a, ps);
    if In(rs[i], a, ps) {
      InOne(rs, i, !used, a, ps);
    }
  }

  /** Marking a range changes the use of its own addresses and of no others. */
  lemma MarkAt(rs: Ranges, i: nat, flags: nat, used: bool, ps: nat)
    requires Valid(rs, ps) && i < |rs| && rs[i].used != used
    ensures var ms := rs[i := rs[i].(flags := flags, used := used)];
            && (forall a: nat :: At(ms, used, a, ps) <==> At(rs, used, a, ps) || In(rs[i], a, ps))
            && (forall a: nat :: At(ms, !used, a, ps) <==> At(rs, !used, a, ps) && !In(rs[i], a, ps))
  {
    forall a: nat {
      MarkOne(rs, i, flags, used, a, ps);
    }
  }

  lemma MarkValid(rs: Ranges, i: nat, flags: nat, used: bool, ps: nat)
    requires Valid(rs, ps) && i < |rs|
    ensures var ms := rs[i := rs[i].(flags := flags, used := used)]; Valid(ms, ps) && Pages(ms) == Pages(rs)
  {
    var ms := rs[i := rs[i].(flags := flags, used := used)];
    assert forall k: nat | k < |rs| :: ms[k].base == rs[k].base && ms[k].pages == rs[k].pages;
    SamePages(rs, ms);
  }

  lemma {:induction false} SamePages(rs: Ranges, ms: Ranges)
    requires |rs| == |ms| && forall k: nat | k < |rs| :: ms[k].pages == rs[k].pages
    ensures Pages(rs) == Pages(ms)
  {
    if rs != [] {
      SamePages(rs[1..], ms[1..]);
    }
  }

  /** The pages taken: `t` of them from the base of range `i`. */
  function TakenRange(rs: Ranges, i: nat, t: nat): Range
    requires i < |rs|
  {
    Range(rs[i].base, t, 0, true)
  }

  /** `ts` is `rs` with the pages of `w`, and no others, used. */
  ghost predicate Uses(rs: Ranges, ts: Ranges, w: Range, ps: nat) {
    && Valid(ts, ps) && Pages(ts) == Pages(rs)
    && (forall a: nat :: At(ts, true, a, ps) <==> At(rs, true, a, ps) || In(w, a, ps))
    && (forall a: nat :: At(ts, false, a, ps) <==> At(rs, false, a, ps) && !In(w, a, ps))
  }

  lemma MarkUses(rs: Ranges, i: nat, flags: nat, ps: nat)
    requires Valid(rs, ps) && i < |rs| && !rs[i].used
    ensures Uses(rs, rs[i := rs[i].(flags := flags, used := true)], rs[i], ps)
  {
    MarkAt(rs, i, flags, true, ps);
    MarkValid(rs, i, flags, true, ps);
  }

  lemma UsesAfterCut(rs: Ranges, cs: Ranges, ts: Ranges, w: Range, w': Range, ps: nat)
    requires SameState(rs, cs, ps) && Pages(cs) == Pages(rs) && Uses(cs, ts, w, ps)
    requires w'.base == w.base && w'.pages == w.pages
    ensures Uses(rs, ts, w', ps)
  {
  }

  /**
   An allocation of `t` pages uses exactly these pages, which were free; every other page
   keeps its state, the ranges stay disjoint and aligned, and no page is lost.
   */
  lemma TakeKeeps(rs: Ranges, i: nat, t: nat, flags: nat, ps: nat)
    requires Valid(rs, ps) && i < |rs| && !rs[i].used && 0 < t <= rs[i].pages
    ensures Uses(rs, Taken(Corrected, rs, i, t, flags, ps), TakenRange(rs, i, t), ps)
  {
    var r := rs[i];
    if t < r.pages {
      var low, high := Range(r.base, t, flags, false), Range(r.base + t * ps, r.pages - t, 0, false);
      var cs := Cut(rs, i, low, high);
      CutValid(rs, i, low, high, ps);
      CutSame(rs, i, low, high, ps);
      CutPages(rs, i, low, high, ps);
      assert cs[i] == low;
      MarkUses(cs, i, flags, ps);
      assert Taken(Corrected, rs, i, t, flags, ps) == cs[i := cs[i].(flags := flags, used := true)];
      UsesAfterCut(rs, cs, Taken(Corrected, rs, i, t, flags, ps), low, TakenRange(rs, i, t), ps);
    } else {
      MarkUses(rs, i, flags, ps);
      UsesAfterCut(rs, rs, Taken(Corrected, rs, i, t, flags, ps), r, TakenRange(rs, i, t), ps);
    }
  }

  lemma TakenWasFree(rs: Ranges, i: nat, t: nat, ps: nat)
    requires Valid(rs, ps) && i < |rs| && !rs[i].used && 0 < t <= rs[i].pages
    ensures forall a: nat | In(TakenRange(rs, i, t), a, ps) :: At(rs, false, a, ps) && !At(rs, true, a, ps)
  {
    Split(t, rs[i].pages - t, ps);
    forall a: nat | In(TakenRange(rs, i, t), a, ps)
      ensures At(rs, false, a, ps) && !At(rs, true, a, ps)
    {
      assert In(rs[i], a, ps);
    }
  }

  // ----- Free -----

  /** The first range from index `i` with this base, or the length of the list. */
  function FindBase(rs: Ranges, base: nat, i: nat): (k: nat)
    requires i <= |rs|
    ensures i <= k <= |rs| && (k < |rs| ==> rs[k].base == base)
    ensures forall j: nat | i <= j < k :: rs[j].base != base
    decreases |rs| - i
  {
    if i == |rs| || rs[i].base == base then i else FindBase(rs, base, i + 1)
  }

  function Freed(form: Form, rs: Ranges, k: nat, ps: nat): Ranges
    requires k < |rs|
  {
    MergeFrom(form, rs[k := rs[k].(used := false)], 0, ps)
  }

  /** Freeing a used range frees exactly its pages. */
  lemma FreedKeeps(rs: Ranges, k: nat, ps: nat)
    requires Valid(rs, ps) && k < |rs| && rs[k].used && Pages(rs) < DWORDS
    ensures var fs := Freed(Corrected, rs, k, ps);
            && Valid(fs, ps) && Pages(fs) == Pages(rs) && Coalesced(fs, |fs|, ps)
            && (forall a: nat :: At(fs, false, a, ps) <==> At(rs, false, a, ps) || In(rs[k], a, ps))
            && (forall a: nat :: At(fs, true, a, ps) <==> At(rs, true, a, ps) && !In(rs[k], a, ps))
  {
    var ms := rs[k := rs[k].(flags := rs[k].flags, used := false)];
    assert ms == rs[k := rs[k].(used := false)];
    MarkAt(rs, k, rs[k].flags, false, ps);
    MarkValid(rs, k, rs[k].flags, false, ps);
    MergeKeeps(ms, 0, ps);
  }

  /** Bases are distinct: a base finds its own range. */
  lemma FindsOwn(rs: Ranges, k: nat, ps: nat)
    requires Valid(rs, ps) && k < |rs|
    ensures FindBase(rs, rs[k].base, 0) == k
  {
    var l := FindBase(rs, rs[k].base, 0);
    if l < k {
      assert Apart(rs[l], rs[k], ps);
      Positive(rs[l].pages, ps);
      Positive(rs[k].pages, ps);
    }
  }

  lemma Positive(p: nat, ps: nat)
    requires p > 0 && ps > 0
    ensures p * ps > 0
  {
  }

  lemma {:induction false} MergeSkips(form: Form, rs: Ranges, i: nat, to: nat, ps: nat)
    requires i <= to < |rs| && forall k: nat | i <= k < to :: !Mergeable(form, rs[k], rs[k + 1], ps)
    ensures MergeFrom(form, rs, i, ps) == MergeFrom(form, rs, to, ps)
    decreases |rs| - i
  {
    if i < to {
      MergeSkips(form, rs, i + 1, to, ps);
    }
  }

  lemma RejoinsCut(rs: Ranges, i: nat, low: Range, high: Range, back: Ranges, ps: nat)
    requires i < |rs| && Coalesced(rs, |rs|, ps) && low.base == rs[i].base && low.used == rs[i].used
    requires Mergeable(Corrected, low, high, ps) && back == rs[i := Merged(low, high)] && Coalesced(back, |rs|, ps)
    ensures MergeFrom(Corrected, Cut(rs, i, low, high), 0, ps) == back
  {
    var fs := Cut(rs, i, low, high);
    CutEdge(rs, i, low, high, ps);
    MergeSkips(Corrected, fs, 0, i, ps);
    assert fs[i] == low && fs[i + 1] == high;
    assert Join(fs, i, Merged(low, high)) == back;
    MergeIdle(Corrected, back, i, ps);
  }

  /** A release right after the allocation restores a coalesced pool, but for the flags of the range. */
  lemma FreeUndoesTake(rs: Ranges, i: nat, t: nat, flags: nat, ps: nat)
    requires Valid(rs, ps) && Coalesced(rs, |rs|, ps) && i < |rs| && !rs[i].used && 0 < t <= rs[i].pages
    ensures var ts := Taken(Corrected, rs, i, t, flags, ps);
            && FindBase(ts, rs[i].base, 0) == i && ts[i].used && ts[i].pages == t
            && Freed(Corrected, ts, i, ps) == rs[i := rs[i].(flags := flags)]
  {
    var r, back := rs[i], rs[i := rs[i].(flags := flags)];
    var ts := Taken(Corrected, rs, i, t, flags, ps);
    TakeKeeps(rs, i, t, flags, ps);
    FindsOwn(ts, i, ps);
    BackCoalesced(rs, i, flags, ps);
    if t < r.pages {
      var low, high := Range(r.base, t, flags, false), Range(r.base + t * ps, r.pages - t, 0, false);
      assert ts[i := ts[i].(used := false)] == Cut(rs, i, low, high);
      RejoinsCut(rs, i, low, high, back, ps);
    } else {
      assert ts[i := ts[i].(used := false)] == back;
      MergeIdle(Corrected, back, 0, ps);
    }
  }

  lemma BackCoalesced(rs: Ranges, i: nat, flags: nat, ps: nat)
    requires Coalesced(rs, |rs|, ps) && i < |rs|
    ensures Coalesced(rs[i := rs[i].(flags := flags)], |rs|, ps)
  {
    var back := rs[i := rs[i].(flags := flags)];
    forall k: nat | k + 1 < |rs|
      ensures !Mergeable(Corrected, back[k], back[k + 1], ps)
    {
      assert !Mergeable(Corrected, rs[k], rs[k + 1], ps);
    }
  }

  lemma CutEdge(rs: Ranges, i: nat, r: Range, q: Range, ps: nat)
    requires Coalesced(rs, |rs|, ps) && i < |rs| && r.base == rs[i].base && r.used == rs[i].used
    ensures forall k: nat | k < i :: !Mergeable(Corrected, Cut(rs, i, r, q)[k], Cut(rs, i, r, q)[k + 1], ps)
  {
    forall k: nat | k < i
      ensures !Mergeable(Corrected, Cut(rs, i, r, q)[k], Cut(rs, i, r, q)[k + 1], ps)
    {
      assert !Mergeable(Corrected, rs[k], rs[k + 1], ps);
    }
  }

  // ----- AddRange -----

  datatype Status = Done | Unaligned | NotExists | NotInUse | Fault

  /** The length of a range in bytes, in 64 bits; its pages are kept in 32. */
  function Length(start: nat, end: nat): nat { (end - start + 1) % ADDRESSES }

  function MakeRange(start: nat, end: nat, ps: nat): Range
    requires ps > 0
  {
    Range(start, Length(start, end) / ps % DWORDS, 0, false)
  }

  predicate Aligned(start: nat, end: nat, ps: nat)
    requires ps > 0
  {
    start % ps == 0 && Length(start, end) % ps == 0
  }

  lemma WholePages(n: nat, ps: nat)
    requires PageSize(ps) && n % ps == 0
    ensures n / ps * ps == n
  {
  }

  lemma FewerBytes(p: nat, q: nat, ps: nat)
    requires p < q && ps > 0
    ensures p * ps < q * ps
  {
    Split(p, q - p, ps);
    Positive(q - p, ps);
  }

  /** A range covers the addresses asked for exactly when its pages fit 32 bits. */
  lemma AddCoversIff(start: nat, end: nat, ps: nat)
    requires PageSize(ps) && start <= end < ADDRESSES && (start > 0 || end < ADDRESSES - 1) && Aligned(start, end, ps)
    ensures Length(start, end) == end - start + 1
    ensures End(MakeRange(start, end, ps), ps) == end + 1 <==> Length(start, end) / ps < DWORDS
  {
    var m := Length(start, end) / ps;
    WholePages(Length(start, end), ps);
    if m >= DWORDS {
      FewerBytes(m % DWORDS, m, ps);
    }
  }

  /** The addresses from `start` to `end` may be added: not in the pool yet, and few enough pages. */
  ghost predicate Addable(rs: Ranges, start: nat, end: nat, ps: nat)
    requires ps > 0
  {
    && start <= end < ADDRESSES && (start > 0 || end < ADDRESSES - 1)
    && Length(start, end) / ps < DWORDS
    && (forall r | r in rs :: End(r, ps) <= start || end < r.base)
  }

  lemma AppendValid(rs: Ranges, r: Range, ps: nat)
    requires Valid(rs, ps) && 0 < r.pages < DWORDS && r.base % ps == 0 && forall q | q in rs :: Apart(q, r, ps)
    ensures Valid(rs + [r], ps)
  {
    forall i: nat, j: nat | i < j < |rs| + 1
      ensures Apart((rs + [r])[i], (rs + [r])[j], ps)
    {
      if j == |rs| {
        assert rs[i] in rs;
      }
    }
  }

  lemma AddKeeps(rs: Ranges, start: nat, end: nat, ps: nat)
    requires Valid(rs, ps) && Aligned(start, end, ps) && Addable(rs, start, end, ps)
    ensures var grown := rs + [MakeRange(start, end, ps)];
            && Valid(grown, ps) && Pages(grown) == Pages(rs) + (end - start + 1) / ps
            && (forall a: nat :: At(grown, true, a, ps) <==> At(rs, true, a, ps))
            && (forall a: nat :: At(grown, false, a, ps) <==> At(rs, false, a, ps) || start <= a <= end)
  {
    var r := MakeRange(start, end, ps);
    AddCoversIff(start, end, ps);
    PagesConcat(rs, [r]);
    assert [r][1..] == [];
    AppendAt(rs, r, ps);
    WholePages(end - start + 1, ps);
    AppendValid(rs, r, ps);
  }

  lemma AppendAt(rs: Ranges, r: Range, ps: nat)
    ensures forall used, a: nat :: At(rs + [r], used, a, ps) <==> At(rs, used, a, ps) || Here(r, used, a, ps)
  {
    var grown := rs + [r];
    forall used, a: nat
      ensures At(grown, used, a, ps) <==> At(rs, used, a, ps) || Here(r, used, a, ps)
    {
      assert grown[|rs|] == r;
      assert forall k: nat | k < |rs| :: grown[k] == rs[k];
    }
  }

  // ----- Runs -----

  datatype Op = Add(start: nat, end: nat) | Take(pages: nat, flags: nat) | Release(base: nat)

  /** One call on the pool, as its methods below are proved to work. */
  function Exec(form: Form, rs: Ranges, op: Op, ps: nat): Ranges
    requires ps > 0
  {
    match op
    case Add(start, end) => if Aligned(start, end, ps) then rs + [MakeRange(start, end, ps)] else rs
    case Take(pages, flags) =>
      var i := FirstFit(rs, Wanted(pages), 0);
      if i < |rs| then Taken(form, rs, i, Wanted(pages), flags, ps) else rs
    case Release(base) =>
      var k := FindBase(rs, base, 0);
      if k < |rs| && rs[k].used then Freed(form, rs, k, ps) else rs
  }

  function Run(form: Form, rs: Ranges, ops: seq<Op>, ps: nat): Ranges
    requires ps > 0
    decreases ops
  {
    if ops == [] then rs else Run(form, Exec(form, rs, ops[0], ps), ops[1..], ps)
  }

  /** Every range that the run adds is new to the pool. */
  ghost predicate Admits(rs: Ranges, ops: seq<Op>, ps: nat)
    requires ps > 0
    decreases ops
  {
    ops != [] ==>
      && (ops[0].Add? && Aligned(ops[0].start, ops[0].end, ps) ==> Addable(rs, ops[0].start, ops[0].end, ps))
      && Admits(Exec(Corrected, rs, ops[0], ps), ops[1..], ps)
  }

  predicate Adds(op: Op, ps: nat)
    requires ps > 0
  {
    op.Add? && Aligned(op.start, op.end, ps)
  }

  /** Pages and addresses that a run adds. */
  function AddedPages(ops: seq<Op>, ps: nat): int
    requires ps > 0
    decreases ops
  {
    if ops == [] then 0
    else (if Adds(ops[0], ps) then (ops[0].end - ops[0].start + 1) / ps else 0) + AddedPages(ops[1..], ps)
  }

  ghost predicate Added(ops: seq<Op>, a: nat, ps: nat)
    requires ps > 0
  {
    exists k: nat :: k < |ops| && Adds(ops[k], ps) && ops[k].start <= a <= ops[k].end
  }

  ghost predicate Covered(rs: Ranges, a: nat, ps: nat) {
    At(rs, true, a, ps) || At(rs, false, a, ps)
  }

  lemma TakenInside(rs: Ranges, op: Op, ps: nat)
    requires Valid(rs, ps) && op.Take? && FirstFit(rs, Wanted(op.pages), 0) < |rs|
    ensures var (ts, i) := (Exec(Corrected, rs, op, ps), FirstFit(rs, Wanted(op.pages), 0));
            && Uses(rs, ts, TakenRange(rs, i, Wanted(op.pages)), ps)
            && forall a: nat :: Covered(ts, a, ps) <==> Covered(rs, a, ps)
  {
    var i := FirstFit(rs, Wanted(op.pages), 0);
    TakeKeeps(rs, i, Wanted(op.pages), op.flags, ps);
    TakenWasFree(rs, i, Wanted(op.pages), ps);
  }

  lemma ExecKeeps(rs: Ranges, op: Op, ps: nat)
    requires Valid(rs, ps) && (Adds(op, ps) ==> Addable(rs, op.start, op.end, ps)) && Pages(rs) < DWORDS
    ensures var xs := Exec(Corrected, rs, op, ps);
            && Valid(xs, ps)
            && Pages(xs) == Pages(rs) + (if Adds(op, ps) then (op.end - op.start + 1) / ps else 0)
            && forall a: nat :: Covered(xs, a, ps) <==> Covered(rs, a, ps) || (Adds(op, ps) && op.start <= a <= op.end)
  {
    match op
    case Add(start, end) =>
      if Aligned(start, end, ps) {
        AddKeeps(rs, start, end, ps);
      }
    case Take(pages, flags) =>
      if FirstFit(rs, Wanted(pages), 0) < |rs| {
        TakenInside(rs, op, ps);
      }
    case Release(base) =>
      var k := FindBase(rs, base, 0);
      if k < |rs| && rs[k].used {
        FreedKeeps(rs, k, ps);
        assert forall a: nat | In(rs[k], a, ps) :: At(rs, true, a, ps);
      }
  }

  /**
   Over every run of additions, allocations and releases, the ranges stay page-aligned and
   disjoint, cover exactly the addresses added, and hold exactly the pages added, provided that
   these fit the 32 bits in which `Merge` adds page counts.
   */
  lemma {:induction false} RunKeeps(rs: Ranges, ops: seq<Op>, ps: nat)
    requires Valid(rs, ps) && Admits(rs, ops, ps) && Pages(rs) + AddedPages(ops, ps) < DWORDS
    ensures var xs := Run(Corrected, rs, ops, ps);
            && Valid(xs, ps) && Pages(xs) == Pages(rs) + AddedPages(ops, ps)
            && forall a: nat :: Covered(xs, a, ps) <==> Covered(rs, a, ps) || Added(ops, a, ps)
    decreases ops
  {
    if ops != [] {
      var xs := Exec(Corrected, rs, ops[0], ps);
      AddedGrow(xs, ops[1..], ps);
      ExecKeeps(rs, ops[0], ps);
      RunKeeps(xs, ops[1..], ps);
      forall a: nat
        ensures Added(ops, a, ps) <==> (Adds(ops[0], ps) && ops[0].start <= a <= ops[0].end) || Added(ops[1..], a, ps)
      {
        AddedFirst(ops, a, ps);
      }
    }
  }

  lemma {:induction false} AddedGrow(rs: Ranges, ops: seq<Op>, ps: nat)
    requires ps > 0 && Admits(rs, ops, ps)
    ensures AddedPages(ops, ps) >= 0
    decreases ops
  {
    if ops != [] {
      AddedGrow(Exec(Corrected, rs, ops[0], ps), ops[1..], ps);
    }
  }

  lemma AddedFirst(ops: seq<Op>, a: nat, ps: nat)
    requires ps > 0 && ops != []
    ensures Added(ops, a, ps) <==> (Adds(ops[0], ps) && ops[0].start <= a <= ops[0].end) || Added(ops[1..], a, ps)
  {
    if Added(ops, a, ps) {
      var k: nat :| k < |ops| && Adds(ops[k], ps) && ops[k].start <= a <= ops[k].end;
      if k > 0 {
        assert ops[1..][k - 1] == ops[k];
      }
    }
    if Added(ops[1..], a, ps) {
      var k: nat :| k < |ops[1..]| && Adds(ops[1..][k], ps) && ops[1..][k].start <= a <= ops[1..][k].end;
      assert ops[k + 1] == ops[1..][k];
    }
  }

  // ----- First fit in an ordered pool -----

  /** The list is in the order of its addresses. */
  ghost predicate Ordered(rs: Ranges) {
    forall i: nat, j: nat | i < j < |rs| :: rs[i].base < rs[j].base
  }

  /** In an ordered pool first fit answers a request for one page with its lowest free address. */
  lemma LowestFirst(rs: Ranges, ps: nat)
    requires Valid(rs, ps) && Ordered(rs) && FirstFit(rs, 1, 0) < |rs|
    ensures var v := rs[FirstFit(rs, 1, 0)].base;
            At(rs, false, v, ps) && forall a: nat | At(rs, false, a, ps) :: v <= a
  {
    var k := FirstFit(rs, 1, 0);
    Positive(rs[k].pages, ps);
    assert In(rs[k], rs[k].base, ps);
    forall a: nat | At(rs, false, a, ps)
      ensures rs[k].base <= a
    {
      var i: nat :| i < |rs| && !rs[i].used && In(rs[i], a, ps);
      assert k <= i;
    }
  }

  lemma CutOrdered(rs: Ranges, i: nat, r: Range, q: Range, ps: nat)
    requires Valid(rs, ps) && Ordered(rs) && i < |rs| && Halves(rs[i], r, q, ps)
    ensures Ordered(Cut(rs, i, r, q))
  {
    var cs := Cut(rs, i, r, q);
    HalvesMeet(rs[i], r, q, ps);
    Positive(r.pages, ps);
    Positive(q.pages, ps);
    forall k: nat, l: nat | k < l < |cs|
      ensures cs[k].base < cs[l].base
    {
      CutItems(rs, i, r, q, k);
      CutItems(rs, i, r, q, l);
      if i + 1 < l {
        assert rs[i].base < rs[l - 1].base && Apart(rs[i], rs[l - 1], ps);
      }
    }
  }

  lemma {:induction false} MergeOrdered(rs: Ranges, i: nat, ps: nat)
    requires Ordered(rs)
    ensures Ordered(MergeFrom(Corrected, rs, i, ps))
    decreases |rs|, |rs| - i
  {
    if i + 1 >= |rs| {
    } else if Mergeable(Corrected, rs[i], rs[i + 1], ps) {
      var js := Join(rs, i, Merged(rs[i], rs[i + 1]));
      assert forall k: nat | k < |js| :: js[k].base == rs[if k <= i then k else k + 1].base;
      MergeOrdered(js, i, ps);
    } else {
      MergeOrdered(rs, i + 1, ps);
    }
  }

  lemma TakenIsCut(rs: Ranges, i: nat, t: nat, flags: nat, ps: nat, r: Range, q: Range)
    requires i < |rs| && 0 < t < rs[i].pages
    requires r == Range(rs[i].base, t, flags, true) && q == Range(rs[i].base + t * ps, rs[i].pages - t, 0, false)
    ensures Taken(Corrected, rs, i, t, flags, ps) == Cut(rs, i, r, q) && Halves(rs[i], r, q, ps)
  {
  }

  lemma TakenOrdered(rs: Ranges, i: nat, t: nat, flags: nat, ps: nat)
    requires Valid(rs, ps) && Ordered(rs) && i < |rs| && 0 < t <= rs[i].pages
    ensures Ordered(Taken(Corrected, rs, i, t, flags, ps))
  {
    if t < rs[i].pages {
      var r, q := Range(rs[i].base, t, flags, true), Range(rs[i].base + t * ps, rs[i].pages - t, 0, false);
      TakenIsCut(rs, i, t, flags, ps, r, q);
      CutOrdered(rs, i, r, q, ps);
    } else {
      assert forall k: nat | k < |rs| :: Taken(Corrected, rs, i, t, flags, ps)[k].base == rs[k].base;
    }
  }

  lemma FreedOrdered(rs: Ranges, k: nat, ps: nat)
    requires Ordered(rs) && k < |rs|
    ensures Ordered(Freed(Corrected, rs, k, ps))
  {
    MergeOrdered(rs[k := rs[k].(used := false)], 0, ps);
  }

  /** Taking and releasing keep the order. */
  lemma ExecOrdered(rs: Ranges, op: Op, ps: nat)
    requires Valid(rs, ps) && Ordered(rs) && !op.Add?
    ensures Ordered(Exec(Corrected, rs, op, ps))
  {
    match op
    case Take(pages, flags) =>
      var i := FirstFit(rs, Wanted(pages), 0);
      if i < |rs| {
        TakenOrdered(rs, i, Wanted(pages), flags, ps);
      }
    case Release(base) =>
      var k := FindBase(rs, base, 0);
      if k < |rs| {
        FreedOrdered(rs, k, ps);
      }
  }

  /** A pool made of one range answers every request for one page with its lowest free page, whatever came before. */
  lemma {:induction false} RunOrdered(rs: Ranges, ops: seq<Op>, ps: nat)
    requires Valid(rs, ps) && Ordered(rs) && Pages(rs) < DWORDS && forall op | op in ops :: !op.Add?
    ensures var xs := Run(Corrected, rs, ops, ps);
            && Valid(xs, ps) && Ordered(xs)
            && var k := FirstFit(xs, 1, 0);
               k < |xs| ==> At(xs, false, xs[k].base, ps) && forall a: nat | At(xs, false, a, ps) :: xs[k].base <= a
    decreases ops
  {
    if ops == [] {
      if FirstFit(rs, 1, 0) < |rs| {
        LowestFirst(rs, ps);
      }
    } else {
      assert ops[0] in ops;
      ExecKeeps(rs, ops[0], ps);
      ExecOrdered(rs, ops[0], ps);
      RunOrdered(Exec(Corrected, rs, ops[0], ps), ops[1..], ps);
    }
  }

  // ----- Where the source goes wrong -----

  /**
   Two ranges of 2^31 pages that touch, one page taken and given back: the merge adds the counts
   up to 2^32, which the field holds as 0, and all addresses are lost.
   */
  lemma WideMergeLoses()
    ensures var ops := [Add(0, 0x7FF_FFFF_FFFF), Add(0x800_0000_0000, 0xFFF_FFFF_FFFF), Take(1, 0), Release(0)];
            Run(Corrected, [], ops, 0x1000) == [Range(0, 0, 0, false)]
  {
    var a, b := Range(0, HALF, 0, false), Range(0x800_0000_0000, HALF, 0, false);
    var one, rest := Range(0, 1, 0, true), Range(0x1000, HALF - 1, 0, false);
    var ops := [Add(0, 0x7FF_FFFF_FFFF), Add(0x800_0000_0000, 0xFFF_FFFF_FFFF), Take(1, 0), Release(0)];
    assert ops[1..] == [ops[1], ops[2], ops[3]] && ops[1..][1..] == [ops[2], ops[3]] && ops[1..][1..][1..] == [ops[3]];
    assert Exec(Corrected, [], ops[0], 0x1000) == [a];
    assert Exec(Corrected, [a], ops[1], 0x1000) == [a, b];
    assert Exec(Corrected, [a, b], ops[2], 0x1000) == [one, rest, b];
    WideMerge();
    assert [one, rest, b][0 := one.(used := false)] == [one.(used := false), rest, b];
    assert Exec(Corrected, [one, rest, b], ops[3], 0x1000) == [Range(0, 0, 0, false)];
  }

  lemma WideMerge()
    ensures var (one, rest) := (Range(0, 1, 0, false), Range(0x1000, HALF - 1, 0, false));
            var b := Range(0x800_0000_0000, HALF, 0, false);
            MergeFrom(Corrected, [one, rest, b], 0, 0x1000) == [Range(0, 0, 0, false)]
  {
    var one, rest := Range(0, 1, 0, false), Range(0x1000, HALF - 1, 0, false);
    var a, b := Range(0, HALF, 0, false), Range(0x800_0000_0000, HALF, 0, false);
    assert Join([one, rest, b], 0, Merged(one, rest)) == [a, b];
    assert Join([a, b], 0, Merged(a, b)) == [Range(0, 0, 0, false)];
    assert MergeFrom(Corrected, [a, b], 0, 0x1000) == [Range(0, 0, 0, false)];
  }

  /** In the order of its list a pool answers no request for a page exactly when every address is in use. */
  lemma FaultsIffFull(rs: Ranges, ps: nat)
    requires Valid(rs, ps)
    ensures FirstFit(rs, 1, 0) == |rs| <==> forall a: nat :: !At(rs, false, a, ps)
  {
    var k := FirstFit(rs, 1, 0);
    if k < |rs| {
      Positive(rs[k].pages, ps);
      assert In(rs[k], rs[k].base, ps) && At(rs, false, rs[k].base, ps);
    }
  }

  /**
   The allocation as written is the intended one exactly when the range is taken whole, or its
   rest is below 2^31 pages and its size in 32 bits happens to be that of the pages taken.
   */
  lemma LiteralTakeIff(rs: Ranges, i: nat, t: nat, flags: nat, ps: nat)
    requires PageSize(ps) && i < |rs| && rs[i].pages < DWORDS && 0 < t <= rs[i].pages
    ensures Taken(AsWritten, rs, i, t, flags, ps) == Taken(Corrected, rs, i, t, flags, ps) <==>
              t == rs[i].pages || (rs[i].pages - t < HALF && rs[i].pages * ps % DWORDS == t * ps)
  {
    var r := rs[i];
    var lit, cor := Taken(AsWritten, rs, i, t, flags, ps), Taken(Corrected, rs, i, t, flags, ps);
    if t < r.pages {
      if r.pages - t >= HALF {
        assert |lit| == |rs| && |cor| == |rs| + 1;
      } else {
        assert lit[i + 1].base == r.base + r.pages * ps % DWORDS && cor[i + 1].base == r.base + t * ps;
      }
    }
  }

  /** The kernel's pool, of 2^27 pages of 4 KiB: as written, two allocations in a row return the same address. */
  lemma KernelPoolRepeats(base: nat)
    ensures var rs := [Range(base, 0x800_0000, 0, false)];
            var ts := Taken(AsWritten, rs, 0, 1, 2, 0x1000);
            FirstFit(rs, 1, 0) == 0 && FirstFit(ts, 1, 0) == 1 && ts[0].used && ts[1].base == ts[0].base == base
  {
    var rs := [Range(base, 0x800_0000, 0, false)];
    var ts := Taken(AsWritten, rs, 0, 1, 2, 0x1000);
    assert ts == [Range(base, 1, 2, true), Range(base, 0x7FF_FFFF, 0, false)];
  }

  lemma WrapFourK(p: nat)
    ensures p * 0x1000 % DWORDS % 0x1000 == 0
  {
    var q := p * 0x1000 / DWORDS;
    assert p * 0x1000 % DWORDS == 0x1000 * (p - 0x10_0000 * q);
  }

  lemma WrapTwoM(p: nat)
    ensures p * 0x20_0000 % DWORDS % 0x20_0000 == 0
  {
    var q := p * 0x20_0000 / DWORDS;
    assert p * 0x20_0000 % DWORDS == 0x20_0000 * (p - 0x800 * q);
  }

  lemma WrapOneG(p: nat)
    ensures p * 0x4000_0000 % DWORDS % 0x4000_0000 == 0
  {
    var q := p * 0x4000_0000 / DWORDS;
    assert p * 0x4000_0000 % DWORDS == 0x4000_0000 * (p - 4 * q);
  }

  lemma SizeAligned(r: Range, ps: nat)
    requires PageSize(ps)
    ensures Size(AsWritten, r, ps) % ps == 0
  {
    WrapFourK(r.pages);
    WrapTwoM(r.pages);
    WrapOneG(r.pages);
  }

  lemma SumAligned(a: nat, b: nat, ps: nat)
    requires PageSize(ps) && a % ps == 0 && b % ps == 0
    ensures (a + b) % ps == 0
  {
  }

  lemma TailOdd(r: Range, ps: nat)
    requires PageSize(ps) && r.base % ps == 0
    ensures (Tail(AsWritten, r, ps) + 1) % ps == 0
  {
    SizeAligned(r, ps);
    SumAligned(r.base, Size(AsWritten, r, ps), ps);
  }

  lemma NeverMergeable(r: Range, q: Range, ps: nat)
    requires PageSize(ps) && r.base % ps == 0 && q.base % ps == 0
    ensures !Mergeable(AsWritten, r, q, ps)
  {
    TailOdd(r, ps);
  }

  /** As written, merging never joins ranges of a page-aligned pool: it is right exactly on coalesced pools. */
  lemma LiteralMergeIff(rs: Ranges, ps: nat)
    requires Valid(rs, ps)
    ensures MergeFrom(AsWritten, rs, 0, ps) == rs
    ensures MergeFrom(AsWritten, rs, 0, ps) == MergeFrom(Corrected, rs, 0, ps) <==> Coalesced(rs, |rs|, ps)
  {
    forall k: nat | k + 1 < |rs|
      ensures !Mergeable(AsWritten, rs[k], rs[k + 1], ps)
    {
      NeverMergeable(rs[k], rs[k + 1], ps);
    }
    MergeIdle(AsWritten, rs, 0, ps);
    MergeCoalesces(rs, 0, ps);
    if Coalesced(rs, |rs|, ps) {
      MergeIdle(Corrected, rs, 0, ps);
    }
  }

  // ----- The pool -----

  /** The addresses of `n` pages from `base` were free and are used; every other keeps its state. */
  ghost predicate Taking(rs: Ranges, ts: Ranges, base: nat, n: nat, ps: nat) {
    && Valid(ts, ps) && Pages(ts) == Pages(rs)
    && (forall a: nat | base <= a < base + n * ps :: At(rs, false, a, ps) && !At(rs, true, a, ps))
    && (forall a: nat :: At(ts, true, a, ps) <==> At(rs, true, a, ps) || base <= a < base + n * ps)
    && (forall a: nat :: At(ts, false, a, ps) <==> At(rs, false, a, ps) && !(base <= a < base + n * ps))
  }

  /** The addresses of `n` pages from `base` were used and are free; every other keeps its state. */
  ghost predicate Giving(rs: Ranges, ts: Ranges, base: nat, n: nat, ps: nat) {
    && Valid(ts, ps) && Pages(ts) == Pages(rs)
    && (forall a: nat | base <= a < base + n * ps :: At(rs, true, a, ps))
    && (forall a: nat :: At(ts, false, a, ps) <==> At(rs, false, a, ps) || base <= a < base + n * ps)
    && (forall a: nat :: At(ts, true, a, ps) <==> At(rs, true, a, ps) && !(base <= a < base + n * ps))
  }

  lemma TakesRange(rs: Ranges, i: nat, t: nat, flags: nat, ps: nat)
    requires i < |rs| && !rs[i].used && 0 < t <= rs[i].pages
    ensures Range(rs[i].base, t, flags, true) in Taken(Corrected, rs, i, t, flags, ps)
    ensures Valid(rs, ps) ==> Taking(rs, Taken(Corrected, rs, i, t, flags, ps), rs[i].base, t, ps)
  {
    assert Taken(Corrected, rs, i, t, flags, ps)[i] == Range(rs[i].base, t, flags, true);
    if Valid(rs, ps) {
      TakeKeeps(rs, i, t, flags, ps);
      TakenWasFree(rs, i, t, ps);
      assert forall a: nat :: In(TakenRange(rs, i, t), a, ps) <==> rs[i].base <= a < rs[i].base + t * ps;
    }
  }

  lemma GivesRange(form: Form, rs: Ranges, k: nat, ps: nat)
    requires k < |rs| && rs[k].used
    ensures form == Corrected && Valid(rs, ps) && Pages(rs) < DWORDS ==>
              Giving(rs, Freed(Corrected, rs, k, ps), rs[k].base, rs[k].pages, ps)
  {
    if form == Corrected && Valid(rs, ps) && Pages(rs) < DWORDS {
      FreedKeeps(rs, k, ps);
      assert forall a: nat :: In(rs[k], a, ps) <==> rs[k].base <= a < rs[k].base + rs[k].pages * ps;
    }
  }

  class AddressPool {
    const pageSize: nat
    var ranges: Ranges

    constructor (pageSize: nat)
      ensures this.pageSize == pageSize && ranges == []
    {
      this.pageSize := pageSize;
      ranges := [];
    }

    /** Appends a range; its end is the last address of it. */
    method AddRange(start: nat, end: nat) returns (st: Status)
      requires PageSize(pageSize)
      modifies this`ranges
      ensures ranges == Exec(Corrected, old(ranges), Add(start, end), pageSize)
      ensures st == if Aligned(start, end, pageSize) then Done else Unaligned
    {
      if start % pageSize != 0 {
        return Unaligned;
      }
      var len := (end - start + 1) % ADDRESSES;
      if len % pageSize != 0 {
        return Unaligned;
      }
      ranges := ranges + [Range(start, len / pageSize % DWORDS, 0, false)];
      st := Done;
    }

    /** Joins free neighbours in the list. */
    method Merge(form: Form)
      requires PageSize(pageSize)
      modifies this`ranges
      ensures ranges == MergeFrom(form, old(ranges), 0, pageSize)
    {
      var i := 0;
      while i + 1 < |ranges|
        invariant MergeFrom(form, old(ranges), 0, pageSize) == MergeFrom(form, ranges, i, pageSize)
        decreases |ranges|, |ranges| - i
      {
        var curr, next := ranges[i], ranges[i + 1];
        if Mergeable(form, curr, next, pageSize) {
          ranges := ranges[..i] + [curr.(pages := (curr.pages + next.pages) % DWORDS)] + ranges[i + 2..];
        } else {
          i := i + 1;
        }
      }
    }

    /** Range `k` is the first that is free and has `n` pages. */
    ghost predicate FirstFree(rs: Ranges, k: nat, n: nat) {
      && k < |rs| && !rs[k].used && rs[k].pages >= n
      && forall j: nat | j < k :: rs[j].used || rs[j].pages < n
    }

    /**
     First fit: the addresses of as many pages as were asked for, or of one page for none, from the
     base returned. In the corrected form they were free, become used, and no other changes. When
     nothing fits, the code goes on through a null pointer.
     */
    method Allocate(form: Form, pages: nat, flags: nat) returns (st: Status, base: nat)
      requires PageSize(pageSize)
      modifies this`ranges
      ensures ranges == Exec(form, old(ranges), Take(pages, flags), pageSize)
      ensures var n := if pages == 0 then 1 else pages;
              && (st == Fault <==> forall r | r in old(ranges) :: r.used || r.pages < n)
              && (st == Fault ==> ranges == old(ranges))
              && (st != Fault ==>
                    st == Done && exists k: nat :: FirstFree(old(ranges), k, n) && base == old(ranges)[k].base)
              && (st == Done && form == Corrected ==> Range(base, n, flags, true) in ranges)
              && (st == Done && form == Corrected && Valid(old(ranges), pageSize) ==>
                    Taking(old(ranges), ranges, base, n, pageSize))
    {
      var t := if pages == 0 then 1 else pages;
      var i := 0;
      while i < |ranges| && (ranges[i].used || ranges[i].pages < t)
        invariant i <= |ranges| && FirstFit(ranges, t, 0) == FirstFit(ranges, t, i)
        invariant forall j: nat | j < i :: ranges[j].used || ranges[j].pages < t
      {
        i := i + 1;
      }
      if i == |ranges| {
        return Fault, 0;
      }
      assert FirstFree(ranges, i, t) && ranges[i] in ranges;
      if form == Corrected {
        TakesRange(ranges, i, t, flags, pageSize);
      }
      base := ranges[i].base;
      Occupy(form, i, t, flags);
      st := Done;
    }

    /** The range marked used, and cut when more pages are left than none. */
    method Occupy(form: Form, i: nat, t: nat, flags: nat)
      requires PageSize(pageSize) && i < |ranges| && ranges[i].pages >= t
      modifies this`ranges
      ensures ranges == Taken(form, old(ranges), i, t, flags, pageSize)
    {
      var r := ranges[i];
      var remain := Remain(form, r, t);
      if remain > 0 {
        var rest := RestBase(form, r, t, pageSize);
        ranges := ranges[..i] + [Range(r.base, t, flags, true), Range(rest, remain, 0, false)] + ranges[i + 1..];
      } else {
        ranges := ranges[i := r.(flags := flags, used := true)];
      }
    }

    /**
     Gives back the range with this base, all of its pages, whatever count was asked for: in the
     corrected form exactly these become free.
     */
    method Free(form: Form, base: nat) returns (st: Status, pagesFreed: nat)
      requires PageSize(pageSize)
      modifies this`ranges
      ensures ranges == Exec(form, old(ranges), Release(base), pageSize)
      ensures var k := FindBase(old(ranges), base, 0);
              if k == |old(ranges)| then st == NotExists && pagesFreed == 0
              else if !old(ranges)[k].used then st == NotInUse && pagesFreed == 0
              else st == Done && pagesFreed == old(ranges)[k].pages
      ensures st == NotExists <==> forall r | r in old(ranges) :: r.base != base
      ensures st != Done ==> ranges == old(ranges)
      ensures st == Done && form == Corrected && Valid(old(ranges), pageSize) && Pages(old(ranges)) < DWORDS ==>
                Giving(old(ranges), ranges, base, pagesFreed, pageSize)
    {
      var k := 0;
      while k < |ranges| && ranges[k].base != base
        invariant k <= |ranges| && FindBase(ranges, base, 0) == FindBase(ranges, base, k)
      {
        k := k + 1;
      }
      if k == |ranges| {
        return NotExists, 0;
      }
      if !ranges[k].used {
        return NotInUse, 0;
      }
      pagesFreed := ranges[k].pages;
      GivesRange(form, ranges, k, pageSize);
      ranges := ranges[k := ranges[k].(used := false)];
      Merge(form);
      st := Done;
    }
  }
}
