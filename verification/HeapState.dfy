/** The invariant of the kernel heap as one predicate on values, and the edits that keep it. */
module HeapState {
  import opened Forms
  import opened HeapView
  import opened HeapLinks
  import opened HeapAlign
  import opened Memcpy

  /** The bytes from the pointer of a chunk to its end. */
  function Room(c: CView): int { End(c) - UserPtr(c.addr) }

  /**
   Every chunk has room for its request behind the rounding. The header records that request;
   as written it may record anything, but all is 16-byte aligned.
   */
  ghost predicate SizesOk(form: Form, b: BView) {
    && (forall j | 0 <= j < |b.chunks| :: ChunkOk(form, b.chunks[j]))
    && (form.AsWritten? ==>
          b.addr % ALIGNMENT == 0 && forall j | 0 <= j < |b.chunks| ::
            b.chunks[j].addr % ALIGNMENT == 0 && b.chunks[j].size % ALIGNMENT == 0)
  }

  predicate ChunkOk(form: Form, c: CView) {
    EXTRA <= c.size && c.req <= Room(c) && (form.Corrected? ==> c.rec == c.req)
  }

  ghost predicate RecordsOk(form: Form, m: Bytes, b: BView) {
    forall j | 0 <= j < |b.chunks| :: m(RecordAddr(form, b.chunks[j].addr)) == Record(b.chunks[j].addr)
  }

  ghost predicate HeapOk(form: Form, bm: Blocks, cm: Chunks, m: Bytes, v: View) {
    && ViewOk(v)
    && Linked(bm, cm, v)
    && (forall i | 0 <= i < |v| :: SizesOk(form, v[i]) && RecordsOk(form, m, v[i]))
  }

  ghost predicate InView(v: View, addr: nat) { exists i: nat :: i < |v| && v[i].addr == addr }

  /** Bytes changed only inside block `bi` keep the records of the other blocks. */
  lemma OtherRecordsKeep(form: Form, m: Bytes, m': Bytes, v: View, bi: nat)
    requires ViewOk(v) && bi < |v| && forall i | 0 <= i < |v| :: SizesOk(form, v[i]) && RecordsOk(form, m, v[i])
    requires forall x: nat {:trigger m'(x)} :: x < v[bi].addr || v[bi].addr + v[bi].size <= x ==> m'(x) == m(x)
    ensures forall i | 0 <= i < |v| && i != bi :: RecordsOk(form, m', v[i])
  {
    forall i, j | 0 <= i < |v| && i != bi && 0 <= j < |v[i].chunks|
      ensures m'(RecordAddr(form, v[i].chunks[j].addr)) == Record(v[i].chunks[j].addr)
    {
      assert SizesOk(form, v[i]) && RecordsOk(form, m, v[i]) && BlockOk(v[i]);
      RecordInside(form, v[i].chunks[j]);
      assert Apart(v[i], v[bi]) by {
        if i < bi { assert Apart(v[i], v[bi]); } else { assert Apart(v[bi], v[i]); }
      }
    }
  }

  lemma InsertRecords(form: Form, m: Bytes, b: BView, gi: nat, c: CView)
    requires BlockOk(b) && SizesOk(form, b) && RecordsOk(form, m, b) && gi <= |b.chunks|
    requires GapStart(b, gi) <= c.addr && End(c) <= GapEnd(b, gi) && ChunkOk(form, c)
    requires form.AsWritten? ==> c.addr % ALIGNMENT == 0 && c.size % ALIGNMENT == 0
    ensures var m' := Put(m, RecordAddr(form, c.addr), Record(c.addr));
            SizesOk(form, Insert(b, gi, c)) && RecordsOk(form, m', Insert(b, gi, c))
  {
    var m' := Put(m, RecordAddr(form, c.addr), Record(c.addr));
    RecordInside(form, c);
    forall k | 0 <= k < |b.chunks|
      ensures m'(RecordAddr(form, b.chunks[k].addr)) == Record(b.chunks[k].addr)
    {
      RecordInside(form, b.chunks[k]);
      GapChunkApart(b, gi, c, k);
    }
    forall j | 0 <= j < |Insert(b, gi, c).chunks|
      ensures var d := Insert(b, gi, c).chunks[j];
              d == c || exists k :: 0 <= k < |b.chunks| && d == b.chunks[k]
    {
      InsertIndex(b, gi, c, j);
    }
  }

  lemma GapChunkApart(b: BView, i: nat, c: CView, k: nat)
    requires BlockOk(b) && i <= |b.chunks| && k < |b.chunks|
    requires GapStart(b, i) <= c.addr && End(c) <= GapEnd(b, i)
    ensures End(b.chunks[k]) <= c.addr || End(c) <= b.chunks[k].addr
  {
    if k + 1 < i {
      assert End(b.chunks[k]) <= b.chunks[i - 1].addr;
    } else if i < k {
      assert End(b.chunks[i]) <= b.chunks[k].addr;
    }
  }

  lemma ReplaceBlock(v: View, bi: nat, b: BView)
    requires ViewOk(v) && bi < |v| && BlockOk(b) && b.addr == v[bi].addr && b.size == v[bi].size
    ensures ViewOk(v[bi := b])
  {
    var v' := v[bi := b];
    forall i, j | 0 <= i < j < |v'|
      ensures Apart(v'[i], v'[j])
    {
      assert Apart(v[i], v[j]);
    }
  }

  /** Nothing but block `bi` is touched: its header, and memory inside it. */
  lemma BlockChangeKeeps(form: Form, bm: Blocks, bm': Blocks, cm: Chunks, cm': Chunks, m: Bytes, m': Bytes,
                         v: View, bi: nat, b': BView)
    requires HeapOk(form, bm, cm, m, v) && bi < |v| && b'.addr == v[bi].addr && b'.size == v[bi].size
    requires BlockOk(b') && ChunksLinked(cm', b') && SizesOk(form, b') && RecordsOk(form, m', b')
    requires forall x: nat {:trigger cm'(x)} :: x < b'.addr || b'.addr + b'.size <= x ==> cm'(x) == cm(x)
    requires forall x: nat {:trigger m'(x)} :: x < b'.addr || b'.addr + b'.size <= x ==> m'(x) == m(x)
    requires Refreshed(bm, bm', b')
    ensures HeapOk(form, bm', cm', m', v[bi := b'])
  {
    ReplaceBlock(v, bi, b');
    OtherBlocksKeep(cm, cm', v, bi);
    BlockUpdateKeeps(bm, bm', v, bi, b');
    OtherRecordsKeep(form, m, m', v, bi);
  }

  lemma GapInside(b: BView, i: nat)
    requires BlockOk(b) && i <= |b.chunks|
    ensures b.addr + BLOCK_HEADER <= GapStart(b, i) && GapEnd(b, i) <= b.addr + b.size
    ensures b.addr + BLOCK_HEADER <= GapEnd(b, i) && GapStart(b, i) <= b.addr + b.size
  {
  }

  lemma PlacedInBlock(form: Form, cm: Chunks, cm': Chunks, m: Bytes, b: BView, gi: nat, c: CView)
    requires BlockOk(b) && ChunksLinked(cm, b) && SizesOk(form, b) && RecordsOk(form, m, b) && gi <= |b.chunks|
    requires GapStart(b, gi) <= c.addr && End(c) <= GapEnd(b, gi) && ChunkOk(form, c)
    requires form.AsWritten? ==> c.addr % ALIGNMENT == 0 && c.size % ALIGNMENT == 0
    requires LinkedIn(cm, cm', b, gi, c)
    ensures var b' := Insert(b, gi, c);
            var m' := Put(m, RecordAddr(form, c.addr), Record(c.addr));
            && BlockOk(b') && ChunksLinked(cm', b') && SizesOk(form, b') && RecordsOk(form, m', b')
            && Used(b') == Used(b) + CHUNK_HEADER + c.size && Payload(b'.chunks) == Payload(b.chunks) + c.size
            && b.addr <= RecordAddr(form, c.addr) < b.addr + b.size
  {
    InsertOk(b, gi, c);
    LinkInKeeps(cm, cm', b, gi, c);
    InsertRecords(form, m, b, gi, c);
    RecordInside(form, c);
    PlacedOutside(cm, cm', b, gi, c);
  }

  lemma PlacedOutside(cm: Chunks, cm': Chunks, b: BView, gi: nat, c: CView)
    requires BlockOk(b) && gi <= |b.chunks| && LinkedIn(cm, cm', b, gi, c)
    requires GapStart(b, gi) <= c.addr && End(c) <= GapEnd(b, gi)
    ensures b.addr <= c.addr && End(c) <= b.addr + b.size
    ensures forall x: nat {:trigger cm'(x)} :: x < b.addr || b.addr + b.size <= x ==> cm'(x) == cm(x)
  {
    GapInside(b, gi);
  }

  /** The chunk that a request of `req` bytes becomes in gap `gi` of block `b`, where its header records `rec`. */
  function Placed(b: BView, gi: nat, req: nat, rec: nat): CView
    requires gi <= |b.chunks|
  {
    CView(GapStart(b, gi), req + EXTRA, req, rec)
  }

  function PlacedView(v: View, bi: nat, gi: nat, req: nat, rec: nat): View
    requires bi < |v| && gi <= |v[bi].chunks|
  {
    v[bi := Insert(v[bi], gi, Placed(v[bi], gi, req, rec))]
  }

  lemma PlacedOk(form: Form, b: BView, gi: nat, req: nat, rec: nat)
    requires SizesOk(form, b) && gi <= |b.chunks| && (if form.AsWritten? then req % ALIGNMENT == 0 else rec == req)
    ensures var c := Placed(b, gi, req, rec);
            ChunkOk(form, c) && (form.AsWritten? ==> c.addr % ALIGNMENT == 0 && c.size % ALIGNMENT == 0)
  {
    PtrInside(Placed(b, gi, req, rec), req);
    if form.AsWritten? {
      GapAligned(b, gi);
      SumAligned(req, EXTRA);
    }
  }

  lemma SumAligned(x: nat, y: nat)
    requires x % ALIGNMENT == 0 && y % ALIGNMENT == 0
    ensures (x + y) % ALIGNMENT == 0
  {
  }

  lemma GapAligned(b: BView, gi: nat)
    requires SizesOk(AsWritten, b) && gi <= |b.chunks|
    ensures GapStart(b, gi) % ALIGNMENT == 0
  {
    if gi == 0 {
      SumAligned(b.addr, BLOCK_HEADER);
    } else {
      var c := b.chunks[gi - 1];
      SumAligned(c.addr, CHUNK_HEADER);
      SumAligned(c.addr + CHUNK_HEADER, c.size);
    }
  }

  /** Linking a chunk into a gap, with its record and the block's header, keeps the invariant. */
  lemma Admit(form: Form, bm: Blocks, bm': Blocks, cm: Chunks, cm': Chunks, m: Bytes, v: View,
              bi: nat, gi: nat, req: nat, rec: nat)
    requires HeapOk(form, bm, cm, m, v) && bi < |v| && gi <= |v[bi].chunks|
    requires GapFits(v[bi], gi, req + EXTRA + CHUNK_HEADER)
    requires (if form.AsWritten? then req % ALIGNMENT == 0 else rec == req)
    requires LinkedIn(cm, cm', v[bi], gi, Placed(v[bi], gi, req, rec))
    requires Refreshed(bm, bm', PlacedView(v, bi, gi, req, rec)[bi])
    ensures var c := Placed(v[bi], gi, req, rec);
            var v' := PlacedView(v, bi, gi, req, rec);
            && HeapOk(form, bm', cm', Put(m, RecordAddr(form, c.addr), Record(c.addr)), v')
            && InUse(v') == InUse(v) + (req + EXTRA) && Obtained(v') == Obtained(v)
  {
    var c := Placed(v[bi], gi, req, rec);
    PlacedOk(form, v[bi], gi, req, rec);
    PlacedInBlock(form, cm, cm', m, v[bi], gi, c);
    PlacedOutside(cm, cm', v[bi], gi, c);
    BlockChangeKeeps(form, bm, bm', cm, cm', m, Put(m, RecordAddr(form, c.addr), Record(c.addr)), v, bi,
                     Insert(v[bi], gi, c));
    SumsUpdate(v, bi, Insert(v[bi], gi, c));
  }

  /** The fill that the code computes for the block. */
  lemma UsedAfterInsert(bm: Blocks, v: View, bi: nat, gi: nat, req: nat, rec: nat)
    requires ViewOk(v) && BlocksLinked(bm, v) && bi < |v| && gi <= |v[bi].chunks|
    requires GapFits(v[bi], gi, req + EXTRA + CHUNK_HEADER)
    ensures Used(PlacedView(v, bi, gi, req, rec)[bi]) == bm(v[bi].addr).used + (req + EXTRA) + CHUNK_HEADER
  {
    assert BlockOk(v[bi]) && BlockLinked(bm, v, bi);
    InsertOk(v[bi], gi, Placed(v[bi], gi, req, rec));
  }

  /** Which blocks there are does not change. */
  lemma SameBlocks(v: View, bi: nat, gi: nat, req: nat, rec: nat)
    requires bi < |v| && gi <= |v[bi].chunks|
    ensures BlockAt(PlacedView(v, bi, gi, req, rec), 0) == BlockAt(v, 0)
    ensures forall a: nat :: InView(v, a) ==> InView(PlacedView(v, bi, gi, req, rec), a)
  {
    forall a: nat | InView(v, a)
      ensures InView(PlacedView(v, bi, gi, req, rec), a)
    {
      var i: nat :| i < |v| && v[i].addr == a;
      assert PlacedView(v, bi, gi, req, rec)[i].addr == a;
    }
  }

  lemma FirstAfterInsert(v: View, bi: nat, gi: nat, req: nat, rec: nat)
    requires bi < |v| && gi <= |v[bi].chunks|
    ensures ChunkAt(PlacedView(v, bi, gi, req, rec)[bi].chunks, 0)
         == if gi == 0 then GapStart(v[bi], 0) else v[bi].chunks[0].addr
  {
  }

  lemma NoneBesides(a: View, b: BView)
    ensures InUse(a + [b]) == InUse(a) + Payload(b.chunks) && Obtained(a + [b]) == Obtained(a) + b.size
  {
    SumsConcat(a, [b]);
    assert [b][1..] == [];
  }

  /** A fresh empty block behind the others keeps the invariant. */
  lemma GrownKeeps(form: Form, bm: Blocks, bm': Blocks, cm: Chunks, m: Bytes, v: View, b: BView)
    requires HeapOk(form, bm, cm, m, v) && Appended(bm, bm', v, b) && ViewOk(v + [b]) && b.chunks == []
    requires b.addr % ALIGNMENT == 0
    ensures HeapOk(form, bm', cm, m, v + [b])
  {
    AppendKeeps(bm, bm', v, b);
  }

  lemma GrownInView(v: View, b: BView)
    ensures forall a: nat :: InView(v, a) ==> InView(v + [b], a)
    ensures InView(v + [b], b.addr)
  {
    forall a: nat | InView(v, a)
      ensures InView(v + [b], a)
    {
      var i: nat :| i < |v| && v[i].addr == a;
      assert (v + [b])[i].addr == a;
    }
    assert (v + [b])[|v|].addr == b.addr;
  }

  /** No block of the view has a gap of `need` bytes. */
  ghost predicate Exhausted(v: View, n: nat, need: nat) {
    forall i: nat | i < n && i < |v| :: NoGap(v[i], need)
  }

  /** Nowhere in the heap are `need` bytes in a row free. */
  ghost predicate NowhereFree(v: View, need: nat) {
    forall i: nat, at: nat | i < |v| :: !FreeAt(v[i], at, need)
  }

  /** That is when the search for a gap fails. */
  lemma ExhaustedIff(v: View, need: nat)
    requires ViewOk(v)
    ensures Exhausted(v, |v|, need) <==> NowhereFree(v, need)
  {
    forall i: nat | i < |v|
      ensures NoGap(v[i], need) <==> forall at: nat :: !FreeAt(v[i], at, need)
    {
      NoGapIff(v[i], need);
    }
  }

  /** The region the page supply gives for a block: in range, aligned, apart from every block. */
  ghost predicate FreshRegion(v: View, b: BView) {
    && 0 < b.addr && b.addr % ALIGNMENT == 0 && b.addr + b.size <= WORD && b.chunks == []
    && forall i | 0 <= i < |v| :: Apart(v[i], b)
  }

  // ----- When a request is answered rightly -----

  /**
   `Alloc` answers with the null pointer or a chunk that holds the request exactly when its sums
   do not wrap around, or the first wraps to 0 and the code stops, or nothing in the heap and in
   the supply is free even for the small remainder.
   */
  ghost predicate AllocRight(v: View, req: nat, supply: nat) {
    Size(req) == 0 || NoWrap(req) || (supply == 0 && Exhausted(v, |v|, AskFor(req).need))
  }

  /** An empty block of 4096 bytes. */
  function FreshHeap(): View { [BView(16, 4096, [])] }

  /** It does so for every heap and supply exactly when no sum wraps around, or the first wraps to 0. */
  lemma AllocRightIff(req: nat)
    requires req < WORD
    ensures (forall v: View, supply: nat | ViewOk(v) :: AllocRight(v, req, supply)) <==>
              NoWrap(req) || req == WORD - EXTRA
  {
    if !NoWrap(req) && req != WORD - EXTRA {
      assert ViewOk(FreshHeap()) && Size(req) != 0;
      assert GapFits(FreshHeap()[0], 0, AskFor(req).need);
      assert !NoGap(FreshHeap()[0], AskFor(req).need);
      assert !AllocRight(FreshHeap(), req, 0);
    }
  }

  lemma UnlinkedOutside(cm: Chunks, cm': Chunks, b: BView, i: nat)
    requires BlockOk(b) && i < |b.chunks| && Unlinked(cm, cm', b, i)
    ensures forall x: nat {:trigger cm'(x)} :: x < b.addr || b.addr + b.size <= x ==> cm'(x) == cm(x)
  {
  }

  lemma RemoveRecords(form: Form, m: Bytes, b: BView, i: nat)
    requires SizesOk(form, b) && RecordsOk(form, m, b) && i < |b.chunks|
    ensures SizesOk(form, Remove(b, i)) && RecordsOk(form, m, Remove(b, i))
  {
    forall j | 0 <= j < |Remove(b, i).chunks|
      ensures exists k :: 0 <= k < |b.chunks| && Remove(b, i).chunks[j] == b.chunks[k]
    {
      RemoveIndex(b, i, j);
    }
  }

  /** Taking out a chunk that is not the last of its block keeps the invariant. */
  lemma ReleaseKeeps(form: Form, bm: Blocks, bm': Blocks, cm: Chunks, cm': Chunks, m: Bytes, v: View, bi: nat, ci: nat)
    requires HeapOk(form, bm, cm, m, v) && bi < |v| && ci < |v[bi].chunks|
    requires Unlinked(cm, cm', v[bi], ci) && Refreshed(bm, bm', Remove(v[bi], ci))
    ensures var v' := v[bi := Remove(v[bi], ci)];
            && HeapOk(form, bm', cm', m, v')
            && InUse(v) == InUse(v') + v[bi].chunks[ci].size && Obtained(v') == Obtained(v)
            && (forall a: nat :: InView(v, a) ==> InView(v', a))
  {
    var b, b' := v[bi], Remove(v[bi], ci);
    RemoveOk(b, ci);
    UnlinkKeeps(cm, cm', b, ci);
    UnlinkedOutside(cm, cm', b, ci);
    RemoveRecords(form, m, b, ci);
    BlockChangeKeeps(form, bm, bm', cm, cm', m, m, v, bi, b');
    SumsUpdate(v, bi, b');
    forall a: nat | InView(v, a)
      ensures InView(v[bi := b'], a)
    {
      var i: nat :| i < |v| && v[i].addr == a;
      assert v[bi := b'][i].addr == a;
    }
  }

  lemma WithoutOk(v: View, bi: nat)
    requires ViewOk(v) && bi < |v|
    ensures ViewOk(Without(v, bi))
  {
    var v' := Without(v, bi);
    forall i: nat, j: nat | i < j < |v'|
      ensures Apart(v'[i], v'[j])
    {
      WithoutIndex(v, bi, i);
      WithoutIndex(v, bi, j);
    }
    forall i: nat | i < |v'|
      ensures BlockOk(v'[i])
    {
      WithoutIndex(v, bi, i);
    }
  }

  /** Dropping a block whose only chunk is taken out keeps the invariant. */
  lemma DropBlockKeeps(form: Form, bm: Blocks, bm': Blocks, cm: Chunks, cm': Chunks, m: Bytes, v: View, bi: nat)
    requires HeapOk(form, bm, cm, m, v) && bi < |v| && |v[bi].chunks| == 1
    requires Unlinked(cm, cm', v[bi], 0) && Dropped(bm, bm', v, bi)
    ensures var v' := Without(v, bi);
            && HeapOk(form, bm', cm', m, v')
            && InUse(v) == InUse(v') + v[bi].chunks[0].size && Obtained(v) == Obtained(v') + v[bi].size
  {
    WithoutOk(v, bi);
    DropKeeps(bm, bm', v, bi);
    UnlinkedOutside(cm, cm', v[bi], 0);
    OtherBlocksKeep(cm, cm', v, bi);
    SumsRemove(v, bi);
    assert v[bi].chunks[1..] == [];
    forall i: nat | i < |Without(v, bi)|
      ensures ChunksLinked(cm', Without(v, bi)[i]) && SizesOk(form, Without(v, bi)[i])
      ensures RecordsOk(form, m, Without(v, bi)[i])
    {
      WithoutIndex(v, bi, i);
    }
  }

  lemma WithoutInView(v: View, bi: nat, a: nat)
    requires bi < |v| && InView(v, a) && a != v[bi].addr
    ensures InView(Without(v, bi), a)
  {
    var i: nat :| i < |v| && v[i].addr == a;
    var k := if i < bi then i else i - 1;
    WithoutIndex(v, bi, k);
    assert Without(v, bi)[k].addr == a;
  }
}
