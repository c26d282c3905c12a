/** `KHeap.cpp`: the kernel heap over its linked block and chunk headers. */
module KHeap {
  import opened Forms
  import opened HeapView
  import opened HeapLinks
  import opened HeapAlign
  import opened HeapState
  import opened HeapClaims
  import opened Memcpy

  class KHeap {
    /** Memory, read as block headers, as chunk headers, and as bytes of payloads and records. */
    var blk: Blocks
    var hdr: Chunks
    const ram: Memory

    const form: Form
    const pageSize: nat
    const minPages: nat

    var root: nat
    var bestBet: nat
    var obtained: nat
    var inUsed: nat
    var warnCount: nat
    var errCount: nat
    /** How often the heap's mutex is held. */
    var lockDepth: nat

    ghost var view: View

    ghost predicate Valid()
      reads `blk, `hdr, `root, `bestBet, `obtained, `inUsed, `view, ram
    {
      Consistent(blk, ram.bytes, view, inUsed)
    }

    /** The chunk headers, and these block headers, bytes and count, spell out view `v`. */
    ghost predicate Consistent(bm: Blocks, m: Bytes, v: View, used: nat)
      reads `hdr, `root, `bestBet, `obtained
    {
      && HeapOk(form, bm, hdr, m, v)
      && root == BlockAt(v, 0)
      && (bestBet == 0 || InView(v, bestBet))
      && used == InUse(v) && obtained == Obtained(v)
      && pageSize > 0 && pageSize % ALIGNMENT == 0
    }

    /** The placed constructor: a mutex at the base, then one empty block; `headers` is what memory held before. */
    constructor (base: nat, length: nat, ram: Memory, headers: Chunks, form: Form, pageSize: nat, minPages: nat)
      requires 0 < base && base + length <= WORD && 16 + BLOCK_HEADER <= length && base % ALIGNMENT == 0
      requires pageSize > 0 && pageSize % ALIGNMENT == 0
      ensures Valid() && view == [BView(base + 16, length - 16, [])] && hdr == headers
      ensures this.ram == ram && this.form == form && this.pageSize == pageSize && this.minPages == minPages
      ensures lockDepth == 0
    {
      this.ram, this.form, this.pageSize, this.minPages := ram, form, pageSize, minPages;
      var block := base + 16;
      blk := (x: nat) => Block(0, 0, length - 16, BLOCK_HEADER, 0);
      hdr := headers;
      root, bestBet := block, 0;
      obtained, inUsed := length - 16, 0;
      warnCount, errCount, lockDepth := 0, 0, 0;
      view := [BView(base + 16, length - 16, [])];
      new;
      assert InUse(view[1..]) == 0 && Obtained(view[1..]) == 0;
    }

    /** `HEAP_ALIGN` on a chunk's payload. */
    method RoundUp(chunk: nat) returns (p: nat)
      modifies ram
      ensures p == UserPtr(chunk)
      ensures ram.bytes == Put(old(ram.bytes), RecordAddr(form, chunk), Record(chunk))
    {
      var pPtr := chunk + CHUNK_HEADER + ALIGNMENT;
      var diff := pPtr % ALIGNMENT;
      p := pPtr;
      if diff != 0 {
        diff := ALIGNMENT - diff;
        p := pPtr + diff;
      }
      var record := if form.AsWritten? then pPtr - ALIGNMENT else p - ALIGNMENT;
      ram.bytes := Put(ram.bytes, record, diff + ALIGNMENT);
    }

    /** A request as the methods below pass it on: its sums are exact, or it is within 80 bytes of 2^64. */
    predicate Asks(a: Ask) {
      (Exact(a) || !NoWrap(a.req)) && (form.AsWritten? ==> a.req % ALIGNMENT == 0)
    }

    /** What the header of a new chunk records: as written, case 2 leaves the field as it was. */
    function RecordedFor(h: Chunks, b: BView, gi: nat, req: nat): nat
      requires gi <= |b.chunks|
    {
      if b.chunks == [] && form.AsWritten? then h(GapStart(b, gi)).requested else req
    }

    /** The request was placed in block `bi` of `v`, in its first gap that is large enough. */
    ghost predicate Served(v: View, h: Chunks, m: Bytes, bi: nat, gi: nat, a: Ask, p: nat)
      reads `view, ram
    {
      && bi < |v| && gi <= |v[bi].chunks|
      && GapFits(v[bi], gi, a.need) && NoGapBefore(v[bi], gi, a.need)
      && view == PlacedView(v, bi, gi, a.req, RecordedFor(h, v[bi], gi, a.req))
      && var at := GapStart(v[bi], gi);
         p == UserPtr(at) && ram.bytes == Put(m, RecordAddr(form, at), Record(at))
    }

    /** A pointer into a gap that passed the size test: served, or else the request runs past the end of memory. */
    ghost predicate Pointed(v: View, h: Chunks, m: Bytes, bi: nat, gi: nat, a: Ask, p: nat)
      reads `view, ram
    {
      && bi < |v| && gi <= |v[bi].chunks| && GapFits(v[bi], gi, a.need) && p != 0
      && if Exact(a) then Served(v, h, m, bi, gi, a, p) else p + a.req > WORD
    }

    lemma PastTheEnd(b: BView, gi: nat, a: Ask)
      requires BlockOk(b) && gi <= |b.chunks| && Asks(a) && !Exact(a)
      ensures UserPtr(GapStart(b, gi)) + a.req > WORD
    {
      OrderedBelow(b, gi);
      GapInside(b, gi);
    }

    /** Case 2: the first chunk of an empty block. */
    method PlaceFirst(block: nat, a: Ask, ghost bi: nat) returns (p: nat)
      requires Valid() && bi < |view| && view[bi].addr == block && view[bi].chunks == []
      requires Asks(a) && GapFits(view[bi], 0, a.need)
      modifies this`blk, this`hdr, this`inUsed, this`view, ram
      ensures (Exact(a) ==> Valid()) && Pointed(old(view), old(hdr), old(ram.bytes), bi, 0, a, p)
    {
      var first := block + BLOCK_HEADER;
      ghost var hdr0 := hdr;
      var requested := if form.AsWritten? then hdr(first).requested else a.req;
      hdr := SetChunk(hdr, first, Chunk(0, 0, block, QALLOC_MAGIC, a.size, requested));
      p := Account(block, first, first, a, hdr0, bi, 0);
    }

    /** The links to chunk `chunk` are written; the counters, the block's header and the record are not. */
    ghost predicate Linking(h: Chunks, a: Ask, block: nat, chunk: nat, first: nat, bi: nat, gi: nat)
      reads `blk, `hdr, `root, `bestBet, `obtained, `inUsed, `view, ram
    {
      && HeapOk(form, blk, h, ram.bytes, view) && bi < |view| && gi <= |view[bi].chunks|
      && root == BlockAt(view, 0) && (bestBet == 0 || InView(view, bestBet))
      && inUsed == InUse(view) && obtained == Obtained(view) && pageSize > 0 && pageSize % ALIGNMENT == 0
      && GapFits(view[bi], gi, a.need) && NoGapBefore(view[bi], gi, a.need)
      && LinkedIn(h, hdr, view[bi], gi, Placed(view[bi], gi, a.req, RecordedFor(h, view[bi], gi, a.req)))
      && block == view[bi].addr && chunk == GapStart(view[bi], gi)
      && first == if gi == 0 then chunk else view[bi].chunks[0].addr
    }

    /** The counters and the pointer, the same in every case; `first` is the block's first chunk. */
    method Account(block: nat, chunk: nat, first: nat, a: Ask, ghost hdr0: Chunks, ghost bi: nat, ghost gi: nat)
      returns (p: nat)
      requires Asks(a) && bi < |view| && gi <= |view[bi].chunks| && chunk == GapStart(view[bi], gi)
      requires BlockOk(view[bi]) && GapFits(view[bi], gi, a.need)
      requires Exact(a) ==> Linking(hdr0, a, block, chunk, first, bi, gi)
      modifies this`blk, this`inUsed, this`view, ram
      ensures (Exact(a) ==> Valid()) && Pointed(old(view), hdr0, old(ram.bytes), bi, gi, a, p)
    {
      ghost var v' := PlacedView(view, bi, gi, a.req, RecordedFor(hdr0, view[bi], gi, a.req));
      var blocks := SetBlock(blk, block, blk(block).(used := blk(block).used + a.need, first := first));
      if Exact(a) {
        Accounted(hdr0, blocks, a, block, chunk, first, bi, gi);
      } else {
        PastTheEnd(view[bi], gi, a);
      }
      p := SetCounters(chunk, blocks, a.size, Exact(a), v');
    }

    method SetCounters(chunk: nat, blocks: Blocks, size: nat, ghost exact: bool, ghost v': View) returns (p: nat)
      requires exact ==> Consistent(blocks, Put(ram.bytes, RecordAddr(form, chunk), Record(chunk)), v', inUsed + size)
      modifies this`blk, this`inUsed, this`view, ram
      ensures (exact ==> Valid()) && view == v' && p == UserPtr(chunk)
      ensures ram.bytes == Put(old(ram.bytes), RecordAddr(form, chunk), Record(chunk))
    {
      blk := blocks;
      inUsed := inUsed + size;
      view := v';
      p := RoundUp(chunk);
    }

    /** What the block's header, the counters and the record are about to become fits the view with the chunk. */
    lemma Accounted(hdr0: Chunks, blocks: Blocks, a: Ask, block: nat, chunk: nat, first: nat, bi: nat, gi: nat)
      requires Exact(a) && Asks(a) && Linking(hdr0, a, block, chunk, first, bi, gi)
      requires blocks == SetBlock(blk, block, blk(block).(used := blk(block).used + a.need, first := first))
      ensures var v' := PlacedView(view, bi, gi, a.req, RecordedFor(hdr0, view[bi], gi, a.req));
              Consistent(blocks, Put(ram.bytes, RecordAddr(form, chunk), Record(chunk)), v', inUsed + a.size)
    {
      var rec := RecordedFor(hdr0, view[bi], gi, a.req);
      SameBlocks(view, bi, gi, a.req, rec);
      FirstAfterInsert(view, bi, gi, a.req, rec);
      UsedAfterInsert(blk, view, bi, gi, a.req, rec);
      Admit(form, blk, blocks, hdr0, hdr, ram.bytes, view, bi, gi, a.req, rec);
    }

    /** Case 3: in front of the block's first chunk. */
    method PlaceFront(block: nat, a: Ask, ghost bi: nat) returns (p: nat)
      requires Valid() && bi < |view| && view[bi].addr == block && view[bi].chunks != []
      requires Asks(a) && GapFits(view[bi], 0, a.need)
      modifies this`blk, this`hdr, this`inUsed, this`view, ram
      ensures (Exact(a) ==> Valid()) && Pointed(old(view), old(hdr), old(ram.bytes), bi, 0, a, p)
    {
      ghost var hdr0 := hdr;
      assert BlockLinked(blk, view, bi) && BlockOk(view[bi]);
      var was := blk(block).first;
      var first := block + BLOCK_HEADER;
      if Exact(a) { FrontLinks(hdr, view[bi], Placed(view[bi], 0, a.req, a.req)); }
      hdr := SetChunk(hdr, was, hdr(was).(prev := first));
      hdr := SetChunk(hdr, first, Chunk(0, was, block, QALLOC_MAGIC, a.size, a.req));
      p := Account(block, first, first, a, hdr0, bi, 0);
    }

    /** The links of case 4.1. */
    method LinkBack(block: nat, chunk: nat, a: Ask, ghost b: BView) returns (at: nat)
      requires BlockOk(b) && ChunksLinked(hdr, b) && b.addr == block && b.chunks != []
      requires chunk == b.chunks[|b.chunks| - 1].addr && GapFits(b, |b.chunks|, a.need)
      modifies this`hdr
      ensures at == GapStart(b, |b.chunks|)
      ensures Exact(a) ==> LinkedIn(old(hdr), hdr, b, |b.chunks|, Placed(b, |b.chunks|, a.req, a.req))
    {
      assert ChunkLinked(hdr, b, |b.chunks| - 1);
      at := chunk + CHUNK_HEADER + hdr(chunk).size;
      if Exact(a) { BackLinks(hdr, b, Placed(b, |b.chunks|, a.req, a.req)); }
      hdr := SetChunk(hdr, chunk, hdr(chunk).(next := at));
      hdr := SetChunk(hdr, at, Chunk(chunk, 0, block, QALLOC_MAGIC, a.size, a.req));
    }

    /** The links of case 4.2. */
    method LinkBetween(block: nat, chunk: nat, a: Ask, ghost b: BView, ghost gi: nat) returns (at: nat)
      requires BlockOk(b) && ChunksLinked(hdr, b) && b.addr == block && 0 < gi < |b.chunks|
      requires chunk == b.chunks[gi - 1].addr && GapFits(b, gi, a.need)
      modifies this`hdr
      ensures at == GapStart(b, gi)
      ensures Exact(a) ==> LinkedIn(old(hdr), hdr, b, gi, Placed(b, gi, a.req, a.req))
    {
      assert ChunkLinked(hdr, b, gi - 1);
      at := chunk + CHUNK_HEADER + hdr(chunk).size;
      var next := hdr(chunk).next;
      if Exact(a) { BetweenLinks(hdr, b, gi, Placed(b, gi, a.req, a.req)); }
      hdr := SetChunk(hdr, at, Chunk(chunk, next, block, QALLOC_MAGIC, a.size, a.req));
      hdr := SetChunk(hdr, next, hdr(next).(prev := at));
      hdr := SetChunk(hdr, chunk, hdr(chunk).(next := at));
    }

    /** Case 4.1: behind the block's last chunk. */
    method PlaceBack(block: nat, chunk: nat, a: Ask, ghost bi: nat) returns (p: nat)
      requires Valid() && bi < |view| && view[bi].addr == block && view[bi].chunks != []
      requires chunk == view[bi].chunks[|view[bi].chunks| - 1].addr && Asks(a)
      requires GapFits(view[bi], |view[bi].chunks|, a.need) && NoGapBefore(view[bi], |view[bi].chunks|, a.need)
      modifies this`blk, this`hdr, this`inUsed, this`view, ram
      ensures (Exact(a) ==> Valid()) && Pointed(old(view), old(hdr), old(ram.bytes), bi, |old(view)[bi].chunks|, a, p)
    {
      ghost var hdr0, gi := hdr, |view[bi].chunks|;
      assert BlockLinked(blk, view, bi) && BlockOk(view[bi]);
      var at := LinkBack(block, chunk, a, view[bi]);
      p := Account(block, at, blk(block).first, a, hdr0, bi, gi);
    }

    /** Case 4.2: behind chunk `chunk`, before the next; the gap is number `gi`. */
    method PlaceBetween(block: nat, chunk: nat, a: Ask, ghost bi: nat, ghost gi: nat) returns (p: nat)
      requires Valid() && bi < |view| && view[bi].addr == block && 0 < gi < |view[bi].chunks|
      requires chunk == view[bi].chunks[gi - 1].addr && Asks(a)
      requires GapFits(view[bi], gi, a.need) && NoGapBefore(view[bi], gi, a.need)
      modifies this`blk, this`hdr, this`inUsed, this`view, ram
      ensures (Exact(a) ==> Valid()) && Pointed(old(view), old(hdr), old(ram.bytes), bi, gi, a, p)
    {
      ghost var hdr0 := hdr;
      assert BlockLinked(blk, view, bi) && BlockOk(view[bi]);
      var first := blk(block).first;
      assert first == view[bi].chunks[0].addr;
      var at := LinkBetween(block, chunk, a, view[bi], gi);
      p := Account(block, at, first, a, hdr0, bi, gi);
    }

    /** The headers spell out block `b`. */
    ghost predicate Spelt(block: nat, b: BView)
      reads `blk, `hdr
    {
      && BlockOk(b) && ChunksLinked(hdr, b)
      && b.addr == block && blk(block).size == b.size && blk(block).first == ChunkAt(b.chunks, 0)
    }

    /** The free space behind a chunk: up to the next, or to the end of the block. */
    method SpaceBehind(block: nat, chunk: nat, ghost b: BView, ghost ci: nat) returns (diff: nat)
      requires Spelt(block, b) && ci < |b.chunks| && chunk == b.chunks[ci].addr
      ensures diff == GapEnd(b, ci + 1) - GapStart(b, ci + 1) && hdr(chunk).next == ChunkAt(b.chunks, ci + 1)
    {
      assert ChunkLinked(hdr, b, ci);
      OrderedBelow(b, ci + 1);
      if hdr(chunk).next == 0 {
        diff := block + blk(block).size - chunk - CHUNK_HEADER - hdr(chunk).size;
      } else {
        diff := hdr(chunk).next - chunk - CHUNK_HEADER - hdr(chunk).size;
      }
    }

    /** Case 4: walk the chunks up to the first with enough space behind it; 0 when there is none. */
    method FindGap(block: nat, need: nat, ghost b: BView) returns (chunk: nat, ghost ci: nat)
      requires Spelt(block, b) && b.chunks != [] && !GapFits(b, 0, need)
      ensures if chunk == 0 then NoGap(b, need)
              else
                && ci < |b.chunks| && chunk == b.chunks[ci].addr && hdr(chunk).next == ChunkAt(b.chunks, ci + 1)
                && GapFits(b, ci + 1, need) && NoGapBefore(b, ci + 1, need)
    {
      ci := 0;
      chunk := blk(block).first;
      while chunk != 0
        invariant ci <= |b.chunks| && chunk == ChunkAt(b.chunks, ci) && NoGapBefore(b, ci + 1, need)
        decreases |b.chunks| - ci
      {
        var diff := SpaceBehind(block, chunk, b, ci);
        if diff >= need { return; }
        chunk := hdr(chunk).next;
        ci := ci + 1;
      }
    }

    ghost predicate Same(bm: Blocks, cm: Chunks, used: nat, v: View, m: Bytes)
      reads `blk, `hdr, `root, `bestBet, `obtained, `inUsed, `view, ram
    {
      blk == bm && hdr == cm && inUsed == used && view == v && ram.bytes == m
    }

    /** Cases 2 to 4 on one block that has enough free space in total; 0 when no gap is large enough. */
    method TryBlock(block: nat, a: Ask, ghost bi: nat) returns (p: nat, ghost gi: nat)
      requires Valid() && bi < |view| && view[bi].addr == block && Asks(a) && Used(view[bi]) + a.need <= view[bi].size
      modifies this`blk, this`hdr, this`inUsed, this`view, ram
      ensures if p == 0 then
                Valid() && Same(old(blk), old(hdr), old(inUsed), old(view), old(ram.bytes)) && NoGap(view[bi], a.need)
              else (Exact(a) ==> Valid()) && Pointed(old(view), old(hdr), old(ram.bytes), bi, gi, a, p)
    {
      assert BlockLinked(blk, view, bi) && BlockOk(view[bi]);
      gi := 0;
      if blk(block).first == 0 {
        p := PlaceFirst(block, a, bi);
        return;
      }
      var diff := blk(block).first - block - BLOCK_HEADER;
      if diff >= a.need {
        p := PlaceFront(block, a, bi);
        return;
      }
      var chunk;
      ghost var ci;
      chunk, ci := FindGap(block, a.need, view[bi]);
      gi := ci + 1;
      if chunk == 0 {
        p := 0;
      } else if hdr(chunk).next == 0 {
        p := PlaceBack(block, chunk, a, bi);
      } else {
        p := PlaceBetween(block, chunk, a, bi, gi);
      }
    }

    /** The block that the supply would give for a chunk of `size` bytes, at address `supply`. */
    ghost function NewBlock(supply: nat, size: nat): BView
      requires pageSize > 0
    {
      BView(supply, NewBlockSize(size, pageSize, minPages), [])
    }

    /** The page count of a new block. */
    method PagesNeeded(size: nat) returns (st: nat)
      requires pageSize > 0
      ensures st == NewBlockPages(size, pageSize, minPages)
    {
      st := (size + BLOCK_HEADER + CHUNK_HEADER) % WORD;
      st := if st % pageSize == 0 then st / pageSize else st / pageSize + 1;
      if ToInt32(st) < minPages { st := minPages; }
    }

    /** `supply` is what `VirtualAlloc` answers if it is asked: 0, or a region for the new block. */
    method AllocNewPage(size: nat, supply: nat) returns (block: nat)
      requires pageSize > 0
      modifies this`blk, this`obtained, this`warnCount
      ensures block == supply
      ensures supply == 0 ==> blk == old(blk) && obtained == old(obtained)
      ensures supply != 0 ==>
        var size := NewBlockSize(size, pageSize, minPages);
        blk == SetBlock(old(blk), supply, Block(0, 0, size, BLOCK_HEADER, 0)) && obtained == old(obtained) + size
    {
      var st := PagesNeeded(size);
      if supply == 0 {
        warnCount := warnCount + 1;
        return 0;
      }
      block := supply;
      blk := SetBlock(blk, block, Block(0, 0, st * pageSize, BLOCK_HEADER, 0));
      obtained := obtained + st * pageSize;
    }

    /**
     The supply, if asked for a block for a request, has nothing, or gives memory apart from the
     heap, and the page count asked for is the one that the request needs.
     */
    ghost predicate Supplies(v: View, supply: nat, a: Ask) {
      supply != 0 ==>
        pageSize > 0 && FreshRegion(v, NewBlock(supply, a.size)) && PageCountOk(a.size, pageSize, minPages)
    }

    /** So the new block has room for the request. */
    ghost predicate Fresh(v: View, supply: nat, a: Ask) {
      supply != 0 ==>
        && pageSize > 0 && FreshRegion(v, NewBlock(supply, a.size))
        && BLOCK_HEADER + a.need <= NewBlock(supply, a.size).size
    }

    /** `block->Next = AllocNewPage(size)` behind the last block, with the link back; or the first root. */
    method Grow(last: nat, a: Ask, supply: nat) returns (block: nat)
      requires Valid() && last == BlockAt(view, |view| - 1) && Fresh(view, supply, a)
      modifies this`blk, this`obtained, this`warnCount, this`root, this`view
      ensures Valid() && block == supply
      ensures view == if supply == 0 then old(view) else old(view) + [NewBlock(supply, a.size)]
    {
      if supply != 0 { Grown(NewBlock(supply, a.size), last); }
      ghost var chained := Chained(blk, NewBlock(supply, a.size), last);
      block := AllocNewPage(a.size, supply);
      if block == 0 { return; }
      if last != 0 {
        blk := SetBlock(blk, last, blk(last).(next := block));
        blk := SetBlock(blk, block, blk(block).(prev := last));
      } else {
        root := block;
      }
      assert blk == chained;
      view := view + [NewBlock(supply, a.size)];
    }

    /** Block headers with the new block `b` behind `last`, in the order of the writes. */
    ghost function Chained(bm: Blocks, b: BView, last: nat): Blocks {
      var m1 := SetBlock(bm, b.addr, Block(0, 0, b.size, BLOCK_HEADER, 0));
      if last == 0 then m1
      else
        var m2 := SetBlock(m1, last, m1(last).(next := b.addr));
        SetBlock(m2, b.addr, m2(b.addr).(prev := last))
    }

    lemma Grown(b: BView, last: nat)
      requires Valid() && FreshRegion(view, b) && BLOCK_HEADER <= b.size && last == BlockAt(view, |view| - 1)
      ensures var v' := view + [b];
              && HeapOk(form, Chained(blk, b, last), hdr, ram.bytes, v')
              && InUse(v') == InUse(view) && Obtained(v') == Obtained(view) + b.size
              && BlockAt(v', 0) == (if last == 0 then b.addr else BlockAt(view, 0))
              && forall x: nat :: InView(view, x) ==> InView(v', x)
    {
      GrowLinks(blk, b, last);
      GrownKeeps(form, blk, Chained(blk, b, last), hdr, ram.bytes, view, b);
      GrownInView(view, b);
      NoneBesides(view, b);
    }

    lemma GrowLinks(bm: Blocks, b: BView, last: nat)
      requires ViewOk(view) && BlocksLinked(bm, view) && FreshRegion(view, b) && BLOCK_HEADER <= b.size
      requires last == BlockAt(view, |view| - 1)
      ensures ViewOk(view + [b]) && Appended(bm, Chained(bm, b, last), view, b) && (last == 0 <==> view == [])
    {
      var v' := view + [b];
      assert forall i, j | 0 <= i < j < |v'| :: Apart(v'[i], v'[j]);
      if view != [] {
        BlockAddressesDiffer(v', |view| - 1, |view|);
        assert BlockOk(view[|view| - 1]);
      }
    }

    /** The view the placement works on: with the new block if the heap grew. */
    ghost function Supplied(v: View, grew: bool, supply: nat, a: Ask): View
      requires pageSize > 0
    {
      if grew then v + [NewBlock(supply, a.size)] else v
    }

    /**
     The search stands at block `bi`. Unless it began at the best bet, every block before has
     no gap that is large enough; once the heap has grown, no old block has.
     */
    ghost predicate Searching(v: View, block: nat, bi: nat, started: bool, grew: bool, supply: nat, a: Ask)
      reads `blk, `hdr, `root, `bestBet, `obtained, `inUsed, `view, ram
    {
      && Valid() && view == Supplied(v, grew, supply, a)
      && bi < |view| && block == view[bi].addr
      && (!started ==> Exhausted(v, bi, a.need))
      && (grew ==> !started && bi == |v| && supply != 0 && Exhausted(v, |v|, a.need))
    }

    /**
     The outcome of a request. The heap grows only when no block has a contiguous gap for it,
     and then the new block takes it; it fails only when it would have to grow and cannot.
     */
    ghost predicate Answered(v: View, h: Chunks, m: Bytes, p: nat, grew: bool, bi: nat, gi: nat, supply: nat, a: Ask)
      reads `hdr, `view, ram
    {
      && pageSize > 0
      && (grew ==> supply != 0 && bi == |v|)
      && (p == 0 || grew ==> Exhausted(v, |v|, a.need))
      && (p == 0 ==> supply == 0 && !grew && view == v && hdr == h && ram.bytes == m)
      && (p != 0 ==> Pointed(Supplied(v, grew, supply, a), h, m, bi, gi, a, p))
    }

    /** The block where the search starts, after a first block was made if there was none; 0 without memory. */
    method Start(a: Ask, supply: nat) returns (block: nat, started: bool, best: nat, ghost grew: bool, ghost bi: nat)
      requires Valid() && Fresh(view, supply, a)
      modifies this`blk, this`obtained, this`warnCount, this`root, this`view
      ensures if block == 0 then Valid() && view == old(view) == [] && supply == 0 && !grew
              else Searching(old(view), block, bi, started, grew, supply, a)
    {
      ghost var v := view;
      bi, grew, started, best := 0, false, false, 0;
      BlockNonNull(0);
      if root == 0 {
        block := Grow(0, a, supply);
        if block == 0 { return; }
        grew := true;
      }
      block := root;
      if bestBet != 0 {
        ghost var bb: nat :| bb < |view| && view[bb].addr == bestBet;
        assert BlockLinked(blk, view, bb);
        UsedWithin(view[bb]);
        best := blk(bestBet).size - blk(bestBet).used;
        if best > a.need {
          block, started, bi := bestBet, true, bb;
        }
      }
    }

    /** From a block without room to the next; from the last back to the root, or to a new block. */
    method Advance(block: nat, started: bool, a: Ask, supply: nat, ghost v: View, ghost bi: nat)
      returns (next: nat, again: bool, grown: bool, ghost ni: nat)
      requires Searching(v, block, bi, started, false, supply, a) && NoGap(v[bi], a.need) && Fresh(v, supply, a)
      modifies this`blk, this`obtained, this`warnCount, this`root, this`view
      ensures if next == 0 then !grown && Valid() && view == v && supply == 0 && Exhausted(v, |v|, a.need)
              else Searching(v, next, ni, again, grown, supply, a)
      ensures next != 0 && !grown ==> (again == started && ni == bi + 1) || (started && !again)
    {
      again, grown := started, false;
      assert BlockLinked(blk, view, bi);
      BlockNonNull(bi + 1);
      if blk(block).next != 0 {
        next, ni := blk(block).next, bi + 1;
      } else if started {
        BlockNonNull(0);
        next, again, ni := root, false, 0;
      } else {
        next := Grow(block, a, supply);
        ni, grown := bi + 1, next != 0;
      }
    }

    /** The search goes on at `next` with less left to do, or has failed. */
    ghost predicate Progress(v: View, next: nat, started: bool, again: bool, grew: bool, grown: bool,
                             bi: nat, ni: nat, supply: nat, a: Ask)
      reads `blk, `hdr, `root, `bestBet, `obtained, `inUsed, `view, ram
    {
      if next == 0 then
        Valid() && view == v && supply == 0 && !grown && Exhausted(v, |v|, a.need)
      else
        && Searching(v, next, ni, again, grown, supply, a)
        && ((!grew && grown) || (grew == grown && ((again == started && ni == bi + 1) || (started && !again))))
    }

    /** One turn of the search loop: the five cases at `block`. */
    method Visit(block: nat, started: bool, best: nat, a: Ask, supply: nat, ghost v: View, ghost bi: nat,
                 ghost grew: bool)
      returns (p: nat, next: nat, again: bool, best': nat, ghost grown: bool, ghost ni: nat, ghost gi: nat)
      requires Searching(v, block, bi, started, grew, supply, a) && Fresh(v, supply, a) && Asks(a)
      modifies this`blk, this`hdr, this`obtained, this`inUsed, this`warnCount, this`root, this`bestBet, this`view, ram
      ensures p != 0 ==> (Exact(a) ==> Valid()) && Answered(v, old(hdr), old(ram.bytes), p, grown, ni, gi, supply, a)
      ensures p == 0 ==> hdr == old(hdr) && ram.bytes == old(ram.bytes) && !grew
      ensures p == 0 ==> Progress(v, next, started, again, grew, grown, bi, ni, supply, a)
    {
      var made := false;
      next, again, best', ni, grown := block, started, best, bi, grew;
      SearchedBlock(v, block, bi, started, grew, supply, a);
      var diff := blk(block).size - blk(block).used;
      if best < diff {
        bestBet, best' := block, diff;
      }
      // Case 1
      if diff < a.need {
        next, again, made, ni := Advance(block, started, a, supply, v, bi);
        p, gi, grown := 0, 0, made;
        if !made { return; }
        SearchedBlock(v, next, ni, again, grown, supply, a);
      }
      // Cases 2 to 4
      p, gi := TryBlock(next, a, ni);
      if p != 0 { return; }
      // Case 5
      next, again, made, ni := Advance(next, again, a, supply, v, ni);
      grown := made;
    }

    /** The answer is the null pointer and an unchanged heap, or a chunk with the request inside. */
    ghost predicate RightAnswer(v: View, h: Chunks, m: Bytes, p: nat, req: nat)
      reads `hdr, `view, ram
    {
      if p == 0 then view == v && hdr == h && ram.bytes == m
      else exists c: CView :: Live(view, c) && c.req == req && p == UserPtr(c.addr) && p + req <= End(c) <= WORD
    }

    /** `Alloc`; `supply` is the address the page supply would give if asked, or 0. */
    method Alloc(req: nat, supply: nat) returns (p: nat, ghost grew: bool, ghost bi: nat, ghost gi: nat)
      requires Valid() && req < WORD && (form.AsWritten? ==> req % ALIGNMENT == 0)
      requires Supplies(view, supply, AskFor(req))
      modifies this, ram
      ensures p == 0 || NoWrap(req) ==> Valid()
      ensures RightAnswer(old(view), old(hdr), old(ram.bytes), p, req) <==> AllocRight(old(view), req, supply)
      ensures Size(req) != 0 ==> Answered(old(view), old(hdr), old(ram.bytes), p, grew, bi, gi, supply, AskFor(req))
      ensures NoWrap(req) ==> (p == 0 <==> supply == 0 && NowhereFree(old(view), req + EXTRA + CHUNK_HEADER))
      ensures Size(req) == 0 ==> p == 0 && view == old(view) && hdr == old(hdr) && ram.bytes == old(ram.bytes)
      ensures Size(req) == 0 ==> warnCount == old(warnCount) + 1
      ensures lockDepth == old(lockDepth) + if Size(req) != 0 && p == 0 && old(view) == [] then 2 else 0
      ensures errCount == old(errCount)
    {
      lockDepth := lockDepth + 1;
      var noRoot;
      p, noRoot, grew, bi, gi := AllocLocked(req, supply);
      // As the source does: a second acquire where a release is meant.
      lockDepth := if noRoot then lockDepth + 1 else lockDepth - 1;
      if Size(req) != 0 { RightIff(old(view), old(hdr), old(ram.bytes), p, grew, bi, gi, supply, req); }
    }

    lemma Asked(req: nat, supply: nat)
      requires pageSize > 0 && req < WORD && (form.AsWritten? ==> req % ALIGNMENT == 0)
      requires Supplies(view, supply, AskFor(req))
      ensures Asks(AskFor(req)) && (NoWrap(req) ==> Exact(AskFor(req)) && Size(req) != 0)
      ensures Fresh(view, supply, AskFor(req))
    {
      AskedExactly(req);
      if supply != 0 { NewBlockFits(Size(req), pageSize, minPages); }
    }

    /** The body of `Alloc` between acquire and release; `noRoot`: not even a first block could be had. */
    method AllocLocked(req: nat, supply: nat)
      returns (p: nat, noRoot: bool, ghost grew: bool, ghost bi: nat, ghost gi: nat)
      requires Valid() && req < WORD && (form.AsWritten? ==> req % ALIGNMENT == 0)
      requires Supplies(view, supply, AskFor(req))
      modifies this`blk, this`hdr, this`obtained, this`inUsed, this`warnCount, this`root, this`bestBet, this`view, ram
      ensures p == 0 || NoWrap(req) ==> Valid()
      ensures Size(req) != 0 ==> Answered(old(view), old(hdr), old(ram.bytes), p, grew, bi, gi, supply, AskFor(req))
      ensures Size(req) == 0 ==> p == 0 && view == old(view) && hdr == old(hdr) && ram.bytes == old(ram.bytes)
      ensures Size(req) == 0 ==> warnCount == old(warnCount) + 1
      ensures noRoot <==> Size(req) != 0 && p == 0 && old(view) == []
      ensures NoWrap(req) ==> (p == 0 <==> supply == 0 && NowhereFree(old(view), req + EXTRA + CHUNK_HEADER))
    {
      var a := AskFor(req);
      p, noRoot, grew, bi, gi := 0, false, false, 0, 0;
      Asked(req, supply);
      if a.size == 0 {
        warnCount := warnCount + 1;
        return;
      }
      p, noRoot, grew, bi, gi := Serve(a, supply);
      if NoWrap(req) { RefusedIff(old(view), old(hdr), old(ram.bytes), p, grew, bi, gi, supply, req); }
    }

    lemma RefusedIff(v: View, h: Chunks, m: Bytes, p: nat, grew: bool, bi: nat, gi: nat, supply: nat, req: nat)
      requires ViewOk(v) && NoWrap(req) && Answered(v, h, m, p, grew, bi, gi, supply, AskFor(req))
      ensures p == 0 <==> supply == 0 && NowhereFree(v, req + EXTRA + CHUNK_HEADER)
    {
      AskedExactly(req);
      ExhaustedIff(v, AskFor(req).need);
    }

    lemma RightIff(v: View, h: Chunks, m: Bytes, p: nat, grew: bool, bi: nat, gi: nat, supply: nat, req: nat)
      requires Size(req) != 0 && Answered(v, h, m, p, grew, bi, gi, supply, AskFor(req))
      requires (p == 0 || NoWrap(req) ==> Valid())
      ensures RightAnswer(v, h, m, p, req) <==> AllocRight(v, req, supply)
    {
      var a := AskFor(req);
      AskedExactly(req);
      if p != 0 && NoWrap(req) {
        var w, rec := Supplied(v, grew, supply, a), RecordedFor(h, Supplied(v, grew, supply, a)[bi], gi, req);
        PlacedLive(w, bi, gi, req, rec);
        LiveInMemory(Placed(w[bi], gi, req, rec));
      }
    }

    lemma LiveInMemory(c: CView)
      requires Valid() && Live(view, c)
      ensures UserPtr(c.addr) + c.req <= End(c) <= WORD
    {
      var i: nat, j: nat :| IsChunk(view, i, j) && view[i].chunks[j] == c;
      assert BlockOk(view[i]) && SizesOk(form, view[i]);
    }

    /** A request for at least one byte. */
    method Serve(a: Ask, supply: nat) returns (p: nat, noRoot: bool, ghost grew: bool, ghost bi: nat, ghost gi: nat)
      requires Valid() && Asks(a) && Fresh(view, supply, a)
      modifies this`blk, this`hdr, this`obtained, this`inUsed, this`warnCount, this`root, this`bestBet, this`view, ram
      ensures (p == 0 || Exact(a) ==> Valid())
      ensures Answered(old(view), old(hdr), old(ram.bytes), p, grew, bi, gi, supply, a)
      ensures noRoot <==> p == 0 && old(view) == []
    {
      ghost var v := view;
      var block, started, best;
      block, started, best, grew, bi := Start(a, supply);
      noRoot := block == 0;
      p, gi := 0, 0;
      if block != 0 {
        p, grew, bi, gi := Search(block, started, best, a, supply, v, bi, grew);
      }
    }

    method Search(block0: nat, started0: bool, best0: nat, a: Ask, supply: nat, ghost v: View, ghost bi0: nat,
                  ghost grew0: bool)
      returns (p: nat, ghost grew: bool, ghost bi: nat, ghost gi: nat)
      requires Searching(v, block0, bi0, started0, grew0, supply, a) && block0 != 0 && Fresh(v, supply, a) && Asks(a)
      modifies this`blk, this`hdr, this`obtained, this`inUsed, this`warnCount, this`root, this`bestBet, this`view, ram
      ensures (p == 0 || Exact(a) ==> Valid()) && Answered(v, old(hdr), old(ram.bytes), p, grew, bi, gi, supply, a)
      ensures p == 0 ==> v != []
    {
      var block, started, best := block0, started0, best0;
      ghost var h, m := hdr, ram.bytes;
      p, gi, grew, bi := 0, 0, grew0, bi0;
      while block != 0
        invariant block != 0 ==> Searching(v, block, bi, started, grew, supply, a)
        invariant block == 0 ==> Valid() && Answered(v, h, m, p, grew, bi, gi, supply, a)
        invariant hdr == h && ram.bytes == m && p == 0
        invariant block == 0 ==> v != []
        decreases block != 0, !grew, started, |view| - bi
      {
        p, block, started, best, grew, bi, gi := Visit(block, started, best, a, supply, v, bi, grew);
        if p != 0 { return; }
      }
    }

    /** What the search knows about the block it stands at. */
    lemma SearchedBlock(v: View, block: nat, bi: nat, started: bool, grew: bool, supply: nat, a: Ask)
      requires Searching(v, block, bi, started, grew, supply, a) && (grew ==> Fresh(v, supply, a))
      ensures blk(block).size == view[bi].size && blk(block).used == Used(view[bi]) <= view[bi].size
      ensures view[bi].size < Used(view[bi]) + a.need ==> NoGap(view[bi], a.need) && !grew
      ensures grew ==> GapFits(view[bi], 0, a.need)
    {
      assert BlockLinked(blk, view, bi);
      UsedWithin(view[bi]);
      if view[bi].size < Used(view[bi]) + a.need {
        FullHasNoGap(view[bi], a.need);
      }
    }

    lemma BlockNonNull(i: nat)
      requires Valid()
      ensures BlockAt(view, i) == 0 <==> i >= |view|
    {
      if i < |view| {
        assert BlockOk(view[i]);
      }
    }

    // ----- Free -----

    /** Pointer `p` was handed out for chunk `ci` of block `bi`. */
    ghost predicate Holds(p: nat, bi: nat, ci: nat)
      reads `view
    {
      bi < |view| && ci < |view[bi].chunks| && p == UserPtr(view[bi].chunks[ci].addr)
    }

    /** `UNALIGN` on a held pointer finds its chunk's header. */
    lemma HeldChunk(p: nat, bi: nat, ci: nat)
      requires Valid() && Holds(p, bi, ci)
      ensures p >= ALIGNMENT + CHUNK_HEADER + 32 && Unalign(ram.bytes, p) == Raw(view[bi].chunks[ci].addr)
      ensures ChunkLinked(hdr, view[bi], ci) && BlockLinked(blk, view, bi)
      ensures BlockOk(view[bi]) && ChunksLinked(hdr, view[bi])
      ensures view[bi].chunks[ci].size <= InUse(view) && view[bi].size <= Obtained(view)
      ensures view[bi].chunks[ci].size + CHUNK_HEADER <= Used(view[bi]) <= view[bi].size
    {
      var b := view[bi];
      assert SizesOk(form, b) && RecordsOk(form, ram.bytes, b);
      UnalignInverts(form, ram.bytes, b.chunks[ci].addr);
      RemoveOk(b, ci);
      UsedWithin(b);
      PartWithinSums(view, bi);
    }

    /** Mark the chunk dead and take it out of its list. */
    method Unlink(chunk: nat, ghost b: BView, ghost ci: nat)
      requires BlockOk(b) && ChunksLinked(hdr, b) && ci < |b.chunks| && chunk == b.chunks[ci].addr
      modifies this`hdr
      ensures Unlinked(old(hdr), hdr, b, ci)
      ensures hdr(chunk) == old(hdr)(chunk).(magic := QALLOC_DEAD)
    {
      assert ChunkLinked(hdr, b, ci) && 0 < b.addr;
      if ci > 0 { ChunkAddressesDiffer(b, ci, ci - 1); }
      if ci + 1 < |b.chunks| { ChunkAddressesDiffer(b, ci, ci + 1); }
      if 0 < ci && ci + 1 < |b.chunks| { ChunkAddressesDiffer(b, ci - 1, ci + 1); }
      hdr := SetChunk(hdr, chunk, hdr(chunk).(magic := QALLOC_DEAD));
      var prev, next := hdr(chunk).prev, hdr(chunk).next;
      if next != 0 { hdr := SetChunk(hdr, next, hdr(next).(prev := prev)); }
      if prev != 0 { hdr := SetChunk(hdr, prev, hdr(prev).(next := next)); }
    }

    /** The headers of other blocks stay apart from that of block `bi`. */
    lemma NeighboursApart(v: View, bi: nat)
      requires ViewOk(v) && bi < |v|
      ensures v[bi].addr != 0
      ensures bi > 0 ==> v[0].addr != v[bi].addr && 0 < v[bi - 1].addr != v[bi].addr
      ensures bi + 1 < |v| ==> 0 < v[bi + 1].addr != v[bi].addr
      ensures 0 < bi && bi + 1 < |v| ==> v[bi - 1].addr != v[bi + 1].addr
    {
      assert BlockOk(v[bi]);
      if bi > 0 {
        assert BlockOk(v[0]) && BlockOk(v[bi - 1]);
        BlockAddressesDiffer(v, 0, bi);
        BlockAddressesDiffer(v, bi - 1, bi);
      }
      if bi + 1 < |v| {
        assert BlockOk(v[bi + 1]);
        BlockAddressesDiffer(v, bi, bi + 1);
      }
      if 0 < bi && bi + 1 < |v| {
        BlockAddressesDiffer(v, bi - 1, bi + 1);
      }
    }

    /** Link the neighbours of a block to each other. */
    method UnlinkBlock(block: nat, ghost v: View, ghost bi: nat, ghost blk0: Blocks)
      requires ViewOk(v) && bi < |v| && BlockLinked(blk0, v, bi) && v[bi].addr == block
      requires |v[bi].chunks| == 1 && Refreshed(blk0, blk, Remove(v[bi], 0))
      modifies this`blk
      ensures Dropped(blk0, blk, v, bi)
    {
      NeighboursApart(v, bi);
      var prev, next := blk(block).prev, blk(block).next;
      if prev != 0 { blk := SetBlock(blk, prev, blk(prev).(next := next)); }
      if next != 0 { blk := SetBlock(blk, next, blk(next).(prev := prev)); }
    }

    /** Take an empty block out of the list and give it back. */
    method DropBlock(block: nat, ghost v: View, ghost bi: nat, ghost blk0: Blocks)
      requires ViewOk(v) && bi < |v| && BlockLinked(blk0, v, bi) && v[bi].addr == block && root == BlockAt(v, 0)
      requires |v[bi].chunks| == 1 && Refreshed(blk0, blk, Remove(v[bi], 0))
      requires bestBet == 0 || InView(v, bestBet)
      requires v[bi].size <= obtained
      modifies this`blk, this`root, this`bestBet, this`obtained
      ensures Dropped(blk0, blk, v, bi) && root == BlockAt(Without(v, bi), 0)
      ensures bestBet == 0 || InView(Without(v, bi), bestBet)
      ensures obtained == old(obtained) - v[bi].size
    {
      NeighboursApart(v, bi);
      WithoutIndex(v, bi, 0);
      if root == block { root := blk(block).next; }
      if bestBet == block { bestBet := 0; }
      if bestBet != 0 { WithoutInView(v, bi, bestBet); }
      var size := blk(block).size;
      UnlinkBlock(block, v, bi, blk0);
      obtained := obtained - size;
    }

    /** State between the unlinking of a chunk and the rest of its release. */
    ghost predicate Releasing(v: View, blk0: Blocks, hdr0: Chunks, bi: nat, ci: nat)
      reads `blk, `hdr, `root, `bestBet, `obtained, `inUsed, `view, ram
    {
      && HeapOk(form, blk0, hdr0, ram.bytes, v) && view == v && bi < |v| && ci < |v[bi].chunks|
      && Unlinked(hdr0, hdr, v[bi], ci) && Refreshed(blk0, blk, Remove(v[bi], ci))
      && root == BlockAt(v, 0) && (bestBet == 0 || InView(v, bestBet))
      && inUsed + v[bi].chunks[ci].size == InUse(v) && obtained == Obtained(v)
      && pageSize > 0 && pageSize % ALIGNMENT == 0
    }

    method ReleaseBlock(block: nat, ghost v: View, ghost blk0: Blocks, ghost hdr0: Chunks, ghost bi: nat)
      requires Releasing(v, blk0, hdr0, bi, 0) && |v[bi].chunks| == 1 && block == v[bi].addr
      modifies this`blk, this`root, this`bestBet, this`obtained, this`view
      ensures Valid() && view == Without(v, bi)
    {
      PartWithinSums(v, bi);
      assert BlockLinked(blk0, v, bi);
      DropBlock(block, v, bi, blk0);
      DropBlockKeeps(form, blk0, blk, hdr0, hdr, ram.bytes, v, bi);
      SetView(Without(v, bi));
    }

    ghost method SetView(v: View)
      requires Consistent(blk, ram.bytes, v, inUsed)
      modifies this`view
      ensures Valid() && view == v
    {
      view := v;
    }

    method ReleaseChunk(block: nat, ghost v: View, ghost blk0: Blocks, ghost hdr0: Chunks, ghost bi: nat, ghost ci: nat)
      requires Releasing(v, blk0, hdr0, bi, ci) && |v[bi].chunks| > 1 && block == v[bi].addr
      modifies this`bestBet, this`view
      ensures Valid() && view == v[bi := Remove(v[bi], ci)]
    {
      ReleaseKeeps(form, blk0, blk, hdr0, hdr, ram.bytes, v, bi, ci);
      ghost var v' := v[bi := Remove(v[bi], ci)];
      assert v'[bi].addr == block && InView(v', block);
      ImproveBet(block);
      SetView(v');
    }

    /** The block with more room is the better bet. */
    method ImproveBet(block: nat)
      modifies this`bestBet
      ensures var was, b := old(bestBet), blk(block);
              bestBet == if was != 0 && b.size - b.used > blk(was).size - blk(was).used then block else was
    {
      if bestBet != 0 && blk(block).size - blk(block).used > blk(bestBet).size - blk(bestBet).used {
        bestBet := block;
      }
    }

    /** Unlink the chunk and bring its block's header up to date; `last`: the block is empty now. */
    method Detach(chunk: nat, ghost v: View, ghost bi: nat, ghost ci: nat) returns (block: nat, size: nat, last: bool)
      requires bi < |v| && ci < |v[bi].chunks| && chunk == v[bi].chunks[ci].addr
      requires BlockOk(v[bi]) && ChunksLinked(hdr, v[bi]) && BlockLinked(blk, v, bi)
      modifies this`blk, this`hdr
      ensures Unlinked(old(hdr), hdr, v[bi], ci) && Refreshed(old(blk), blk, Remove(v[bi], ci))
      ensures block == v[bi].addr && size == v[bi].chunks[ci].size && (last <==> |v[bi].chunks| == 1)
      ensures hdr(chunk).magic == QALLOC_DEAD
    {
      ghost var b := v[bi];
      assert ChunkLinked(hdr, b, ci);
      RemoveOk(b, ci);
      RemoveIndex(b, ci, 0);
      FirstRemains(b, ci);
      block, size := hdr(chunk).owner, hdr(chunk).size;
      var next, prev := hdr(chunk).next, hdr(chunk).prev;
      Unlink(chunk, b, ci);
      var first := if prev == 0 then next else blk(block).first;
      blk := SetBlock(blk, block, blk(block).(used := blk(block).used - (size + CHUNK_HEADER), first := first));
      last := first == 0;
    }

    /** The chunk is unlinked and no longer counted as in use. */
    method BeginRelease(chunk: nat, ghost bi: nat, ghost ci: nat) returns (block: nat, last: bool)
      requires Valid() && bi < |view| && ci < |view[bi].chunks| && chunk == view[bi].chunks[ci].addr
      modifies this`blk, this`hdr, this`inUsed
      ensures Releasing(view, old(blk), old(hdr), bi, ci) && hdr(chunk).magic == QALLOC_DEAD
      ensures block == view[bi].addr && (last <==> |view[bi].chunks| == 1)
    {
      HeldChunk(UserPtr(chunk), bi, ci);
      var size;
      block, size, last := Detach(chunk, view, bi, ci);
      inUsed := inUsed - size;
    }

    /** The block goes with its last chunk. */
    method EndRelease(block: nat, last: bool, ghost v: View, ghost blk0: Blocks, ghost hdr0: Chunks,
                      ghost bi: nat, ghost ci: nat)
      requires Releasing(v, blk0, hdr0, bi, ci) && block == v[bi].addr && (last <==> |v[bi].chunks| == 1)
      modifies this`blk, this`root, this`bestBet, this`obtained, this`view
      ensures Valid() && view == Freed(v, bi, ci)
    {
      if last {
        ReleaseBlock(block, v, blk0, hdr0, bi);
      } else {
        ReleaseChunk(block, v, blk0, hdr0, bi, ci);
      }
    }

    /** Release chunk `ci` of block `bi`. */
    method Release(chunk: nat, ghost bi: nat, ghost ci: nat)
      requires Valid() && bi < |view| && ci < |view[bi].chunks| && chunk == view[bi].chunks[ci].addr
      modifies this`blk, this`hdr, this`root, this`bestBet, this`obtained, this`inUsed, this`view
      ensures Valid() && view == Freed(old(view), bi, ci) && hdr(chunk).magic == QALLOC_DEAD
    {
      ghost var v, blk0, hdr0 := view, blk, hdr;
      var block, last := BeginRelease(chunk, bi, ci);
      EndRelease(block, last, v, blk0, hdr0, bi, ci);
    }

    /** The header found for a pointer lacks the magic number. */
    predicate Refused(p: nat)
      requires ALIGNMENT + CHUNK_HEADER + 32 <= p
      reads `hdr, ram
    {
      hdr(Unalign(ram.bytes, p) - CHUNK_HEADER).magic != QALLOC_MAGIC
    }

    /**
     `Free`. A held pointer gives back exactly its chunk, and is refused from then on; the null pointer
     and a pointer to a header without the magic number change nothing but a counter.
     */
    method Free(ptr: nat, ghost held: bool, ghost bi: nat, ghost ci: nat)
      requires Valid() && (ptr != 0 ==> ALIGNMENT + CHUNK_HEADER + 32 <= ptr)
      requires if held then Holds(ptr, bi, ci)
               else ptr == 0 || Refused(ptr)
      modifies this
      ensures Valid() && lockDepth == old(lockDepth)
      ensures (held ==> view == Freed(old(view), bi, ci)) && (!held ==> view == old(view))
      ensures warnCount == old(warnCount) + if ptr == 0 then 1 else 0
      ensures errCount == old(errCount) + if !held && ptr != 0 then 1 else 0
      ensures if held then Refused(ptr) else hdr == old(hdr)
    {
      if ptr == 0 {
        warnCount := warnCount + 1;
        return;
      }
      lockDepth := lockDepth + 1;
      FreeLocked(ptr, held, bi, ci);
      lockDepth := lockDepth - 1;
    }

    lemma HeldAccepted(p: nat, bi: nat, ci: nat)
      requires Valid() && Holds(p, bi, ci) && ALIGNMENT + CHUNK_HEADER + 32 <= p
      ensures !Refused(p) && Unalign(ram.bytes, p) - CHUNK_HEADER == view[bi].chunks[ci].addr
    {
      HeldHeader(p, bi, ci);
    }

    /** The chunk of a held pointer is released; its header is dead. */
    method ReleaseHeld(ptr: nat, ghost bi: nat, ghost ci: nat)
      requires Valid() && ALIGNMENT + CHUNK_HEADER + 32 <= ptr && Holds(ptr, bi, ci)
      modifies this`blk, this`hdr, this`root, this`bestBet, this`obtained, this`inUsed, this`view
      ensures Valid() && view == Freed(old(view), bi, ci) && Refused(ptr)
    {
      HeldAccepted(ptr, bi, ci);
      Release(Unalign(ram.bytes, ptr) - CHUNK_HEADER, bi, ci);
    }

    method FreeLocked(ptr: nat, ghost held: bool, ghost bi: nat, ghost ci: nat)
      requires Valid() && ALIGNMENT + CHUNK_HEADER + 32 <= ptr
      requires if held then Holds(ptr, bi, ci) else Refused(ptr)
      modifies this`blk, this`hdr, this`root, this`bestBet, this`obtained, this`inUsed, this`view, this`errCount
      ensures Valid() && (held ==> view == Freed(old(view), bi, ci)) && (!held ==> view == old(view))
      ensures errCount == old(errCount) + if held then 0 else 1
      ensures if held then Refused(ptr) else hdr == old(hdr)
    {
      if held { HeldAccepted(ptr, bi, ci); }
      if Refused(ptr) {
        errCount := errCount + 1;
      } else {
        ReleaseHeld(ptr, bi, ci);
      }
    }

    // ----- ReAlloc -----

    /** The bytes of every user but that of chunk `(bi, ci)` of `v` are as in `m`. */
    ghost predicate OthersKept(v: View, m: Bytes, bi: nat, ci: nat)
      reads ram
    {
      forall i: nat, j: nat, x: nat | IsChunk(v, i, j) && (i != bi || j != ci) && InUser(v[i].chunks[j], x) ::
        ram.bytes(x) == m(x)
    }

    /** What the header found for a held pointer says. */
    lemma HeldHeader(p: nat, bi: nat, ci: nat)
      requires Valid() && Holds(p, bi, ci)
      ensures var c := view[bi].chunks[ci];
              && p >= ALIGNMENT && Unalign(ram.bytes, p) - CHUNK_HEADER == c.addr
              && hdr(c.addr).magic == QALLOC_MAGIC && hdr(c.addr).requested == c.rec && ChunkOk(form, c)
    {
      assert SizesOk(form, view[bi]) && RecordsOk(form, ram.bytes, view[bi]) && ChunkLinked(hdr, view[bi], ci);
      UnalignInverts(form, ram.bytes, view[bi].chunks[ci].addr);
    }

    /** Record another request in the chunk's header: it is the chunk's request from now on, if it lies inside. */
    method Retitle(p: nat, size: nat, ghost req: nat, ghost bi: nat, ghost ci: nat)
      requires Valid() && Holds(p, bi, ci) && ChunkOk(form, view[bi].chunks[ci].(req := req, rec := size))
      modifies this`hdr, this`view
      ensures Valid() && view == Retitled(old(view), bi, ci, req, size) && Holds(p, bi, ci)
    {
      HeldHeader(p, bi, ci);
      var chunk := Unalign(ram.bytes, p) - CHUNK_HEADER;
      RetitleKeeps(form, blk, hdr, ram.bytes, view, bi, ci, req, size);
      RetitledInView(view, bi, ci, req, size);
      hdr := SetChunk(hdr, chunk, hdr(chunk).(requested := size));
      view := Retitled(view, bi, ci, req, size);
    }

    /** Memory but for the `n` bytes at `dest` is as in `m`, and the first `q` of these are those at `src`. */
    ghost predicate CopiedFirst(m: Bytes, dest: nat, src: nat, n: nat, q: nat)
      reads ram
    {
      SameBytes(ram.bytes, dest, m, src, q) && forall x: nat | x < dest || dest + n <= x :: ram.bytes(x) == m(x)
    }

    /**
     Copy `n` bytes from the area of one chunk to that of another, of which `q` are the user's:
     those behind may be anyone's, and may even be overwritten before they are read.
     */
    method CopyUser(dest: nat, src: nat, n: nat, ghost q: nat, ghost di: nat, ghost dj: nat, ghost si: nat,
                    ghost sj: nat)
      requires Valid() && Holds(dest, di, dj) && Holds(src, si, sj) && (di != si || dj != sj)
      requires n <= view[di].chunks[dj].req && q <= n && q <= view[si].chunks[sj].req
      modifies ram
      ensures Valid() && CopiedFirst(old(ram.bytes), dest, src, n, q)
    {
      ghost var m := ram.bytes;
      UserAreas(view, di, dj, si, sj);
      ram.Memcpy(dest, src, n);
      FirstBytes(m, dest, src, n, q);
      UserWriteKeeps(form, blk, hdr, m, ram.bytes, view, di, dj);
    }

    lemma UserAreas(v: View, di: nat, dj: nat, si: nat, sj: nat)
      requires HeapOk(form, blk, hdr, ram.bytes, v) && IsChunk(v, di, dj)
      requires IsChunk(v, si, sj) && (di != si || dj != sj)
      ensures var (d, s) := (v[di].chunks[dj], v[si].chunks[sj]);
              UserPtr(s.addr) + s.req <= UserPtr(d.addr) || UserPtr(d.addr) + d.req <= UserPtr(s.addr)
    {
      assert SizesOk(form, v[di]) && SizesOk(form, v[si]);
      PtrInside(v[di].chunks[dj], 0);
      PtrInside(v[si].chunks[sj], 0);
      ChunksApart(v, di, dj, si, sj);
    }

    lemma FirstBytes(m: Bytes, dest: nat, src: nat, n: nat, q: nat)
      requires ram.bytes == MemcpyOf(m, dest, src, n) && q <= n && (src + q <= dest || dest + n <= src)
      ensures CopiedFirst(m, dest, src, n, q)
    {
      MemcpyOutside(m, dest, src, n);
      forall x: nat | dest <= x < dest + q
        ensures ram.bytes(x) == m(src + x - dest)
      {
        StridesByte(m, dest, src, n, x - dest);
      }
    }

    /** All chunks of `v` but `(bi, ci)` are still in the heap. */
    ghost predicate OthersLive(v: View, bi: nat, ci: nat)
      reads `view
    {
      forall i: nat, j: nat | IsChunk(v, i, j) && (i != bi || j != ci) :: Live(view, v[i].chunks[j])
    }

    /** The heap is sound, and nothing of what other users have has changed. */
    ghost predicate Spared(v: View, m: Bytes, bi: nat, ci: nat)
      reads `blk, `hdr, `root, `bestBet, `obtained, `inUsed, `view, ram
    {
      Valid() && IsChunk(v, bi, ci) && OthersKept(v, m, bi, ci) && OthersLive(v, bi, ci)
    }

    /**
     Request `(bi, ci)` of `v` at `p` has become the live request `c` at `ptr`: what was asked for
     before is there as far as it fits, and every other user keeps its chunk and its bytes.
     */
    ghost predicate Reallocated(v: View, m: Bytes, p: nat, ptr: nat, size: nat, c: CView, bi: nat, ci: nat)
      reads `blk, `hdr, `root, `bestBet, `obtained, `inUsed, `view, ram
    {
      && Spared(v, m, bi, ci) && Live(view, c) && ptr == UserPtr(c.addr) && c.req == size
      && SameBytes(ram.bytes, ptr, m, p, Lesser(v[bi].chunks[ci].req, size))
    }

    /**
     What a move does: `c` is a live chunk for `size` bytes in other memory; the recorded bytes
     were copied, and those behind are what this memory held before. The old chunk is given back.
     */
    ghost predicate MovedTo(v: View, m: Bytes, p: nat, ptr: nat, size: nat, c: CView, bi: nat, ci: nat)
      reads `blk, `hdr, `root, `bestBet, `obtained, `inUsed, `view, ram
    {
      && Spared(v, m, bi, ci) && Live(view, c) && ptr == UserPtr(c.addr) && c.req == size
      && var was := v[bi].chunks[ci];
         && (End(c) <= was.addr || End(was) <= c.addr)
         && InUse(view) + was.size == InUse(v) + c.size && ALIGNMENT + CHUNK_HEADER + 32 <= p && Refused(p)
         && SameBytes(ram.bytes, ptr, m, p, Lesser(was.req, was.rec))
         && forall x: nat | ptr + was.rec <= x < ptr + size :: ram.bytes(x) == m(x)
    }

    method AllocAndCopy(p: nat, size: nat, supply: nat, recorded: nat, ghost bi: nat, ghost ci: nat)
      returns (ptr: nat, ghost v1: View, ghost pb: nat, ghost gi: nat, ghost rec: nat)
      requires Valid() && size < WORD && (form.AsWritten? ==> size % ALIGNMENT == 0)
      requires Supplies(view, supply, AskFor(size)) && AllocRight(view, size, supply)
      requires Holds(p, bi, ci) && recorded == view[bi].chunks[ci].rec < size
      modifies this, ram
      ensures ptr == 0 ==> Unserved(old(view), size, supply)
      ensures ptr != 0 ==> Valid() && PlacedFor(old(view), v1, ptr, size, pb, gi, rec)
      ensures ptr != 0 ==> OthersKept(old(view), old(ram.bytes), bi, ci)
      ensures ptr != 0 ==> SameBytes(ram.bytes, ptr, old(ram.bytes), p, Lesser(old(view)[bi].chunks[ci].req, recorded))
      ensures ptr != 0 ==> forall x: nat | ptr + recorded <= x < ptr + size :: ram.bytes(x) == old(ram.bytes)(x)
      ensures lockDepth == old(lockDepth) && errCount == old(errCount)
    {
      ghost var v, m := view, ram.bytes;
      ptr, v1, pb, gi, rec := AllocFor(size, supply);
      if ptr != 0 {
        CopyPlaced(p, ptr, recorded, size, v, v1, m, bi, ci, pb, gi, rec);
      }
    }

    /** `Alloc` where it is right. */
    method AllocFor(size: nat, supply: nat)
      returns (ptr: nat, ghost v1: View, ghost pb: nat, ghost gi: nat, ghost rec: nat)
      requires Valid() && size < WORD && (form.AsWritten? ==> size % ALIGNMENT == 0)
      requires Supplies(view, supply, AskFor(size)) && AllocRight(view, size, supply)
      modifies this, ram
      ensures ptr == 0 ==> Unserved(old(view), size, supply)
      ensures ptr != 0 ==> Valid() && PlacedFor(old(view), v1, ptr, size, pb, gi, rec)
      ensures ptr != 0 ==> RecordedAt(old(ram.bytes), v1, size, pb, gi, rec)
      ensures old(view) != [] ==> lockDepth == old(lockDepth)
      ensures errCount == old(errCount)
    {
      ghost var v, m, h := view, ram.bytes, hdr;
      ghost var grew;
      ptr, grew, pb, gi := Alloc(size, supply);
      v1, rec := v, 0;
      if ptr != 0 {
        v1, rec := AnsweredPlaced(v, h, m, ptr, grew, pb, gi, supply, size);
      }
    }

    /** A request that was served has its chunk in the heap. */
    lemma AnsweredPlaced(v: View, h: Chunks, m: Bytes, ptr: nat, grew: bool, pb: nat, gi: nat, supply: nat, size: nat)
      returns (v1: View, rec: nat)
      requires Answered(v, h, m, ptr, grew, pb, gi, supply, AskFor(size)) && ptr != 0
      requires RightAnswer(v, h, m, ptr, size) && Size(size) != 0 && AllocRight(v, size, supply)
      ensures PlacedFor(v, v1, ptr, size, pb, gi, rec) && RecordedAt(m, v1, size, pb, gi, rec)
    {
      AskedExactly(size);
      v1 := Supplied(v, grew, supply, AskFor(size));
      if grew { NoneBesides(v, NewBlock(supply, AskFor(size).size)); }
      rec := RecordedFor(h, v1[pb], gi, size);
    }

    /** Memory is `m` with the alignment record of the new chunk. */
    ghost predicate RecordedAt(m: Bytes, v1: View, size: nat, pb: nat, gi: nat, rec: nat)
      requires pb < |v1| && gi <= |v1[pb].chunks|
      reads ram
    {
      var at := Placed(v1[pb], gi, size, rec).addr;
      ram.bytes == Put(m, RecordAddr(form, at), Record(at))
    }

    /** The copy of the move, into the chunk just placed. */
    method CopyPlaced(p: nat, ptr: nat, recorded: nat, size: nat, ghost v: View, ghost v1: View, ghost m: Bytes,
                      ghost bi: nat, ghost ci: nat, ghost pb: nat, ghost gi: nat, ghost rec: nat)
      requires Valid() && IsChunk(v, bi, ci) && p == UserPtr(v[bi].chunks[ci].addr) && recorded < size
      requires PlacedFor(v, v1, ptr, size, pb, gi, rec) && RecordedAt(m, v1, size, pb, gi, rec)
      modifies ram
      ensures Valid() && OthersKept(v, m, bi, ci)
      ensures SameBytes(ram.bytes, ptr, m, p, Lesser(v[bi].chunks[ci].req, recorded))
      ensures forall x: nat | ptr + recorded <= x < ptr + size :: ram.bytes(x) == m(x)
    {
      assert v1[bi] == v[bi];
      MovedChunk(v1, bi, ci, pb, gi, size, rec);
      ghost var m2, q := ram.bytes, Lesser(v[bi].chunks[ci].req, recorded);
      CopyUser(ptr, p, recorded, q, pb, gi, bi, Moved(bi, ci, pb, gi));
      OtherUsersKept(v, v1, m, m2, p, ptr, recorded, q, size, bi, ci, pb, gi, rec);
      BytesBrought(v, v1, m, m2, p, ptr, recorded, q, size, bi, ci, pb, gi, rec);
      RestUnwritten(v, v1, m, m2, p, ptr, recorded, q, size, bi, ci, pb, gi, rec);
    }

    /** `Alloc` fails: nothing asked for, by the code's sum, or nothing to be had. */
    ghost predicate Unserved(v: View, size: nat, supply: nat) {
      Size(size) == 0 || (supply == 0 && Exhausted(v, |v|, AskFor(size).need))
    }

    /** The heap is `v`, possibly with a new block, and with a chunk for `size` bytes at `ptr`. */
    ghost predicate PlacedFor(v: View, v1: View, ptr: nat, size: nat, pb: nat, gi: nat, rec: nat)
      reads `view
    {
      && |v| <= |v1| && v1[..|v|] == v && InUse(v1) == InUse(v) && pb < |v1| && gi <= |v1[pb].chunks|
      && view == PlacedView(v1, pb, gi, size, rec) && ptr == UserPtr(Placed(v1[pb], gi, size, rec).addr)
    }

    /** The larger copy of a request: allocate, copy the recorded bytes, free. `fault`: a copy to the null pointer. */
    method MoveUser(p: nat, size: nat, supply: nat, recorded: nat, ghost bi: nat, ghost ci: nat)
      returns (ptr: nat, fault: bool, ghost c: CView)
      requires Valid() && size < WORD && (form.AsWritten? ==> size % ALIGNMENT == 0)
      requires Supplies(view, supply, AskFor(size)) && AllocRight(view, size, supply)
      requires Holds(p, bi, ci) && recorded == view[bi].chunks[ci].rec < size
      modifies this, ram
      ensures fault <==> ptr == 0
      ensures fault ==> Unserved(old(view), size, supply)
      ensures !fault ==> MovedTo(old(view), old(ram.bytes), p, ptr, size, c, bi, ci)
      ensures lockDepth == old(lockDepth) && errCount == old(errCount)
    {
      ghost var v, m := view, ram.bytes;
      ghost var v1, pb, gi, rec;
      ptr, v1, pb, gi, rec := AllocAndCopy(p, size, supply, recorded, bi, ci);
      fault := ptr == 0;
      c := CView(0, 0, 0, 0);
      if fault { return; }
      c := Placed(v1[pb], gi, size, rec);
      FreeOld(p, ptr, size, v, m, v1, bi, ci, pb, gi, rec);
    }

    /** The last step of the move: the old chunk goes, everything else stays. */
    method FreeOld(p: nat, ptr: nat, size: nat, ghost v: View, ghost m: Bytes, ghost v1: View,
                   ghost bi: nat, ghost ci: nat, ghost pb: nat, ghost gi: nat, ghost rec: nat)
      requires Valid() && IsChunk(v, bi, ci) && p == UserPtr(v[bi].chunks[ci].addr)
      requires PlacedFor(v, v1, ptr, size, pb, gi, rec) && OthersKept(v, m, bi, ci)
      modifies this
      ensures lockDepth == old(lockDepth) && errCount == old(errCount)
      ensures Spared(v, m, bi, ci)
      ensures var (c, was) := (Placed(v1[pb], gi, size, rec), v[bi].chunks[ci]);
              && Live(view, c) && (End(c) <= was.addr || End(was) <= c.addr)
              && InUse(view) + was.size == InUse(v) + c.size && ALIGNMENT + CHUNK_HEADER + 32 <= p && Refused(p)
    {
      ghost var ci' := Moved(bi, ci, pb, gi);
      MoveKeepsLive(v, v1, view, bi, ci, pb, gi, size, rec);
      ChunksApart(view, bi, ci', pb, gi);
      FreedKeepsOthers(view, bi, ci', pb, gi);
      HeldChunk(p, bi, ci');
      FreedInUse(view, bi, ci');
      PlacedInUse(v1, pb, gi, size, rec);
      Free(p, true, bi, ci');
    }

    /** A chunk was placed, its record written, and then the first bytes of an old chunk copied to it. */
    ghost predicate Copying(v: View, v1: View, m: Bytes, m2: Bytes, p: nat, ptr: nat, n: nat, q: nat, size: nat,
                            bi: nat, ci: nat, pb: nat, gi: nat, rec: nat)
      reads `blk, `hdr, `root, `bestBet, `obtained, `inUsed, `view, ram
    {
      && Valid() && IsChunk(v, bi, ci) && PlacedFor(v, v1, ptr, size, pb, gi, rec)
      && p == UserPtr(v[bi].chunks[ci].addr) && q == Lesser(v[bi].chunks[ci].req, n) && n < size
      && m2 == Put(m, RecordAddr(form, Placed(v1[pb], gi, size, rec).addr), Record(Placed(v1[pb], gi, size, rec).addr))
      && CopiedFirst(m2, ptr, p, n, q)
    }

    /** The placement changes no byte of a user, and gives a new user none of them. */
    lemma PlacementKeeps(v: View, v1: View, m: Bytes, m2: Bytes, p: nat, ptr: nat, n: nat, q: nat, size: nat,
                         bi: nat, ci: nat, pb: nat, gi: nat, rec: nat,
                         i: nat, j: nat, x: nat)
      requires Copying(v, v1, m, m2, p, ptr, n, q, size, bi, ci, pb, gi, rec)
      requires IsChunk(v, i, j) && InUser(v[i].chunks[j], x)
      ensures m2(x) == m(x) && (x < ptr || ptr + size <= x)
    {
      assert v1[i] == v[i];
      PlacementSpares(form, blk, hdr, ram.bytes, v1, pb, gi, size, rec, i, j, x);
      assert !InUser(Placed(v1[pb], gi, size, rec), x);
    }

    lemma OtherUsersKept(v: View, v1: View, m: Bytes, m2: Bytes, p: nat, ptr: nat, n: nat, q: nat, size: nat,
                         bi: nat, ci: nat, pb: nat, gi: nat, rec: nat)
      requires Copying(v, v1, m, m2, p, ptr, n, q, size, bi, ci, pb, gi, rec)
      ensures OthersKept(v, m, bi, ci)
    {
      forall i: nat, j: nat, x: nat | IsChunk(v, i, j) && (i != bi || j != ci) && InUser(v[i].chunks[j], x)
        ensures ram.bytes(x) == m(x)
      {
        PlacementKeeps(v, v1, m, m2, p, ptr, n, q, size, bi, ci, pb, gi, rec, i, j, x);
        assert ram.bytes(x) == m2(x);
      }
    }

    /** The record of the new chunk is not among the bytes to be copied. */
    lemma RecordApart(v: View, v1: View, m: Bytes, m2: Bytes, p: nat, ptr: nat, n: nat, q: nat, size: nat,
                      bi: nat, ci: nat, pb: nat, gi: nat, rec: nat)
      requires Copying(v, v1, m, m2, p, ptr, n, q, size, bi, ci, pb, gi, rec)
      ensures var at := RecordAddr(form, Placed(v1[pb], gi, size, rec).addr); at < p || p + q <= at
    {
      var at := RecordAddr(form, Placed(v1[pb], gi, size, rec).addr);
      if p <= at < p + q {
        assert v1[bi] == v[bi] && InUser(v[bi].chunks[ci], at);
        PlacementSpares(form, blk, hdr, ram.bytes, v1, pb, gi, size, rec, bi, ci, at);
      }
    }

    lemma SameBefore(m: Bytes, m2: Bytes, at: nat, b: Byte, p: nat, ptr: nat, q: nat)
      requires m2 == Put(m, at, b) && (at < p || p + q <= at) && SameBytes(ram.bytes, ptr, m2, p, q)
      ensures SameBytes(ram.bytes, ptr, m, p, q)
    {
    }

    lemma BytesBrought(v: View, v1: View, m: Bytes, m2: Bytes, p: nat, ptr: nat, n: nat, q: nat, size: nat,
                       bi: nat, ci: nat, pb: nat, gi: nat, rec: nat)
      requires Copying(v, v1, m, m2, p, ptr, n, q, size, bi, ci, pb, gi, rec)
      ensures SameBytes(ram.bytes, ptr, m, p, q)
    {
      RecordApart(v, v1, m, m2, p, ptr, n, q, size, bi, ci, pb, gi, rec);
      var at := Placed(v1[pb], gi, size, rec).addr;
      SameBefore(m, m2, RecordAddr(form, at), Record(at), p, ptr, q);
    }

    /** Behind the bytes that were copied, the new chunk holds what was there before. */
    lemma RestUnwritten(v: View, v1: View, m: Bytes, m2: Bytes, p: nat, ptr: nat, n: nat, q: nat, size: nat,
                        bi: nat, ci: nat, pb: nat, gi: nat, rec: nat)
      requires Copying(v, v1, m, m2, p, ptr, n, q, size, bi, ci, pb, gi, rec)
      ensures forall x: nat | ptr + n <= x < ptr + size :: ram.bytes(x) == m(x)
    {
      PtrInside(Placed(v1[pb], gi, size, rec), size);
      RecordInside(form, Placed(v1[pb], gi, size, rec));
    }

    lemma MoveKeepsLive(v: View, v1: View, v2: View, bi: nat, ci: nat, pb: nat, gi: nat, size: nat, rec: nat)
      requires IsChunk(v, bi, ci) && |v| <= |v1| && v1[..|v|] == v
      requires pb < |v1| && gi <= |v1[pb].chunks| && v2 == PlacedView(v1, pb, gi, size, rec)
      ensures IsChunk(v2, bi, Moved(bi, ci, pb, gi)) && v2[bi].chunks[Moved(bi, ci, pb, gi)] == v[bi].chunks[ci]
      ensures IsChunk(v2, pb, gi) && v2[pb].chunks[gi] == Placed(v1[pb], gi, size, rec)
      ensures bi != pb || Moved(bi, ci, pb, gi) != gi
      ensures forall i: nat, j: nat | IsChunk(v, i, j) && (i != bi || j != ci) ::
        Live(Freed(v2, bi, Moved(bi, ci, pb, gi)), v[i].chunks[j])
    {
      assert v1[bi] == v[bi];
      MovedChunk(v1, bi, ci, pb, gi, size, rec);
      forall i: nat, j: nat | IsChunk(v, i, j) && (i != bi || j != ci)
        ensures Live(Freed(v2, bi, Moved(bi, ci, pb, gi)), v[i].chunks[j])
      {
        assert v1[i] == v[i];
        MovedChunk(v1, i, j, pb, gi, size, rec);
        FreedKeepsOthers(v2, bi, Moved(bi, ci, pb, gi), i, Moved(i, j, pb, gi));
      }
    }

    /** The header records at least `size`: the chunk stays, and the header records `size`. */
    method Stay(p: nat, size: nat, ghost bi: nat, ghost ci: nat) returns (ghost c: CView)
      requires Valid() && Holds(p, bi, ci) && size <= view[bi].chunks[ci].rec && lockDepth > 0
      modifies this`hdr, this`view, this`lockDepth
      ensures lockDepth == old(lockDepth) - 1
      ensures Spared(old(view), ram.bytes, bi, ci)
      ensures Live(view, c) && c.addr == old(view)[bi].chunks[ci].addr && c.rec == size
      ensures size <= Room(old(view)[bi].chunks[ci]) ==> Reallocated(old(view), ram.bytes, p, p, size, c, bi, ci)
    {
      ghost var v, was := view, view[bi].chunks[ci];
      lockDepth := lockDepth - 1;
      HeldHeader(p, bi, ci);
      ghost var req := if size <= Room(was) then size else was.req;
      Retitle(p, size, req, bi, ci);
      RetitledLive(v, bi, ci, req, size);
      c := view[bi].chunks[ci];
    }

    /** `ReAlloc` of a held pointer to a positive size, once its header was found; the mutex is released on the way. */
    method Resize(p: nat, size: nat, supply: nat, ghost bi: nat, ghost ci: nat)
      returns (ptr: nat, fault: bool, ghost c: CView)
      requires Valid() && 0 < size < WORD && Holds(p, bi, ci) && Movable(view, view[bi].chunks[ci].rec, size, supply)
      requires lockDepth > 0
      modifies this, ram
      ensures lockDepth == old(lockDepth) - 1 && errCount == old(errCount)
      ensures fault <==> ptr == 0
      ensures fault ==> old(view)[bi].chunks[ci].rec < size && Unserved(old(view), size, supply)
      ensures !fault ==> Resized(old(view), old(ram.bytes), p, ptr, size, c, bi, ci)
    {
      ghost var v, m := view, ram.bytes;
      HeldHeader(p, bi, ci);
      var chunk := Unalign(ram.bytes, p) - CHUNK_HEADER;
      var recorded := hdr(chunk).requested;
      if recorded >= size {
        ptr, fault := p, false;
        c := Stay(p, size, bi, ci);
        StayResized(v, m, p, size, c, bi, ci);
      } else {
        lockDepth := lockDepth - 1;
        ptr, fault, c := MoveUser(p, size, supply, recorded, bi, ci);
        if !fault { MoveResized(v, m, p, ptr, size, c, bi, ci); }
      }
    }

    lemma StayResized(v: View, m: Bytes, p: nat, size: nat, c: CView, bi: nat, ci: nat)
      requires Spared(v, m, bi, ci) && size <= v[bi].chunks[ci].rec && ram.bytes == m
      requires ChunkOk(form, v[bi].chunks[ci]) && p == UserPtr(v[bi].chunks[ci].addr)
      requires Live(view, c) && c.addr == v[bi].chunks[ci].addr && c.rec == size
      requires size <= Room(v[bi].chunks[ci]) ==> Reallocated(v, m, p, p, size, c, bi, ci)
      ensures Resized(v, m, p, p, size, c, bi, ci)
    {
    }

    lemma MoveResized(v: View, m: Bytes, p: nat, ptr: nat, size: nat, c: CView, bi: nat, ci: nat)
      requires MovedTo(v, m, p, ptr, size, c, bi, ci) && v[bi].chunks[ci].rec < size
      requires ChunkOk(form, v[bi].chunks[ci])
      ensures Resized(v, m, p, ptr, size, c, bi, ci)
    {
    }

    /** Where the chunk has to move, what `Alloc` asks of the request and of the supply. */
    ghost predicate Movable(v: View, recorded: nat, size: nat, supply: nat) {
      recorded < size ==>
        (form.AsWritten? ==> size % ALIGNMENT == 0) && Supplies(v, supply, AskFor(size)) && AllocRight(v, size, supply)
    }

    /**
     The outcome of `ReAlloc` for whatever the header recorded. If that is right for the size, and
     so always in the corrected form, the request is reallocated. If not, either the pointer stays,
     its header records the size, and its request runs past the chunk's end, or what was not
     recorded is not brought over. Other users are spared in every case.
     */
    ghost predicate Resized(v: View, m: Bytes, p: nat, ptr: nat, size: nat, c: CView, bi: nat, ci: nat)
      reads `blk, `hdr, `root, `bestBet, `obtained, `inUsed, `view, ram
    {
      && Spared(v, m, bi, ci)
      && var was := v[bi].chunks[ci];
         && (form.Corrected? || ResizeRight(was.rec, was.req, size, Room(was)) ==>
               Reallocated(v, m, p, ptr, size, c, bi, ci))
         && (was.rec >= size ==> ptr == p && ram.bytes == m && Live(view, c) && c.addr == was.addr && c.rec == size)
         && (!ResizeRight(was.rec, was.req, size, Room(was)) && was.rec >= size ==> ptr + size > End(was))
         && (was.rec < size ==> MovedTo(v, m, p, ptr, size, c, bi, ci))
    }

    /**
     `ReAlloc`. Of a held pointer to a positive size: the bytes asked for before, as far as they
     fit, are at the returned address, and every other user keeps its chunk and its bytes; where
     `Alloc` fails the code copies to the null pointer, and that is a page fault. Size 0 frees,
     the null pointer allocates, and a header without the magic number is refused.
     */
    method ReAlloc(p: nat, size: nat, supply: nat, ghost held: bool, ghost bi: nat, ghost ci: nat)
      returns (ptr: nat, fault: bool, ghost c: CView, ghost grew: bool, ghost pb: nat, ghost gi: nat)
      requires Valid() && size < WORD && (p != 0 ==> ALIGNMENT + CHUNK_HEADER + 32 <= p)
      requires if held then p != 0 && Holds(p, bi, ci) && Movable(view, view[bi].chunks[ci].rec, size, supply)
               else p == 0 || Refused(p)
      requires p == 0 ==> (form.AsWritten? ==> size % ALIGNMENT == 0) && Supplies(view, supply, AskFor(size))
      modifies this, ram
      ensures fault ==> held && size > 0 && ptr == 0 && old(view)[bi].chunks[ci].rec < size
      ensures fault ==> Unserved(old(view), size, supply)
      ensures held && size > 0 && !fault ==> Resized(old(view), old(ram.bytes), p, ptr, size, c, bi, ci)
      ensures size == 0 ==> ptr == 0 && Valid() && view == if held then Freed(old(view), bi, ci) else old(view)
      ensures size == 0 && held ==> Refused(p)
      ensures size > 0 && p == 0 && (ptr == 0 || NoWrap(size)) ==> Valid()
      ensures size > 0 && p == 0 ==>
                (RightAnswer(old(view), old(hdr), old(ram.bytes), ptr, size) <==> AllocRight(old(view), size, supply))
      ensures size > 0 && p == 0 && Size(size) != 0 ==>
                Answered(old(view), old(hdr), old(ram.bytes), ptr, grew, pb, gi, supply, AskFor(size))
      ensures size > 0 && p != 0 && !held ==> ptr == 0 && Valid() && view == old(view)
      ensures errCount == old(errCount) + if p != 0 && !held then 1 else 0
      ensures var noRoot := size > 0 && p == 0 && Size(size) != 0 && ptr == 0 && old(view) == [];
              lockDepth == old(lockDepth) + if noRoot then 2 else 0
    {
      ptr, fault, c, grew, pb, gi := 0, false, CView(0, 0, 0, 0), false, 0, 0;
      if size == 0 {
        Free(p, held, bi, ci);
      } else if p == 0 {
        ptr, grew, pb, gi := Alloc(size, supply);
      } else {
        ptr, fault, c := ReAllocChunk(p, size, supply, held, bi, ci);
      }
    }

    /** `ReAlloc` of a pointer to a positive size. */
    method ReAllocChunk(p: nat, size: nat, supply: nat, ghost held: bool, ghost bi: nat, ghost ci: nat)
      returns (ptr: nat, fault: bool, ghost c: CView)
      requires Valid() && 0 < size < WORD && ALIGNMENT + CHUNK_HEADER + 32 <= p
      requires if held then Holds(p, bi, ci) && Movable(view, view[bi].chunks[ci].rec, size, supply)
               else Refused(p)
      modifies this, ram
      ensures fault ==> held && ptr == 0 && old(view)[bi].chunks[ci].rec < size && Unserved(old(view), size, supply)
      ensures held && !fault ==> Resized(old(view), old(ram.bytes), p, ptr, size, c, bi, ci)
      ensures !held ==> ptr == 0 && Valid() && view == old(view)
      ensures lockDepth == old(lockDepth) && errCount == old(errCount) + if held then 0 else 1
    {
      lockDepth := lockDepth + 1;
      if held { HeldAccepted(p, bi, ci); }
      if Refused(p) {
        errCount := errCount + 1;
        lockDepth := lockDepth - 1;
        ptr, fault, c := 0, false, CView(0, 0, 0, 0);
      } else {
        ptr, fault, c := Resize(p, size, supply, bi, ci);
      }
    }
  }

  /** A heap of 0x1000 bytes with a chunk for 16, of which its header, where memory was zero, records nothing. */
  function SixteenBytes(): View { [BView(0x1010, 0xff0, [CView(0x1040, 48, 16, 0)])] }

  lemma OnlyChunk(v: View)
    requires v == [BView(0x1010, 0xff0, [])]
    ensures !Exhausted(v, |v|, AskFor(16).need) && PlacedView(v, 0, 0, 16, 0) == SixteenBytes()
  {
    assert GapFits(v[0], 0, AskFor(16).need);
    assert !NoGap(v[0], AskFor(16).need);
    assert PlacedView(v, 0, 0, 16, 0)[0].chunks == [CView(0x1040, 48, 16, 0)];
  }

  lemma RoomBehind(w: View)
    requires w == SixteenBytes()
    ensures !Exhausted(w, |w|, AskFor(32).need) && IsChunk(w, 0, 0)
  {
    assert GapFits(w[0], 1, AskFor(32).need);
    assert !NoGap(w[0], AskFor(32).need);
  }

  lemma SixteenServed(heap: KHeap, v: View, h: Chunks, m: Bytes, p: nat, grew: bool, bi: nat, gi: nat)
    requires heap.form == AsWritten && heap.Answered(v, h, m, p, grew, bi, gi, 0, AskFor(16))
    requires v == [BView(0x1010, 0xff0, [])] && h(0x1040).requested == 0
    ensures heap.view == SixteenBytes() && p == UserPtr(0x1040)
    ensures heap.ram.bytes == Put(m, RecordAddr(AsWritten, 0x1040), Record(0x1040))
  {
    OnlyChunk(v);
    assert bi == 0 && gi == 0;
  }

  method AskSixteen(ram: Memory) returns (heap: KHeap, p: nat)
    requires forall x: nat :: ram.bytes(x) == 0
    modifies ram
    ensures fresh(heap) && heap.ram == ram && heap.form == AsWritten && heap.Valid() && heap.view == SixteenBytes()
    ensures p == UserPtr(0x1040) && forall x: nat | x != RecordAddr(AsWritten, 0x1040) :: ram.bytes(x) == 0
  {
    heap := new KHeap(0x1000, 0x1000, ram, (x: nat) => Chunk(0, 0, 0, 0, 0, 0), AsWritten, 4096, 16);
    ghost var v, h, m := heap.view, heap.hdr, ram.bytes;
    ghost var grew, bi, gi;
    p, grew, bi, gi := heap.Alloc(16, 0);
    SixteenServed(heap, v, h, m, p, grew, bi, gi);
  }

  /**
   The copy that loses everything: on a fresh heap, in memory that holds zeroes, 16 bytes are
   asked for and their first is set to 1; as written the reallocation to 32 bytes copies none.
   */
  method NothingBrought(ram: Memory) returns (p: nat, q: nat, first: Byte)
    requires forall x: nat :: ram.bytes(x) == 0
    modifies ram
    ensures p != 0 && q != 0 && q != p && first == 1 && ram.bytes(q) == 0
  {
    var heap;
    heap, p := AskSixteen(ram);
    ghost var w, m := heap.view, ram.bytes;
    RoomBehind(w);
    ram.bytes := Put(ram.bytes, p, 1);
    UserWriteKeeps(AsWritten, heap.blk, heap.hdr, m, ram.bytes, w, 0, 0);
    first := ram.bytes(p);
    var fault;
    ghost var c, grew, pb, gj;
    q, fault, c, grew, pb, gj := heap.ReAlloc(p, 32, 0, true, 0, 0);
    PtrInside(c, 0);
  }

  /** A chunk without predecessor is the first; one without either neighbour is the only one. */
  lemma FirstRemains(b: BView, ci: nat)
    requires BlockOk(b) && ci < |b.chunks|
    ensures ChunkAt(b.chunks, ci - 1) == 0 <==> ci == 0
    ensures ChunkAt(Remove(b, ci).chunks, 0) == 0 <==> |b.chunks| == 1
  {
    RemoveIndex(b, ci, 0);
  }
}
