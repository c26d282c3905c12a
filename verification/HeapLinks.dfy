/** The heap's intrusive headers: what it means that they spell out a view, and how edits keep that. */
module HeapLinks {
  import opened HeapView

  datatype Block = Block(prev: nat, next: nat, size: nat, used: nat, first: nat)

  datatype Chunk = Chunk(prev: nat, next: nat, owner: nat, magic: nat, size: nat, requested: nat)

  /** Memory read as headers; 0 is the null pointer. */
  type Blocks = nat -> Block
  type Chunks = nat -> Chunk

  const QALLOC_MAGIC: nat := 0xFEE1_F3EE
  const QALLOC_DEAD: nat := 0xDEAD_FEED

  function SetBlock(m: Blocks, a: nat, b: Block): Blocks {
    (x: nat) => if x == a then b else m(x)
  }

  function SetChunk(m: Chunks, a: nat, c: Chunk): Chunks {
    (x: nat) => if x == a then c else m(x)
  }

  function BlockAt(v: View, i: int): nat { if 0 <= i < |v| then v[i].addr else 0 }

  function ChunkAt(cs: seq<CView>, i: int): nat { if 0 <= i < |cs| then cs[i].addr else 0 }

  ghost predicate BlockLinked(m: Blocks, v: View, i: nat)
    requires i < |v|
  {
    m(v[i].addr) == Block(BlockAt(v, i - 1), BlockAt(v, i + 1), v[i].size, Used(v[i]), ChunkAt(v[i].chunks, 0))
  }

  ghost predicate ChunkLinked(m: Chunks, b: BView, j: nat)
    requires j < |b.chunks|
  {
    ChunkIs(m(b.chunks[j].addr), ChunkAt(b.chunks, j - 1), ChunkAt(b.chunks, j + 1), b.addr, b.chunks[j])
  }

  predicate ChunkIs(h: Chunk, prev: nat, next: nat, owner: nat, c: CView) {
    h == Chunk(prev, next, owner, QALLOC_MAGIC, c.size, c.rec)
  }

  ghost predicate BlocksLinked(m: Blocks, v: View) {
    forall i: nat | i < |v| :: BlockLinked(m, v, i)
  }

  ghost predicate ChunksLinked(m: Chunks, b: BView) {
    forall j: nat | j < |b.chunks| :: ChunkLinked(m, b, j)
  }

  /** The headers spell out the view: both lists in both directions, every owner, size and fill. */
  ghost predicate Linked(bm: Blocks, cm: Chunks, v: View) {
    && BlocksLinked(bm, v)
    && forall i | 0 <= i < |v| :: ChunksLinked(cm, v[i])
  }

  /** `m'` is `m` with chunk `c` linked in at gap `i`. */
  ghost predicate LinkedIn(m: Chunks, m': Chunks, b: BView, i: nat, c: CView)
    requires i <= |b.chunks|
  {
    && (forall x: nat {:trigger m'(x)} ::
          x != c.addr && (i > 0 ==> x != b.chunks[i - 1].addr) && (i < |b.chunks| ==> x != b.chunks[i].addr) ==>
            m'(x) == m(x))
    && m'(c.addr) == Chunk(ChunkAt(b.chunks, i - 1), ChunkAt(b.chunks, i), b.addr, QALLOC_MAGIC, c.size, c.rec)
    && (i > 0 ==> m'(b.chunks[i - 1].addr) == m(b.chunks[i - 1].addr).(next := c.addr))
    && (i < |b.chunks| ==> m'(b.chunks[i].addr) == m(b.chunks[i].addr).(prev := c.addr))
  }

  lemma ChunkAddressesDiffer(b: BView, i: nat, j: nat)
    requires BlockOk(b) && i < |b.chunks| && j < |b.chunks| && i != j
    ensures b.chunks[i].addr != b.chunks[j].addr
  {
    if i < j {
      assert End(b.chunks[i]) <= b.chunks[j].addr;
    } else {
      assert End(b.chunks[j]) <= b.chunks[i].addr;
    }
  }

  /** The three ways in which the code writes the links: at the front, at the back, in between. */
  lemma FrontLinks(m: Chunks, b: BView, c: CView)
    requires BlockOk(b) && b.chunks != [] && GapStart(b, 0) == c.addr && End(c) <= GapEnd(b, 0)
    ensures var first := b.chunks[0].addr;
            var m1 := SetChunk(m, first, m(first).(prev := c.addr));
            LinkedIn(m, SetChunk(m1, c.addr, Chunk(0, first, b.addr, QALLOC_MAGIC, c.size, c.rec)), b, 0, c)
  {
  }

  lemma BackLinks(m: Chunks, b: BView, c: CView)
    requires BlockOk(b) && b.chunks != [] && GapStart(b, |b.chunks|) == c.addr && End(c) <= GapEnd(b, |b.chunks|)
    ensures var last := b.chunks[|b.chunks| - 1].addr;
            var m1 := SetChunk(m, last, m(last).(next := c.addr));
            LinkedIn(m, SetChunk(m1, c.addr, Chunk(last, 0, b.addr, QALLOC_MAGIC, c.size, c.rec)), b, |b.chunks|, c)
  {
  }

  lemma BetweenLinks(m: Chunks, b: BView, i: nat, c: CView)
    requires BlockOk(b) && 0 < i < |b.chunks| && GapStart(b, i) == c.addr && End(c) <= GapEnd(b, i)
    ensures var prev, next := b.chunks[i - 1].addr, b.chunks[i].addr;
            var m1 := SetChunk(m, c.addr, Chunk(prev, next, b.addr, QALLOC_MAGIC, c.size, c.rec));
            var m2 := SetChunk(m1, next, m1(next).(prev := c.addr));
            var m3 := SetChunk(m2, prev, m2(prev).(next := c.addr));
            LinkedIn(m, m3, b, i, c)
  {
    ChunkAddressesDiffer(b, i - 1, i);
    GapChunkDiffers(b, i, c, i - 1);
    GapChunkDiffers(b, i, c, i);
  }

  lemma InsertIndex(b: BView, i: nat, c: CView, j: int)
    requires i <= |b.chunks|
    ensures var cs := Insert(b, i, c).chunks;
            && ChunkAt(cs, j)
            == (if j < i then ChunkAt(b.chunks, j) else if j == i then c.addr else ChunkAt(b.chunks, j - 1))
            && (0 <= j < |cs| ==> cs[j] == if j < i then b.chunks[j] else if j == i then c else b.chunks[j - 1])
  {
  }

  lemma GapChunkDiffers(b: BView, i: nat, c: CView, k: nat)
    requires BlockOk(b) && i <= |b.chunks| && k < |b.chunks|
    requires GapStart(b, i) <= c.addr && End(c) <= GapEnd(b, i)
    ensures b.chunks[k].addr != c.addr
  {
    if k + 1 < i {
      assert End(b.chunks[k]) <= b.chunks[i - 1].addr;
    } else if i < k {
      assert End(b.chunks[i]) <= b.chunks[k].addr;
    }
  }

  /** What the header of old chunk `k` says after the link. */
  lemma LinkInRecord(m: Chunks, m': Chunks, b: BView, i: nat, c: CView, k: nat)
    requires BlockOk(b) && i <= |b.chunks| && k < |b.chunks| && ChunkLinked(m, b, k)
    requires GapStart(b, i) <= c.addr && End(c) <= GapEnd(b, i)
    requires LinkedIn(m, m', b, i, c)
    ensures RecordAfterLink(m', b, i, c, k)
  {
    GapChunkDiffers(b, i, c, k);
    if i > 0 && k != i - 1 { ChunkAddressesDiffer(b, k, i - 1); }
    if i < |b.chunks| && k != i { ChunkAddressesDiffer(b, k, i); }
  }

  ghost predicate RecordAfterLink(m': Chunks, b: BView, i: nat, c: CView, k: nat)
    requires k < |b.chunks|
  {
    ChunkIs(m'(b.chunks[k].addr), if k == i then c.addr else ChunkAt(b.chunks, k - 1),
            if k == i - 1 then c.addr else ChunkAt(b.chunks, k + 1), b.addr, b.chunks[k])
  }

  lemma LinkInShape(m': Chunks, b: BView, i: nat, c: CView, j: nat)
    requires i <= |b.chunks| && j <= |b.chunks|
    requires forall k: nat | k < |b.chunks| :: RecordAfterLink(m', b, i, c, k)
    requires ChunkIs(m'(c.addr), ChunkAt(b.chunks, i - 1), ChunkAt(b.chunks, i), b.addr, c)
    ensures ChunkLinked(m', Insert(b, i, c), j)
  {
    InsertIndex(b, i, c, j - 1);
    InsertIndex(b, i, c, j);
    InsertIndex(b, i, c, j + 1);
    if j < i {
      assert RecordAfterLink(m', b, i, c, j);
    } else if j > i {
      assert RecordAfterLink(m', b, i, c, j - 1);
    }
  }

  lemma LinkInKeeps(m: Chunks, m': Chunks, b: BView, i: nat, c: CView)
    requires BlockOk(b) && ChunksLinked(m, b) && i <= |b.chunks|
    requires GapStart(b, i) <= c.addr && End(c) <= GapEnd(b, i)
    requires LinkedIn(m, m', b, i, c)
    ensures ChunksLinked(m', Insert(b, i, c))
  {
    forall k: nat | k < |b.chunks|
      ensures RecordAfterLink(m', b, i, c, k)
    {
      assert ChunkLinked(m, b, k);
      LinkInRecord(m, m', b, i, c, k);
    }
    forall j: nat | j < |Insert(b, i, c).chunks|
      ensures ChunkLinked(m', Insert(b, i, c), j)
    {
      LinkInShape(m', b, i, c, j);
    }
  }

  /** `m'` is `m` with chunk `i` unlinked and marked dead. */
  ghost predicate Unlinked(m: Chunks, m': Chunks, b: BView, i: nat)
    requires i < |b.chunks|
  {
    && (forall x: nat {:trigger m'(x)} ::
          x != b.chunks[i].addr && (i > 0 ==> x != b.chunks[i - 1].addr)
          && (i + 1 < |b.chunks| ==> x != b.chunks[i + 1].addr) ==>
            m'(x) == m(x))
    && (i > 0 ==> m'(b.chunks[i - 1].addr) == m(b.chunks[i - 1].addr).(next := ChunkAt(b.chunks, i + 1)))
    && (i + 1 < |b.chunks| ==> m'(b.chunks[i + 1].addr) == m(b.chunks[i + 1].addr).(prev := ChunkAt(b.chunks, i - 1)))
  }

  lemma RemoveIndex(b: BView, i: nat, j: int)
    requires i < |b.chunks|
    ensures var cs := Remove(b, i).chunks;
            && ChunkAt(cs, j) == (if j < i then ChunkAt(b.chunks, j) else ChunkAt(b.chunks, j + 1))
            && (0 <= j < |cs| ==> cs[j] == if j < i then b.chunks[j] else b.chunks[j + 1])
  {
  }

  ghost predicate RecordAfterUnlink(m': Chunks, b: BView, i: nat, k: nat)
    requires k < |b.chunks|
  {
    ChunkIs(m'(b.chunks[k].addr), ChunkAt(b.chunks, if k == i + 1 then i - 1 else k - 1),
            ChunkAt(b.chunks, if k == i - 1 then i + 1 else k + 1), b.addr, b.chunks[k])
  }

  lemma UnlinkRecord(m: Chunks, m': Chunks, b: BView, i: nat, k: nat)
    requires BlockOk(b) && i < |b.chunks| && k < |b.chunks| && k != i
    requires ChunkLinked(m, b, k) && Unlinked(m, m', b, i)
    ensures RecordAfterUnlink(m', b, i, k)
  {
    ChunkAddressesDiffer(b, k, i);
    if i > 0 && k != i - 1 { ChunkAddressesDiffer(b, k, i - 1); }
    if i + 1 < |b.chunks| && k != i + 1 { ChunkAddressesDiffer(b, k, i + 1); }
  }

  lemma UnlinkShape(m': Chunks, b: BView, i: nat, j: nat)
    requires i < |b.chunks| && j < |Remove(b, i).chunks|
    requires forall k: nat | k < |b.chunks| && k != i :: RecordAfterUnlink(m', b, i, k)
    ensures ChunkLinked(m', Remove(b, i), j)
  {
    RemoveIndex(b, i, j - 1);
    RemoveIndex(b, i, j);
    RemoveIndex(b, i, j + 1);
    assert RecordAfterUnlink(m', b, i, if j < i then j else j + 1);
  }

  lemma UnlinkKeeps(m: Chunks, m': Chunks, b: BView, i: nat)
    requires BlockOk(b) && ChunksLinked(m, b) && i < |b.chunks| && Unlinked(m, m', b, i)
    ensures ChunksLinked(m', Remove(b, i))
  {
    forall k: nat | k < |b.chunks| && k != i
      ensures RecordAfterUnlink(m', b, i, k)
    {
      assert ChunkLinked(m, b, k);
      UnlinkRecord(m, m', b, i, k);
    }
    forall j: nat | j < |Remove(b, i).chunks|
      ensures ChunkLinked(m', Remove(b, i), j)
    {
      UnlinkShape(m', b, i, j);
    }
  }

  /** Headers changed only inside one block leave the chunks of every other block linked. */
  lemma OtherBlocksKeep(m: Chunks, m': Chunks, v: View, bi: nat)
    requires ViewOk(v) && bi < |v|
    requires forall x: nat {:trigger m'(x)} :: x < v[bi].addr || v[bi].addr + v[bi].size <= x ==> m'(x) == m(x)
    requires forall i | 0 <= i < |v| :: ChunksLinked(m, v[i])
    ensures forall i | 0 <= i < |v| && i != bi :: ChunksLinked(m', v[i])
  {
    forall i: nat, j: nat | i < |v| && i != bi && j < |v[i].chunks|
      ensures ChunkLinked(m', v[i], j)
    {
      assert ChunkLinked(m, v[i], j);
      assert BlockOk(v[i]);
      assert Apart(v[i], v[bi]) by {
        if i < bi { assert Apart(v[i], v[bi]); } else { assert Apart(v[bi], v[i]); }
      }
    }
  }

  lemma BlockAddressesDiffer(v: View, i: nat, j: nat)
    requires ViewOk(v) && i < |v| && j < |v| && i != j
    ensures v[i].addr != v[j].addr
  {
    assert BlockOk(v[i]) && BlockOk(v[j]);
    if i < j { assert Apart(v[i], v[j]); } else { assert Apart(v[j], v[i]); }
  }

  /** `m'` is `m` with the fill and the first chunk of block `b` brought up to date. */
  ghost predicate Refreshed(m: Blocks, m': Blocks, b: BView) {
    && m'(b.addr) == m(b.addr).(used := Used(b), first := ChunkAt(b.chunks, 0))
    && (forall x: nat {:trigger m'(x)} :: x != b.addr ==> m'(x) == m(x))
  }

  /** A block's chunks may change if its own header says so. */
  lemma BlockUpdateKeeps(m: Blocks, m': Blocks, v: View, bi: nat, b: BView)
    requires ViewOk(v) && BlocksLinked(m, v) && bi < |v| && b.addr == v[bi].addr && b.size == v[bi].size
    requires Refreshed(m, m', b)
    ensures BlocksLinked(m', v[bi := b])
  {
    var v' := v[bi := b];
    forall i: nat | i < |v'|
      ensures BlockLinked(m', v', i)
    {
      assert BlockLinked(m, v, i);
      if i != bi { BlockAddressesDiffer(v, i, bi); }
    }
  }

  /** `m'` is `m` with block `b` behind the last block of `v`. */
  ghost predicate Appended(m: Blocks, m': Blocks, v: View, b: BView) {
    && m'(b.addr) == Block(BlockAt(v, |v| - 1), 0, b.size, Used(b), ChunkAt(b.chunks, 0))
    && (v != [] ==> m'(v[|v| - 1].addr) == m(v[|v| - 1].addr).(next := b.addr))
    && (forall x: nat {:trigger m'(x)} :: x != b.addr && (v != [] ==> x != v[|v| - 1].addr) ==> m'(x) == m(x))
  }

  lemma AppendedAt(m: Blocks, m': Blocks, v: View, b: BView, i: nat)
    requires ViewOk(v + [b]) && i < |v| && BlockLinked(m, v, i) && Appended(m, m', v, b)
    ensures m'(v[i].addr) == Block(BlockAt(v, i - 1), if i == |v| - 1 then b.addr else BlockAt(v, i + 1),
                                   v[i].size, Used(v[i]), ChunkAt(v[i].chunks, 0))
  {
    assert (v + [b])[i] == v[i] && (v + [b])[|v|] == b && (v + [b])[|v| - 1] == v[|v| - 1];
    BlockAddressesDiffer(v + [b], i, |v|);
    if i != |v| - 1 { BlockAddressesDiffer(v + [b], i, |v| - 1); }
  }

  lemma AppendKeeps(m: Blocks, m': Blocks, v: View, b: BView)
    requires ViewOk(v + [b]) && BlocksLinked(m, v) && Appended(m, m', v, b)
    ensures BlocksLinked(m', v + [b])
  {
    forall i: nat | i < |v + [b]|
      ensures BlockLinked(m', v + [b], i)
    {
      if i < |v| {
        assert BlockLinked(m, v, i);
        AppendedAt(m, m', v, b, i);
      }
    }
  }

  /** `m'` is `m` with block `bi` taken out of the list. */
  ghost predicate Dropped(m: Blocks, m': Blocks, v: View, bi: nat)
    requires bi < |v|
  {
    && (bi > 0 ==> m'(v[bi - 1].addr) == m(v[bi - 1].addr).(next := BlockAt(v, bi + 1)))
    && (bi + 1 < |v| ==> m'(v[bi + 1].addr) == m(v[bi + 1].addr).(prev := BlockAt(v, bi - 1)))
    && (forall x: nat {:trigger m'(x)} ::
          x != v[bi].addr && (bi > 0 ==> x != v[bi - 1].addr) && (bi + 1 < |v| ==> x != v[bi + 1].addr) ==>
            m'(x) == m(x))
  }

  lemma DroppedAt(m: Blocks, m': Blocks, v: View, bi: nat, k: nat)
    requires ViewOk(v) && bi < |v| && k < |v| && k != bi && BlockLinked(m, v, k) && Dropped(m, m', v, bi)
    ensures RecordAfterDrop(m', v, bi, k)
  {
    BlockAddressesDiffer(v, k, bi);
    if bi > 0 && k != bi - 1 { BlockAddressesDiffer(v, k, bi - 1); }
    if bi + 1 < |v| && k != bi + 1 { BlockAddressesDiffer(v, k, bi + 1); }
  }

  function Without(v: View, bi: nat): View
    requires bi < |v|
  {
    v[..bi] + v[bi + 1..]
  }

  lemma WithoutIndex(v: View, bi: nat, j: int)
    requires bi < |v|
    ensures BlockAt(Without(v, bi), j) == if j < bi then BlockAt(v, j) else BlockAt(v, j + 1)
    ensures 0 <= j < |v| - 1 ==> Without(v, bi)[j] == if j < bi then v[j] else v[j + 1]
  {
  }

  /** What the header of block `k` says after block `bi` was taken out. */
  ghost predicate RecordAfterDrop(m': Blocks, v: View, bi: nat, k: nat)
    requires k < |v|
  {
    m'(v[k].addr) == Block(BlockAt(v, if k == bi + 1 then bi - 1 else k - 1),
                           BlockAt(v, if k == bi - 1 then bi + 1 else k + 1),
                           v[k].size, Used(v[k]), ChunkAt(v[k].chunks, 0))
  }

  lemma DropShape(m': Blocks, v: View, bi: nat, i: nat)
    requires bi < |v| && i < |v| - 1
    requires forall k: nat | k < |v| && k != bi :: RecordAfterDrop(m', v, bi, k)
    ensures BlockLinked(m', Without(v, bi), i)
  {
    WithoutIndex(v, bi, i - 1);
    WithoutIndex(v, bi, i);
    WithoutIndex(v, bi, i + 1);
    assert RecordAfterDrop(m', v, bi, if i < bi then i else i + 1);
  }

  lemma DropKeeps(m: Blocks, m': Blocks, v: View, bi: nat)
    requires ViewOk(v) && BlocksLinked(m, v) && bi < |v| && Dropped(m, m', v, bi)
    ensures BlocksLinked(m', Without(v, bi))
  {
    forall k: nat | k < |v| && k != bi
      ensures RecordAfterDrop(m', v, bi, k)
    {
      assert BlockLinked(m, v, k);
      DroppedAt(m, m', v, bi, k);
    }
    forall i: nat | i < |Without(v, bi)|
      ensures BlockLinked(m', Without(v, bi), i)
    {
      DropShape(m', v, bi, i);
    }
  }
}
