/**
 The kernel heap as a value: a list of blocks, each with the chunks carved from it in
 address order. `KHeap` keeps its linked headers in step with such a value.
 */
module HeapView {

  const BLOCK_HEADER: nat := 48
  const CHUNK_HEADER: nat := 48
  const WORD: nat := 0x1_0000_0000_0000_0000

  /** A chunk: the address of its header, its payload size, the request, and what the header records of that. */
  datatype CView = CView(addr: nat, size: nat, req: nat, rec: nat)

  datatype BView = BView(addr: nat, size: nat, chunks: seq<CView>)

  type View = seq<BView>

  function End(c: CView): nat { c.addr + CHUNK_HEADER + c.size }

  function Taken(cs: seq<CView>): nat {
    if cs == [] then 0 else CHUNK_HEADER + cs[0].size + Taken(cs[1..])
  }

  function Payload(cs: seq<CView>): nat {
    if cs == [] then 0 else cs[0].size + Payload(cs[1..])
  }

  function Used(b: BView): nat { BLOCK_HEADER + Taken(b.chunks) }

  /** Chunks in address order, without overlap, between two bounds. */
  ghost predicate Ordered(cs: seq<CView>, from: nat, to: nat) {
    && from <= to
    && (forall i | 0 <= i < |cs| :: from <= cs[i].addr && End(cs[i]) <= to)
    && (forall i, j | 0 <= i < j < |cs| :: End(cs[i]) <= cs[j].addr)
  }

  /** The block's chunks lie inside it, behind its header. */
  ghost predicate BlockOk(b: BView) {
    && 0 < b.addr && b.addr + b.size <= WORD
    && Ordered(b.chunks, b.addr + BLOCK_HEADER, b.addr + b.size)
  }

  predicate Apart(a: BView, b: BView) {
    a.addr + a.size <= b.addr || b.addr + b.size <= a.addr
  }

  ghost predicate ViewOk(v: View) {
    && (forall i | 0 <= i < |v| :: BlockOk(v[i]))
    && (forall i, j | 0 <= i < j < |v| :: Apart(v[i], v[j]))
  }

  // ----- Gaps -----

  /** Gap `i` of a block is the free space before chunk `i`, or behind the last chunk. */
  function GapStart(b: BView, i: nat): nat
    requires i <= |b.chunks|
  {
    if i == 0 then b.addr + BLOCK_HEADER else End(b.chunks[i - 1])
  }

  function GapEnd(b: BView, i: nat): nat
    requires i <= |b.chunks|
  {
    if i == |b.chunks| then b.addr + b.size else b.chunks[i].addr
  }

  predicate GapFits(b: BView, i: nat, need: nat)
    requires i <= |b.chunks|
  {
    GapStart(b, i) + need <= GapEnd(b, i)
  }

  /** No contiguous free space of `need` bytes in the block. */
  ghost predicate NoGap(b: BView, need: nat) {
    forall i: nat | i <= |b.chunks| :: !GapFits(b, i, need)
  }

  /** The first `n` gaps are all too small. */
  ghost predicate NoGapBefore(b: BView, n: nat, need: nat) {
    forall i: nat | i < n && i <= |b.chunks| :: !GapFits(b, i, need)
  }

  /** The `need` bytes from `at` lie in the block, behind its header and apart from every chunk. */
  ghost predicate FreeAt(b: BView, at: nat, need: nat) {
    && b.addr + BLOCK_HEADER <= at && at + need <= b.addr + b.size
    && forall j | 0 <= j < |b.chunks| :: End(b.chunks[j]) <= at || at + need <= b.chunks[j].addr
  }

  lemma GapIsFree(b: BView, i: nat, need: nat)
    requires BlockOk(b) && i <= |b.chunks| && GapFits(b, i, need)
    ensures FreeAt(b, GapStart(b, i), need)
  {
    OrderedBelow(b, i);
    OrderedAbove(b, i);
    forall j | 0 <= j < |b.chunks|
      ensures End(b.chunks[j]) <= GapStart(b, i) || GapStart(b, i) + need <= b.chunks[j].addr
    {
      if j < i {
        assert b.chunks[..i][j] == b.chunks[j];
      } else {
        assert b.chunks[i..][j - i] == b.chunks[j];
      }
    }
  }

  /** Free bytes lie in a gap; chunks before number `i` end below them. */
  lemma {:induction false} FreeHasGap(b: BView, at: nat, need: nat, i: nat) returns (k: nat)
    requires BlockOk(b) && FreeAt(b, at, need) && i <= |b.chunks| && GapStart(b, i) <= at
    ensures k <= |b.chunks| && GapFits(b, k, need) && GapStart(b, k) <= at
    decreases |b.chunks| - i
  {
    k := i;
    if i < |b.chunks| && End(b.chunks[i]) <= at {
      k := FreeHasGap(b, at, need, i + 1);
    }
  }

  /** No gap is large enough exactly when nowhere in the block so many bytes in a row are free. */
  lemma NoGapIff(b: BView, need: nat)
    requires BlockOk(b)
    ensures NoGap(b, need) <==> forall at: nat :: !FreeAt(b, at, need)
  {
    if i: nat :| i <= |b.chunks| && GapFits(b, i, need) {
      GapIsFree(b, i, need);
    }
    if at: nat :| FreeAt(b, at, need) {
      var k := FreeHasGap(b, at, need, 0);
    }
  }

  /** The first gap that is large enough starts at the least address with so many free bytes. */
  lemma FirstGapLeast(b: BView, i: nat, need: nat)
    requires BlockOk(b) && i <= |b.chunks| && GapFits(b, i, need) && NoGapBefore(b, i, need)
    ensures FreeAt(b, GapStart(b, i), need)
    ensures forall at: nat | FreeAt(b, at, need) :: GapStart(b, i) <= at
  {
    GapIsFree(b, i, need);
    forall at: nat | FreeAt(b, at, need)
      ensures GapStart(b, i) <= at
    {
      var k := FreeHasGap(b, at, need, 0);
      OrderedBelow(b, k);
      if i < k {
        assert i < |b.chunks| && GapStart(b, i) <= End(b.chunks[i]) <= GapStart(b, k) by {
          OrderedBelow(b, i);
          assert b.chunks[..k][i] == b.chunks[i];
        }
      }
    }
  }

  lemma {:induction false} TakenConcat(a: seq<CView>, b: seq<CView>)
    ensures Taken(a + b) == Taken(a) + Taken(b) && Payload(a + b) == Payload(a) + Payload(b)
  {
    if a == [] {
      assert a + b == b;
    } else {
      assert (a + b)[1..] == a[1..] + b;
      TakenConcat(a[1..], b);
    }
  }

  lemma OrderedConcat(a: seq<CView>, b: seq<CView>, from: nat, mid: nat, to: nat)
    requires Ordered(a, from, mid) && Ordered(b, mid, to)
    ensures Ordered(a + b, from, to)
  {
    var cs := a + b;
    forall i, j | 0 <= i < j < |cs|
      ensures End(cs[i]) <= cs[j].addr
    {
      if i < |a| <= j {
        assert End(a[i]) <= mid <= b[j - |a|].addr;
      }
    }
  }

  /** A block cut at a gap. */
  lemma OrderedBelow(b: BView, i: nat)
    requires BlockOk(b) && i <= |b.chunks|
    ensures GapStart(b, i) <= GapEnd(b, i)
    ensures Ordered(b.chunks[..i], b.addr + BLOCK_HEADER, GapStart(b, i))
  {
    var cs := b.chunks;
    if 0 < i < |cs| {
      assert End(cs[i - 1]) <= cs[i].addr;
    }
    forall j | 0 <= j < i
      ensures End(cs[j]) <= GapStart(b, i)
    {
      if j < i - 1 {
        assert End(cs[j]) <= cs[i - 1].addr;
      }
    }
  }

  lemma OrderedAbove(b: BView, i: nat)
    requires BlockOk(b) && i <= |b.chunks|
    ensures Ordered(b.chunks[i..], GapEnd(b, i), b.addr + b.size)
  {
    var cs, high := b.chunks, b.chunks[i..];
    forall j | 0 <= j < |high|
      ensures GapEnd(b, i) <= high[j].addr && End(high[j]) <= b.addr + b.size
    {
      assert high[j] == cs[i + j];
      if 0 < j {
        assert End(cs[i]) <= cs[i + j].addr;
      }
    }
    forall j, k | 0 <= j < k < |high|
      ensures End(high[j]) <= high[k].addr
    {
      assert high[j] == cs[i + j] && high[k] == cs[i + k];
    }
  }

  lemma OrderedSplit(b: BView, i: nat)
    requires BlockOk(b) && i <= |b.chunks|
    ensures GapStart(b, i) <= GapEnd(b, i)
    ensures Ordered(b.chunks[..i], b.addr + BLOCK_HEADER, GapStart(b, i))
    ensures Ordered(b.chunks[i..], GapEnd(b, i), b.addr + b.size)
    ensures b.chunks == b.chunks[..i] + b.chunks[i..]
  {
    OrderedBelow(b, i);
    OrderedAbove(b, i);
  }

  /** Ordered chunks between two bounds take no more than the distance of the bounds. */
  lemma {:induction false} TakenWithin(cs: seq<CView>, from: nat, to: nat)
    requires Ordered(cs, from, to)
    ensures from + Taken(cs) <= to
  {
    if cs != [] {
      assert forall i | 0 <= i < |cs[1..]| :: cs[1..][i] == cs[i + 1];
      TakenWithin(cs[1..], End(cs[0]), to);
    }
  }

  /** Every gap is within the block's free total, so a block with too little free space has no gap. */
  lemma GapWithinFree(b: BView, i: nat)
    requires BlockOk(b) && i <= |b.chunks|
    ensures GapStart(b, i) <= GapEnd(b, i)
    ensures GapEnd(b, i) - GapStart(b, i) + Used(b) <= b.size
  {
    OrderedSplit(b, i);
    TakenConcat(b.chunks[..i], b.chunks[i..]);
    TakenWithin(b.chunks[..i], b.addr + BLOCK_HEADER, GapStart(b, i));
    TakenWithin(b.chunks[i..], GapEnd(b, i), b.addr + b.size);
  }

  lemma FullHasNoGap(b: BView, need: nat)
    requires BlockOk(b) && need > 0 && b.size < Used(b) + need
    ensures NoGap(b, need)
  {
    forall i: nat | i <= |b.chunks|
      ensures !GapFits(b, i, need)
    {
      GapWithinFree(b, i);
    }
  }

  lemma UsedWithin(b: BView)
    requires BlockOk(b)
    ensures BLOCK_HEADER <= Used(b) <= b.size
  {
    GapWithinFree(b, 0);
  }

  // ----- Changes -----

  function Insert(b: BView, i: nat, c: CView): BView
    requires i <= |b.chunks|
  {
    b.(chunks := b.chunks[..i] + [c] + b.chunks[i..])
  }

  function Remove(b: BView, i: nat): BView
    requires i < |b.chunks|
  {
    b.(chunks := b.chunks[..i] + b.chunks[i + 1..])
  }

  lemma InsertOrdered(b: BView, i: nat, c: CView)
    requires BlockOk(b) && i <= |b.chunks| && GapStart(b, i) <= c.addr && End(c) <= GapEnd(b, i)
    ensures BlockOk(Insert(b, i, c))
  {
    var low, high := b.chunks[..i], b.chunks[i..];
    OrderedSplit(b, i);
    OrderedConcat(low, [c], b.addr + BLOCK_HEADER, GapStart(b, i), End(c));
    OrderedConcat(low + [c], high, b.addr + BLOCK_HEADER, GapEnd(b, i), b.addr + b.size);
  }

  lemma InsertSums(b: BView, i: nat, c: CView)
    requires i <= |b.chunks|
    ensures Used(Insert(b, i, c)) == Used(b) + CHUNK_HEADER + c.size
    ensures Payload(Insert(b, i, c).chunks) == Payload(b.chunks) + c.size
  {
    var low, high := b.chunks[..i], b.chunks[i..];
    assert b.chunks == low + high;
    TakenConcat(low, high);
    TakenConcat(low + [c], high);
    TakenConcat(low, [c]);
  }

  lemma InsertOk(b: BView, i: nat, c: CView)
    requires BlockOk(b) && i <= |b.chunks| && GapStart(b, i) <= c.addr && End(c) <= GapEnd(b, i)
    ensures BlockOk(Insert(b, i, c)) && Used(Insert(b, i, c)) == Used(b) + CHUNK_HEADER + c.size
    ensures Payload(Insert(b, i, c).chunks) == Payload(b.chunks) + c.size
  {
    InsertOrdered(b, i, c);
    InsertSums(b, i, c);
  }

  lemma RemoveOrdered(b: BView, i: nat)
    requires BlockOk(b) && i < |b.chunks|
    ensures BlockOk(Remove(b, i))
  {
    OrderedSplit(b, i);
    OrderedSplit(b, i + 1);
    OrderedConcat(b.chunks[..i], b.chunks[i + 1..], b.addr + BLOCK_HEADER, GapEnd(b, i), b.addr + b.size);
  }

  lemma RemoveOk(b: BView, i: nat)
    requires BlockOk(b) && i < |b.chunks|
    ensures BlockOk(Remove(b, i)) && Used(b) == Used(Remove(b, i)) + CHUNK_HEADER + b.chunks[i].size
    ensures Payload(b.chunks) == Payload(Remove(b, i).chunks) + b.chunks[i].size
  {
    RemoveOrdered(b, i);
    var low, c, high := b.chunks[..i], b.chunks[i], b.chunks[i + 1..];
    assert b.chunks == low + [c] + high;
    TakenConcat(low + [c], high);
    TakenConcat(low, [c]);
    TakenConcat(low, high);
  }

  /** Bytes in use by users and bytes obtained, over all blocks. */
  function InUse(v: View): nat {
    if v == [] then 0 else Payload(v[0].chunks) + InUse(v[1..])
  }

  function Obtained(v: View): nat {
    if v == [] then 0 else v[0].size + Obtained(v[1..])
  }

  lemma {:induction false} SumsConcat(a: View, b: View)
    ensures InUse(a + b) == InUse(a) + InUse(b) && Obtained(a + b) == Obtained(a) + Obtained(b)
  {
    if a == [] {
      assert a + b == b;
    } else {
      assert (a + b)[1..] == a[1..] + b;
      SumsConcat(a[1..], b);
    }
  }

  /** Replacing one block changes the sums by that block's part. */
  lemma {:induction false} SumsUpdate(v: View, bi: nat, b: BView)
    requires bi < |v|
    ensures InUse(v[bi := b]) + Payload(v[bi].chunks) == InUse(v) + Payload(b.chunks)
    ensures Obtained(v[bi := b]) + v[bi].size == Obtained(v) + b.size
  {
    var w := v[bi := b];
    if bi == 0 {
      assert w[1..] == v[1..];
    } else {
      assert w[1..] == v[1..][bi - 1 := b];
      SumsUpdate(v[1..], bi - 1, b);
    }
  }

  lemma {:induction false} SumsRemove(v: View, bi: nat)
    requires bi < |v|
    ensures InUse(v) == InUse(v[..bi] + v[bi + 1..]) + Payload(v[bi].chunks)
    ensures Obtained(v) == Obtained(v[..bi] + v[bi + 1..]) + v[bi].size
  {
    var w := v[..bi] + v[bi + 1..];
    if bi == 0 {
      assert w == v[1..];
    } else {
      var t := v[1..];
      assert w[0] == v[0] && w[1..] == t[..bi - 1] + t[bi..];
      SumsRemove(t, bi - 1);
    }
  }

  lemma PartWithinSums(v: View, bi: nat)
    requires bi < |v|
    ensures v[bi].size <= Obtained(v) && Payload(v[bi].chunks) <= InUse(v)
  {
    SumsRemove(v, bi);
  }
}
