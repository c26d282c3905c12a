/** What the heap's invariant means to its users: their areas are inside their chunks and apart. */
module HeapClaims {
  import opened Forms
  import opened HeapView
  import opened HeapLinks
  import opened HeapAlign
  import opened HeapState
  import opened Memcpy

  /** Byte `x` belongs to the user of chunk `c`. */
  predicate InUser(c: CView, x: nat) { UserPtr(c.addr) <= x < UserPtr(c.addr) + c.req }

  ghost predicate IsChunk(v: View, i: nat, j: nat) { i < |v| && j < |v[i].chunks| }

  /** Two different chunks do not overlap, headers included. */
  lemma ChunksApart(v: View, i: nat, j: nat, k: nat, l: nat)
    requires ViewOk(v) && IsChunk(v, i, j) && IsChunk(v, k, l) && (i != k || j != l)
    ensures End(v[i].chunks[j]) <= v[k].chunks[l].addr || End(v[k].chunks[l]) <= v[i].chunks[j].addr
  {
    assert BlockOk(v[i]) && BlockOk(v[k]);
    if i == k {
      if j < l {
        assert End(v[i].chunks[j]) <= v[i].chunks[l].addr;
      } else {
        assert End(v[i].chunks[l]) <= v[i].chunks[j].addr;
      }
    } else {
      assert Apart(v[i], v[k]) by {
        if i < k { assert Apart(v[i], v[k]); } else { assert Apart(v[k], v[i]); }
      }
    }
  }

  /**
   Every live request lies, 16-byte aligned, inside its own chunk's payload, shares no byte
   with another live request, and holds no alignment record.
   */
  lemma UsersApart(form: Form, bm: Blocks, cm: Chunks, m: Bytes, v: View, i: nat, j: nat, k: nat, l: nat, x: nat)
    requires HeapOk(form, bm, cm, m, v) && IsChunk(v, i, j) && IsChunk(v, k, l) && InUser(v[i].chunks[j], x)
    ensures UserPtr(v[i].chunks[j].addr) % ALIGNMENT == 0
    ensures Raw(v[i].chunks[j].addr) <= x < End(v[i].chunks[j])
    ensures InUser(v[k].chunks[l], x) ==> i == k && j == l
    ensures x != RecordAddr(form, v[k].chunks[l].addr)
  {
    assert SizesOk(form, v[i]) && SizesOk(form, v[k]);
    PtrInside(v[i].chunks[j], v[i].chunks[j].req);
    PtrInside(v[k].chunks[l], v[k].chunks[l].req);
    RecordInside(form, v[k].chunks[l]);
    if i != k || j != l {
      ChunksApart(v, i, j, k, l);
    }
  }

  /** Users writing to their own bytes keep the invariant. */
  lemma UserWriteKeeps(form: Form, bm: Blocks, cm: Chunks, m: Bytes, m': Bytes, v: View, bi: nat, ci: nat)
    requires HeapOk(form, bm, cm, m, v) && IsChunk(v, bi, ci)
    requires forall x: nat {:trigger m'(x)} :: !InUser(v[bi].chunks[ci], x) ==> m'(x) == m(x)
    ensures HeapOk(form, bm, cm, m', v)
  {
    forall i, j | 0 <= i < |v| && 0 <= j < |v[i].chunks|
      ensures m'(RecordAddr(form, v[i].chunks[j].addr)) == Record(v[i].chunks[j].addr)
    {
      assert SizesOk(form, v[i]) && RecordsOk(form, m, v[i]);
      var x := RecordAddr(form, v[i].chunks[j].addr);
      if InUser(v[bi].chunks[ci], x) {
        UsersApart(form, bm, cm, m, v, bi, ci, i, j, x);
      }
    }
  }

  /** Where chunk `ci` of block `bi` is after a placement in gap `gi` of block `pb`. */
  function Moved(bi: nat, ci: nat, pb: nat, gi: nat): nat { if bi == pb && gi <= ci then ci + 1 else ci }

  lemma MovedChunk(v: View, bi: nat, ci: nat, pb: nat, gi: nat, req: nat, rec: nat)
    requires IsChunk(v, bi, ci) && pb < |v| && gi <= |v[pb].chunks|
    ensures var v' := PlacedView(v, pb, gi, req, rec);
            && IsChunk(v', bi, Moved(bi, ci, pb, gi)) && v'[bi].chunks[Moved(bi, ci, pb, gi)] == v[bi].chunks[ci]
            && IsChunk(v', pb, gi) && v'[pb].chunks[gi] == Placed(v[pb], gi, req, rec)
            && (bi != pb || Moved(bi, ci, pb, gi) != gi)
  {
    InsertIndex(v[pb], gi, Placed(v[pb], gi, req, rec), gi);
    if bi == pb {
      InsertIndex(v[pb], gi, Placed(v[pb], gi, req, rec), Moved(bi, ci, pb, gi));
    }
  }

  /** A placement and its record touch no byte of an earlier user. */
  lemma PlacementSpares(form: Form, bm: Blocks, cm: Chunks, m: Bytes, v: View, pb: nat, gi: nat, req: nat, rec: nat,
                        i: nat, j: nat, x: nat)
    requires pb < |v| && gi <= |v[pb].chunks| && IsChunk(v, i, j) && InUser(v[i].chunks[j], x)
    requires HeapOk(form, bm, cm, m, PlacedView(v, pb, gi, req, rec))
    ensures x != RecordAddr(form, Placed(v[pb], gi, req, rec).addr) && !InUser(Placed(v[pb], gi, req, rec), x)
  {
    MovedChunk(v, i, j, pb, gi, req, rec);
    UsersApart(form, bm, cm, m, PlacedView(v, pb, gi, req, rec), i, Moved(i, j, pb, gi), pb, gi, x);
  }

  // ----- When a reallocation is right -----

  /**
   `ReAlloc` to `size` bytes of a chunk with a request of `req` bytes whose header records
   `recorded`. It stays where it is if at least `size` is recorded, and is right then if that many
   bytes lie before the chunk's end; it moves otherwise, and copies the recorded bytes.
   */
  predicate ResizeRight(recorded: nat, req: nat, size: nat, room: int) {
    if recorded >= size then size <= room else recorded >= req
  }

  /** Right for every size exactly when what is recorded is not below the request, nor above the room. */
  lemma AnySizeRightIff(recorded: nat, req: nat, room: nat)
    requires req <= room
    ensures (forall size: nat | size > 0 :: ResizeRight(recorded, req, size, room)) <==> req <= recorded <= room
  {
    if recorded > room {
      assert !ResizeRight(recorded, req, recorded, room);
    } else if recorded < req {
      assert !ResizeRight(recorded, req, recorded + 1, room);
    }
  }

  function Lesser(a: nat, b: nat): nat { if a < b then a else b }

  /**
   A move into a chunk of `size` bytes apart from the user's own keeps the first `req` of these,
   or as many as fit, whatever memory holds, exactly when it is right.
   */
  lemma MoveRightIff(p: nat, ptr: nat, recorded: nat, req: nat, size: nat, room: int)
    requires recorded < size && (p + req <= ptr || ptr + size <= p)
    ensures (forall m: Bytes :: SameBytes(MemcpyOf(m, ptr, p, recorded), ptr, m, p, Lesser(req, size)))
       <==> ResizeRight(recorded, req, size, room)
  {
    PrefixIff(ptr, p, recorded, Lesser(req, size), size);
  }

  /** Chunk `c` is in the heap. */
  ghost predicate Live(v: View, c: CView) { exists i: nat, j: nat :: IsChunk(v, i, j) && v[i].chunks[j] == c }

  lemma PlacedLive(v: View, pb: nat, gi: nat, req: nat, rec: nat)
    requires pb < |v| && gi <= |v[pb].chunks|
    ensures Live(PlacedView(v, pb, gi, req, rec), Placed(v[pb], gi, req, rec))
  {
    var c := Placed(v[pb], gi, req, rec);
    InsertIndex(v[pb], gi, c, gi);
    assert IsChunk(PlacedView(v, pb, gi, req, rec), pb, gi);
  }

  function Freed(v: View, bi: nat, ci: nat): View
    requires bi < |v| && ci < |v[bi].chunks|
  {
    if |v[bi].chunks| == 1 then Without(v, bi) else v[bi := Remove(v[bi], ci)]
  }

  /** Freeing a chunk takes exactly its bytes out of use, placing one adds as many. */
  lemma FreedInUse(v: View, bi: nat, ci: nat)
    requires IsChunk(v, bi, ci) && BlockOk(v[bi])
    ensures InUse(Freed(v, bi, ci)) + v[bi].chunks[ci].size == InUse(v)
  {
    RemoveOk(v[bi], ci);
    if |v[bi].chunks| == 1 {
      SumsRemove(v, bi);
    } else {
      SumsUpdate(v, bi, Remove(v[bi], ci));
    }
  }

  lemma PlacedInUse(v: View, bi: nat, gi: nat, req: nat, rec: nat)
    requires bi < |v| && gi <= |v[bi].chunks|
    ensures InUse(PlacedView(v, bi, gi, req, rec)) == InUse(v) + Placed(v[bi], gi, req, rec).size
  {
    var c := Placed(v[bi], gi, req, rec);
    InsertSums(v[bi], gi, c);
    SumsUpdate(v, bi, Insert(v[bi], gi, c));
  }

  /** Freeing one chunk keeps the others. */
  lemma FreedKeepsOthers(v: View, bi: nat, ci: nat, i: nat, j: nat)
    requires IsChunk(v, bi, ci) && IsChunk(v, i, j) && (i != bi || j != ci)
    ensures Live(Freed(v, bi, ci), v[i].chunks[j])
  {
    if |v[bi].chunks| == 1 {
      var k := if i < bi then i else i - 1;
      WithoutIndex(v, bi, k);
      assert IsChunk(Without(v, bi), k, j);
    } else if i == bi {
      var l := if j < ci then j else j - 1;
      RemoveIndex(v[bi], ci, l);
      assert IsChunk(v[bi := Remove(v[bi], ci)], i, l);
    } else {
      assert IsChunk(v[bi := Remove(v[bi], ci)], i, j);
    }
  }

  /** The view with another request, and another record of it, for a chunk. */
  function Retitled(v: View, bi: nat, ci: nat, req: nat, rec: nat): View
    requires bi < |v| && ci < |v[bi].chunks|
  {
    v[bi := RetitledBlock(v[bi], ci, req, rec)]
  }

  function RetitledBlock(b: BView, ci: nat, req: nat, rec: nat): BView
    requires ci < |b.chunks|
  {
    b.(chunks := b.chunks[ci := b.chunks[ci].(req := req, rec := rec)])
  }

  lemma RetitledOrdered(b: BView, ci: nat, req: nat, rec: nat)
    requires BlockOk(b) && ci < |b.chunks|
    ensures BlockOk(RetitledBlock(b, ci, req, rec))
  {
    var cs' := RetitledBlock(b, ci, req, rec).chunks;
    assert forall i | 0 <= i < |cs'| :: cs'[i].addr == b.chunks[i].addr && End(cs'[i]) == End(b.chunks[i]);
  }

  lemma RetitledSums(b: BView, ci: nat, req: nat, rec: nat)
    requires ci < |b.chunks|
    ensures Used(RetitledBlock(b, ci, req, rec)) == Used(b)
    ensures Payload(RetitledBlock(b, ci, req, rec).chunks) == Payload(b.chunks)
  {
    var cs, cs' := b.chunks, RetitledBlock(b, ci, req, rec).chunks;
    assert cs == cs[..ci] + [cs[ci]] + cs[ci + 1..] && cs' == cs[..ci] + [cs'[ci]] + cs[ci + 1..];
    TakenConcat(cs[..ci] + [cs[ci]], cs[ci + 1..]);
    TakenConcat(cs[..ci], [cs[ci]]);
    TakenConcat(cs[..ci] + [cs'[ci]], cs[ci + 1..]);
    TakenConcat(cs[..ci], [cs'[ci]]);
  }

  lemma RetitledLinked(form: Form, cm: Chunks, m: Bytes, b: BView, ci: nat, req: nat, rec: nat)
    requires BlockOk(b) && ChunksLinked(cm, b) && SizesOk(form, b) && RecordsOk(form, m, b)
    requires ci < |b.chunks| && ChunkOk(form, b.chunks[ci].(req := req, rec := rec))
    ensures var b' := RetitledBlock(b, ci, req, rec);
            var a := b.chunks[ci].addr;
            && ChunksLinked(SetChunk(cm, a, cm(a).(requested := rec)), b')
            && SizesOk(form, b') && RecordsOk(form, m, b')
  {
    var b' := RetitledBlock(b, ci, req, rec);
    forall j: nat | j < |b'.chunks|
      ensures ChunkLinked(SetChunk(cm, b.chunks[ci].addr, cm(b.chunks[ci].addr).(requested := rec)), b', j)
    {
      assert ChunkLinked(cm, b, j);
      if j != ci { ChunkAddressesDiffer(b, j, ci); }
    }
  }

  lemma RetitleKeeps(form: Form, bm: Blocks, cm: Chunks, m: Bytes, v: View, bi: nat, ci: nat, req: nat, rec: nat)
    requires HeapOk(form, bm, cm, m, v) && IsChunk(v, bi, ci)
    requires ChunkOk(form, v[bi].chunks[ci].(req := req, rec := rec))
    ensures var a := v[bi].chunks[ci].addr;
            var v' := Retitled(v, bi, ci, req, rec);
            && HeapOk(form, bm, SetChunk(cm, a, cm(a).(requested := rec)), m, v')
            && InUse(v') == InUse(v) && Obtained(v') == Obtained(v)
  {
    var a := v[bi].chunks[ci].addr;
    RetitledOrdered(v[bi], ci, req, rec);
    RetitledSums(v[bi], ci, req, rec);
    RetitledLinked(form, cm, m, v[bi], ci, req, rec);
    assert BlockLinked(bm, v, bi);
    BlockChangeKeeps(form, bm, bm, cm, SetChunk(cm, a, cm(a).(requested := rec)), m, m, v, bi,
                     RetitledBlock(v[bi], ci, req, rec));
    SumsUpdate(v, bi, RetitledBlock(v[bi], ci, req, rec));
  }

  lemma RetitledInView(v: View, bi: nat, ci: nat, req: nat, rec: nat)
    requires IsChunk(v, bi, ci)
    ensures BlockAt(Retitled(v, bi, ci, req, rec), 0) == BlockAt(v, 0)
    ensures forall x: nat :: InView(v, x) ==> InView(Retitled(v, bi, ci, req, rec), x)
  {
    forall x: nat | InView(v, x)
      ensures InView(Retitled(v, bi, ci, req, rec), x)
    {
      var i: nat :| i < |v| && v[i].addr == x;
      assert Retitled(v, bi, ci, req, rec)[i].addr == x;
    }
  }

  lemma RetitledLive(v: View, bi: nat, ci: nat, req: nat, rec: nat)
    requires IsChunk(v, bi, ci)
    ensures var v' := Retitled(v, bi, ci, req, rec);
            && IsChunk(v', bi, ci) && Live(v', v'[bi].chunks[ci])
            && v'[bi].chunks[ci] == v[bi].chunks[ci].(req := req, rec := rec)
            && forall i: nat, j: nat | IsChunk(v, i, j) && (i != bi || j != ci) :: Live(v', v[i].chunks[j])
  {
    var v' := Retitled(v, bi, ci, req, rec);
    assert IsChunk(v', bi, ci);
    forall i: nat, j: nat | IsChunk(v, i, j) && (i != bi || j != ci)
      ensures Live(v', v[i].chunks[j])
    {
      assert IsChunk(v', i, j) && v'[i].chunks[j] == v[i].chunks[j];
    }
  }
}
