/** The alignment macros of `KHeap.cpp`: rounding a payload up to 16 bytes, and finding back. */
module HeapAlign {
  import opened Forms
  import opened HeapView
  import opened Memcpy

  const ALIGNMENT: nat := 16
  /** What `Alloc` adds to a request so that the rounded pointer fits. */
  const EXTRA: nat := 32

  function Raw(chunk: nat): nat { chunk + CHUNK_HEADER }

  /** How far rounding moves the pointer. */
  function Shift(chunk: nat): nat {
    var diff := (Raw(chunk) + ALIGNMENT) % ALIGNMENT;
    if diff != 0 then ALIGNMENT - diff else 0
  }

  /** The pointer handed out for a chunk. */
  function UserPtr(chunk: nat): nat { Raw(chunk) + ALIGNMENT + Shift(chunk) }

  /**
   `HEAP_ALIGN` records how far it moved a pointer in the byte 16 below it. `AsWritten` takes
   that address before rounding, as the source does; `Corrected` after rounding, where
   `UNALIGN` reads. The form also decides whether case 2 of `Alloc` records the request.
   */
  function RecordAddr(form: Form, chunk: nat): nat {
    if form.AsWritten? then Raw(chunk) else UserPtr(chunk) - ALIGNMENT
  }

  function Record(chunk: nat): Byte { Shift(chunk) + ALIGNMENT }

  /** `UNALIGN`. */
  function Unalign(m: Bytes, p: nat): int
    requires p >= ALIGNMENT
  {
    var diff := m(p - ALIGNMENT);
    if diff < ALIGNMENT + ALIGNMENT then p - diff else p
  }

  /** The pointer is aligned, behind the record, and has room for every request that the chunk was sized for. */
  lemma PtrInside(c: CView, req: nat)
    ensures UserPtr(c.addr) % ALIGNMENT == 0 && Raw(c.addr) + ALIGNMENT <= UserPtr(c.addr)
    ensures req + EXTRA <= c.size ==> UserPtr(c.addr) + req <= End(c)
  {
  }

  lemma RecordInside(form: Form, c: CView)
    requires EXTRA <= c.size
    ensures Raw(c.addr) <= RecordAddr(form, c.addr) < UserPtr(c.addr) <= End(c)
  {
  }

  /** With the record in place, `UNALIGN` undoes `HEAP_ALIGN`. */
  lemma UnalignInverts(form: Form, m: Bytes, chunk: nat)
    requires m(RecordAddr(form, chunk)) == Record(chunk) && (form.AsWritten? ==> chunk % ALIGNMENT == 0)
    ensures Unalign(m, UserPtr(chunk)) == Raw(chunk)
  {
  }

  /** As written, it does so for every earlier content of memory exactly when the chunk is 16-byte aligned. */
  lemma LiteralUnalignIff(chunk: nat)
    ensures (forall m: Bytes ::
               Unalign(Put(m, RecordAddr(AsWritten, chunk), Record(chunk)), UserPtr(chunk)) == Raw(chunk))
       <==> chunk % ALIGNMENT == 0
  {
    if chunk % ALIGNMENT == 0 {
      forall m: Bytes
        ensures Unalign(Put(m, RecordAddr(AsWritten, chunk), Record(chunk)), UserPtr(chunk)) == Raw(chunk)
      {
        UnalignInverts(AsWritten, Put(m, RecordAddr(AsWritten, chunk), Record(chunk)), chunk);
      }
    } else {
      var m: Bytes := (x: nat) => 0;
      assert Unalign(Put(m, RecordAddr(AsWritten, chunk), Record(chunk)), UserPtr(chunk)) != Raw(chunk);
    }
  }

  // ----- Requests near the end of the word -----

  /** A request with the two machine words that `Alloc` computes from it: with rounding, and with a header too. */
  datatype Ask = Ask(req: nat, size: nat, need: nat)

  function Size(req: nat): nat { (req + EXTRA) % WORD }

  function AskFor(req: nat): Ask { Ask(req, Size(req), (Size(req) + CHUNK_HEADER) % WORD) }

  /** Neither sum wraps around. */
  predicate NoWrap(req: nat) { req + EXTRA + CHUNK_HEADER < WORD }

  predicate Exact(a: Ask) { a.size == a.req + EXTRA && a.need == a.size + CHUNK_HEADER }

  lemma AskedExactly(req: nat)
    ensures NoWrap(req) ==> Exact(AskFor(req))
    ensures AskFor(req).size < WORD && AskFor(req).need < WORD
  {
  }

  // ----- The size of a new block -----

  function ToInt32(x: nat): int {
    var low := x % 0x1_0000_0000;
    if low < 0x8000_0000 then low else low - 0x1_0000_0000
  }

  function PagesFor(bytes: nat, pageSize: nat): nat
    requires pageSize > 0
  {
    if bytes % pageSize == 0 then bytes / pageSize else bytes / pageSize + 1
  }

  /** `AllocNewPage`: pages for a block with room for a chunk of `size`, counted in an `int`. */
  function NewBlockPages(size: nat, pageSize: nat, minPages: nat): nat
    requires pageSize > 0
  {
    var st := PagesFor(NewBlockBytes(size), pageSize);
    if ToInt32(st) < minPages then minPages else st
  }

  function NewBlockSize(size: nat, pageSize: nat, minPages: nat): nat
    requires pageSize > 0
  {
    NewBlockPages(size, pageSize, minPages) * pageSize
  }

  lemma PagesCover(bytes: nat, pageSize: nat)
    requires pageSize > 0
    ensures PagesFor(bytes, pageSize) * pageSize >= bytes
  {
    var q := bytes / pageSize;
    assert bytes == q * pageSize + bytes % pageSize;
    assert (q + 1) * pageSize == q * pageSize + pageSize;
  }

  lemma FewerPagesFail(bytes: nat, pageSize: nat, n: nat)
    requires pageSize > 0 && n < PagesFor(bytes, pageSize)
    ensures n * pageSize < bytes
  {
    var q := bytes / pageSize;
    assert bytes == q * pageSize + bytes % pageSize;
    if n < q {
      TimesMonotone(pageSize, n, q);
    }
  }

  /** The bytes that a new block needs, as the code computes them. */
  function NewBlockBytes(size: nat): nat { (size + BLOCK_HEADER + CHUNK_HEADER) % WORD }

  /**
   The bytes do not wrap around, and their page count, read as an `int`, is not below a minimum
   that would then replace it.
   */
  predicate PageCountOk(size: nat, pageSize: nat, minPages: nat)
    requires pageSize > 0
  {
    var pages := PagesFor(NewBlockBytes(size), pageSize);
    && NewBlockBytes(size) == BLOCK_HEADER + (size + CHUNK_HEADER) % WORD
    && (ToInt32(pages) >= minPages || pages <= minPages)
  }

  /** With such a page count a new block has room for the chunk it is made for. */
  lemma NewBlockFits(size: nat, pageSize: nat, minPages: nat)
    requires pageSize > 0 && PageCountOk(size, pageSize, minPages)
    ensures NewBlockSize(size, pageSize, minPages) >= BLOCK_HEADER + (size + CHUNK_HEADER) % WORD
  {
    MorePagesFit(NewBlockBytes(size), pageSize, NewBlockPages(size, pageSize, minPages));
  }

  /** It is the least such count that is not below the minimum. */
  lemma NewBlockLeast(size: nat, pageSize: nat, minPages: nat, n: nat)
    requires pageSize > 0
    ensures minPages <= NewBlockPages(size, pageSize, minPages)
    ensures minPages <= n < NewBlockPages(size, pageSize, minPages) ==> n * pageSize < NewBlockBytes(size)
  {
    if minPages <= n < NewBlockPages(size, pageSize, minPages) {
      FewerPagesFail(NewBlockBytes(size), pageSize, n);
    }
  }

  lemma SmallProduct(p: nat, q: nat, m: nat, n: nat)
    requires p <= m && q <= n
    ensures p * q <= m * n
  {
    assert p * q <= p * n by { assert p * n == p * q + p * (n - q); }
    assert p * n <= m * n by { assert m * n == p * n + (m - p) * n; }
  }

  /** Otherwise it has not: the minimum replaced a larger count, or the sum wrapped around. */
  lemma NewBlockFitsIff(size: nat, pageSize: nat, minPages: nat)
    requires size < WORD && 0 < pageSize <= 0x4000_0000 && minPages < 0x8000_0000
    ensures NewBlockSize(size, pageSize, minPages) >= BLOCK_HEADER + (size + CHUNK_HEADER) % WORD
       <==> PageCountOk(size, pageSize, minPages)
  {
    var bytes, pages := NewBlockBytes(size), PagesFor(NewBlockBytes(size), pageSize);
    if PageCountOk(size, pageSize, minPages) {
      NewBlockFits(size, pageSize, minPages);
    } else if bytes == BLOCK_HEADER + (size + CHUNK_HEADER) % WORD {
      FewerPagesFail(bytes, pageSize, minPages);
    } else {
      SumWraps(size);
      FewPages(bytes, pageSize);
      SmallProduct(NewBlockPages(size, pageSize, minPages), pageSize, 0x8000_0000, 0x4000_0000);
    }
  }

  lemma SumWraps(size: nat)
    requires size < WORD && NewBlockBytes(size) != BLOCK_HEADER + (size + CHUNK_HEADER) % WORD
    ensures NewBlockBytes(size) < BLOCK_HEADER && WORD <= BLOCK_HEADER + (size + CHUNK_HEADER) % WORD
  {
  }

  lemma FewPages(bytes: nat, pageSize: nat)
    requires pageSize > 0 && bytes < BLOCK_HEADER
    ensures PagesFor(bytes, pageSize) <= BLOCK_HEADER
  {
  }

  /** A block of 2^31 pages is made with the minimum of 16. */
  lemma TooFewPages()
    ensures var size := 0x8000_0000 * 4096 - BLOCK_HEADER - CHUNK_HEADER;
            && PagesFor(NewBlockBytes(size), 4096) == 0x8000_0000 && NewBlockSize(size, 4096, 16) == 65536
            && !PageCountOk(size, 4096, 16)
  {
  }

  lemma MorePagesFit(bytes: nat, pageSize: nat, n: nat)
    requires pageSize > 0 && PagesFor(bytes, pageSize) <= n
    ensures n * pageSize >= bytes
  {
    PagesCover(bytes, pageSize);
    if PagesFor(bytes, pageSize) < n {
      TimesMonotone(pageSize, PagesFor(bytes, pageSize), n);
    }
  }
}
