/**
 The dispatcher over the free stack (single frames) and the bitmap (runs), and the memory
 manager's calls into it. Every operation keeps a partition of the frames: clear in the bitmap,
 on the stack, outstanding, or reserved since the start.
 */
module PageAllocators {
  import opened Bits
  import opened BitmapSearch
  import opened BmpPageAllocators
  import opened Forms
  import opened FrameStack

  const DWORDS: nat := 0x1_0000_0000

  /** A number of frames in bytes, in 32 bits. */
  function BytesOf(frames: int): nat {
    frames * BLOCK % DWORDS
  }

  class PageAllocator {
    const stack: StackPageAllocator
    /** Frames that callers hold, and frames in use when the allocator was set up. */
    ghost var out: set<nat>
    ghost const reserved: set<nat>

    /** Frames in use are on the stack, outstanding or reserved, and no two of these. */
    ghost predicate Partition()
      reads this, stack, stack.bitmap, stack.bitmap.bmp
    {
      && stack.Valid() && 0 in reserved && out !! reserved && stack.Outside() == out + reserved
    }

    /** The four parts are disjoint and cover the frames. */
    ghost predicate ExactlyOne(f: nat)
      reads this, stack, stack.bitmap
    {
      && !(f !in stack.bitmap.frames && (f in RunFrames(stack.runs) || f in out || f in reserved))
      && (f !in stack.bitmap.frames || f in RunFrames(stack.runs) || f in out || f in reserved)
      && !(f in RunFrames(stack.runs) && (f in out || f in reserved)) && !(f in out && f in reserved)
    }

    lemma PartitionMeans()
      requires Partition()
      ensures forall f: nat :: ExactlyOne(f)
      ensures |stack.bitmap.frames| == Total(stack.runs) + |out| + |reserved|
    {
      var fs, on := stack.bitmap.frames, RunFrames(stack.runs);
      LinkedHeld(stack.runs, stack.space);
      assert fs == on + (out + reserved);
      assert on !! (out + reserved);
    }

    lemma CountedFrames()
      requires Partition()
      ensures stack.bitmap.used - Total(stack.runs) == |out| + |reserved| - stack.bitmap.uncounted
    {
      PartitionMeans();
      OnesIsSize(stack.bitmap.bmp[..], 32 * stack.bitmap.bmp.Length);
    }

    /** The stack starts with 32 MiB of frames. */
    constructor (bitmap: BmpPageAllocator, form: Form, low: nat, high: nat)
      requires bitmap.Valid() && 0 in bitmap.frames && 0 < low < high
      modifies bitmap`used, bitmap`frames, bitmap.bmp
      ensures stack.halted <==> old(bitmap.Answer(Corrected, 0x2000)) == NotFound
      ensures stack.halted ==> !old(bitmap.Serves(0x2000))
      ensures !stack.halted ==>
                Partition() && out == {} && reserved == old(bitmap.frames) && Total(stack.runs) == 0x2000
    {
      out, reserved := {}, bitmap.frames;
      stack := new StackPageAllocator(bitmap, 0x2000, form, low, high);
    }

    /** A single frame off the stack; it was not outstanding. */
    method AllocOne() returns (st: Outcome, addr: nat)
      requires Partition()
      modifies this`out, stack`space, stack`next, stack`runs, stack.bitmap`used, stack.bitmap`frames, stack.bitmap.bmp
      ensures st == Panic <==> old(stack.runs).Bottom? && old(stack.bitmap.Answer(Corrected, 16)) == NotFound
      ensures st == Panic ==> !old(stack.bitmap.Serves(16))
      ensures st == NoPage <==> old(stack.Exhausts())
      ensures st == Served ==> Partition() && addr != 0 && addr % BLOCK == 0
      ensures st == Served ==> addr / BLOCK !in old(out) && out == old(out) + {addr / BLOCK}
    {
      ghost var frame, lost;
      st, addr, frame, lost := stack.Alloc();
      if st == Served {
        out := out + {frame};
      }
    }

    /** A run off the bitmap, or address 0. */
    method AllocRun(n: nat) returns (addr: nat)
      requires Partition() && n != 1
      modifies this`out, stack.bitmap`used, stack.bitmap`frames, stack.bitmap.bmp
      ensures Partition() && addr % BLOCK == 0
      ensures addr == 0 <==> old(stack.bitmap.Answer(Corrected, n)) == NotFound
      ensures addr == 0 ==> out == old(out) && !old(stack.bitmap.Serves(n))
      ensures addr != 0 ==> Interval(addr / BLOCK, n) !! old(out) && out == old(out) + Interval(addr / BLOCK, n)
    {
      var kr;
      kr, addr := stack.bitmap.Alloc(Corrected, n);
      if kr != Done {
        addr := 0;
      } else {
        ghost var run := Interval(old(stack.bitmap.Answer(Corrected, n)).frame, n);
        NotAtZero(old(stack.bitmap.Answer(Corrected, n)).frame, n, reserved);
        out := out + run;
      }
    }

    method Alloc(n: nat) returns (st: Outcome, addr: nat)
      requires Partition()
      modifies this`out, stack`space, stack`next, stack`runs, stack.bitmap`used, stack.bitmap`frames, stack.bitmap.bmp
      ensures st == Panic <==> n == 1 && old(stack.runs).Bottom? && old(stack.bitmap.Answer(Corrected, 16)) == NotFound
      ensures st == Panic ==> !old(stack.bitmap.Serves(16))
      ensures st == NoPage <==> n == 1 && old(stack.Exhausts())
      ensures st == Served ==> Partition() && addr % BLOCK == 0
      ensures st == Served && addr == 0 ==> n != 1 && out == old(out) && !old(stack.bitmap.Serves(n))
      ensures st == Served && addr != 0 ==>
                Interval(addr / BLOCK, n) !! old(out) && out == old(out) + Interval(addr / BLOCK, n)
    {
      if n == 1 {
        st, addr := AllocOne();
        if st == Served {
          assert Interval(addr / BLOCK, 1) == {addr / BLOCK};
        }
      } else {
        addr := AllocRun(n);
        st := Served;
      }
    }

    /**
     Frees what the caller holds; a single frame at an address inside a page stays outstanding, and
     one at a page fails without a virtual page for its node.
     */
    method Free(addr: nat, n: nat) returns (st: Outcome)
      requires Partition() && Interval(addr / BLOCK, n) <= out
      modifies this`out, stack`space, stack`next, stack`runs, stack.bitmap`used, stack.bitmap`frames, stack.bitmap.bmp
      ensures st != Panic
      ensures st == NoPage <==> n == 1 && addr % BLOCK == 0 && Full(stack.low, stack.high, old(stack.space).held)
      ensures st == Served ==> Partition()
      ensures st == Served ==>
                out == if n == 1 && addr % BLOCK != 0 then old(out) else old(out) - Interval(addr / BLOCK, n)
      ensures st == Served && n == 1 && addr % BLOCK == 0 ==>
                RunFrames(stack.runs) == old(RunFrames(stack.runs)) + {addr / BLOCK}
      ensures st == Served && n != 1 ==> stack.bitmap.frames == old(stack.bitmap.frames) - Interval(addr / BLOCK, n)
    {
      if n == 1 {
        assert Interval(addr / BLOCK, 1) == {addr / BLOCK};
        st := stack.Free(addr);
        if st == Served && addr % BLOCK == 0 {
          out := out - {addr / BLOCK};
        }
      } else {
        if n > 0 {
          InsideBitmap(addr / BLOCK, n, stack.bitmap.bmp[..]);
        }
        stack.bitmap.Free(addr, n);
        out := out - Interval(addr / BLOCK, n);
        st := Served;
      }
    }

    method UsedFrames() returns (frames: int)
      requires Partition()
      ensures frames == |out| + |reserved| - stack.bitmap.uncounted
    {
      CountedFrames();
      var pages := stack.GetTotalPages();
      frames := stack.bitmap.used - pages;
    }

    /** Frames in use less those on the stack, in bytes, computed in 32 bits. */
    method GetUsedBytes() returns (bytes: nat)
      requires Partition()
      ensures bytes == BytesOf(|out| + |reserved| - stack.bitmap.uncounted)
    {
      var frames := UsedFrames();
      bytes := BytesOf(frames);
    }
  }

  lemma NotAtZero(frame: nat, n: nat, reserved: set<nat>)
    requires n > 1 && 0 in reserved && Interval(frame, n) !! reserved
    ensures frame > 0 && frame * BLOCK != 0 && frame * BLOCK / BLOCK == frame && frame * BLOCK % BLOCK == 0
  {
    assert Within(frame, frame, n);
  }

  lemma InsideBitmap(first: nat, n: nat, ws: Words)
    requires Interval(first, n) <= Used(ws) && n > 0
    ensures first + n <= 32 * |ws|
  {
    assert first + n - 1 in Interval(first, n);
  }

  // ----- The memory manager -----

  /** `ConvertPageCount`: the product is taken in 32 bits. */
  function ConvertPageCount(n: nat, pageSize: nat): nat {
    n * pageSize % DWORDS / BLOCK
  }

  /** A count of pages is converted right exactly when its bytes fit 32 bits. */
  lemma ConvertIff(n: nat, k: nat)
    ensures ConvertPageCount(n, k * BLOCK) == n * k <==> n * k < DWORDS / BLOCK
  {
    var m := n * k;
    assert n * (k * BLOCK) == m * BLOCK;
    if m < DWORDS / BLOCK {
      assert m * BLOCK % DWORDS == m * BLOCK;
    } else {
      assert m * BLOCK % DWORDS < DWORDS;
    }
  }

  /** The bytes in use are reported right exactly below 4 GiB. */
  lemma BytesIff(frames: nat)
    ensures BytesOf(frames) == frames * BLOCK <==> frames < DWORDS / BLOCK
  {
  }
}
