/**
 The bitmap allocator of frame runs. Its methods change packed words in place; they are proved
 to add intervals of frames to the set of frames in use and to take them out of it, to count
 every change, and to search as the functions of `BitmapSearch` say.
 */
module BmpPageAllocators {
  import opened Bits
  import opened BitmapSearch
  import opened Forms

  const BLOCK: nat := 0x1000

  datatype Status = Done | OutOfMemory | Fault

  function StatusOf(r: Result): Status {
    match r
    case Found(_) => Done
    case NotFound => OutOfMemory
    case OutOfBounds => Fault
  }

  lemma OneMore(s: set<nat>, first: nat, i: nat)
    ensures s + Interval(first, i) + {first + i} == s + Interval(first, i + 1)
    ensures s - Interval(first, i) - {first + i} == s - Interval(first, i + 1)
  {
  }

  lemma LiteralOnly(form: Form, ws: Words, total: nat, n: nat)
    requires |ws| <= total && Search(form, ws, total, n) == OutOfBounds
    ensures form == AsWritten
  {
    SearchSound(ws, total, n);
  }

  lemma RunIsFree(form: Form, ws: Words, total: nat, n: nat)
    requires |ws| <= total && Search(form, ws, total, n).Found?
    ensures Search(form, ws, total, n).frame + n <= 32 * |ws|
    ensures form == Corrected ==> Interval(Search(form, ws, total, n).frame, n) !! Used(ws)
  {
    SearchSound(ws, total, n);
    SearchInside(form, ws, total, n);
  }

  class BmpPageAllocator {
    const bmp: array<bv32>
    const total: nat
    var used: int
    /** The frames in use, and how many of them the counter does not know of. */
    ghost var frames: set<nat>
    ghost const uncounted: nat

    /** The counter keeps its distance from the number of frames in use: it moves exactly with it. */
    ghost predicate Valid()
      reads this, bmp
    {
      && bmp.Length == total / 32 && frames == Used(bmp[..])
      && Ones(bmp[..], 32 * bmp.Length) == used + uncounted
    }

    /** A bitmap with frames in use; the counter starts at zero whatever the words hold. */
    constructor (words: array<bv32>, total: nat)
      requires words.Length == total / 32
      ensures bmp == words && this.total == total && used == 0 && Valid() && frames == Used(words[..])
    {
      bmp := words;
      this.total := total;
      used := 0;
      frames := Used(words[..]);
      uncounted := Ones(words[..], 32 * words.Length);
    }

    predicate TestBit(bit: nat)
      requires bit < 32 * bmp.Length
      reads bmp
      ensures TestBit(bit) <==> bit in Used(bmp[..])
    {
      Test(bmp[bit / 32], bit % 32)
    }

    method Set(bit: nat)
      requires Valid() && bit < 32 * bmp.Length
      modifies this`used, this`frames, bmp
      ensures Valid() && frames == old(frames) + {bit}
    {
      ghost var ws := bmp[..];
      var was := TestBit(bit);
      bmp[bit / 32] := bmp[bit / 32] | Mask(bit % 32);
      assert bmp[..] == SetBit(ws, bit);
      SetAdds(ws, bit);
      OnesSet(ws, bit);
      frames := frames + {bit};
      if !was {
        used := used + 1;
      }
    }

    method Unset(bit: nat)
      requires Valid() && bit < 32 * bmp.Length
      modifies this`used, this`frames, bmp
      ensures Valid() && frames == old(frames) - {bit}
    {
      ghost var ws := bmp[..];
      var was := TestBit(bit);
      bmp[bit / 32] := bmp[bit / 32] & !Mask(bit % 32);
      assert bmp[..] == UnsetBit(ws, bit);
      UnsetRemoves(ws, bit);
      OnesUnset(ws, bit);
      frames := frames - {bit};
      if was {
        used := used - 1;
      }
    }

    /** The loop of `SetRegion` and of `Alloc`. */
    method SetAll(first: nat, n: nat)
      requires Valid() && (n > 0 ==> first + n <= 32 * bmp.Length)
      modifies this`used, this`frames, bmp
      ensures Valid() && frames == old(frames) + Interval(first, n)
    {
      var i := 0;
      while i < n
        invariant i <= n && Valid() && frames == old(frames) + Interval(first, i)
      {
        OneMore(old(frames), first, i);
        Set(first + i);
        i := i + 1;
      }
    }

    /** The loop of `UnsetRegion` and of `Free`. */
    method UnsetAll(first: nat, n: nat)
      requires Valid() && (n > 0 ==> first + n <= 32 * bmp.Length)
      modifies this`used, this`frames, bmp
      ensures Valid() && frames == old(frames) - Interval(first, n)
    {
      var i := 0;
      while i < n
        invariant i <= n && Valid() && frames == old(frames) - Interval(first, i)
      {
        OneMore(old(frames), first, i);
        Unset(first + i);
        i := i + 1;
      }
    }

    /** Whole blocks only: the bytes of a last partial block are not marked. */
    method SetRegion(addr: nat, size: nat)
      requires Valid() && (size >= BLOCK ==> addr / BLOCK + size / BLOCK <= 32 * bmp.Length)
      modifies this`used, this`frames, bmp
      ensures Valid() && frames == old(frames) + Interval(addr / BLOCK, size / BLOCK)
    {
      SetAll(addr / BLOCK, size / BLOCK);
    }

    /** Frame 0 stays in use whatever the region, so that no allocation is at address 0. */
    method UnsetRegion(addr: nat, size: nat)
      requires Valid() && (size >= BLOCK ==> addr / BLOCK + size / BLOCK <= 32 * bmp.Length) && bmp.Length > 0
      modifies this`used, this`frames, bmp
      ensures Valid() && frames == old(frames) - Interval(addr / BLOCK, size / BLOCK) + {0}
    {
      UnsetAll(addr / BLOCK, size / BLOCK);
      Set(0);
    }

    /** The clear bit that `FirstFree` takes in one word, or 32. */
    method FirstClearBit(i: nat) returns (j: nat)
      requires i < bmp.Length
      ensures j == LowClear(bmp[i], 0)
    {
      var w := bmp[i];
      j := 0;
      while j < 32 && Test(w, j)
        invariant j <= 32 && LowClear(w, 0) == LowClear(w, j)
      {
        j := j + 1;
      }
    }

    /** The first free frame; as written the loop counts frames where it reads words. */
    method FirstFree(form: Form) returns (r: Result)
      requires bmp.Length <= total
      ensures r == FirstClear(bmp[..], if form == AsWritten then total else bmp.Length, 0)
    {
      ghost var ws := bmp[..];
      var limit, i := if form == AsWritten then total else bmp.Length, 0;
      while i < limit
        invariant i <= limit && FirstClear(ws, limit, 0) == FirstClear(ws, limit, i)
      {
        if i >= bmp.Length {
          return OutOfBounds;
        }
        if bmp[i] != FULL {
          var j := FirstClearBit(i);
          if j < 32 {
            return Found(i * 4 * 8 + j);
          }
        }
        i := i + 1;
      }
      r := NotFound;
    }

    /** The count of clear frames from `start`. */
    method CountFree(start: nat, n: nat) returns (c: Count)
      requires n > 0
      ensures c == CountClear(bmp[..], start, n, 0)
    {
      ghost var ws := bmp[..];
      var count := 0;
      while true
        invariant count < n && CountClear(ws, start, n, 0) == CountClear(ws, start, n, count)
        decreases n - count
      {
        if start + count >= 32 * bmp.Length {
          return Past;
        }
        if TestBit(start + count) {
          return Blocked(start + count);
        }
        count := count + 1;
        if count == n {
          return Fits;
        }
      }
    }

    /** The general path at one bit. */
    method TryRun(form: Form, n: nat, i: nat, j: nat) returns (s: Step)
      requires n > 0 && i < bmp.Length && j < 32
      ensures s == ScanStep(form, bmp[..], n, i, j)
    {
      if Test(bmp[i], j) {
        return Next(i);
      }
      var start := Start(form, i, j);
      if start < 32 * i {
        return Outside;
      }
      var c := CountFree(start, n);
      match c
      case Fits => s := Take;
      case Blocked(at) => s := Next(at / 32);
      case Past => s := if form == AsWritten then Outside else Next(i);
    }

    /** The general path. The inner loop moves `i` to the word of a used frame, and keeps its `j`. */
    method FindRun(form: Form, n: nat) returns (r: Result)
      requires n > 0
      ensures r == Scan(form, bmp[..], n, 0, 0)
    {
      ghost var ws := bmp[..];
      var i := 0;
      while i < bmp.Length
        invariant Scan(form, ws, n, 0, 0) == Scan(form, ws, n, i, 0)
        decreases bmp.Length - i
      {
        ghost var i0 := i;
        if bmp[i] != FULL {
          var j := 0;
          while j < 32
            invariant j <= 32 && i0 <= i < bmp.Length && (j == 0 ==> i == i0)
            invariant Scan(form, ws, n, 0, 0) == Scan(form, ws, n, i, j)
          {
            var s := TryRun(form, n, i, j);
            match s
            case Take => return Found(i * 32 + j);
            case Outside => return OutOfBounds;
            case Next(to) => i := to;
            j := j + 1;
          }
        }
        i := i + 1;
      }
      r := NotFound;
    }

    /** The 32-aligned path; as written the words of a run are read without a bound. */
    method FindLarge(form: Form, n: nat) returns (r: Result)
      ensures r == LargeScan(form, bmp[..], n, 0)
    {
      ghost var ws := bmp[..];
      var i := 0;
      while i < bmp.Length
        invariant LargeScan(form, ws, n, 0) == LargeScan(form, ws, n, i)
        decreases bmp.Length - i
      {
        var s := TryLarge(form, n, i);
        match s
        case Take => return Found(i * 32);
        case Outside => return OutOfBounds;
        case Next(to) => i := to;
      }
      r := NotFound;
    }

    /** The zero words from word `i` on. */
    method CountZero(i: nat, needed: nat) returns (c: Count)
      ensures c == ZeroWords(bmp[..], i, needed, 0)
    {
      ghost var ws := bmp[..];
      var j := 0;
      while j < needed
        invariant j <= needed && ZeroWords(ws, i, needed, 0) == ZeroWords(ws, i, needed, j)
      {
        if i + j >= bmp.Length {
          return Past;
        }
        if bmp[i + j] > 0 {
          return Blocked(j);
        }
        j := j + 1;
      }
      c := Fits;
    }

    /** Whether the lowest `n` bits of a word are clear. */
    method LowFree(w: bv32, n: nat) returns (ok: bool)
      requires n <= 32
      ensures ok <==> LowSet(w, 0) >= n
    {
      var k := 0;
      while k < n && !Test(w, k)
        invariant k <= n && LowSet(w, 0) == LowSet(w, k)
      {
        k := k + 1;
      }
      ok := k == n;
    }

    method TryLarge(form: Form, n: nat, i: nat) returns (s: Step)
      requires i < bmp.Length
      ensures s == LargeStep(form, bmp[..], n, i)
    {
      if bmp[i] != 0 {
        return Next(i + 1);
      }
      var c := CountZero(i, n / 32);
      if c.Blocked? {
        return Next(i + c.at + 1);
      }
      var rest := n % 32;
      if c.Past? || (rest > 0 && i + n / 32 >= bmp.Length) {
        return if form == AsWritten then Outside else Next(i + 1);
      }
      var ok := true;
      if rest > 0 {
        ok := LowFree(bmp[i + n / 32], rest);
      }
      s := if ok then Take else Next(i + 1);
    }

    /** `FirstFree(n)`. */
    method FirstFreeRun(form: Form, n: nat) returns (r: Result)
      requires bmp.Length <= total
      ensures r == Search(form, bmp[..], total, n)
    {
      if n == 0 {
        return NotFound;
      }
      if n == 1 {
        r := FirstFree(form);
        return;
      }
      if n > 128 {
        r := FindLarge(form, n);
        if r != NotFound {
          return;
        }
      }
      r := FindRun(form, n);
    }

    /** The answer to a request for `n` frames: refused when too few are counted free or no run is found. */
    ghost function Answer(form: Form, n: nat): Result
      requires bmp.Length <= total
      reads this, bmp
    {
      if total - used < n then NotFound else Search(form, bmp[..], total, n)
    }

    /** Enough frames are counted free, and a run of `n` is sure to be seen. */
    ghost predicate Serves(n: nat)
      reads this, bmp
    {
      n > 0 && total - used >= n && Findable(bmp[..], n)
    }

    /** What the answer means in terms of frames: when a run is found, and which. */
    lemma AnswerMeans(n: nat)
      requires Valid() && n > 0 && total - used >= n
      ensures Findable(bmp[..], n) ==> Answer(Corrected, n).Found?
      ensures (forall f: nat :: !ClearRun(bmp[..], f, n)) ==> Answer(Corrected, n) == NotFound
      ensures Answer(Corrected, n) != OutOfBounds
      ensures Answer(Corrected, n).Found? ==> ClearRun(bmp[..], Answer(Corrected, n).frame, n)
      ensures forall f: nat | n <= 128 && LeastRun(bmp[..], f, n) :: Answer(Corrected, n) == Found(f)
      ensures forall k: nat | n > 128 && FirstAligned(bmp[..], k, n) :: Answer(Corrected, n) == Found(32 * k)
    {
      SearchSound(bmp[..], total, n);
      if Findable(bmp[..], n) {
        SearchFinds(bmp[..], total, n);
      }
      forall f: nat | n <= 128 && LeastRun(bmp[..], f, n)
        ensures Answer(Corrected, n) == Found(f)
      {
        LeastFound(bmp[..], total, n, f);
      }
      forall k: nat | n > 128 && FirstAligned(bmp[..], k, n)
        ensures Answer(Corrected, n) == Found(32 * k)
      {
        AlignedFound(bmp[..], total, n, k);
      }
    }

    /**
     Takes `n` frames. With the repaired search they were free, so runs that are held are disjoint;
     and it takes some when enough are counted free and a run is sure to be seen: the one at the
     least clear frame, up to 128 frames, or the first 32-aligned one.
     */
    method Alloc(form: Form, n: nat) returns (st: Status, addr: nat)
      requires Valid()
      modifies this`used, this`frames, bmp
      ensures Valid() && st == StatusOf(old(Answer(form, n)))
      ensures st == Done ==> addr == old(Answer(form, n)).frame * BLOCK
      ensures st == Done ==> frames == old(frames) + Interval(old(Answer(form, n)).frame, n)
      ensures st != Done ==> bmp[..] == old(bmp[..]) && used == old(used) && frames == old(frames)
      ensures form == Corrected ==> st != Fault
      ensures form == Corrected && st == Done ==> Interval(old(Answer(form, n)).frame, n) !! old(frames)
      ensures st == Done ==> old(Answer(form, n)).frame + n <= 32 * bmp.Length
      ensures n == 0 || total - old(used) < n ==> st == OutOfMemory
      ensures form == Corrected && old(Serves(n)) ==> st == Done
      ensures form == Corrected && n > 0 && total - old(used) >= n ==>
                && (st == Done ==> addr % BLOCK == 0 && old(ClearRun(bmp[..], addr / BLOCK, n)))
                && (forall f: nat | n <= 128 && old(LeastRun(bmp[..], f, n)) :: st == Done && addr == f * BLOCK)
                && (forall k: nat | n > 128 && old(FirstAligned(bmp[..], k, n)) :: st == Done && addr == 32 * k * BLOCK)
    {
      if form == Corrected && n > 0 && total - used >= n {
        AnswerMeans(n);
      }
      addr := 0;
      if total - used < n {
        return OutOfMemory, 0;
      }
      var r := FirstFreeRun(form, n);
      if r == NotFound {
        return OutOfMemory, 0;
      } else if r == OutOfBounds {
        LiteralOnly(form, bmp[..], total, n);
        return Fault, 0;
      }
      RunIsFree(form, bmp[..], total, n);
      SetAll(r.frame, n);
      return Done, r.frame * BLOCK;
    }

    method Free(addr: nat, n: nat)
      requires Valid() && (n > 0 ==> addr / BLOCK + n <= 32 * bmp.Length)
      modifies this`used, this`frames, bmp
      ensures Valid() && frames == old(frames) - Interval(addr / BLOCK, n)
    {
      UnsetAll(addr / BLOCK, n);
    }
  }
}
