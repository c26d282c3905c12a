/**
 The search for a run of free frames, as functions of the bitmap that the methods of
 `BmpPageAllocator` are proved to compute: when a run it returns is free and in bounds, and when
 it finds every run.
 */
module BitmapSearch {
  import opened Bits
  import opened Forms

  // `Corrected` is the search with two repairs: bit `j` for `1 << j`, and bounds.

  /** `OutOfBounds`: the search reads outside the bitmap. */
  datatype Result = Found(frame: nat) | NotFound | OutOfBounds

  // ----- Single frames -----

  /** The first clear bit of a word from bit `j`, or 32. */
  function LowClear(w: bv32, j: nat): (r: nat)
    requires j <= 32
    ensures j <= r <= 32
    ensures r < 32 ==> !Test(w, r)
    ensures forall k: nat | j <= k < r :: Test(w, k)
    decreases 32 - j
  {
    if j == 32 || !Test(w, j) then j else LowClear(w, j + 1)
  }

  /** `FirstFree()` from word `i`, over `limit` words. */
  function FirstClear(ws: Words, limit: nat, i: nat): Result
    decreases limit - i
  {
    if i >= limit then NotFound
    else if i >= |ws| then OutOfBounds
    else if ws[i] != FULL && LowClear(ws[i], 0) < 32 then Found(32 * i + LowClear(ws[i], 0))
    else FirstClear(ws, limit, i + 1)
  }

  ghost predicate LeastClear(ws: Words, from: nat, r: Result) {
    match r
    case Found(f) => f < 32 * |ws| && !Bit(ws, f) && forall g: nat | from <= g < f :: Bit(ws, g)
    case _ => forall g: nat | from <= g < 32 * |ws| :: Bit(ws, g)
  }

  lemma {:induction false} FirstClearLeast(ws: Words, limit: nat, i: nat)
    requires |ws| <= limit && i <= limit
    ensures LeastClear(ws, 32 * i, FirstClear(ws, limit, i))
    ensures FirstClear(ws, limit, i) == NotFound ==> limit == |ws| || i == limit
    ensures FirstClear(ws, limit, i) == OutOfBounds ==> |ws| < limit
    decreases limit - i
  {
    if i < |ws| {
      if ws[i] == FULL {
        FullWord(ws, i);
      } else {
        LowBits(ws, i, LowClear(ws[i], 0));
      }
      if ws[i] == FULL || LowClear(ws[i], 0) == 32 {
        FirstClearLeast(ws, limit, i + 1);
      }
    }
  }

  lemma FullWord(ws: Words, i: nat)
    requires i < |ws| && ws[i] == FULL
    ensures forall g: nat | 32 * i <= g < 32 * i + 32 :: Bit(ws, g)
  {
    forall g: nat | 32 * i <= g < 32 * i + 32
      ensures Bit(ws, g)
    {
      Place(i, g - 32 * i);
      WordFull(g - 32 * i);
    }
  }

  lemma LowBits(ws: Words, i: nat, r: nat)
    requires i < |ws| && r == LowClear(ws[i], 0)
    ensures forall g: nat | 32 * i <= g < 32 * i + r :: Bit(ws, g)
    ensures r < 32 ==> !Bit(ws, 32 * i + r)
  {
    forall g: nat | 32 * i <= g < 32 * i + r
      ensures Bit(ws, g)
    {
      Place(i, g - 32 * i);
    }
    if r < 32 {
      Place(i, r);
    }
  }

  // ----- Runs -----

  /** The count of clear bits from `start`: `n` of them, or the frame that stops them. */
  datatype Count = Fits | Blocked(at: nat) | Past

  function CountClear(ws: Words, start: nat, n: nat, count: nat): (c: Count)
    requires count < n
    ensures c.Blocked? ==> start + count <= c.at < 32 * |ws| && Bit(ws, c.at)
    decreases n - count
  {
    if start + count >= 32 * |ws| then Past
    else if Bit(ws, start + count) then Blocked(start + count)
    else if count + 1 == n then Fits
    else CountClear(ws, start, n, count + 1)
  }

  lemma {:induction false} CountMeans(ws: Words, start: nat, n: nat, count: nat)
    requires count < n
    ensures CountClear(ws, start, n, count) == Fits <==> ClearRun(ws, start + count, n - count)
    decreases n - count
  {
    if start + count < 32 * |ws| && !Bit(ws, start + count) && count + 1 < n {
      CountMeans(ws, start, n, count + 1);
    }
  }

  /**
   The frame that the general path counts from: `i * 32 + j`, or as written `i * 32 + (1 << j)`,
   where bit 31 is the sign: that start is below every bitmap of fewer than 2^31 frames.
   */
  function Start(form: Form, i: nat, j: nat): int
    requires j < 32
  {
    if form == Corrected then 32 * i + j
    else if j == 31 then 32 * i - 0x8000_0000
    else 32 * i + Power(j)
  }

  function Power(j: nat): nat { if j == 0 then 1 else 2 * Power(j - 1) }

  /** What a search does where it stands: take the run, go on at word `to`, or read outside. */
  datatype Step = Take | Next(to: nat) | Outside

  /** The general path at bit `j` of word `i`; a used frame further on moves it to that frame's word. */
  function ScanStep(form: Form, ws: Words, n: nat, i: nat, j: nat): (s: Step)
    requires n > 0 && i < |ws| && j < 32
    ensures s.Next? ==> i <= s.to < |ws|
  {
    if Test(ws[i], j) then Next(i)
    else
      var start := Start(form, i, j);
      if start < 32 * i then Outside
      else
        match CountClear(ws, start, n, 0)
        case Fits => Take
        case Blocked(at) => Next(at / 32)
        case Past => if form == AsWritten then Outside else Next(i)
  }

  /** The general path goes on at the next bit, whatever word it was moved to. */
  function Scan(form: Form, ws: Words, n: nat, i: nat, j: nat): Result
    requires n > 0 && j <= 32
    decreases |ws| - i, 32 - j
  {
    if i >= |ws| then NotFound
    else if j == 32 || (j == 0 && ws[i] == FULL) then Scan(form, ws, n, i + 1, 0)
    else
      match ScanStep(form, ws, n, i, j)
      case Take => Found(32 * i + j)
      case Next(to) => Scan(form, ws, n, to, j + 1)
      case Outside => OutOfBounds
  }

  /** Words `i + j` on that are zero: `needed - j` of them, or the index that stops them. */
  function ZeroWords(ws: Words, i: nat, needed: nat, j: nat): Count
    requires j <= needed
    decreases needed - j
  {
    if j == needed then Fits
    else if i + j >= |ws| then Past
    else if ws[i + j] != 0 then Blocked(j)
    else ZeroWords(ws, i, needed, j + 1)
  }

  /** Whole zero words, then `n % 32` clear bits of the next. */
  function LargeStep(form: Form, ws: Words, n: nat, i: nat): (s: Step)
    requires i < |ws|
    ensures s.Next? ==> i < s.to
  {
    var tooFar := if form == AsWritten then Outside else Next(i + 1);
    if ws[i] != 0 then Next(i + 1)
    else
      match ZeroWords(ws, i, n / 32, 0)
      case Blocked(j) => Next(i + j + 1)
      case Past => tooFar
      case Fits =>
        if n % 32 == 0 then Take
        else if i + n / 32 >= |ws| then tooFar
        else if LowSet(ws[i + n / 32], 0) >= n % 32 then Take
        else Next(i + 1)
  }

  /** The 32-aligned path from word `i`. */
  function LargeScan(form: Form, ws: Words, n: nat, i: nat): Result
    decreases |ws| - i
  {
    if i >= |ws| then NotFound
    else
      match LargeStep(form, ws, n, i)
      case Take => Found(32 * i)
      case Next(to) => LargeScan(form, ws, n, to)
      case Outside => OutOfBounds
  }

  /** The first set bit of a word from bit `k`, or 32. */
  function LowSet(w: bv32, k: nat): (r: nat)
    requires k <= 32
    ensures k <= r <= 32 && forall l: nat | k <= l < r :: !Test(w, l)
    ensures r < 32 ==> Test(w, r)
    decreases 32 - k
  {
    if k == 32 || Test(w, k) then k else LowSet(w, k + 1)
  }

  /** `FirstFree(n)`; as written the single-frame search runs over `total` words, one per frame. */
  function Search(form: Form, ws: Words, total: nat, n: nat): Result {
    if n == 0 then NotFound
    else if n == 1 then FirstClear(ws, if form == AsWritten then total else |ws|, 0)
    else if n > 128 && LargeScan(form, ws, n, 0) != NotFound then LargeScan(form, ws, n, 0)
    else Scan(form, ws, n, 0, 0)
  }

  // ----- Soundness -----

  lemma StepSound(ws: Words, n: nat, i: nat, j: nat)
    requires n > 0 && i < |ws| && j < 32
    ensures var s := ScanStep(Corrected, ws, n, i, j); s != Outside && (s == Take ==> ClearRun(ws, 32 * i + j, n))
  {
    CountMeans(ws, 32 * i + j, n, 0);
  }

  lemma {:induction false} ScanSound(ws: Words, n: nat, i: nat, j: nat)
    requires n > 0 && j <= 32
    ensures var r := Scan(Corrected, ws, n, i, j);
            r != OutOfBounds && (r.Found? ==> r.frame >= 32 * i && ClearRun(ws, r.frame, n))
    decreases |ws| - i, 32 - j
  {
    if i >= |ws| {
    } else if j == 32 || (j == 0 && ws[i] == FULL) {
      ScanSound(ws, n, i + 1, 0);
    } else {
      StepSound(ws, n, i, j);
      match ScanStep(Corrected, ws, n, i, j)
      case Take =>
      case Next(to) => ScanSound(ws, n, to, j + 1);
    }
  }

  lemma {:induction false} ZeroWordsMeans(ws: Words, i: nat, needed: nat, j: nat)
    requires j <= needed
    ensures ZeroWords(ws, i, needed, j) == Fits ==> ClearRun(ws, 32 * (i + j), 32 * (needed - j)) || j == needed
    ensures var c := ZeroWords(ws, i, needed, j); c.Blocked? ==> j <= c.at < needed && i + c.at < |ws|
    ensures ZeroWords(ws, i, needed, j) == Past ==>
              i + j >= |ws| || forall k: nat | i + j <= k < |ws| :: ws[k] == 0
    decreases needed - j
  {
    if j < needed && i + j < |ws| && ws[i + j] == 0 {
      ZeroWordsMeans(ws, i, needed, j + 1);
      if ZeroWords(ws, i, needed, j) == Fits {
        forall f: nat | 32 * (i + j) <= f < 32 * (i + j) + 32
          ensures !Bit(ws, f)
        {
          Place(i + j, f - 32 * (i + j));
          WordFull(f - 32 * (i + j));
        }
      }
    }
  }

  lemma AlignedRun(ws: Words, n: nat, i: nat)
    requires n >= 32 && ClearRun(ws, 32 * i, 32 * (n / 32))
    requires n % 32 == 0 || (i + n / 32 < |ws| && LowSet(ws[i + n / 32], 0) >= n % 32)
    ensures ClearRun(ws, 32 * i, n)
  {
    forall f: nat | 32 * (i + n / 32) <= f < 32 * i + n
      ensures f < 32 * |ws| && !Bit(ws, f)
    {
      Place(i + n / 32, f - 32 * (i + n / 32));
    }
  }

  lemma LargeStepSound(form: Form, ws: Words, n: nat, i: nat)
    requires n >= 32 && i < |ws|
    ensures var s := LargeStep(form, ws, n, i);
            && (s == Take ==> ClearRun(ws, 32 * i, n))
            && (s == Outside ==> form == AsWritten && !Bit(ws, 32 * |ws| - 1))
  {
    ZeroWordsMeans(ws, i, n / 32, 0);
    if LargeStep(form, ws, n, i) == Take {
      AlignedRun(ws, n, i);
    } else if LargeStep(form, ws, n, i) == Outside {
      Place(|ws| - 1, 31);
      WordFull(31);
    }
  }

  lemma {:induction false} LargeSound(form: Form, ws: Words, n: nat, i: nat)
    requires n >= 32
    ensures var r := LargeScan(form, ws, n, i);
            && (r.Found? ==> r.frame >= 32 * i && r.frame % 32 == 0 && ClearRun(ws, r.frame, n))
            && (r == OutOfBounds ==> form == AsWritten && ws != [] && !Bit(ws, 32 * |ws| - 1))
    decreases |ws| - i
  {
    if i < |ws| {
      LargeStepSound(form, ws, n, i);
      var s := LargeStep(form, ws, n, i);
      if s.Next? {
        LargeSound(form, ws, n, s.to);
      }
    }
  }

  /** The repaired search is sound: every run it returns is free and inside the bitmap. */
  lemma SearchSound(ws: Words, total: nat, n: nat)
    requires |ws| <= total
    ensures var r := Search(Corrected, ws, total, n);
            r != OutOfBounds && (r.Found? ==> ClearRun(ws, r.frame, n))
  {
    if n == 1 {
      FirstClearLeast(ws, |ws|, 0);
    } else if n > 1 {
      if n > 128 {
        LargeSound(Corrected, ws, n, 0);
      }
      ScanSound(ws, n, 0, 0);
    }
  }

  /** The single-frame search as written, one word per frame, leaves the bitmap exactly when no frame is free. */
  lemma LiteralFirstFreeIff(ws: Words, total: nat)
    requires |ws| == total / 32 && total > 0
    ensures Search(AsWritten, ws, total, 1) == OutOfBounds <==> forall f: nat | f < 32 * |ws| :: Bit(ws, f)
    ensures Search(AsWritten, ws, total, 1) != OutOfBounds ==>
              Search(AsWritten, ws, total, 1) == Search(Corrected, ws, total, 1)
  {
    FirstClearLeast(ws, total, 0);
    FirstClearLeast(ws, |ws|, 0);
  }

  // ----- Bounds, in both forms -----

  lemma {:induction false} PowerAhead(j: nat)
    ensures Power(j) > j
  {
    if j > 0 {
      PowerAhead(j - 1);
    }
  }

  lemma StepInside(form: Form, ws: Words, n: nat, i: nat, j: nat)
    requires n > 0 && i < |ws| && j < 32
    ensures ScanStep(form, ws, n, i, j) == Take ==> 32 * i + j + n <= 32 * |ws|
  {
    PowerAhead(j);
    if Start(form, i, j) >= 32 * i {
      CountMeans(ws, Start(form, i, j), n, 0);
    }
  }

  lemma {:induction false} ScanInside(form: Form, ws: Words, n: nat, i: nat, j: nat)
    requires n > 0 && j <= 32
    ensures var r := Scan(form, ws, n, i, j); r.Found? ==> r.frame + n <= 32 * |ws|
    decreases |ws| - i, 32 - j
  {
    if i >= |ws| {
    } else if j == 32 || (j == 0 && ws[i] == FULL) {
      ScanInside(form, ws, n, i + 1, 0);
    } else {
      StepInside(form, ws, n, i, j);
      match ScanStep(form, ws, n, i, j)
      case Take =>
      case Outside =>
      case Next(to) => ScanInside(form, ws, n, to, j + 1);
    }
  }

  lemma SearchInside(form: Form, ws: Words, total: nat, n: nat)
    requires |ws| <= total
    ensures var r := Search(form, ws, total, n); r.Found? ==> r.frame + n <= 32 * |ws|
  {
    if n == 1 {
      FirstClearLeast(ws, if form == AsWritten then total else |ws|, 0);
    } else if n > 1 {
      if n > 128 {
        LargeSound(form, ws, n, 0);
      }
      ScanInside(form, ws, n, 0, 0);
    }
  }

  // ----- Runs that the repaired search does find -----

  /** What stops a count is the first used frame; it passes the end only without room for the run. */
  lemma {:induction false} CountFirst(ws: Words, start: nat, n: nat, count: nat)
    requires count < n
    ensures var c := CountClear(ws, start, n, count);
            && (c.Blocked? ==> c.at < start + n && forall g: nat | start + count <= g < c.at :: !Bit(ws, g))
            && (c == Past ==> start + n > 32 * |ws|)
    decreases n - count
  {
    if start + count < 32 * |ws| && !Bit(ws, start + count) && count + 1 < n {
      CountFirst(ws, start, n, count + 1);
    }
  }

  /** The last frame of every word before word `i` is used. */
  ghost predicate EndsUsed(ws: Words, i: nat) {
    i <= |ws| && forall k: nat | k < i :: Bit(ws, 32 * k + 31)
  }

  lemma InWord(f: nat, i: nat)
    ensures f / 32 == i <==> 32 * i <= f < 32 * i + 32
  {
  }

  /** At a frame before a run, in a word whose end is used or that of the run, the scan goes on in that word. */
  lemma StepStays(ws: Words, n: nat, i: nat, j: nat, f: nat)
    requires n > 0 && i < |ws| && j < 32 && ClearRun(ws, f, n) && 32 * i + j <= f
    requires f < 32 * i + 32 || Bit(ws, 32 * i + 31)
    ensures ScanStep(Corrected, ws, n, i, j) in {Take, Next(i)}
    ensures 32 * i + j == f ==> ScanStep(Corrected, ws, n, i, j) == Take
  {
    var g := 32 * i + j;
    Place(i, j);
    CountFirst(ws, g, n, 0);
    CountMeans(ws, g, n, 0);
    var c := CountClear(ws, g, n, 0);
    if !Test(ws[i], j) && c.Blocked? {
      BlockedBefore(ws, n, i, g, f, c.at);
      InWord(c.at, i);
    }
  }

  lemma BlockedBefore(ws: Words, n: nat, i: nat, g: nat, f: nat, at: nat)
    requires n > 0 && ClearRun(ws, f, n) && 32 * i <= g <= f && g < 32 * i + 32 <= 32 * |ws|
    requires g <= at < 32 * |ws| && Bit(ws, at) && at < g + n && forall h: nat | g <= h < at :: !Bit(ws, h)
    requires f < 32 * i + 32 || Bit(ws, 32 * i + 31)
    ensures g < f && at < 32 * i + 32
  {
    assert !(f <= at < f + n);
    assert at < f;
  }

  /** From a frame not behind a run the scan finds one, if the words up to the run's end in used frames. */
  lemma {:induction false} ScanFinds(ws: Words, n: nat, i: nat, j: nat, f: nat)
    requires n > 0 && j <= 32 && ClearRun(ws, f, n) && 32 * i + j <= f && EndsUsed(ws, f / 32)
    ensures var r := Scan(Corrected, ws, n, i, j); r.Found? && 32 * i + j <= r.frame <= f
    decreases |ws| - i, 32 - j
  {
    assert i < |ws| && !Bit(ws, f);
    if j == 32 {
      ScanFinds(ws, n, i + 1, 0, f);
    } else if j == 0 && ws[i] == FULL {
      RunNotInFull(ws, i, f);
      ScanFinds(ws, n, i + 1, 0, f);
    } else {
      InWord(f, i);
      StepStays(ws, n, i, j, f);
      if ScanStep(Corrected, ws, n, i, j) == Next(i) {
        ScanFinds(ws, n, i, j + 1, f);
      }
    }
  }

  lemma RunNotInFull(ws: Words, i: nat, f: nat)
    requires i < |ws| && ws[i] == FULL && 32 * i <= f < 32 * |ws| && !Bit(ws, f)
    ensures 32 * i + 32 <= f
  {
    FullWord(ws, i);
  }

  // ----- 32-aligned runs -----

  /** Words `from` up to `to` are there, and zero. */
  ghost predicate ZeroSpan(ws: Words, from: nat, to: nat) {
    to <= |ws| && forall i: nat | from <= i < to :: ws[i] == 0
  }

  lemma RunWord(ws: Words, w: nat)
    requires w < |ws| && forall f: nat | 32 * w <= f < 32 * w + 32 :: !Bit(ws, f)
    ensures ws[w] == 0
  {
    var word := ws[w];
    forall j: nat | j < 32
      ensures !Test(word, j)
    {
      Place(w, j);
      assert !Bit(ws, 32 * w + j);
    }
    ZeroWord(word);
  }

  lemma RunWords(ws: Words, i: nat, n: nat)
    requires ClearRun(ws, 32 * i, n)
    ensures ZeroSpan(ws, i, i + n / 32)
  {
    forall w: nat | i <= w < i + n / 32
      ensures w < |ws| && ws[w] == 0
    {
      RunWord(ws, w);
    }
  }

  lemma RunRest(ws: Words, i: nat, n: nat)
    requires ClearRun(ws, 32 * i, n) && n % 32 != 0
    ensures i + n / 32 < |ws| && LowSet(ws[i + n / 32], 0) >= n % 32
  {
    var k, low := i + n / 32, LowSet(ws[i + n / 32], 0);
    if low < n % 32 {
      RestClear(ws, i, n, k, low);
    }
  }

  lemma RestClear(ws: Words, i: nat, n: nat, k: nat, low: nat)
    requires ClearRun(ws, 32 * i, n) && k == i + n / 32 && low < n % 32
    ensures k < |ws| && !Test(ws[k], low)
  {
    Place(k, low);
    assert !Bit(ws, 32 * k + low);
  }

  lemma {:induction false} ZeroWordsFit(ws: Words, i: nat, needed: nat, j: nat)
    requires j <= needed && ZeroSpan(ws, i, i + needed)
    ensures ZeroWords(ws, i, needed, j) == Fits
    decreases needed - j
  {
    if j < needed {
      ZeroWordsFit(ws, i, needed, j + 1);
    }
  }

  lemma {:induction false} ZeroWordsBlock(ws: Words, i: nat, needed: nat, j: nat)
    requires j <= needed
    ensures var c := ZeroWords(ws, i, needed, j);
            && (c.Blocked? ==> j <= c.at < needed && i + c.at < |ws| && ws[i + c.at] != 0)
            && (c == Past ==> i + needed > |ws|)
    decreases needed - j
  {
    if j < needed && i + j < |ws| && ws[i + j] == 0 {
      ZeroWordsBlock(ws, i, needed, j + 1);
    }
  }

  /** At word `i` the aligned path takes a run there, and passes over none further on. */
  lemma LargeStepFinds(ws: Words, n: nat, i: nat, k: nat)
    requires n >= 32 && i <= k && ClearRun(ws, 32 * k, n)
    ensures i < |ws|
    ensures var s := LargeStep(Corrected, ws, n, i); s == Take || (i < k && s.Next? && s.to <= k)
  {
    RunWords(ws, k, n);
    ZeroWordsBlock(ws, i, n / 32, 0);
    if i == k {
      ZeroWordsFit(ws, k, n / 32, 0);
      if n % 32 != 0 {
        RunRest(ws, k, n);
      }
    }
  }

  /** The aligned path finds a 32-aligned run wherever there is one, and the first of them. */
  lemma {:induction false} LargeFinds(ws: Words, n: nat, i: nat, k: nat)
    requires n >= 32 && i <= k && ClearRun(ws, 32 * k, n)
    ensures var r := LargeScan(Corrected, ws, n, i); r.Found? && r.frame <= 32 * k
    decreases |ws| - i
  {
    LargeStepFinds(ws, n, i, k);
    var s := LargeStep(Corrected, ws, n, i);
    if s.Next? {
      LargeFinds(ws, n, s.to, k);
    }
  }

  /** A run at the least clear frame. */
  ghost predicate LeastRun(ws: Words, f: nat, n: nat) {
    ClearRun(ws, f, n) && forall g: nat | g < f :: Bit(ws, g)
  }

  /** The first 32-aligned run, at word `k`. */
  ghost predicate FirstAligned(ws: Words, k: nat, n: nat) {
    ClearRun(ws, 32 * k, n) && forall l: nat | l < k :: !ClearRun(ws, 32 * l, n)
  }

  /** Frames that a request of `n` can have and the search is sure to see. */
  ghost predicate Findable(ws: Words, n: nat) {
    || (exists f: nat :: ClearRun(ws, f, n) && EndsUsed(ws, f / 32))
    || (n > 128 && exists k: nat :: ClearRun(ws, 32 * k, n))
  }

  /**
   The repaired search finds a run of `n` frames whenever there is one, and every word before its
   own ends in a used frame; for more than 128 frames also whenever there is a 32-aligned one.
   */
  lemma SearchFinds(ws: Words, total: nat, n: nat)
    requires |ws| <= total && n > 0 && Findable(ws, n)
    ensures Search(Corrected, ws, total, n).Found?
  {
    if n > 128 && exists k: nat :: ClearRun(ws, 32 * k, n) {
      var k: nat :| ClearRun(ws, 32 * k, n);
      LargeFinds(ws, n, 0, k);
    } else {
      var f: nat :| ClearRun(ws, f, n) && EndsUsed(ws, f / 32);
      RunFound(ws, total, n, f);
    }
  }

  /** Up to 128 frames it answers such a run, or one before it. */
  lemma RunFound(ws: Words, total: nat, n: nat, f: nat)
    requires |ws| <= total && n > 0 && ClearRun(ws, f, n) && EndsUsed(ws, f / 32)
    ensures var r := Search(Corrected, ws, total, n); r.Found? && (n <= 128 ==> r.frame <= f)
  {
    if n == 1 {
      FirstClearLeast(ws, |ws|, 0);
      assert !Bit(ws, f);
    } else {
      ScanFinds(ws, n, 0, 0, f);
      if n > 128 {
        LargeSound(Corrected, ws, n, 0);
      }
    }
  }

  /** A run at the least clear frame is the answer to every request that takes no aligned path. */
  lemma LeastFound(ws: Words, total: nat, n: nat, f: nat)
    requires |ws| <= total && 0 < n <= 128 && LeastRun(ws, f, n)
    ensures Search(Corrected, ws, total, n) == Found(f)
  {
    assert !Bit(ws, f);
    RunFound(ws, total, n, f);
    SearchSound(ws, total, n);
    RunEnds(ws, Search(Corrected, ws, total, n).frame, n);
  }

  /** The first 32-aligned run is the answer to every larger request. */
  lemma AlignedFound(ws: Words, total: nat, n: nat, k: nat)
    requires |ws| <= total && n > 128 && FirstAligned(ws, k, n)
    ensures Search(Corrected, ws, total, n) == Found(32 * k)
  {
    LargeFinds(ws, n, 0, k);
    LargeSound(Corrected, ws, n, 0);
    var r := LargeScan(Corrected, ws, n, 0);
    assert r.frame == 32 * (r.frame / 32);
  }

  // ----- Where the search as written goes wrong -----

  ghost predicate Sound(form: Form, ws: Words, n: nat) {
    forall total: nat | |ws| <= total ::
      var r := Search(form, ws, total, n); r.Found? ==> ClearRun(ws, r.frame, n)
  }

  /** Only frame 2 and frames 4 to n + 3 are free. */
  function Holes(n: nat): nat -> bool {
    f => f != 2 && !(4 <= f < n + 4)
  }

  ghost predicate HasHoles(ws: Words, n: nat) {
    |ws| == n + 32 && forall f: nat | f < 32 * |ws| :: Bit(ws, f) == (f != 2 && !(4 <= f < n + 4))
  }

  lemma HolesBits(n: nat)
    ensures HasHoles(Pack(Holes(n), n + 32), n)
  {
    var ws := Pack(Holes(n), n + 32);
    forall f: nat | f < 32 * |ws|
      ensures Bit(ws, f) == (f != 2 && !(4 <= f < n + 4))
    {
      PackBit(Holes(n), n + 32, f);
    }
  }

  lemma RunEnds(ws: Words, f: nat, n: nat)
    requires ClearRun(ws, f, n) && n > 0
    ensures !Bit(ws, f) && !Bit(ws, f + n - 1)
  {
  }

  lemma NoLargeRun(form: Form, ws: Words, n: nat)
    requires n > 128 && ws != [] && Bit(ws, 32 * |ws| - 1)
    requires forall f: nat | f % 32 == 0 :: !ClearRun(ws, f, n)
    ensures LargeScan(form, ws, n, 0) == NotFound
  {
    LargeSound(form, ws, n, 0);
  }

  lemma ScanHole(ws: Words, n: nat)
    requires n >= 2 && ws != [] && Test(ws[0], 0) && Test(ws[0], 1) && !Test(ws[0], 2) && ClearRun(ws, 4, n)
    ensures Scan(AsWritten, ws, n, 0, 0) == Found(2)
  {
    WordFull(2);
    CountMeans(ws, 4, n, 0);
    assert Start(AsWritten, 0, 2) == 4;
    assert Scan(AsWritten, ws, n, 0, 2) == Found(2);
    assert Scan(AsWritten, ws, n, 0, 1) == Found(2);
  }

  lemma NoHoleRun(ws: Words, n: nat)
    requires HasHoles(ws, n) && n > 128
    ensures LargeScan(AsWritten, ws, n, 0) == NotFound
  {
    forall f: nat | f % 32 == 0
      ensures !ClearRun(ws, f, n)
    {
      if ClearRun(ws, f, n) {
        RunEnds(ws, f, n);
      }
    }
    NoLargeRun(AsWritten, ws, n);
  }

  lemma LiteralTakesUsed(ws: Words, n: nat, total: nat)
    requires n >= 2 && HasHoles(ws, n)
    ensures Search(AsWritten, ws, total, n) == Found(2) && Bit(ws, 3)
  {
    if n > 128 {
      NoHoleRun(ws, n);
    }
    Place(0, 0);
    assert Bit(ws, 0) && Bit(ws, 1) && !Bit(ws, 2);
    assert ClearRun(ws, 4, n);
    ScanHole(ws, n);
  }

  /** As written, the search is sound exactly for requests of at most one frame. */
  lemma LiteralSoundIff(n: nat)
    ensures (forall ws: Words :: Sound(AsWritten, ws, n)) <==> n <= 1
  {
    if n <= 1 {
      forall ws: Words, total: nat | |ws| <= total
        ensures Search(AsWritten, ws, total, n).Found? ==> ClearRun(ws, Search(AsWritten, ws, total, n).frame, n)
      {
        FirstClearLeast(ws, total, 0);
      }
    } else {
      HolesBits(n);
      LiteralTakesUsed(Pack(Holes(n), n + 32), n, 32 * (n + 32));
      assert !Sound(AsWritten, Pack(Holes(n), n + 32), n);
    }
  }

  // ----- Where the repaired search misses a run -----

  ghost predicate FindsAny(ws: Words, n: nat) {
    (exists f: nat :: ClearRun(ws, f, n)) ==> Search(Corrected, ws, 32 * |ws|, n).Found?
  }

  /** Only frame 31 and frames 33 to n + 32 are free. */
  function Late(n: nat): nat -> bool {
    f => f != 31 && !(33 <= f < n + 33)
  }

  ghost predicate IsLate(ws: Words, n: nat) {
    |ws| == n + 32 && forall f: nat | f < 32 * |ws| :: Bit(ws, f) == (f != 31 && !(33 <= f < n + 33))
  }

  lemma LateBits(n: nat)
    ensures IsLate(Pack(Late(n), n + 32), n)
  {
    var ws := Pack(Late(n), n + 32);
    forall f: nat | f < 32 * |ws|
      ensures Bit(ws, f) == (f != 31 && !(33 <= f < n + 33))
    {
      PackBit(Late(n), n + 32, f);
    }
  }

  lemma {:induction false} ScanSkips(ws: Words, n: nat, i: nat, j: nat, to: nat)
    requires n > 0 && i < |ws| && j <= to < 32 && ws[i] != FULL
    requires forall k: nat | j <= k < to :: Test(ws[i], k)
    ensures Scan(Corrected, ws, n, i, j) == Scan(Corrected, ws, n, i, to)
    decreases 32 - j
  {
    if j < to {
      ScanSkips(ws, n, i, j + 1, to);
    }
  }

  /**
   A used frame in the next word moves the search there, with `j` still counting: here the
   whole of word 1 is left out, and with it the start of the run.
   */
  lemma ScanLate(ws: Words, n: nat)
    requires n >= 2 && |ws| >= 2 && (forall k: nat | k < 31 :: Test(ws[0], k)) && !Bit(ws, 31) && Bit(ws, 32)
    ensures Scan(Corrected, ws, n, 0, 0) == Scan(Corrected, ws, n, 2, 0)
  {
    Place(0, 31);
    WordFull(31);
    ScanSkips(ws, n, 0, 0, 31);
    assert CountClear(ws, 31, n, 1) == Blocked(32);
    assert CountClear(ws, 31, n, 0) == Blocked(32);
    assert Scan(Corrected, ws, n, 0, 31) == Scan(Corrected, ws, n, 1, 32);
  }

  lemma NoLateRun(ws: Words, n: nat)
    requires IsLate(ws, n) && n > 128
    ensures LargeScan(Corrected, ws, n, 0) == NotFound
  {
    forall f: nat | f % 32 == 0
      ensures !ClearRun(ws, f, n)
    {
      if ClearRun(ws, f, n) {
        RunEnds(ws, f, n);
      }
    }
    NoLargeRun(Corrected, ws, n);
  }

  lemma LateWord(ws: Words, n: nat)
    requires n >= 2 && IsLate(ws, n)
    ensures Scan(Corrected, ws, n, 0, 0) == Scan(Corrected, ws, n, 2, 0)
  {
    forall k: nat | k < 31
      ensures Test(ws[0], k)
    {
      Place(0, k);
      assert Bit(ws, k);
    }
    ScanLate(ws, n);
  }

  lemma MissesRun(ws: Words, n: nat)
    requires n >= 2 && IsLate(ws, n)
    ensures ClearRun(ws, 33, n) && Search(Corrected, ws, 32 * |ws|, n) == NotFound
  {
    if n > 128 {
      NoLateRun(ws, n);
    }
    LateWord(ws, n);
    ScanSound(ws, n, 2, 0);
    var r := Scan(Corrected, ws, n, 2, 0);
    if r.Found? {
      RunEnds(ws, r.frame, n);
    }
  }

  /** Even repaired, the search finds a run in every bitmap that has one exactly for single frames. */
  lemma FindsAnyIff(n: nat)
    ensures (forall ws: Words :: FindsAny(ws, n)) <==> n == 1
  {
    if n == 1 {
      forall ws: Words
        ensures FindsAny(ws, n)
      {
        FirstClearLeast(ws, |ws|, 0);
        if f: nat :| ClearRun(ws, f, 1) {
          RunEnds(ws, f, 1);
        }
      }
    } else if n == 0 {
      assert ClearRun([], 0, 0);
      assert !FindsAny([], 0);
    } else {
      LateBits(n);
      MissesRun(Pack(Late(n), n + 32), n);
      assert !FindsAny(Pack(Late(n), n + 32), n);
    }
  }
}
