/**
 The words of the frame bitmap: 32 frames a word, a set bit for a frame in use. Setting and
 clearing a bit of a packed word adds and removes one frame of the set of frames in use.
 */
module Bits {
  type Words = seq<bv32>

  const FULL: bv32 := 0xFFFF_FFFF

  /** `1 << j`. */
  function Mask(j: nat): bv32 {
    if j == 0 then 1 else Mask(j - 1) << 1
  }

  predicate Hit(w: bv32, a: bv32) {
    w & a != 0
  }

  predicate Test(w: bv32, j: nat)
    requires j < 32
  {
    Hit(w, Mask(j))
  }

  /** `TestBit`. */
  predicate Bit(ws: Words, f: nat)
    requires f < 32 * |ws|
  {
    Test(ws[f / 32], f % 32)
  }

  /** The frames in use. */
  ghost function Used(ws: Words): set<nat> {
    set f: nat | f < 32 * |ws| && Bit(ws, f)
  }

  predicate Within(f: nat, from: nat, n: nat) {
    from <= f < from + n
  }

  function Interval(from: nat, n: nat): set<nat> {
    set f: nat | f < from + n && Within(f, from, n)
  }

  lemma {:induction false} IntervalSize(from: nat, n: nat)
    ensures |Interval(from, n)| == n
  {
    if n > 0 {
      IntervalSize(from, n - 1);
      assert Interval(from, n) == Interval(from, n - 1) + {from + n - 1};
    }
  }

  ghost predicate ClearRun(ws: Words, from: nat, n: nat) {
    from + n <= 32 * |ws| && forall f: nat | from <= f < from + n :: !Bit(ws, f)
  }

  lemma Place(i: nat, j: nat)
    requires j < 32
    ensures (32 * i + j) / 32 == i && (32 * i + j) % 32 == j
  {
  }

  function Up(a: bv32, n: nat): bv32
    decreases n
  {
    if n == 0 then a else Up(a << 1, n - 1)
  }

  lemma {:induction false} UpMask(j: nat, n: nat)
    ensures Up(Mask(j), n) == Mask(j + n) && Up(0, n) == 0
    decreases n
  {
    if n > 0 {
      UpMask(j + 1, n - 1);
    }
  }

  lemma LastMask()
    ensures Mask(31) == 0x8000_0000
  {
    assert Mask(1) == 0x2 && Mask(2) == 0x4;
    assert Mask(3) == 0x8 && Mask(4) == 0x10;
    assert Mask(5) == 0x20 && Mask(6) == 0x40;
    assert Mask(7) == 0x80 && Mask(8) == 0x100;
    assert Mask(9) == 0x200 && Mask(10) == 0x400;
    assert Mask(11) == 0x800 && Mask(12) == 0x1000;
    assert Mask(13) == 0x2000 && Mask(14) == 0x4000;
    assert Mask(15) == 0x8000 && Mask(16) == 0x10000;
    assert Mask(17) == 0x20000 && Mask(18) == 0x40000;
    assert Mask(19) == 0x80000 && Mask(20) == 0x100000;
    assert Mask(21) == 0x200000 && Mask(22) == 0x400000;
    assert Mask(23) == 0x800000 && Mask(24) == 0x1000000;
    assert Mask(25) == 0x2000000 && Mask(26) == 0x4000000;
    assert Mask(27) == 0x8000000 && Mask(28) == 0x10000000;
    assert Mask(29) == 0x20000000 && Mask(30) == 0x40000000;
  }

  lemma MaskSome(j: nat)
    requires j < 32
    ensures Mask(j) != 0
  {
    UpMask(j, 31 - j);
    LastMask();
  }

  lemma ShiftApart(a: bv32, b: bv32)
    ensures 1 & (b << 1) == 0
    ensures a & b == 0 ==> (a << 1) & (b << 1) == 0
  {
  }

  lemma {:induction false} MasksApart(j: nat, k: nat)
    requires j != k
    ensures Mask(j) & Mask(k) == 0
  {
    if j == 0 {
      ShiftApart(1, Mask(k - 1));
    } else if k == 0 {
      ShiftApart(1, Mask(j - 1));
    } else {
      MasksApart(j - 1, k - 1);
      ShiftApart(Mask(j - 1), Mask(k - 1));
    }
  }

  lemma HitSetSame(w: bv32, a: bv32, v: bv32)
    requires v == w | a && a != 0
    ensures Hit(v, a)
  {
  }

  lemma HitUnsetSame(w: bv32, a: bv32, v: bv32)
    requires v == w & !a
    ensures !Hit(v, a)
  {
  }

  lemma HitSetApart(w: bv32, a: bv32, b: bv32, v: bv32)
    requires v == w | a && a & b == 0
    ensures Hit(v, b) == Hit(w, b)
  {
  }

  lemma HitUnsetApart(w: bv32, a: bv32, b: bv32, v: bv32)
    requires v == w & !a && a & b == 0
    ensures Hit(v, b) == Hit(w, b)
  {
  }

  lemma HitFull(a: bv32)
    requires a != 0
    ensures Hit(FULL, a) && !Hit(0, a)
  {
  }

  lemma WordFull(k: nat)
    requires k < 32
    ensures Test(FULL, k) && !Test(0, k)
  {
    MaskSome(k);
    HitFull(Mask(k));
  }

  /** The lowest `k` bits. */
  function LowOnes(k: nat): bv32 { if k == 0 then 0 else LowOnes(k - 1) | Mask(k - 1) }

  lemma JoinMask(u: bv32, m: bv32, m': bv32)
    requires u == m - 1 && m & u == 0 && m' == m << 1
    ensures u | m == m' - 1
    ensures m' & (m' - 1) == 0
  {
  }

  lemma {:induction false} LowOnesIs(k: nat)
    ensures LowOnes(k) == Mask(k) - 1 && Mask(k) & (Mask(k) - 1) == 0
  {
    if k > 0 {
      LowOnesIs(k - 1);
      JoinMask(LowOnes(k - 1), Mask(k - 1), Mask(k));
    }
  }

  lemma AllOnes()
    ensures LowOnes(32) == FULL
  {
    LowOnesIs(32);
    LastMask();
    assert Mask(32) == 0;
  }

  lemma BothClear(w: bv32, a: bv32, b: bv32, c: bv32)
    requires w & a == 0 && w & b == 0 && c == a | b
    ensures w & c == 0
  {
  }

  lemma {:induction false} LowClearWord(w: bv32, k: nat)
    requires k <= 32 && forall l: nat | l < k :: !Test(w, l)
    ensures w & LowOnes(k) == 0
  {
    if k > 0 {
      LowClearWord(w, k - 1);
      assert !Test(w, k - 1);
      BothClear(w, LowOnes(k - 1), Mask(k - 1), LowOnes(k));
    }
  }

  lemma MaskedFull(w: bv32)
    requires w & FULL == 0
    ensures w == 0
  {
  }

  /** A word without a set bit is zero. */
  lemma ZeroWord(w: bv32)
    requires forall k: nat | k < 32 :: !Test(w, k)
    ensures w == 0
  {
    LowClearWord(w, 32);
    AllOnes();
    MaskedFull(w);
  }

  function With(w: bv32, j: nat): bv32
    requires j < 32
  {
    w | Mask(j)
  }

  function Without(w: bv32, j: nat): bv32
    requires j < 32
  {
    w & !Mask(j)
  }

  // The masks and the new word are named in these steps, so that each is about one fact.

  lemma HitMasks(w: bv32, j: nat, k: nat, a: bv32, b: bv32, v: bv32)
    requires j < 32 && k < 32 && a == Mask(j) && b == Mask(k) && v == w | a
    ensures Hit(v, b) == (j == k || Hit(w, b))
  {
    if j == k {
      MaskSome(j);
      HitSetSame(w, a, v);
    } else {
      MasksApart(j, k);
      HitSetApart(w, a, b, v);
    }
  }

  lemma HitMasksUnset(w: bv32, j: nat, k: nat, a: bv32, b: bv32, v: bv32)
    requires j < 32 && k < 32 && a == Mask(j) && b == Mask(k) && v == w & !a
    ensures Hit(v, b) == (j != k && Hit(w, b))
  {
    if j == k {
      HitUnsetSame(w, a, v);
    } else {
      MasksApart(j, k);
      HitUnsetApart(w, a, b, v);
    }
  }

  lemma HitWith(w: bv32, j: nat, k: nat, a: bv32, b: bv32, v: bv32)
    requires j < 32 && k < 32 && a == Mask(j) && b == Mask(k) && v == With(w, j)
    ensures Hit(v, b) == (j == k || Hit(w, b))
  {
    HitMasks(w, j, k, a, b, v);
  }

  lemma HitWithout(w: bv32, j: nat, k: nat, a: bv32, b: bv32, v: bv32)
    requires j < 32 && k < 32 && a == Mask(j) && b == Mask(k) && v == Without(w, j)
    ensures Hit(v, b) == (j != k && Hit(w, b))
  {
    HitMasksUnset(w, j, k, a, b, v);
  }

  lemma TestAfter(w: bv32, j: nat, k: nat, a: bv32, b: bv32, v: bv32)
    requires j < 32 && k < 32 && a == Mask(j) && b == Mask(k) && v == With(w, j)
    ensures Test(v, k) == (j == k || Test(w, k))
  {
    HitWith(w, j, k, a, b, v);
  }

  lemma TestAfterUnset(w: bv32, j: nat, k: nat, a: bv32, b: bv32, v: bv32)
    requires j < 32 && k < 32 && a == Mask(j) && b == Mask(k) && v == Without(w, j)
    ensures Test(v, k) == (j != k && Test(w, k))
  {
    HitWithout(w, j, k, a, b, v);
  }

  lemma WordSet(w: bv32, j: nat, k: nat)
    requires j < 32 && k < 32
    ensures Test(With(w, j), k) == (j == k || Test(w, k))
  {
    TestAfter(w, j, k, Mask(j), Mask(k), With(w, j));
  }

  lemma WordUnset(w: bv32, j: nat, k: nat)
    requires j < 32 && k < 32
    ensures Test(Without(w, j), k) == (j != k && Test(w, k))
  {
    TestAfterUnset(w, j, k, Mask(j), Mask(k), Without(w, j));
  }

  function SetBit(ws: Words, f: nat): Words
    requires f < 32 * |ws|
  {
    ws[f / 32 := With(ws[f / 32], f % 32)]
  }

  function UnsetBit(ws: Words, f: nat): Words
    requires f < 32 * |ws|
  {
    ws[f / 32 := Without(ws[f / 32], f % 32)]
  }

  lemma SameFrame(f: nat, g: nat)
    ensures f == g <==> f / 32 == g / 32 && f % 32 == g % 32
  {
  }

  lemma SetAt(ws: Words, f: nat, g: nat)
    requires f < 32 * |ws| && g < 32 * |ws|
    ensures Bit(SetBit(ws, f), g) == (g == f || Bit(ws, g))
  {
    SameFrame(f, g);
    if f / 32 == g / 32 {
      WordSet(ws[f / 32], f % 32, g % 32);
    }
  }

  lemma UnsetAt(ws: Words, f: nat, g: nat)
    requires f < 32 * |ws| && g < 32 * |ws|
    ensures Bit(UnsetBit(ws, f), g) == (g != f && Bit(ws, g))
  {
    SameFrame(f, g);
    if f / 32 == g / 32 {
      WordUnset(ws[f / 32], f % 32, g % 32);
    }
  }

  /** Setting and clearing a bit of the packed words adds and removes one frame. */
  lemma SetAdds(ws: Words, f: nat)
    requires f < 32 * |ws|
    ensures Used(SetBit(ws, f)) == Used(ws) + {f}
  {
    forall g: nat | g < 32 * |ws|
      ensures Bit(SetBit(ws, f), g) == (g == f || Bit(ws, g))
    {
      SetAt(ws, f, g);
    }
  }

  lemma UnsetRemoves(ws: Words, f: nat)
    requires f < 32 * |ws|
    ensures Used(UnsetBit(ws, f)) == Used(ws) - {f}
  {
    forall g: nat | g < 32 * |ws|
      ensures Bit(UnsetBit(ws, f), g) == (g != f && Bit(ws, g))
    {
      UnsetAt(ws, f, g);
    }
  }

  // ----- How many frames are in use -----

  /** The set bits among the first `n`. */
  ghost function Ones(ws: Words, n: nat): nat
    requires n <= 32 * |ws|
  {
    if n == 0 then 0 else Ones(ws, n - 1) + (if Bit(ws, n - 1) then 1 else 0)
  }

  ghost predicate SameElsewhere(ws: Words, ws': Words, f: nat) {
    |ws'| == |ws| && forall g: nat | g < 32 * |ws| && g != f :: Bit(ws', g) == Bit(ws, g)
  }

  lemma {:induction false} OnesOne(ws: Words, ws': Words, f: nat, n: nat)
    requires SameElsewhere(ws, ws', f) && f < 32 * |ws| && n <= 32 * |ws|
    ensures Ones(ws', n)
         == Ones(ws, n) + (if f < n then (if Bit(ws', f) then 1 else 0) - (if Bit(ws, f) then 1 else 0) else 0)
  {
    if n > 0 {
      OnesOne(ws, ws', f, n - 1);
    }
  }

  lemma OnesSet(ws: Words, f: nat)
    requires f < 32 * |ws|
    ensures var n := 32 * |ws|; Ones(SetBit(ws, f), n) == Ones(ws, n) + (if Bit(ws, f) then 0 else 1)
  {
    forall g: nat | g < 32 * |ws|
      ensures Bit(SetBit(ws, f), g) == (g == f || Bit(ws, g))
    {
      SetAt(ws, f, g);
    }
    OnesOne(ws, SetBit(ws, f), f, 32 * |ws|);
  }

  lemma OnesUnset(ws: Words, f: nat)
    requires f < 32 * |ws|
    ensures var n := 32 * |ws|; Ones(UnsetBit(ws, f), n) == Ones(ws, n) - (if Bit(ws, f) then 1 else 0)
  {
    forall g: nat | g < 32 * |ws|
      ensures Bit(UnsetBit(ws, f), g) == (g != f && Bit(ws, g))
    {
      UnsetAt(ws, f, g);
    }
    OnesOne(ws, UnsetBit(ws, f), f, 32 * |ws|);
  }

  ghost function UsedBelow(ws: Words, n: nat): set<nat>
    requires n <= 32 * |ws|
  {
    set f: nat | f < n && Bit(ws, f)
  }

  lemma {:induction false} OnesIsSize(ws: Words, n: nat)
    requires n <= 32 * |ws|
    ensures Ones(ws, n) == |UsedBelow(ws, n)| <= n
    ensures UsedBelow(ws, 32 * |ws|) == Used(ws)
  {
    if n > 0 {
      OnesIsSize(ws, n - 1);
      var s, one := UsedBelow(ws, n - 1), if Bit(ws, n - 1) then {n - 1} else {};
      assert UsedBelow(ws, n) == s + one;
    }
  }

  // ----- Every set of frames is a bitmap -----

  /** Word `i` of the bitmap of the frames with `p`, up to bit `k`. */
  function WordOf(p: nat -> bool, i: nat, k: nat): bv32
    requires k <= 32
  {
    if k == 0 then 0
    else if p(32 * i + k - 1) then With(WordOf(p, i, k - 1), k - 1)
    else WordOf(p, i, k - 1)
  }

  function Pack(p: nat -> bool, len: nat): Words {
    seq(len, i requires 0 <= i < len => WordOf(p, i, 32))
  }

  lemma {:induction false} WordOfTest(p: nat -> bool, i: nat, k: nat, j: nat)
    requires k <= 32 && j < 32
    ensures Test(WordOf(p, i, k), j) == (j < k && p(32 * i + j))
  {
    if k == 0 {
      WordFull(j);
    } else {
      WordOfTest(p, i, k - 1, j);
      WordSet(WordOf(p, i, k - 1), k - 1, j);
    }
  }

  lemma PackBit(p: nat -> bool, len: nat, f: nat)
    requires f < 32 * len
    ensures Bit(Pack(p, len), f) == p(f)
  {
    WordOfTest(p, f / 32, 32, f % 32);
  }
}
