/**
 The recursive addresses as `Paging.cpp` computes them, on 64-bit words, and the numbers that
 they denote: those of `RecursiveSlot`, for the indices of the number that the address denotes.
 */
module WindowWords {
  import opened PageTables
  import opened RecursiveSlot

  function Low(x: bv64): nat { if x & 1 == 1 then 1 else 0 }

  /** The number that a word denotes. */
  function Num(x: bv64): nat {
    if x == 0 then 0 else Low(x) + 2 * Num(x >> 1)
  }

  // ----- One bit -----

  lemma Halve(x: bv64)
    ensures Num(x) == 2 * Num(x >> 1) + Low(x) && Num(x >> 1) == Num(x) / 2
  {
    assert (0 as bv64) >> 1 == 0;
  }

  lemma DoubleBits(x: bv64)
    requires x & 0x8000_0000_0000_0000 == 0
    ensures (x << 1) >> 1 == x
    ensures (x << 1) & 1 == 0
  {
  }

  lemma Double(x: bv64)
    requires x & 0x8000_0000_0000_0000 == 0
    ensures Num(x << 1) == 2 * Num(x)
  {
    DoubleBits(x);
    Halve(x << 1);
  }

  /** `z` joins two words that have no bit in common. */
  predicate Joins(x: bv64, y: bv64, z: bv64) { x & y == 0 && x | y == z }

  lemma JoinsNone(y: bv64, z: bv64)
    requires Joins(0, y, z)
    ensures y == z
  {
  }

  lemma JoinsHalves(x: bv64, y: bv64, z: bv64)
    requires Joins(x, y, z)
    ensures Joins(x >> 1, y >> 1, z >> 1)
  {
  }

  lemma JoinsLow(x: bv64, y: bv64, z: bv64)
    requires Joins(x, y, z)
    ensures Low(z) == Low(x) + Low(y)
  {
  }

  lemma Smaller(x: bv64)
    requires x != 0
    ensures x >> 1 < x
  {
  }

  /** Words without a common bit: the or denotes the sum. */
  lemma {:induction false} OrNum(x: bv64, y: bv64, z: bv64)
    requires Joins(x, y, z)
    ensures Num(z) == Num(x) + Num(y)
    decreases x, 1
  {
    if x == 0 {
      JoinsNone(y, z);
    } else {
      JoinsHalves(x, y, z);
      JoinsLow(x, y, z);
      OrHalves(x, y, z, x >> 1, y >> 1, z >> 1);
    }
  }

  lemma {:induction false} OrHalves(x: bv64, y: bv64, z: bv64, x': bv64, y': bv64, z': bv64)
    requires x != 0 && x' == x >> 1 && y' == y >> 1 && z' == z >> 1
    requires Joins(x', y', z') && Low(z) == Low(x) + Low(y)
    ensures Num(z) == Num(x) + Num(y)
    decreases x, 0
  {
    Smaller(x);
    OrNum(x', y', z');
    Halve(x);
    Halve(y);
    Halve(z);
  }

  // ----- Shifts and masks; every word has a name, so that each step is about one shift -----

  lemma Halved(x: bv64, y: bv64)
    requires y == x >> 1
    ensures Num(y) == Num(x) / 2
  {
    Halve(x);
  }

  lemma Thrice(n: nat, k: nat, a: nat, b: nat, c: nat)
    requires k == 2 || k == 8
    requires a == n / k && b == a / k && c == b / k
    ensures c == if k == 2 then n / 8 else n / 512
  {
  }

  lemma Shr3(x: bv64, a: bv64, b: bv64, y: bv64)
    requires a == x >> 1 && b == a >> 1 && y == x >> 3
    ensures y == b >> 1
  {
  }

  lemma Shr9(x: bv64, a: bv64, b: bv64, y: bv64)
    requires a == x >> 3 && b == a >> 3 && y == x >> 9
    ensures y == b >> 3
  {
  }

  lemma Down3(x: bv64, y: bv64)
    requires y == x >> 3
    ensures Num(y) == Num(x) / 8
  {
    var a := x >> 1;
    var b := a >> 1;
    Shr3(x, a, b, y);
    Halved(x, a);
    Halved(a, b);
    Halved(b, y);
    Thrice(Num(x), 2, Num(a), Num(b), Num(y));
  }

  lemma Down9(x: bv64, y: bv64)
    requires y == x >> 9
    ensures Num(y) == Num(x) / 512
  {
    var a := x >> 3;
    var b := a >> 3;
    Shr9(x, a, b, y);
    Down3(x, a);
    Down3(a, b);
    Down3(b, y);
    Thrice(Num(x), 8, Num(a), Num(b), Num(y));
  }

  lemma Doubled(x: bv64, y: bv64)
    requires x & 0x8000_0000_0000_0000 == 0 && y == x << 1
    ensures Num(y) == 2 * Num(x)
  {
    Double(x);
  }

  lemma Shl3(x: bv64, a: bv64, b: bv64, y: bv64)
    requires x & 0xE000_0000_0000_0000 == 0 && a == x << 1 && b == a << 1 && y == x << 3
    ensures x & 0x8000_0000_0000_0000 == 0 && a & 0x8000_0000_0000_0000 == 0 && b & 0x8000_0000_0000_0000 == 0
    ensures y == b << 1
  {
  }

  lemma Shl9(x: bv64, a: bv64, b: bv64, y: bv64)
    requires x & 0xFF80_0000_0000_0000 == 0 && a == x << 3 && b == a << 3 && y == x << 9
    ensures x & 0xE000_0000_0000_0000 == 0 && a & 0xE000_0000_0000_0000 == 0 && b & 0xE000_0000_0000_0000 == 0
    ensures y == b << 3
  {
  }

  lemma Up3(x: bv64, y: bv64)
    requires x & 0xE000_0000_0000_0000 == 0 && y == x << 3
    ensures Num(y) == 8 * Num(x)
  {
    var a := x << 1;
    var b := a << 1;
    Shl3(x, a, b, y);
    Doubled(x, a);
    Doubled(a, b);
    Doubled(b, y);
  }

  lemma Up9(x: bv64, y: bv64)
    requires x & 0xFF80_0000_0000_0000 == 0 && y == x << 9
    ensures Num(y) == 512 * Num(x)
  {
    var a := x << 3;
    var b := a << 3;
    Shl9(x, a, b, y);
    Up3(x, a);
    Up3(a, b);
    Up3(b, y);
  }

  /** Nine more bits behind a word. */
  lemma Append9(x: bv64, y: bv64, z: bv64)
    requires x & 0xFF80_0000_0000_0000 == 0 && y & 0x1FF == y && z == (x << 9) | y
    ensures Num(z) == 512 * Num(x) + Num(y)
  {
    var a := x << 9;
    LowClear(x, y, a);
    Up9(x, a);
    OrNum(a, y, z);
  }

  lemma LowClear(x: bv64, y: bv64, a: bv64)
    requires y & 0x1FF == y && a == x << 9
    ensures a & y == 0
  {
  }

  lemma HighPart(x: bv64, high: bv64)
    requires high == x >> 9
    ensures high & 0xFF80_0000_0000_0000 == 0
  {
  }

  lemma LowPart(x: bv64, low: bv64)
    requires low == x & 0x1FF
    ensures low & 0x1FF == low
  {
  }

  lemma Parts(x: bv64, high: bv64, low: bv64, a: bv64)
    requires high == x >> 9 && low == x & 0x1FF && a == high << 9
    ensures x == a | low
  {
  }

  /** The mask keeps the remainder. */
  lemma MaskNum(x: bv64, low: bv64)
    requires low == x & 0x1FF
    ensures Num(low) == Num(x) % 512
  {
    var high := x >> 9;
    HighPart(x, high);
    LowPart(x, low);
    Parts(x, high, low, high << 9);
    Down9(x, high);
    Append9(high, low, x);
  }

  lemma Shr12(v: bv64, a: bv64, y: bv64)
    requires a == v >> 9 && y == v >> 12
    ensures y == a >> 3
  {
  }

  lemma Shr21(v: bv64, a: bv64, y: bv64)
    requires a == v >> 12 && y == v >> 21
    ensures y == a >> 9
  {
  }

  lemma Shr30(v: bv64, a: bv64, y: bv64)
    requires a == v >> 21 && y == v >> 30
    ensures y == a >> 9
  {
  }

  lemma Shr39(v: bv64, a: bv64, y: bv64)
    requires a == v >> 30 && y == v >> 39
    ensures y == a >> 9
  {
  }

  lemma Down12(v: bv64, y: bv64)
    requires y == v >> 12
    ensures Num(y) == Num(v) / 4096
  {
    var a := v >> 9;
    Shr12(v, a, y);
    Down9(v, a);
    Down3(a, y);
    Over4096(Num(v), Num(a), Num(y));
  }

  lemma Over4096(n: nat, a: nat, y: nat)
    requires a == n / 512 && y == a / 8
    ensures y == n / 4096
  {
  }

  // ----- The indices -----

  /** `GET_P4_IDX` to `GET_P1_IDX`: the four indices as `int`s. */
  datatype Indices = Indices(p4: bv32, p3: bv32, p2: bv32, p1: bv32)

  function IndicesOf(v: bv64): Indices {
    Indices(IndexWord(v >> 39), IndexWord(v >> 30), IndexWord(v >> 21), IndexWord(v >> 12))
  }

  lemma IndexNum(x: bv64)
    ensures Num(IndexWord(x) as bv64) == Num(x) % 512
  {
    IndexWordExact(x);
    MaskNum(x, IndexWord(x) as bv64);
  }

  lemma PageNum(v: bv64, a: bv64, b: bv64, c: bv64, d: bv64)
    requires a == v >> 12 && b == a >> 9 && c == b >> 9 && d == c >> 9
    ensures Path(Num(IndexWord(d) as bv64), Num(IndexWord(c) as bv64),
                 Num(IndexWord(b) as bv64), Num(IndexWord(a) as bv64))
         == PathOf(Num(v))
  {
    Down12(v, a);
    Down9(a, b);
    Down9(b, c);
    Down9(c, d);
    IndexNum(a);
    IndexNum(b);
    IndexNum(c);
    IndexNum(d);
    PageIndices(Num(a), Num(b), Num(c), Num(d));
  }

  /** The index macros give the indices of the number that the address denotes. */
  lemma IndicesArePath(v: bv64)
    ensures Nums(IndicesOf(v)) == PathOf(Num(v))
  {
    var a, b, c, d := v >> 12, v >> 21, v >> 30, v >> 39;
    Shr21(v, a, b);
    Shr30(v, b, c);
    Shr39(v, c, d);
    PageNum(v, a, b, c, d);
  }

  function Nums(i: Indices): Path {
    Path(Num(i.p4 as bv64), Num(i.p3 as bv64), Num(i.p2 as bv64), Num(i.p1 as bv64))
  }

  lemma IndexSmall(x: bv64)
    ensures IndexWord(x) < 512
  {
  }

  // ----- The addresses -----

  function P4Word(base: bv64, i: Indices): bv64 { base | SignExtend(i.p4 * 8) }

  function P3Word(i: Indices): bv64 {
    0xFFFF_FF7F_BFC0_0000 | SignExtend(i.p4 << 12) | SignExtend(i.p3 * 8)
  }

  function P2Word(i: Indices): bv64 {
    0xFFFF_FF7F_8000_0000 | SignExtend(i.p4 << 21) | SignExtend(i.p3 << 12) | SignExtend(i.p2 * 8)
  }

  function P1Word(i: Indices): bv64 {
    0xFFFF_FF00_0000_0000 | ((i.p4 as bv64) << 30) | SignExtend(i.p3 << 21)
    | SignExtend(i.p2 << 12) | SignExtend(i.p1 * 8)
  }

  predicate Nine(a: bv64) { a & 0x1FF == a }

  lemma SmallNums()
    ensures Num(0x7F) == 0x7F && Num(0x1FF) == 0x1FF && Num(510) == 510
  {
    Halve(1);
    Halve(3);
    Halve(7);
    Halve(0xF);
    Halve(0x1F);
    Halve(0x3F);
    Halve(0x7F);
    Halve(0xFF);
    Halve(0x1FF);
    Halve(510);
  }

  lemma SixteenOnes()
    ensures Num(0xFFFF) == 0xFFFF
  {
    SmallNums();
    Append9(0x7F, 0x1FF, 0xFFFF);
  }

  // ----- Five indices in a row -----

  // Sixteen ones, with one to five nine-bit indices behind them.

  function W1(a: bv64): bv64 { (0xFFFF << 9) | a }
  function W2(a: bv64, b: bv64): bv64 { (W1(a) << 9) | b }
  function W3(a: bv64, b: bv64, c: bv64): bv64 { (W2(a, b) << 9) | c }
  function W4(a: bv64, b: bv64, c: bv64, d: bv64): bv64 { (W3(a, b, c) << 9) | d }
  function W5(a: bv64, b: bv64, c: bv64, d: bv64, e: bv64): bv64 { (W4(a, b, c, d) << 9) | e }

  function Pointer(a: bv64, b: bv64, c: bv64, d: bv64, e: bv64): bv64 { W5(a, b, c, d, e) << 3 }

  lemma High1(a: bv64)
    requires Nine(a)
    ensures W1(a) & 0xFF80_0000_0000_0000 == 0
  {
  }

  lemma High2(a: bv64, b: bv64)
    requires Nine(a) && Nine(b)
    ensures W2(a, b) & 0xFF80_0000_0000_0000 == 0
  {
  }

  lemma High3(a: bv64, b: bv64, c: bv64)
    requires Nine(a) && Nine(b) && Nine(c)
    ensures W3(a, b, c) & 0xFF80_0000_0000_0000 == 0
  {
  }

  lemma High4(a: bv64, b: bv64, c: bv64, d: bv64)
    requires Nine(a) && Nine(b) && Nine(c) && Nine(d)
    ensures W4(a, b, c, d) & 0xFF80_0000_0000_0000 == 0
  {
  }

  lemma High5(a: bv64, b: bv64, c: bv64, d: bv64, e: bv64)
    requires Nine(a) && Nine(b) && Nine(c) && Nine(d) && Nine(e)
    ensures W5(a, b, c, d, e) & 0xE000_0000_0000_0000 == 0
  {
  }

  lemma Num1(a: bv64)
    requires Nine(a)
    ensures Num(W1(a)) == 512 * 0xFFFF + Num(a)
  {
    SixteenOnes();
    Append9(0xFFFF, a, W1(a));
  }

  lemma Num2(a: bv64, b: bv64)
    requires Nine(a) && Nine(b)
    ensures Num(W2(a, b)) == 512 * Num(W1(a)) + Num(b)
  {
    High1(a);
    Append9(W1(a), b, W2(a, b));
  }

  lemma Num3(a: bv64, b: bv64, c: bv64)
    requires Nine(a) && Nine(b) && Nine(c)
    ensures Num(W3(a, b, c)) == 512 * Num(W2(a, b)) + Num(c)
  {
    High2(a, b);
    Append9(W2(a, b), c, W3(a, b, c));
  }

  lemma Num4(a: bv64, b: bv64, c: bv64, d: bv64)
    requires Nine(a) && Nine(b) && Nine(c) && Nine(d)
    ensures Num(W4(a, b, c, d)) == 512 * Num(W3(a, b, c)) + Num(d)
  {
    High3(a, b, c);
    Append9(W3(a, b, c), d, W4(a, b, c, d));
  }

  lemma Num5(a: bv64, b: bv64, c: bv64, d: bv64, e: bv64)
    requires Nine(a) && Nine(b) && Nine(c) && Nine(d) && Nine(e)
    ensures Num(W5(a, b, c, d, e)) == 512 * Num(W4(a, b, c, d)) + Num(e)
  {
    High4(a, b, c, d);
    Append9(W4(a, b, c, d), e, W5(a, b, c, d, e));
  }

  // The premises are part of what these two conclude, so that the lemma after them is one obligation.

  lemma EightTimes(w: bv64, p: bv64)
    ensures w & 0xE000_0000_0000_0000 == 0 && p == w << 3 ==> Num(p) == 8 * Num(w)
  {
    if w & 0xE000_0000_0000_0000 == 0 && p == w << 3 {
      Up3(w, p);
    }
  }

  lemma Shifted(a: bv64, b: bv64, c: bv64, d: bv64, e: bv64)
    ensures Nine(a) && Nine(b) && Nine(c) && Nine(d) && Nine(e) ==>
              W5(a, b, c, d, e) & 0xE000_0000_0000_0000 == 0 && Pointer(a, b, c, d, e) == W5(a, b, c, d, e) << 3
  {
    if Nine(a) && Nine(b) && Nine(c) && Nine(d) && Nine(e) {
      High5(a, b, c, d, e);
    }
  }

  lemma Num8(a: bv64, b: bv64, c: bv64, d: bv64, e: bv64)
    requires Nine(a) && Nine(b) && Nine(c) && Nine(d) && Nine(e)
    ensures Num(Pointer(a, b, c, d, e)) == 8 * Num(W5(a, b, c, d, e))
  {
    Shifted(a, b, c, d, e);
    EightTimes(W5(a, b, c, d, e), Pointer(a, b, c, d, e));
  }

  lemma Sum2(a: bv64, b: bv64)
    requires Nine(a) && Nine(b)
    ensures Num(W2(a, b)) == 0xFFFF * 0x4_0000 + Num(a) * 512 + Num(b)
  {
    Num1(a);
    Num2(a, b);
  }

  lemma Sum3(a: bv64, b: bv64, c: bv64)
    requires Nine(a) && Nine(b) && Nine(c)
    ensures Num(W3(a, b, c)) == 0xFFFF * 0x800_0000 + Num(a) * 0x4_0000 + Num(b) * 512 + Num(c)
  {
    Sum2(a, b);
    Num3(a, b, c);
  }

  lemma Sum4(a: bv64, b: bv64, c: bv64, d: bv64)
    requires Nine(a) && Nine(b) && Nine(c) && Nine(d)
    ensures Num(W4(a, b, c, d))
         == 0xFFFF * 0x10_0000_0000 + Num(a) * 0x800_0000 + Num(b) * 0x4_0000 + Num(c) * 512 + Num(d)
  {
    Sum3(a, b, c);
    Num4(a, b, c, d);
  }

  lemma Sum5(a: bv64, b: bv64, c: bv64, d: bv64, e: bv64)
    requires Nine(a) && Nine(b) && Nine(c) && Nine(d) && Nine(e)
    ensures Num(W5(a, b, c, d, e))
         == 512 * (0xFFFF * 0x10_0000_0000 + Num(a) * 0x800_0000 + Num(b) * 0x4_0000 + Num(c) * 512 + Num(d)) + Num(e)
  {
    Sum4(a, b, c, d);
    Num5(a, b, c, d, e);
  }

  /** An address of the window: five indices, of which the last counts entries of eight bytes. */
  lemma PointerNum(a: bv64, b: bv64, c: bv64, d: bv64, e: bv64)
    requires Nine(a) && Nine(b) && Nine(c) && Nine(d) && Nine(e)
    ensures Num(Pointer(a, b, c, d, e))
         == 4096 * (0xFFFF * 0x10_0000_0000 + Num(a) * 0x800_0000 + Num(b) * 0x4_0000 + Num(c) * 512 + Num(d))
            + 8 * Num(e)
  {
    Sum5(a, b, c, d, e);
    Num8(a, b, c, d, e);
  }

  // ----- One bridge per level -----

  predicate Small(i: Indices) { i.p4 < 512 && i.p3 < 512 && i.p2 < 512 && i.p1 < 512 }

  lemma IndicesSmall(v: bv64)
    ensures Small(IndicesOf(v))
  {
    IndexSmall(v >> 39);
    IndexSmall(v >> 30);
    IndexSmall(v >> 21);
    IndexSmall(v >> 12);
  }

  lemma NineOf(x: bv32)
    requires x < 512
    ensures Nine(x as bv64)
  {
  }

  lemma P1WordIs(i: Indices, a: bv64, b: bv64, c: bv64, d: bv64)
    requires Small(i) && a == i.p4 as bv64 && b == i.p3 as bv64 && c == i.p2 as bv64 && d == i.p1 as bv64
    ensures P1Word(i) == Pointer(510, a, b, c, d)
  {
  }

  lemma P2WordIs(i: Indices, a: bv64, b: bv64, c: bv64)
    requires Small(i) && a == i.p4 as bv64 && b == i.p3 as bv64 && c == i.p2 as bv64
    ensures P2Word(i) == Pointer(510, 510, a, b, c)
  {
  }

  lemma P3WordIs(i: Indices, a: bv64, b: bv64)
    requires Small(i) && a == i.p4 as bv64 && b == i.p3 as bv64
    ensures P3Word(i) == Pointer(510, 510, 510, a, b)
  {
  }

  lemma P4WordIs(i: Indices, a: bv64)
    requires Small(i) && a == i.p4 as bv64
    ensures P4Word(0xFFFF_FF7F_BFDF_F000, i) == Pointer(510, 510, 510, 511, a)
    ensures P4Word(0xFFFF_FF7F_BFDF_E000, i) == Pointer(510, 510, 510, 510, a)
  {
  }

  lemma NineAll(i: Indices)
    requires Small(i)
    ensures Nine(510) && Nine(511) && Nine(i.p4 as bv64)
    ensures Nine(i.p3 as bv64) && Nine(i.p2 as bv64) && Nine(i.p1 as bv64)
  {
    NineOf(i.p4);
    NineOf(i.p3);
    NineOf(i.p2);
    NineOf(i.p1);
  }

  lemma P1Num(i: Indices)
    requires Small(i)
    ensures Num(P1Word(i)) == P1Ptr(Nums(i))
  {
    P1WordIs(i, i.p4 as bv64, i.p3 as bv64, i.p2 as bv64, i.p1 as bv64);
    NineAll(i);
    SmallNums();
    PointerNum(510, i.p4 as bv64, i.p3 as bv64, i.p2 as bv64, i.p1 as bv64);
  }

  lemma P2Num(i: Indices)
    requires Small(i)
    ensures Num(P2Word(i)) == P2Ptr(Nums(i))
  {
    P2WordIs(i, i.p4 as bv64, i.p3 as bv64, i.p2 as bv64);
    NineAll(i);
    SmallNums();
    PointerNum(510, 510, i.p4 as bv64, i.p3 as bv64, i.p2 as bv64);
  }

  lemma P3Num(i: Indices)
    requires Small(i)
    ensures Num(P3Word(i)) == P3Ptr(Nums(i))
  {
    P3WordIs(i, i.p4 as bv64, i.p3 as bv64);
    NineAll(i);
    SmallNums();
    PointerNum(510, 510, 510, i.p4 as bv64, i.p3 as bv64);
  }

  lemma P4Num(i: Indices)
    requires Small(i)
    ensures Num(P4Word(0xFFFF_FF7F_BFDF_F000, i)) == P4Ptr(P4_RECURSIVE_ENTRY, Nums(i))
    ensures Num(P4Word(0xFFFF_FF7F_BFDF_E000, i)) == P4Ptr(P4_SELF_ENTRY, Nums(i))
  {
    P4WordIs(i, i.p4 as bv64);
    NineAll(i);
    SmallNums();
    PointerNum(510, 510, 510, 511, i.p4 as bv64);
    PointerNum(510, 510, 510, 510, i.p4 as bv64);
  }

  /** The address that the code computes for the P1 entry of `v` denotes that of `RecursiveSlot`; so at every level. */
  lemma P1Bridge(v: bv64)
    ensures Num(P1Word(IndicesOf(v))) == P1Ptr(PathOf(Num(v)))
  {
    IndicesSmall(v);
    IndicesArePath(v);
    P1Num(IndicesOf(v));
  }

  lemma P2Bridge(v: bv64)
    ensures Num(P2Word(IndicesOf(v))) == P2Ptr(PathOf(Num(v)))
  {
    IndicesSmall(v);
    IndicesArePath(v);
    P2Num(IndicesOf(v));
  }

  lemma P3Bridge(v: bv64)
    ensures Num(P3Word(IndicesOf(v))) == P3Ptr(PathOf(Num(v)))
  {
    IndicesSmall(v);
    IndicesArePath(v);
    P3Num(IndicesOf(v));
  }

  /** The constant as written, and the one it is meant to be. */
  lemma P4Bridge(v: bv64)
    ensures Num(P4Word(0xFFFF_FF7F_BFDF_F000, IndicesOf(v))) == P4Ptr(P4_RECURSIVE_ENTRY, PathOf(Num(v)))
    ensures Num(P4Word(0xFFFF_FF7F_BFDF_E000, IndicesOf(v))) == P4Ptr(P4_SELF_ENTRY, PathOf(Num(v)))
  {
    IndicesSmall(v);
    IndicesArePath(v);
    P4Num(IndicesOf(v));
  }
}
