/**
 `strchr`, a word at a time. Memory is a sequence of bytes and an index is an address, so that
 the alignment of a string is its start modulo 8. The search is proved equal to the search byte
 by byte (section 7.24.5.2 of ISO/IEC 9899:2011), and to read no word behind the one that holds
 the terminator.
 */
module Strchrs {
  import opened Forms

  type Memory = seq<bv8>

  // The character is as written a signed `char`, corrected an unsigned one.

  datatype Found = Hit(at: nat) | Null

  /** The string at `s` ends at `z`. */
  ghost predicate Terminated(m: Memory, s: nat, z: nat) {
    s <= z < |m| && m[z] == 0 && forall k: nat | s <= k < z :: m[k] != 0
  }

  /** The search byte by byte; the terminator is part of the string. */
  ghost function Find(m: Memory, s: nat, c: bv8): Found
    requires s <= |m|
    decreases |m| - s
  {
    if s == |m| then Null
    else if m[s] == c then Hit(s)
    else if m[s] == 0 then Null
    else Find(m, s + 1, c)
  }

  /** What the standard asks for: the first occurrence, or none up to and with the terminator. */
  lemma {:induction false} FindFirst(m: Memory, s: nat, z: nat, c: bv8)
    requires Terminated(m, s, z)
    ensures match Find(m, s, c)
            case Hit(p) => s <= p <= z && m[p] == c && forall k: nat | s <= k < p :: m[k] != c
            case Null => forall k: nat | s <= k <= z :: m[k] != c
    decreases z - s + 1
  {
    if m[s] != c && s < z {
      FindFirst(m, s + 1, z, c);
    }
  }

  // ----- The hole bits -----

  const MAGIC: bv64 := 0x7EFE_FEFE_FEFE_FEFF

  /** The constant is computed from an all-ones word. */
  lemma MagicBits()
    ensures (0x1_0000_0000_0000_0000 - 1) / 0xFF * 0xFE * 2 % 0x1_0000_0000_0000_0000 / 2 + 1 == 0x7EFE_FEFE_FEFE_FEFF
  {
  }

  /** A word whose hole bits the addition leaves alone somewhere. */
  predicate Fires(w: bv64) { ((w + MAGIC) ^ !w) & !MAGIC != 0 }

  /** A word of bytes in memory order, the first one lowest. */
  function Pack(bs: Memory): bv64 {
    if bs == [] then 0 else Cat(Pack(bs[1..]), bs[0])
  }

  function Cat(w: bv64, b: bv8): bv64 { (w << 8) | (b as bv64) }

  function Word(a: bv8, b: bv8, c: bv8, d: bv8, e: bv8, f: bv8, g: bv8, h: bv8): bv64 {
    Cat(Cat(Cat(Cat(Cat(Cat(Cat(Cat(0, h), g), f), e), d), c), b), a)
  }

  lemma PackCons(b: bv8, bs: Memory)
    ensures Pack([b] + bs) == Cat(Pack(bs), b)
  {
    assert ([b] + bs)[1..] == bs;
  }

  lemma PackFour(a: bv8, b: bv8, c: bv8, d: bv8, bs: Memory)
    ensures Pack([a] + ([b] + ([c] + ([d] + bs)))) == Cat(Cat(Cat(Cat(Pack(bs), d), c), b), a)
  {
    PackCons(d, bs);
    PackCons(c, [d] + bs);
    PackCons(b, [c] + ([d] + bs));
    PackCons(a, [b] + ([c] + ([d] + bs)));
  }

  lemma PackEight(a: bv8, b: bv8, c: bv8, d: bv8, e: bv8, f: bv8, g: bv8, h: bv8)
    ensures Pack([a] + ([b] + ([c] + ([d] + ([e] + ([f] + ([g] + ([h] + []))))))))
         == Word(a, b, c, d, e, f, g, h)
  {
    PackFour(e, f, g, h, []);
    PackFour(a, b, c, d, [e] + ([f] + ([g] + ([h] + []))));
  }

  lemma Unfolded(bs: Memory)
    requires |bs| == 8
    ensures bs == [bs[0]] + ([bs[1]] + ([bs[2]] + ([bs[3]] + ([bs[4]] + ([bs[5]] + ([bs[6]] + ([bs[7]] + [])))))))
  {
  }

  lemma EightBytes(bs: Memory)
    requires |bs| == 8
    ensures Pack(bs) == Word(bs[0], bs[1], bs[2], bs[3], bs[4], bs[5], bs[6], bs[7])
  {
    Unfolded(bs);
    PackEight(bs[0], bs[1], bs[2], bs[3], bs[4], bs[5], bs[6], bs[7]);
  }

  /** On eight bytes: the test misses no zero byte, and misfires exactly on a top byte of 0x80. */
  lemma FiresWord(a: bv8, b: bv8, c: bv8, d: bv8, e: bv8, f: bv8, g: bv8, h: bv8)
    ensures Fires(Word(a, b, c, d, e, f, g, h)) <==>
              a == 0 || b == 0 || c == 0 || d == 0 || e == 0 || f == 0 || g == 0 || h == 0 || h == 0x80
  {
  }

  ghost predicate ZeroOrTop(bs: Memory)
    requires |bs| == 8
  {
    bs[7] == 0x80 || 0 in bs
  }

  lemma FiresNamed(bs: Memory, w: bv64)
    requires |bs| == 8 && w == Word(bs[0], bs[1], bs[2], bs[3], bs[4], bs[5], bs[6], bs[7])
    ensures Fires(w) <==> ZeroOrTop(bs)
  {
    FiresWord(bs[0], bs[1], bs[2], bs[3], bs[4], bs[5], bs[6], bs[7]);
  }

  lemma FiresIff(bs: Memory)
    requires |bs| == 8
    ensures Fires(Pack(bs)) <==> ZeroOrTop(bs)
  {
    EightBytes(bs);
    FiresNamed(bs, Pack(bs));
  }

  function Xor(a: Memory, b: Memory): Memory
    requires |a| == |b|
  {
    seq(|a|, i requires 0 <= i < |a| => a[i] ^ b[i])
  }

  lemma CatXor(u: bv64, v: bv64, a: bv8, b: bv8)
    ensures Cat(u, a) ^ Cat(v, b) == Cat(u ^ v, a ^ b)
  {
  }

  lemma {:induction false} PackXor(a: Memory, b: Memory)
    requires |a| == |b|
    ensures Pack(a) ^ Pack(b) == Pack(Xor(a, b))
  {
    if a != [] {
      PackXor(a[1..], b[1..]);
      assert Xor(a, b)[1..] == Xor(a[1..], b[1..]);
      CatXor(Pack(a[1..]), Pack(b[1..]), a[0], b[0]);
    }
  }

  lemma XorZero(a: bv8, b: bv8)
    ensures a ^ b == 0 <==> a == b
  {
  }

  // ----- The mask -----

  /** A `char` as an `int`: signed as written. */
  function AsInt(form: Form, c: bv8): bv32 {
    if form == AsWritten && c >= 0x80 then (c as bv32) | 0xFFFF_FF00 else c as bv32
  }

  /** `charmask`: two bytes in an `int`, sign-extended to 64 bits and doubled twice. */
  function CharMask(form: Form, c: bv8): bv64 {
    var two := AsInt(form, c) | (AsInt(form, c) << 8);
    var four := (two as bv64) | (if two & 0x8000_0000 != 0 then 0xFFFF_FFFF_0000_0000 else 0);
    var eight := four | (four << 16);
    eight | ((eight << 16) << 16)
  }

  /** The character that byte `k` of the mask looks for: as written, for a negative one, the wrong one but in byte 0. */
  function Sought(form: Form, c: bv8, k: nat): bv8 {
    if k > 0 && form == AsWritten && c >= 0x80 then 0xFF else c
  }

  lemma MaskWord(form: Form, c: bv8, y: bv8)
    requires y == Sought(form, c, 1)
    ensures CharMask(form, c) == Word(c, y, y, y, y, y, y, y)
  {
  }

  function MaskBytes(form: Form, c: bv8): Memory {
    seq(8, k requires 0 <= k < 8 => Sought(form, c, k))
  }

  lemma MaskIsBytes(form: Form, c: bv8)
    ensures CharMask(form, c) == Pack(MaskBytes(form, c))
  {
    MaskWord(form, c, Sought(form, c, 1));
    EightBytes(MaskBytes(form, c));
  }

  function Load(m: Memory, p: nat): bv64
    requires p + 8 <= |m|
  {
    Pack(m[p..p + 8])
  }

  /** The test of a word: it may hold the terminator or the character. */
  predicate Tentative(form: Form, m: Memory, p: nat, c: bv8)
    requires p + 8 <= |m|
  {
    Fires(Load(m, p)) || Fires(Load(m, p) ^ CharMask(form, c))
  }

  ghost predicate ZeroIn(m: Memory, p: nat)
    requires p + 8 <= |m|
  {
    exists k: nat :: p <= k < p + 8 && m[k] == 0
  }

  ghost predicate SoughtIn(form: Form, m: Memory, p: nat, c: bv8)
    requires p + 8 <= |m|
  {
    exists k: nat :: p <= k < p + 8 && m[k] == Sought(form, c, k - p)
  }

  lemma LoadFires(m: Memory, p: nat)
    requires p + 8 <= |m|
    ensures Fires(Load(m, p)) <==> ZeroIn(m, p) || m[p + 7] == 0x80
  {
    var bs := m[p..p + 8];
    FiresIff(bs);
    assert 0 in bs <==> ZeroIn(m, p) by {
      if k: nat :| p <= k < p + 8 && m[k] == 0 {
        assert bs[k - p] == 0;
      }
    }
  }

  lemma XorIsPack(form: Form, m: Memory, p: nat, c: bv8)
    requires p + 8 <= |m|
    ensures Load(m, p) ^ CharMask(form, c) == Pack(Xor(m[p..p + 8], MaskBytes(form, c)))
  {
    MaskIsBytes(form, c);
    PackXor(m[p..p + 8], MaskBytes(form, c));
  }

  lemma XorFires(form: Form, m: Memory, p: nat, c: bv8)
    requires p + 8 <= |m|
    ensures Fires(Load(m, p) ^ CharMask(form, c)) <==> ZeroOrTop(Xor(m[p..p + 8], MaskBytes(form, c)))
  {
    XorIsPack(form, m, p, c);
    FiresIff(Xor(m[p..p + 8], MaskBytes(form, c)));
  }

  lemma XorHasZero(form: Form, m: Memory, p: nat, c: bv8)
    requires p + 8 <= |m|
    ensures 0 in Xor(m[p..p + 8], MaskBytes(form, c)) <==> SoughtIn(form, m, p, c)
  {
    var xs := Xor(m[p..p + 8], MaskBytes(form, c));
    forall k: nat | k < 8
      ensures xs[k] == 0 <==> m[p + k] == Sought(form, c, k)
    {
      XorZero(m[p + k], Sought(form, c, k));
    }
    if k: nat :| p <= k < p + 8 && m[k] == Sought(form, c, k - p) {
      assert xs[k - p] == 0;
    }
  }

  /**
   The test on memory, exactly: it fires on a terminator, on what the mask looks for, and misfires
   on a top byte that is 0x80 or differs from the mask's in that bit only.
   */
  lemma TentativeIff(form: Form, m: Memory, p: nat, c: bv8)
    requires p + 8 <= |m|
    ensures Tentative(form, m, p, c) <==>
              ZeroIn(m, p) || SoughtIn(form, m, p, c) || m[p + 7] == 0x80 || m[p + 7] ^ Sought(form, c, 7) == 0x80
  {
    LoadFires(m, p);
    XorFires(form, m, p, c);
    XorHasZero(form, m, p, c);
  }

  // ----- The search -----

  datatype Resolved = Match(at: nat) | Terminator | Neither

  /** The eight comparisons of a word, from byte `k`. */
  function Resolve(m: Memory, p: nat, c: bv8, k: nat): Resolved
    requires p + 8 <= |m| && k <= 8
    decreases 8 - k
  {
    if k == 8 then Neither
    else if m[p + k] == c then Match(p + k)
    else if m[p + k] == 0 then Terminator
    else Resolve(m, p, c, k + 1)
  }

  /** The word loop from `p`; reads of whole words inside memory only. */
  function Words(form: Form, m: Memory, p: nat, c: bv8): Found
    decreases |m| - p
  {
    if p + 8 > |m| then Null
    else if Tentative(form, m, p, c) then
      match Resolve(m, p, c, 0)
      case Match(at) => Hit(at)
      case Terminator => Null
      case Neither => Words(form, m, p + 8, c)
    else Words(form, m, p + 8, c)
  }

  /** Byte by byte up to a word boundary, then word by word. */
  function Search(form: Form, m: Memory, p: nat, c: bv8): Found
    requires p <= |m|
    decreases |m| - p
  {
    if p % 8 == 0 then Words(form, m, p, c)
    else if p == |m| then Null
    else if m[p] == c then Hit(p)
    else if m[p] == 0 then Null
    else Search(form, m, p + 1, c)
  }

  /** Memory is known up to the end of the word with the terminator, and no further. */
  ghost predicate Known(m: Memory, z: nat) { z / 8 * 8 + 8 <= |m| }

  lemma {:induction false} ResolveFinds(m: Memory, p: nat, c: bv8, k: nat)
    requires p + 8 <= |m| && k <= 8
    ensures match Resolve(m, p, c, k)
            case Match(at) => Find(m, p + k, c) == Hit(at)
            case Terminator => Find(m, p + k, c) == Null
            case Neither => Find(m, p + k, c) == Find(m, p + 8, c) && forall i: nat | p + k <= i < p + 8 :: m[i] != 0
    decreases 8 - k
  {
    if k < 8 && m[p + k] != c && m[p + k] != 0 {
      ResolveFinds(m, p, c, k + 1);
    }
  }

  /** A word without the character and the terminator changes nothing. */
  lemma {:induction false} FindSkips(m: Memory, p: nat, c: bv8, n: nat)
    requires p + n <= |m| && forall k: nat | p <= k < p + n :: m[k] != 0 && m[k] != c
    ensures Find(m, p, c) == Find(m, p + n, c)
    decreases n
  {
    if n > 0 {
      FindSkips(m, p + 1, c, n - 1);
    }
  }

  predicate MaskRight(form: Form, c: bv8) { form == Corrected || c < 0x80 || c == 0xFF }

  lemma SilentSkips(form: Form, m: Memory, p: nat, c: bv8)
    requires MaskRight(form, c) && p + 8 <= |m| && !Tentative(form, m, p, c)
    ensures !ZeroIn(m, p) && Find(m, p, c) == Find(m, p + 8, c)
  {
    TentativeIff(form, m, p, c);
    FindSkips(m, p, c, 8);
  }

  lemma InsideWord(p: nat, z: nat)
    requires p % 8 == 0 && p <= z
    ensures p + 8 <= z / 8 * 8 + 8 && (z >= p + 8 || z / 8 * 8 == p)
  {
  }

  lemma {:induction false} WordsFind(form: Form, m: Memory, p: nat, z: nat, c: bv8)
    requires MaskRight(form, c) && Terminated(m, p, z) && Known(m, z) && p % 8 == 0
    ensures Words(form, m, p, c) == Find(m, p, c)
    decreases |m| - p
  {
    InsideWord(p, z);
    if Tentative(form, m, p, c) {
      ResolveFinds(m, p, c, 0);
      if Resolve(m, p, c, 0) == Neither {
        WordsFind(form, m, p + 8, z, c);
      }
    } else {
      SilentSkips(form, m, p, c);
      WordsFind(form, m, p + 8, z, c);
    }
  }

  /** The search by words is the search by bytes, for every string, alignment and character the mask is right for. */
  lemma {:induction false} SearchFinds(form: Form, m: Memory, p: nat, z: nat, c: bv8)
    requires MaskRight(form, c) && Terminated(m, p, z) && Known(m, z)
    ensures Search(form, m, p, c) == Find(m, p, c)
    decreases |m| - p
  {
    if p % 8 == 0 {
      WordsFind(form, m, p, z, c);
    } else if m[p] != c && m[p] != 0 {
      SearchFinds(form, m, p + 1, z, c);
    }
  }

  // ----- Where the character as written goes wrong -----

  /** One character above 0x7F, in the second byte of a word. */
  function Second(c: bv8): Memory { [1, c, 1, 1, 1, 1, 1, 1, 0, 0, 0, 0, 0, 0, 0, 0] }

  lemma OneTop(top: bv8)
    requires top == 1
    ensures top != 0x80 && top ^ 0xFF != 0x80
  {
  }

  lemma SecondSought(c: bv8)
    requires 0x80 <= c < 0xFF
    ensures !SoughtIn(AsWritten, Second(c), 0, c) && !ZeroIn(Second(c), 0)
  {
    assert forall k: nat | k < 8 :: Second(c)[k] == if k == 1 then c else 1;
  }

  lemma SecondSilent(c: bv8)
    requires 0x80 <= c < 0xFF
    ensures !Tentative(AsWritten, Second(c), 0, c)
  {
    SecondSought(c);
    OneTop(Second(c)[7]);
    TentativeIff(AsWritten, Second(c), 0, c);
  }

  lemma SecondMissed(c: bv8)
    requires 0x80 <= c < 0xFF
    ensures Terminated(Second(c), 0, 8) && Known(Second(c), 8)
    ensures Find(Second(c), 0, c) == Hit(1) && Search(AsWritten, Second(c), 0, c) == Null
  {
    var m := Second(c);
    SecondSilent(c);
    TentativeIff(AsWritten, m, 8, c);
    assert m[8] == 0 && ZeroIn(m, 8);
    assert Resolve(m, 8, c, 0) == Terminator;
    assert Words(AsWritten, m, 8, c) == Null;
    assert Find(m, 1, c) == Hit(1);
  }

  ghost predicate FindsAll(c: bv8) {
    forall m: Memory, s: nat, z: nat | Terminated(m, s, z) && Known(m, z) :: Search(AsWritten, m, s, c) == Find(m, s, c)
  }

  /** As written, the function is right for every string and alignment exactly for these characters. */
  lemma LiteralIff(c: bv8)
    ensures FindsAll(c) <==> c < 0x80 || c == 0xFF
  {
    if c < 0x80 || c == 0xFF {
      forall m: Memory, s: nat, z: nat | Terminated(m, s, z) && Known(m, z)
        ensures Search(AsWritten, m, s, c) == Find(m, s, c)
      {
        SearchFinds(AsWritten, m, s, z, c);
      }
    } else {
      SecondMissed(c);
    }
  }

  // ----- The function -----

  /** The eight comparisons. */
  method ResolveWord(m: Memory, p: nat, c: bv8) returns (r: Resolved)
    requires p + 8 <= |m|
    ensures r == Resolve(m, p, c, 0)
  {
    r := Step(m, p, c, 0);
    if r != Neither { return; }
    r := Step(m, p, c, 1);
    if r != Neither { return; }
    r := Step(m, p, c, 2);
    if r != Neither { return; }
    r := Step(m, p, c, 3);
    if r != Neither { return; }
    r := Step(m, p, c, 4);
    if r != Neither { return; }
    r := Step(m, p, c, 5);
    if r != Neither { return; }
    r := Step(m, p, c, 6);
    if r != Neither { return; }
    r := Step(m, p, c, 7);
  }

  method Step(m: Memory, p: nat, c: bv8, k: nat) returns (r: Resolved)
    requires p + 8 <= |m| && k < 8
    ensures r == Neither ==> Resolve(m, p, c, k) == Resolve(m, p, c, k + 1)
    ensures r != Neither ==> r == Resolve(m, p, c, k)
  {
    if m[p + k] == c {
      return Match(p + k);
    } else if m[p + k] == 0 {
      return Terminator;
    }
    r := Neither;
  }

  /** A word that stays silent, or resolves to nothing, holds no terminator. */
  lemma NoTerminator(form: Form, m: Memory, p: nat, c: bv8)
    requires p + 8 <= |m| && (Tentative(form, m, p, c) ==> Resolve(m, p, c, 0) == Neither)
    ensures forall k: nat | p <= k < p + 8 :: m[k] != 0
  {
    TentativeIff(form, m, p, c);
    ResolveFinds(m, p, c, 0);
  }

  /** One character at a time, up to a word boundary. */
  method Align(form: Form, m: Memory, s: nat, c: bv8, ghost z: nat) returns (done: bool, r: Found, p: nat)
    requires Terminated(m, s, z)
    ensures done ==> r == Search(form, m, s, c)
    ensures !done ==> p % 8 == 0 && Terminated(m, p, z) && Search(form, m, s, c) == Words(form, m, p, c)
  {
    p := s;
    while p % 8 != 0
      invariant s <= p && Terminated(m, p, z) && Search(form, m, s, c) == Search(form, m, p, c)
      decreases |m| - p
    {
      if m[p] == c {
        return true, Hit(p), p;
      } else if m[p] == 0 {
        return true, Null, p;
      }
      p := p + 1;
    }
    done, r := false, Null;
  }

  /** One word: a result, or nothing in it and on to the next. */
  method OneWord(form: Form, m: Memory, p: nat, c: bv8, ghost z: nat) returns (w: Resolved)
    requires p % 8 == 0 && Terminated(m, p, z) && Known(m, z)
    ensures w == Terminator ==> Words(form, m, p, c) == Null
    ensures w.Match? ==> Words(form, m, p, c) == Hit(w.at)
    ensures w == Neither ==> Terminated(m, p + 8, z) && Words(form, m, p, c) == Words(form, m, p + 8, c)
  {
    InsideWord(p, z);
    w := Neither;
    if Tentative(form, m, p, c) {
      w := ResolveWord(m, p, c);
    }
    if w == Neither {
      NoTerminator(form, m, p, c);
    }
  }

  lemma NextWord(p: nat)
    requires p % 8 == 0
    ensures (p + 8) % 8 == 0
  {
  }

  /** The word loop. */
  method FindWords(form: Form, m: Memory, s: nat, c: bv8, ghost z: nat) returns (r: Found)
    requires s % 8 == 0 && Terminated(m, s, z) && Known(m, z)
    ensures r == Words(form, m, s, c)
  {
    var p := s;
    while true
      invariant p % 8 == 0 && Terminated(m, p, z) && Words(form, m, s, c) == Words(form, m, p, c)
      decreases |m| - p
    {
      var w := OneWord(form, m, p, c, z);
      match w
      case Match(at) => return Hit(at);
      case Terminator => return Null;
      case Neither =>
        NextWord(p);
        p := p + 8;
    }
  }

  /** The character that an `int` argument stands for. */
  function AsChar(cIn: int): bv8 { (cIn % 0x100) as bv8 }

  /**
   `strchr` on the string at `s`, that ends at `z`. The memory need not reach behind the word of
   the terminator: nothing more is read.
   */
  method Strchr(form: Form, m: Memory, s: nat, cIn: int, ghost z: nat) returns (r: Found)
    requires Terminated(m, s, z) && Known(m, z)
    ensures r == Search(form, m, s, AsChar(cIn))
    ensures MaskRight(form, AsChar(cIn)) ==> r == Find(m, s, AsChar(cIn))
  {
    var c := AsChar(cIn);
    if MaskRight(form, c) {
      SearchFinds(form, m, s, z, c);
    }
    var done, p;
    done, r, p := Align(form, m, s, c, z);
    if !done {
      r := FindWords(form, m, p, c, z);
    }
  }
}
