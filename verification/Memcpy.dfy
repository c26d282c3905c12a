/** `memcpy.cpp`: a forward copy in strides of 4, 2 or 1 bytes, chosen from the length. */
module Memcpy {

  type Byte = x: int | 0 <= x < 256

  type Bytes = nat -> Byte

  function Put(m: Bytes, a: nat, b: Byte): Bytes {
    (x: nat) => if x == a then b else m(x)
  }

  /** One assignment of a `k`-byte object: all its bytes are read before any is written. */
  function Move(m: Bytes, d: nat, s: nat, k: nat): Bytes {
    (x: nat) => if d <= x < d + k then m(s + x - d) else m(x)
  }

  function Stride(n: nat): nat {
    if n % 4 == 0 then 4 else if n % 2 == 0 then 2 else 1
  }

  /** Memory after the first `count` strides of `k` bytes. */
  function Strides(m: Bytes, dest: nat, src: nat, count: nat, k: nat): Bytes {
    if count == 0 then m
    else Move(Strides(m, dest, src, count - 1, k), dest + k * (count - 1), src + k * (count - 1), k)
  }

  /** Memory after `memcpy` of `n` bytes. */
  function MemcpyOf(m: Bytes, dest: nat, src: nat, n: nat): Bytes {
    Strides(m, dest, src, n / Stride(n), Stride(n))
  }

  /** What a copy is for: `dest` up to `dest + n` get the old bytes at `src`, all else stays. */
  ghost predicate Copied(m: Bytes, m': Bytes, dest: nat, src: nat, n: nat) {
    forall x: nat {:trigger m'(x)} :: CopiedAt(m, m', dest, src, n, x)
  }

  predicate CopiedAt(m: Bytes, m': Bytes, dest: nat, src: nat, n: nat, x: nat) {
    m'(x) == if dest <= x < dest + n then m(src + x - dest) else m(x)
  }

  /** `n` bytes at `a` in `m` are those at `b` in `m0`. */
  ghost predicate SameBytes(m: Bytes, a: nat, m0: Bytes, b: nat, n: nat) {
    forall x: nat {:trigger m(x)} :: a <= x < a + n ==> m(x) == m0(b + x - a)
  }

  /** The regions do not overlap, or the copy moves downwards, or a single stride does it all. */
  predicate Harmless(dest: nat, src: nat, n: nat) {
    dest <= src || src + n <= dest || n <= Stride(n)
  }

  class Memory {
    var bytes: Bytes

    constructor (m: Bytes)
      ensures bytes == m
    {
      bytes := m;
    }

    method Memcpy(dest: nat, src: nat, n: nat)
      modifies this
      ensures bytes == MemcpyOf(old(bytes), dest, src, n)
      ensures Harmless(dest, src, n) ==> Copied(old(bytes), bytes, dest, src, n)
    {
      ghost var before := bytes;
      var i, t := 0, 0;
      var d, s := dest, src;
      if n % 4 == 0 {
        t := n / 4;
        while i < t
          invariant i <= t && d == dest + 4 * i && s == src + 4 * i
          invariant bytes == Strides(before, dest, src, i, 4)
        {
          bytes := Move(bytes, d, s, 4);
          d, s, i := d + 4, s + 4, i + 1;
        }
      } else if n % 2 == 0 {
        t := n / 2;
        while i < t
          invariant i <= t && d == dest + 2 * i && s == src + 2 * i
          invariant bytes == Strides(before, dest, src, i, 2)
        {
          bytes := Move(bytes, d, s, 2);
          d, s, i := d + 2, s + 2, i + 1;
        }
      } else {
        while i < n
          invariant i <= n && d == dest + i && s == src + i
          invariant bytes == Strides(before, dest, src, i, 1)
        {
          bytes := Move(bytes, d, s, 1);
          d, s, i := d + 1, s + 1, i + 1;
        }
      }
      if Harmless(dest, src, n) {
        StridesCopy(before, dest, src, n / Stride(n), Stride(n), n);
      }
    }
  }

  lemma {:induction false} TimesMonotone(k: nat, i: nat, j: nat)
    requires i < j
    ensures k * i + k <= k * j
    decreases j
  {
    assert k * j == k * (j - 1) + k;
    if i < j - 1 {
      TimesMonotone(k, i, j - 1);
    }
  }

  /** Where the last of `count` strides begins. */
  lemma LastStride(k: nat, count: nat) returns (done: nat)
    requires count > 0
    ensures done == k * (count - 1) && k * count == done + k && (count == 1 ==> done == 0)
  {
    done := k * (count - 1);
  }

  /** A byte's value is fixed by the stride that writes it. */
  lemma {:induction false} StrideValue(m: Bytes, dest: nat, src: nat, count: nat, k: nat, j: nat, r: nat)
    requires j < count && r < k
    ensures Strides(m, dest, src, count, k)(dest + k * j + r) == Strides(m, dest, src, j, k)(src + k * j + r)
  {
    var done, at := k * (count - 1), k * j;
    var prev := Strides(m, dest, src, count - 1, k);
    assert Strides(m, dest, src, count, k) == Move(prev, dest + done, src + done, k);
    if j < count - 1 {
      TimesMonotone(k, j, count - 1);
      StrideValue(m, dest, src, count - 1, k, j, r);
    }
  }

  lemma {:induction false} StridesOutside(m: Bytes, dest: nat, src: nat, count: nat, k: nat, x: nat)
    requires x < dest || dest + k * count <= x
    ensures Strides(m, dest, src, count, k)(x) == m(x)
  {
    if count > 0 {
      var done := LastStride(k, count);
      StridesOutside(m, dest, src, count - 1, k, x);
    }
  }

  lemma StrideOf(k: nat, count: nat, t: nat) returns (j: nat, r: nat)
    requires k > 0 && t < k * count
    ensures t == k * j + r && r < k && j < count && (count == 1 ==> j == 0)
  {
    j, r := t / k, t % k;
    assert t == k * j + r;
    if j >= count {
      if j > count { TimesMonotone(k, count, j); }
      assert false;
    }
  }

  lemma StridesAt(m: Bytes, dest: nat, src: nat, count: nat, k: nat, t: nat)
    requires k > 0 && t < k * count && (dest <= src || src + k * count <= dest || count <= 1)
    ensures Strides(m, dest, src, count, k)(dest + t) == m(src + t)
  {
    var j, r := StrideOf(k, count, t);
    StrideValue(m, dest, src, count, k, j, r);
    StridesOutside(m, dest, src, j, k, src + t);
  }

  lemma StridesByteCopied(m: Bytes, dest: nat, src: nat, count: nat, k: nat, n: nat, x: nat)
    requires k > 0 && n == k * count && (dest <= src || src + n <= dest || count <= 1)
    ensures CopiedAt(m, Strides(m, dest, src, count, k), dest, src, n, x)
  {
    if dest <= x < dest + n {
      StridesAt(m, dest, src, count, k, x - dest);
    } else {
      StridesOutside(m, dest, src, count, k, x);
    }
  }

  /** Without a harmful overlap the strides together are one copy. */
  lemma StridesCopy(m: Bytes, dest: nat, src: nat, count: nat, k: nat, n: nat)
    requires k > 0 && n == k * count && (dest <= src || src + n <= dest || count <= 1)
    ensures Copied(m, Strides(m, dest, src, count, k), dest, src, n)
  {
    forall x: nat
      ensures CopiedAt(m, Strides(m, dest, src, count, k), dest, src, n, x)
    {
      StridesByteCopied(m, dest, src, count, k, n, x);
    }
  }

  /** Where the copy goes wrong: the first byte of the source that the first stride destroys before it is read. */
  function Destroyed(dest: nat, src: nat, k: nat): nat
    requires src < dest
  {
    if dest - src < k then k else dest - src
  }

  /** A memory with a single 1, at that byte. */
  function Victim(dest: nat, src: nat, k: nat): Bytes
    requires src < dest
  {
    (x: nat) => if x == src + Destroyed(dest, src, k) then 1 else 0
  }

  /** With a harmful overlap that memory is copied wrongly: a 0 arrives where the 1 should. */
  lemma HarmfulFails(dest: nat, src: nat, count: nat, k: nat)
    requires src < dest < src + k * count && count >= 2 && k > 0
    ensures Destroyed(dest, src, k) < k * count
    ensures Strides(Victim(dest, src, k), dest, src, count, k)(dest + Destroyed(dest, src, k)) == 0
  {
    var m, t := Victim(dest, src, k), Destroyed(dest, src, k);
    var j, r := t / k, t % k;
    var at := k * j;
    assert t == at + r;
    TimesMonotone(k, 0, count);
    TimesMonotone(k, 1, count);
    if j > count { TimesMonotone(k, count, j); }
    assert j < count;
    StrideValue(m, dest, src, count, k, j, r);
    StrideValue(m, dest, src, j, k, 0, t - (dest - src));
    assert k * 0 == 0;
    assert Strides(m, dest, src, 0, k) == m;
  }

  /**
   `memcpy` copies every memory content correctly exactly when source and destination do not
   overlap, or the destination is not above the source, or one stride covers the length.
   */
  lemma CopiesIff(dest: nat, src: nat, n: nat)
    ensures (forall m: Bytes :: Copied(m, MemcpyOf(m, dest, src, n), dest, src, n))
       <==> Harmless(dest, src, n)
  {
    var k := Stride(n);
    assert k * (n / k) == n;
    if Harmless(dest, src, n) {
      forall m: Bytes
        ensures Copied(m, MemcpyOf(m, dest, src, n), dest, src, n)
      {
        StridesCopy(m, dest, src, n / k, k, n);
      }
    } else {
      HarmfulFails(dest, src, n / k, k);
      var m, x := Victim(dest, src, k), dest + Destroyed(dest, src, k);
      assert m(src + x - dest) == 1;
      assert !Copied(m, MemcpyOf(m, dest, src, n), dest, src, n);
    }
  }

  // ----- A copy that may run past its source's own bytes -----

  lemma MemcpyOutside(m: Bytes, dest: nat, src: nat, n: nat)
    ensures forall x: nat | x < dest || dest + n <= x :: MemcpyOf(m, dest, src, n)(x) == m(x)
  {
    assert Stride(n) * (n / Stride(n)) == n;
    forall x: nat | x < dest || dest + n <= x
      ensures MemcpyOf(m, dest, src, n)(x) == m(x)
    {
      StridesOutside(m, dest, src, n / Stride(n), Stride(n), x);
    }
  }

  /** A byte of the source that the copy cannot reach arrives, whatever lies behind it. */
  lemma StridesByte(m: Bytes, dest: nat, src: nat, n: nat, t: nat)
    requires t < n && (src + t < dest || dest + n <= src + t)
    ensures MemcpyOf(m, dest, src, n)(dest + t) == m(src + t)
  {
    var k := Stride(n);
    assert k * (n / k) == n;
    var j, r := StrideOf(k, n / k, t);
    StrideValue(m, dest, src, n / k, k, j, r);
    TimesMonotone(k, j, n / k);
    StridesOutside(m, dest, src, j, k, src + k * j + r);
  }

  /**
   A copy of `n` bytes into an area of `size` bytes apart from the first `q` bytes of the source:
   it brings these over, whatever memory holds, exactly when it copies as many.
   */
  lemma PrefixIff(dest: nat, src: nat, n: nat, q: nat, size: nat)
    requires n <= size && q <= size && (src + q <= dest || dest + size <= src)
    ensures (forall m: Bytes :: SameBytes(MemcpyOf(m, dest, src, n), dest, m, src, q)) <==> q <= n
  {
    if q <= n {
      forall m: Bytes, x: nat | dest <= x < dest + q
        ensures MemcpyOf(m, dest, src, n)(x) == m(src + x - dest)
      {
        StridesByte(m, dest, src, n, x - dest);
      }
    } else {
      var m: Bytes := (x: nat) => if x == src + n then 1 else 0;
      var x := dest + n;
      assert Stride(n) * (n / Stride(n)) == n;
      StridesOutside(m, dest, src, n / Stride(n), Stride(n), x);
      assert m(src + x - dest) == 1 && MemcpyOf(m, dest, src, n)(x) == m(x) == 0;
      assert !SameBytes(MemcpyOf(m, dest, src, n), dest, m, src, q);
    }
  }
}
