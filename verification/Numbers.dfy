/**
 Numbers to text and back: `utoa`, `ultoa`, `itoa`, `atoi` and the in-place `reverse` that the
 first three end with. A string is a character array with a terminator.
 */
module Numbers {
  const WORDS: nat := 0x1_0000_0000
  const LONGS: nat := 0x1_0000_0000_0000_0000
  const NUL: char := '\0'

  // ----- Digits and their value -----

  predicate Base(base: int) { base == 2 || base == 8 || base == 10 || base == 16 }

  lemma DivStep(v: nat, base: nat)
    requires Base(base)
    ensures v % base < base && v / base <= v && (v > 0 ==> v / base < v)
    ensures v == v % base + base * (v / base)
    ensures v < base ==> v % base == v && v / base == 0
    ensures v >= base ==> v / base > 0
  {
  }

  /** The digits of `v`, lowest first: at least one. */
  function Low(v: nat, base: nat): seq<nat>
    requires Base(base)
    decreases v
  {
    DivStep(v, base);
    if v < base then [v] else [v % base] + Low(v / base, base)
  }

  function Value(ds: seq<nat>, base: nat): nat {
    if ds == [] then 0 else ds[0] + base * Value(ds[1..], base)
  }

  /** The digits evaluate back to the number, are below the base, and have no leading zero. */
  lemma {:induction false} LowValue(v: nat, base: nat)
    requires Base(base)
    ensures Value(Low(v, base), base) == v && Low(v, base) != []
    ensures forall i: nat | i < |Low(v, base)| :: Low(v, base)[i] < base
    ensures v > 0 ==> Low(v, base)[|Low(v, base)| - 1] != 0
    decreases v
  {
    DivStep(v, base);
    if v < base {
      ValueOne(v, base);
    } else {
      LowValue(v / base, base);
      assert Low(v, base)[1..] == Low(v / base, base);
    }
  }

  lemma ValueOne(d: nat, base: nat)
    ensures Value([d], base) == d
  {
    assert [d][1..] == [];
    assert Value([], base) == 0;
  }

  function Reversed<T>(s: seq<T>): (r: seq<T>)
    ensures |r| == |s| && forall k: nat | k < |s| :: r[k] == s[|s| - 1 - k]
  {
    seq(|s|, i requires 0 <= i < |s| => s[|s| - 1 - i])
  }

  /** `digit_str` has a character for every digit, and none of them ends a string. */
  predicate DigitStr(digitStr: string, base: nat) {
    base <= |digitStr| && forall i: nat | i < base :: digitStr[i] != NUL
  }

  /** Characters of digits. */
  function Text(ds: seq<nat>, digitStr: string): (s: string)
    requires forall i: nat | i < |ds| :: ds[i] < |digitStr|
    ensures |s| == |ds|
  {
    seq(|ds|, i requires 0 <= i < |ds| => digitStr[ds[i]])
  }

  /** A number as text, the lowest digit first, and the highest first. */
  function LowText(v: nat, base: nat, digitStr: string): string
    requires Base(base) && DigitStr(digitStr, base)
  {
    LowValue(v, base);
    Text(Low(v, base), digitStr)
  }

  function UText(v: nat, base: nat, digitStr: string): string
    requires Base(base) && DigitStr(digitStr, base)
  {
    Reversed(LowText(v, base, digitStr))
  }

  function IText(v: int, base: nat, digitStr: string): string
    requires Base(base) && DigitStr(digitStr, base)
  {
    if v < 0 then ['-'] + UText(-v, base, digitStr) else UText(v, base, digitStr)
  }

  // ----- Strings in arrays -----

  /** The array holds `s` and a terminator. */
  ghost predicate Holds(a: array<char>, s: string)
    reads a
  {
    |s| < a.Length && a[..|s|] == s && a[|s|] == NUL && NUL !in s
  }

  method StrLen(a: array<char>, ghost s: string) returns (n: nat)
    requires Holds(a, s)
    ensures n == |s|
  {
    assert forall k: nat | k < |s| :: a[k] == s[k] && s[k] in s;
    n := 0;
    while a[n] != NUL
      invariant n <= |s|
      decreases |s| - n
    {
      n := n + 1;
    }
  }

  /**
   Swaps from both ends. The last index of an empty string wraps to 2^64 - 1, and the first swap
   is outside the array: the result is false exactly then.
   */
  method Reverse(a: array<char>, ghost s: string) returns (ok: bool)
    requires Holds(a, s) && a.Length < LONGS
    modifies a
    ensures ok <==> s != []
    ensures ok ==> Holds(a, Reversed(s)) && a[|s|..] == old(a[|s|..])
  {
    var len := StrLen(a, s);
    var i, j := (len + LONGS - 1) % LONGS, 0;
    if i >= a.Length {
      return false;
    }
    while i > j
      invariant i + j == len - 1 && j <= len
      invariant forall k: nat | j <= k <= i :: a[k] == s[k]
      invariant forall k: nat | k < j || i < k < len :: a[k] == s[len - 1 - k]
      invariant a[len..] == old(a[len..])
      decreases i
    {
      a[i], a[j] := a[j], a[i];
      i, j := i - 1, j + 1;
    }
    ok := true;
    assert a[..len] == Reversed(s);
  }

  // ----- Numbers to text -----

  lemma LowStep(v: nat, base: nat, q: nat, d: nat)
    requires Base(base) && q == v / base && d == v % base
    ensures d < base && (v > 0 ==> q < v) && Low(v, base) == [d] + if q == 0 then [] else Low(q, base)
  {
    DivStep(v, base);
  }

  lemma TextCons(d: nat, ds: seq<nat>, digitStr: string)
    requires d < |digitStr| && forall i: nat | i < |ds| :: ds[i] < |digitStr|
    ensures Text([d] + ds, digitStr) == [digitStr[d]] + Text(ds, digitStr)
  {
  }

  /** The text of a number from its quotient and remainder. */
  lemma LowTextStep(v: nat, base: nat, digitStr: string, q: nat, d: nat)
    requires Base(base) && DigitStr(digitStr, base) && q == v / base && d == v % base
    ensures d < base && (v > 0 ==> q < v)
    ensures LowText(v, base, digitStr) == [digitStr[d]] + Left(q, base, digitStr, q != 0)
  {
    LowStep(v, base, q, d);
    LowValue(v, base);
    LowValue(q, base);
    TextCons(d, if q == 0 then [] else Low(q, base), digitStr);
  }

  lemma NoNul(v: nat, base: nat, digitStr: string)
    requires Base(base) && DigitStr(digitStr, base)
    ensures NUL !in LowText(v, base, digitStr) && LowText(v, base, digitStr) != []
  {
    LowValue(v, base);
  }

  /** What is left to write: nothing once the quotient is 0. */
  function Left(q: nat, base: nat, digitStr: string, more: bool): string
    requires Base(base) && DigitStr(digitStr, base)
  {
    if more then LowText(q, base, digitStr) else []
  }

  method NextDigit(quotient: nat, base: nat, digitStr: string) returns (tmp: nat, digit: nat)
    requires Base(base) && DigitStr(digitStr, base)
    ensures digit < base && (quotient > 0 ==> tmp < quotient)
    ensures LowText(quotient, base, digitStr) == [digitStr[digit]] + Left(tmp, base, digitStr, tmp != 0)
  {
    DivStep(quotient, base);
    tmp := quotient / base;
    digit := quotient - tmp * base;
    LowTextStep(quotient, base, digitStr, tmp, digit);
  }

  /** The loop of `utoa` and `ultoa`: the digits, lowest first. */
  method WriteLow(value: nat, a: array<char>, base: nat, digitStr: string) returns (sz: nat)
    requires Base(base) && DigitStr(digitStr, base) && |LowText(value, base, digitStr)| < a.Length
    modifies a
    ensures sz == |LowText(value, base, digitStr)| && a[..sz] == LowText(value, base, digitStr)
  {
    ghost var text := LowText(value, base, digitStr);
    var quotient: nat, more := value, true;
    sz := 0;
    while more
      invariant sz + |Left(quotient, base, digitStr, more)| == |text|
      invariant a[..sz] + Left(quotient, base, digitStr, more) == text
      decreases if more then quotient + 1 else 0
    {
      var tmp, digit := NextDigit(quotient, base, digitStr);
      a[sz] := digitStr[digit];
      quotient, sz, more := tmp, sz + 1, tmp != 0;
    }
  }

  /** The code that `utoa` and `ultoa` share; the quotient never grows, so that no width is exceeded. */
  method Unsigned(value: nat, a: array<char>, base: int, digitStr: string) returns (sz: nat)
    requires 0 < a.Length < LONGS
    requires Base(base) ==> DigitStr(digitStr, base) && |UText(value, base, digitStr)| < a.Length
    modifies a
    ensures if Base(base) then sz == |UText(value, base, digitStr)| && Holds(a, UText(value, base, digitStr))
            else sz == 0 && Holds(a, [])
  {
    if !Base(base) {
      a[0] := NUL;
      return 0;
    }
    NoNul(value, base, digitStr);
    sz := WriteLow(value, a, base, digitStr);
    a[sz] := NUL;
    var ok := Reverse(a, LowText(value, base, digitStr));
  }

  method Utoa(value: nat, a: array<char>, base: int, digitStr: string) returns (sz: nat)
    requires value < WORDS && 0 < a.Length < LONGS
    requires Base(base) ==> DigitStr(digitStr, base) && |UText(value, base, digitStr)| < a.Length
    modifies a
    ensures if Base(base) then sz == |UText(value, base, digitStr)| && Holds(a, UText(value, base, digitStr))
            else sz == 0 && Holds(a, [])
  {
    sz := Unsigned(value, a, base, digitStr);
  }

  method Ultoa(value: nat, a: array<char>, base: int, digitStr: string) returns (sz: nat)
    requires value < LONGS && 0 < a.Length < LONGS
    requires Base(base) ==> DigitStr(digitStr, base) && |UText(value, base, digitStr)| < a.Length
    modifies a
    ensures if Base(base) then sz == |UText(value, base, digitStr)| && Holds(a, UText(value, base, digitStr))
            else sz == 0 && Holds(a, [])
  {
    sz := Unsigned(value, a, base, digitStr);
  }

  // ----- Signed numbers -----

  /** Division toward zero. */
  function Quot(v: int, base: nat): int
    requires base > 0
  {
    if v < 0 then -(-v / base) else v / base
  }

  /** `abs`, by the sign spread over the word; `itoa` uses it on remainders, far from the lowest number. */
  function AbsBits(x: bv32): bv32 {
    var y: bv32 := if x & 0x8000_0000 != 0 then 0xFFFF_FFFF else 0;
    (x ^ y) - y
  }

  lemma Flip(x: bv32, y: bv32)
    requires y == 0xFFFF_FFFF
    ensures (x ^ y) - y == 0 - x
  {
  }

  lemma AbsOfPositive(x: bv32)
    requires x & 0x8000_0000 == 0
    ensures AbsBits(x) == x
  {
  }

  lemma AbsOfNegative(x: bv32)
    requires x & 0x8000_0000 != 0
    ensures AbsBits(x) == 0 - x
  {
    Flip(x, 0xFFFF_FFFF);
  }

  /** The branch-free form is the absolute value; the lowest number is its own. */
  lemma AbsIsAbs(x: bv32)
    ensures AbsBits(x) == if x & 0x8000_0000 == 0 then x else 0 - x
  {
    if x & 0x8000_0000 == 0 {
      AbsOfPositive(x);
    } else {
      AbsOfNegative(x);
    }
  }

  function Abs(x: int): nat { if x < 0 then -x else x }

  /** The word that holds a remainder of `itoa`, in two's complement. */
  function RemainderWord(r: int): bv32
    requires -16 < r < 16
  {
    if r < 0 then 0 - (-r) as bv32 else r as bv32
  }

  lemma SmallWord(n: nat)
    requires n < 16
    ensures n as bv32 < 16 && (n > 0 ==> n as bv32 != 0)
  {
  }

  lemma Negated(k: bv32)
    requires 0 < k < 16
    ensures (0 - k) & 0x8000_0000 != 0 && 0 - (0 - k) == k
  {
  }

  lemma SmallPositive(k: bv32)
    requires k < 16
    ensures k & 0x8000_0000 == 0
  {
  }

  /** On the remainders of a division by a base, the code's `abs` is the absolute value. */
  lemma AbsOfRemainder(r: int)
    requires -16 < r < 16
    ensures AbsBits(RemainderWord(r)) == Abs(r) as bv32
  {
    SmallWord(Abs(r));
    if r < 0 {
      Negated(Abs(r) as bv32);
    } else {
      SmallPositive(Abs(r) as bv32);
    }
    AbsIsAbs(RemainderWord(r));
  }

  lemma QuotStep(v: int, base: nat)
    requires Base(base)
    ensures Abs(Quot(v, base)) == Abs(v) / base && Abs(v - Quot(v, base) * base) == Abs(v) % base
    ensures v != 0 ==> Abs(Quot(v, base)) < Abs(v)
  {
    DivStep(Abs(v), base);
  }

  /** `abs` of a remainder, as the code computes it on words. */
  method AbsDigit(left: int) returns (digit: nat)
    requires -16 < left < 16
    ensures digit == Abs(left)
  {
    AbsOfRemainder(left);
    BackFromWord(Abs(left));
    digit := AbsBits(RemainderWord(left)) as nat;
  }

  lemma BackFromWord(n: nat)
    requires n < 16
    ensures (n as bv32) as nat == n
  {
  }

  method NextSigned(quotient: int, base: nat, digitStr: string) returns (tmp: int, digit: nat)
    requires Base(base) && DigitStr(digitStr, base)
    ensures digit < base && (quotient != 0 ==> Abs(tmp) < Abs(quotient))
    ensures LowText(Abs(quotient), base, digitStr) == [digitStr[digit]] + Left(Abs(tmp), base, digitStr, tmp != 0)
  {
    QuotStep(quotient, base);
    tmp := Quot(quotient, base);
    digit := AbsDigit(quotient - tmp * base);
    LowTextStep(Abs(quotient), base, digitStr, Abs(tmp), digit);
  }

  /** The loop of `itoa`: remainders of a division toward zero, made positive. */
  method WriteSigned(value: int, a: array<char>, base: nat, digitStr: string) returns (sz: nat)
    requires Base(base) && DigitStr(digitStr, base) && |LowText(Abs(value), base, digitStr)| < a.Length
    modifies a
    ensures sz == |LowText(Abs(value), base, digitStr)| && a[..sz] == LowText(Abs(value), base, digitStr)
  {
    ghost var text := LowText(Abs(value), base, digitStr);
    var quotient, more := value, true;
    sz := 0;
    while more
      invariant sz + |Left(Abs(quotient), base, digitStr, more)| == |text|
      invariant a[..sz] + Left(Abs(quotient), base, digitStr, more) == text
      decreases if more then Abs(quotient) + 1 else 0
    {
      var tmp, digit := NextSigned(quotient, base, digitStr);
      a[sz] := digitStr[digit];
      quotient, sz, more := tmp, sz + 1, tmp != 0;
    }
  }

  method Itoa(value: int, a: array<char>, base: int, digitStr: string) returns (sz: nat)
    requires -0x8000_0000 <= value < 0x8000_0000 && 0 < a.Length < LONGS
    requires Base(base) ==> DigitStr(digitStr, base) && |IText(value, base, digitStr)| < a.Length
    modifies a
    ensures if Base(base) then sz == |IText(value, base, digitStr)| && Holds(a, IText(value, base, digitStr))
            else sz == 0 && Holds(a, [])
  {
    if !Base(base) {
      a[0] := NUL;
      return 0;
    }
    NoNul(Abs(value), base, digitStr);
    sz := WriteSigned(value, a, base, digitStr);
    ghost var low := LowText(Abs(value), base, digitStr);
    if value < 0 {
      a[sz] := '-';
      sz := sz + 1;
      low := low + ['-'];
    }
    a[sz] := NUL;
    var ok := Reverse(a, low);
    assert Reversed(low) == IText(value, base, digitStr);
  }

  // ----- Text to numbers -----

  /** `ISDIGIT`. */
  predicate IsDigit(c: char) { 0x30 <= c as int <= 0x39 }

  function DigitOf(c: char): nat
    requires IsDigit(c)
  {
    c as int - 48
  }

  ghost predicate AllDigits(s: string) { forall i: nat | i < |s| :: IsDigit(s[i]) }

  /** The digits at the start of a string, and their value. */
  function Prefix(s: string): (p: string)
    ensures |p| <= |s|
  {
    if s != [] && IsDigit(s[0]) then [s[0]] + Prefix(s[1..]) else []
  }

  ghost function Decimal(p: string): nat
    requires AllDigits(p)
  {
    if p == [] then 0 else Decimal(p[..|p| - 1]) * 10 + DigitOf(p[|p| - 1])
  }

  lemma {:induction false} PrefixIs(s: string, n: nat)
    requires n <= |s| && AllDigits(s[..n]) && (n < |s| ==> !IsDigit(s[n]))
    ensures Prefix(s) == s[..n]
  {
    if n > 0 {
      assert IsDigit(s[..n][0]) && s[1..][..n - 1] == s[..n][1..];
      PrefixIs(s[1..], n - 1);
      assert s[..n] == [s[0]] + s[1..][..n - 1];
    }
  }

  lemma {:induction false} PrefixDigits(s: string)
    ensures AllDigits(Prefix(s))
  {
    if s != [] && IsDigit(s[0]) {
      PrefixDigits(s[1..]);
    }
  }

  lemma DecimalMore(s: string, i: nat)
    requires i < |s| && AllDigits(s[..i]) && IsDigit(s[i])
    ensures AllDigits(s[..i + 1]) && Decimal(s[..i + 1]) == Decimal(s[..i]) * 10 + DigitOf(s[i])
  {
    var p := s[..i + 1];
    assert p[..|p| - 1] == s[..i];
    assert forall k: nat | k < i :: p[k] == s[..i][k];
  }

  lemma WrapStep(x: nat, d: nat)
    ensures (x % WORDS * 10 + d) % WORDS == (x * 10 + d) % WORDS
  {
    var q := x / WORDS;
    assert x * 10 + d == x % WORDS * 10 + d + WORDS * (10 * q);
  }

  /** The value of the digits at the start of the string, in 32 bits; 0 for a null pointer. */
  method Atoi(a: array?<char>, ghost s: string) returns (result: nat)
    requires a != null ==> Holds(a, s)
    ensures AllDigits(Prefix(s))
    ensures result == if a == null then 0 else Decimal(Prefix(s)) % WORDS
  {
    PrefixDigits(s);
    if a == null {
      return 0;
    }
    assert forall k: nat | k < |s| :: a[k] == s[k] && s[k] in s;
    result := 0;
    var i := 0;
    while a[i] != NUL
      invariant i <= |s| && AllDigits(s[..i]) && result == Decimal(s[..i]) % WORDS
      decreases |s| - i
    {
      if !IsDigit(a[i]) {
        PrefixIs(s, i);
        return;
      }
      DecimalMore(s, i);
      WrapStep(Decimal(s[..i]), DigitOf(s[i]));
      result := (result * 10 + a[i] as int - 48) % WORDS;
      i := i + 1;
    }
    PrefixIs(s, i);
  }

  // ----- Round trips -----

  /** The first ten characters of `digit_str` are the decimal digits. */
  predicate DecimalStr(digitStr: string) {
    DigitStr(digitStr, 10) && forall i: nat | i < 10 :: digitStr[i] as int == 48 + i
  }

  lemma UTextStep(v: nat, base: nat, digitStr: string, q: nat, d: nat)
    requires Base(base) && DigitStr(digitStr, base) && q == v / base && d == v % base
    ensures d < base
    ensures UText(v, base, digitStr) == (if q == 0 then [] else UText(q, base, digitStr)) + [digitStr[d]]
  {
    LowTextStep(v, base, digitStr, q, d);
  }

  lemma {:induction false} UTextDecimal(v: nat, digitStr: string)
    requires DecimalStr(digitStr)
    ensures var s := UText(v, 10, digitStr); s != [] && AllDigits(s) && Decimal(s) == v
    decreases v
  {
    var s, c := UText(v, 10, digitStr), digitStr[v % 10];
    UTextStep(v, 10, digitStr, v / 10, v % 10);
    assert IsDigit(c) && DigitOf(c) == v % 10;
    if v / 10 == 0 {
      assert s[..|s| - 1] == [] && Decimal([]) == 0;
    } else {
      UTextDecimal(v / 10, digitStr);
      assert s[..|s| - 1] == UText(v / 10, 10, digitStr);
    }
  }

  /** What `atoi` makes of a string. */
  ghost function Parsed(s: string): nat {
    PrefixDigits(s);
    Decimal(Prefix(s)) % WORDS
  }

  lemma ParsedDigits(s: string)
    requires AllDigits(s)
    ensures Parsed(s) == Decimal(s) % WORDS
  {
    assert s[..|s|] == s;
    PrefixIs(s, |s|);
  }

  /** `atoi(utoa(v, 10)) == v` for all 32-bit `v`; of a longer number, the lowest 32 bits. */
  lemma RoundTrip(v: nat, digitStr: string)
    requires DecimalStr(digitStr)
    ensures Parsed(UText(v, 10, digitStr)) == v % WORDS
    ensures v < WORDS ==> Parsed(UText(v, 10, digitStr)) == v
  {
    UTextDecimal(v, digitStr);
    ParsedDigits(UText(v, 10, digitStr));
  }

  /** The sign is not read back: a signed number survives exactly when it is not negative. */
  lemma SignedRoundTripIff(v: int, digitStr: string)
    requires DecimalStr(digitStr) && -0x8000_0000 <= v < 0x8000_0000
    ensures Parsed(IText(v, 10, digitStr)) == v <==> v >= 0
  {
    if v >= 0 {
      RoundTrip(v, digitStr);
    } else {
      assert Prefix(IText(v, 10, digitStr)) == [];
    }
  }

  /** The sign and the digits: every 32-bit number is told apart, the lowest one included. */
  ghost function SignedValue(negative: bool, ds: seq<nat>, base: nat): int {
    if negative then 0 - Value(ds, base) else Value(ds, base)
  }

  lemma SignedDigits(v: int, base: nat, digitStr: string)
    requires Base(base) && DigitStr(digitStr, base)
    ensures SignedValue(v < 0, Low(Abs(v), base), base) == v
    ensures IText(v, base, digitStr) == (if v < 0 then ['-'] else []) + Reversed(LowText(Abs(v), base, digitStr))
  {
    LowValue(Abs(v), base);
  }
}
