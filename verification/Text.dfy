// Characters, numerals, and writing through a moving pointer.
module Text {
  import opened Arithmetic

  const NUL: char := '\0'

  type Word = x: nat | x < 0x1_0000_0000
  type Byte = x: nat | x < 256

  /** A C string: the terminator is its last element and occurs nowhere else. */
  predicate CString(s: seq<char>) {
    |s| > 0 && s[|s| - 1] == NUL && forall i :: 0 <= i < |s| - 1 ==> s[i] != NUL
  }

  predicate IsDigit(c: char) { '0' <= c <= '9' }

  function Repeat(c: char, n: int): (s: string)
    ensures |s| == if n <= 0 then 0 else n
    ensures forall i :: 0 <= i < |s| ==> s[i] == c
  {
    seq(if n <= 0 then 0 else n, _ => c)
  }

  lemma RepeatSnoc(c: char, n: nat)
    ensures Repeat(c, n) + [c] == Repeat(c, n + 1)
    ensures Repeat(c, 0) == ""
  {
  }

  // ------------------------------------------------------------------ numerals

  // ORing a character with 0x20, its bit number 5: lower-cases a letter, keeps a digit.
  function OrCase(c: char, small: bool): char
    requires c as int < 256
  {
    if small && c as int / 32 % 2 == 0 then (c as int + 32) as char else c
  }

  // The digits of all bases up to 36.
  function DigitChar(d: nat, small: bool): char
    requires d < 36
  {
    OrCase(if d < 10 then ('0' as int + d) as char else ('A' as int + d - 10) as char, small)
  }

  /** The value of a digit character, in either case. */
  function DigitValue(c: char): int {
    if '0' <= c <= '9' then c as int - '0' as int
    else if 'A' <= c <= 'Z' then c as int - 'A' as int + 10
    else if 'a' <= c <= 'z' then c as int - 'a' as int + 10
    else -1
  }

  lemma DigitCharValue(d: nat, small: bool)
    requires d < 36
    ensures DigitValue(DigitChar(d, small)) == d
    ensures IsDigit(DigitChar(d, small)) <==> d < 10
  {
  }

  /** The shortest numeral for n. */
  function Digits(n: nat, base: nat, small: bool): (s: string)
    requires 2 <= base <= 36
    ensures |s| > 0
    decreases n
  {
    if n < base then [DigitChar(n, small)]
    else
      Shrinks(n, base);
      Digits(n / base, base, small) + [DigitChar(n % base, small)]
  }

  /** The number a numeral denotes. */
  function ValueOf(s: string, base: nat): int {
    if s == [] then 0 else ValueOf(s[..|s| - 1], base) * base + DigitValue(s[|s| - 1])
  }

  lemma ValueOfSnoc(s: string, c: char, base: nat)
    ensures ValueOf(s + [c], base) == ValueOf(s, base) * base + DigitValue(c)
  {
    assert (s + [c])[..|s|] == s;
  }

  lemma ValueOfDigit(c: char, base: nat)
    ensures ValueOf([c], base) == DigitValue(c)
  {
    ValueOfSnoc([], c, base);
  }

  /** Reading a numeral back gives the number it was written for. */
  lemma {:induction false} DigitsRoundTrip(n: nat, base: nat, small: bool)
    requires 2 <= base <= 36
    ensures ValueOf(Digits(n, base, small), base) == n
    decreases n
  {
    hide ValueOf, DigitChar, DigitValue;
    DivMod(n, base);
    if n < base {
      DigitCharValue(n, small);
      ValueOfDigit(DigitChar(n, small), base);
    } else {
      Shrinks(n, base);
      DigitsRoundTrip(n / base, base, small);
      DigitCharValue(n % base, small);
      ValueOfSnoc(Digits(n / base, base, small), DigitChar(n % base, small), base);
    }
  }

  lemma {:induction false} DecimalDigits(n: nat, small: bool)
    ensures forall i :: 0 <= i < |Digits(n, 10, small)| ==> IsDigit(Digits(n, 10, small)[i])
    decreases n
  {
    if n < 10 {
      DigitCharValue(n, small);
    } else {
      DecimalDigits(n / 10, small);
      DigitCharValue(n % 10, small);
    }
  }

  // The digits still to come once the lower ones have been divided off.
  function UpperDigits(n: nat, base: nat, small: bool): string
    requires 2 <= base <= 36
  {
    if n == 0 then "" else Digits(n, base, small)
  }

  lemma UpperDigitsStep(n: nat, base: nat, small: bool)
    requires 2 <= base <= 36 && n > 0
    ensures n / base < n
    ensures UpperDigits(n, base, small) == UpperDigits(n / base, base, small) + [DigitChar(n % base, small)]
  {
    DivShrinks(n, base);
  }

  lemma UpperDigitsEnds(n: nat, base: nat, small: bool)
    requires 2 <= base <= 36
    ensures UpperDigits(n, base, small) == if n == 0 then "" else Digits(n, base, small)
    ensures UpperDigits(0, base, small) == "" && Digits(0, base, small) == "0"
  {
  }

  // One more digit moves from the number to the reversed digits already taken.
  lemma TakeDigit(upper: string, rest: string, c: char, t: string)
    requires upper == rest + [c]
    ensures upper + Reversed(t) == rest + Reversed(t + [c])
  {
    assert Reversed(t + [c]) == [c] + Reversed(t);
  }

  function Pow2(k: nat): nat { if k == 0 then 1 else 2 * Pow2(k - 1) }

  lemma HalfBound(n: nat, base: nat, p: nat)
    requires 2 <= base <= n < 2 * p
    ensures 0 < n / base < p
  {
    DivMod(n, base);
    DivShrinks(n, base);
    MulMonotone(n / base, 2, base);
  }

  lemma {:induction false} DigitsBound(n: nat, base: nat, small: bool, k: nat)
    requires 2 <= base <= 36 && n < Pow2(k) && k > 0
    ensures |Digits(n, base, small)| <= k
    decreases k
  {
    if n >= base {
      HalfBound(n, base, Pow2(k - 1));
      DigitsBound(n / base, base, small, k - 1);
    }
  }

  lemma WordBits()
    ensures Pow2(32) == 0x1_0000_0000
  {
    assert Pow2(8) == 0x100;
    assert Pow2(16) == 0x1_0000;
    assert Pow2(24) == 0x100_0000;
  }

  function Reversed<T>(s: seq<T>): (r: seq<T>)
    ensures |r| == |s| && forall i :: 0 <= i < |s| ==> r[i] == s[|s| - 1 - i]
  {
    seq(|s|, i requires 0 <= i < |s| => s[|s| - 1 - i])
  }

  lemma ReversedTwice<T>(s: seq<T>)
    ensures Reversed(Reversed(s)) == s
  {
  }

  // ------------------------------------------------------------------ writing

  /** `now` is `before` with `out` written from position p on. */
  ghost predicate Wrote(now: seq<char>, before: seq<char>, p: nat, out: string) {
    && p + |out| <= |before|
    && now == before[..p] + out + before[p + |out|..]
  }

  lemma WroteChar(now: seq<char>, before: seq<char>, p: nat, out: string, c: char)
    requires Wrote(now, before, p, out) && p + |out| < |before|
    ensures p + |out| < |now| && Wrote(now[p + |out| := c], before, p, out + [c])
  {
  }

  lemma WroteNothing(b: seq<char>, p: nat)
    requires p <= |b|
    ensures Wrote(b, b, p, "")
  {
  }

  lemma WroteThen(b0: seq<char>, b1: seq<char>, b2: seq<char>, p: nat, x: string, y: string)
    requires Wrote(b1, b0, p, x) && Wrote(b2, b1, p + |x|, y)
    ensures Wrote(b2, b0, p, x + y)
  {
  }

  // `*str++ = c;`, in a run of writes that began at `from`.
  method PutChar(buf: array<char>, str: nat, c: char, ghost before: seq<char>, ghost from: nat, ghost out: string)
    returns (end: nat)
    requires Wrote(buf[..], before, from, out) && str == from + |out| < buf.Length
    modifies buf
    ensures end == str + 1 && Wrote(buf[..], before, from, out + [c])
  {
    WroteChar(buf[..], before, from, out, c);
    buf[str] := c;
    end := str + 1;
  }
}
