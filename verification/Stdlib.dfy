// reverse, itoa and atoi: an independent number printer and parser.
module Stdlib {
  import opened Arithmetic
  import opened Text

  type Int32 = x: int | -0x8000_0000 <= x < 0x8000_0000

  // The 32-bit two's complement reading of an integer.
  function Wrap(x: int): Int32 { (x + 0x8000_0000) % 0x1_0000_0000 - 0x8000_0000 }

  // C's division truncates toward zero.
  function Quo(n: int, base: nat): int
    requires base > 0
  {
    if n >= 0 then n / base else -((-n) / base)
  }

  function Rem(n: int, base: nat): int
    requires base > 0
  {
    if n >= 0 then n % base else -((-n) % base)
  }

  lemma QuoRem(n: int, base: nat)
    requires base >= 2
    ensures Rem(n, base) + base > 0 && Rem(n, base) < base
    ensures n >= 0 ==> Quo(n, base) >= 0 && Rem(n, base) >= 0
    ensures n <= 0 ==> Quo(n, base) <= 0 && Rem(n, base) <= 0
    ensures n > 0 ==> Quo(n, base) < n
    ensures n < 0 ==> Quo(n, base) > n
    ensures n != 0 && Quo(n, base) == 0 ==> Rem(n, base) == n
  {
    if n > 0 {
      DivMod(n, base);
      DivShrinks(n, base);
    } else if n < 0 {
      DivMod(-n, base);
      DivShrinks(-n, base);
    }
  }

  function DigitCode(rem: int): char
    requires -36 < rem < 36
  {
    if rem > 9 then ((rem - 10) + 'A' as int) as char else (rem + '0' as int) as char
  }

  // The characters itoa stores, lowest digit first.
  function Stored(n: int, base: nat): string
    requires 2 <= base <= 36
    decreases if n >= 0 then n else -n
  {
    if n == 0 then ""
    else
      QuoRem(n, base);
      [DigitCode(Rem(n, base))] + Stored(Quo(n, base), base)
  }

  /** What itoa leaves in the buffer, before the terminator. */
  function Itoa(num: Int32, base: nat): string
    requires 2 <= base <= 36
  {
    var n: int := num;
    if n == 0 then "0"
    else if n < 0 && base == 10 then Reversed(Stored(Wrap(-n), base) + "-")
    else Reversed(Stored(n, base))
  }

  // ------------------------------------------------------------------ the routines

  method ReverseText(str: array<char>, len: nat)
    requires len <= str.Length
    modifies str
    ensures str[..] == Reversed(old(str[..len])) + old(str[len..])
  {
    var start, end := 0, len - 1;
    while start < end
      invariant 0 <= start <= len && end == len - 1 - start && start <= end + 2
      invariant forall k :: 0 <= k < start ==> str[k] == old(str[len - 1 - k]) && str[len - 1 - k] == old(str[k])
      invariant forall k :: start <= k <= end ==> str[k] == old(str[k])
      invariant forall k :: len <= k < str.Length ==> str[k] == old(str[k])
    {
      var temp := str[start];
      str[start] := str[end];
      str[end] := temp;
      start, end := start + 1, end - 1;
    }
    assert forall k :: 0 <= k < len ==> str[k] == old(str[len - 1 - k]);
  }

  // The division loop: the digits go into the buffer lowest first.
  method StoreDigits(str: array<char>, num: Int32, base: nat) returns (i: nat)
    requires 2 <= base <= 36 && |Stored(num, base)| <= str.Length
    modifies str
    ensures i == |Stored(num, base)| && Wrote(str[..], old(str[..]), 0, Stored(num, base))
  {
    hide Wrote;
    ghost var b0 := str[..];
    WroteNothing(b0, 0);
    var n: int := num;
    i := 0;
    ghost var out := "";
    while n != 0
      invariant i == |out| && Wrote(str[..], b0, 0, out)
      invariant out + Stored(n, base) == Stored(num, base)
      decreases if n >= 0 then n else -n
    {
      QuoRem(n, base);
      var rem := Rem(n, base);
      ghost var next := Stored(Quo(n, base), base);
      assert out + ([DigitCode(rem)] + next) == out + [DigitCode(rem)] + next;
      i := PutChar(str, i, DigitCode(rem), b0, 0, out);
      out := out + [DigitCode(rem)];
      n := Quo(n, base);
    }
    assert out + "" == out;
  }

  lemma ReverseWritten(before: seq<char>, now: seq<char>, after: seq<char>, out: string)
    requires Wrote(now, before, 0, out + [NUL])
    requires after == Reversed(now[..|out|]) + now[|out|..]
    ensures Wrote(after, before, 0, Reversed(out) + [NUL])
  {
    assert now[..|out|] == out;
  }

  // The digits, the sign, the terminator, and the reversal of all but the terminator.
  method PrintReversed(str: array<char>, n: Int32, negative: bool, base: nat)
    requires 2 <= base <= 36 && |Stored(n, base)| + 1 < str.Length + (if negative then 0 else 1)
    modifies str
    ensures Wrote(str[..], old(str[..]), 0, Reversed(Stored(n, base) + (if negative then "-" else "")) + [NUL])
  {
    hide Wrote, Stored;
    ghost var b0 := str[..];
    var i := StoreDigits(str, n, base);
    ghost var out := Stored(n, base);
    if negative {
      i := PutChar(str, i, '-', b0, 0, out);
      out := out + ['-'];
    }
    assert out == Stored(n, base) + if negative then "-" else "";
    i := PutChar(str, i, NUL, b0, 0, out);
    ghost var b1 := str[..];
    ReverseText(str, i - 1);
    ReverseWritten(b0, b1, str[..], out);
  }

  /** Writes the text of itoa and its terminator. */
  method PrintInt(num: Int32, str: array<char>, base: nat)
    requires 2 <= base <= 36 && |Itoa(num, base)| < str.Length
    modifies str
    ensures Wrote(str[..], old(str[..]), 0, Itoa(num, base) + [NUL])
  {
    hide Wrote, Stored, Wrap;
    if num == 0 {
      ghost var b0 := str[..];
      WroteNothing(b0, 0);
      var i := PutChar(str, 0, '0', b0, 0, "");
      i := PutChar(str, i, NUL, b0, 0, "" + ['0']);
      assert "" + ['0'] + [NUL] == Itoa(num, base) + [NUL];
      return;
    }
    var n: int := num;
    var negative := n < 0 && base == 10;
    if negative {
      n := Wrap(-n);
    }
    ghost var text := Stored(n, base) + if negative then "-" else "";
    assert Reversed(text) == Itoa(num, base) by {
      assert !negative ==> text == Stored(n, base);
    }
    PrintReversed(str, n, negative, base);
  }

  // ------------------------------------------------------------------ itoa is a numeral

  lemma DigitCodeIsDigitChar(d: nat)
    requires d < 36
    ensures DigitCode(d) == DigitChar(d, false)
  {
  }

  lemma {:induction false} StoredIsNumeral(n: nat, base: nat)
    requires 2 <= base <= 36
    ensures Reversed(Stored(n, base)) == UpperDigits(n, base, false)
    decreases n
  {
    hide OrCase, DigitChar, DigitCode, Digits;
    if n > 0 {
      UpperDigitsStep(n, base, false);
      StoredIsNumeral(n / base, base);
      DivMod(n, base);
      DigitCodeIsDigitChar(n % base);
      var d, rest := DigitCode(n % base), Stored(n / base, base);
      assert Reversed([d] + rest) == Reversed(rest) + [d];
    }
  }

  lemma {:induction false} DigitsFromZero(n: nat, base: nat)
    requires 2 <= base <= 36
    ensures forall i :: 0 <= i < |Digits(n, base, false)| ==> Digits(n, base, false)[i] >= '0'
    decreases n
  {
    if n < base {
      DigitCodeIsDigitChar(n);
    } else {
      DivShrinks(n, base);
      DigitsFromZero(n / base, base);
      DivMod(n, base);
      DigitCodeIsDigitChar(n % base);
    }
  }

  // Below zero the leading character stored is no digit.
  lemma {:induction false} StoredBelowZero(n: int, base: nat)
    requires n < 0 && 2 <= base <= 36
    ensures |Stored(n, base)| > 0 && Stored(n, base)[|Stored(n, base)| - 1] < '0'
    decreases -n
  {
    QuoRem(n, base);
    if Quo(n, base) < 0 {
      StoredBelowZero(Quo(n, base), base);
    }
  }

  function Unsigned(n: Int32): nat { if n < 0 then n + 0x1_0000_0000 else n }

  /** What the comments promise: a minus sign in base 10, else the unsigned number. */
  function Numeral(num: Int32, base: nat): string
    requires 2 <= base <= 36
  {
    var n: int := num;
    if n < 0 && base == 10 then "-" + Digits(-n, 10, false) else Digits(Unsigned(num), base, false)
  }

  lemma WrapNegated(n: int)
    requires -0x8000_0000 <= n < 0
    ensures Wrap(-n) == if n == -0x8000_0000 then n else -n
  {
  }

  lemma ItoaNegativeDecimal(n: Int32)
    requires n < 0
    ensures Itoa(n, 10) == Numeral(n, 10) <==> n > -0x8000_0000
    ensures Itoa(n, 10) == "-" + Reversed(Stored(Wrap(-(n as int)), 10))
  {
    hide Stored, Wrap, Digits;
    var m: int := n;
    WrapNegated(m);
    MinusFirst(Stored(Wrap(-m), 10));
    if m > -0x8000_0000 {
      StoredIsNumeral(-m, 10);
    } else {
      StoredBelowZero(m, 10);
      DigitsFromZero(-m, 10);
      assert Itoa(n, 10)[1] < '0';
    }
  }

  lemma ItoaNegativeElsewhere(n: Int32, base: nat)
    requires n < 0 && 2 <= base <= 36 && base != 10
    ensures Itoa(n, base) != Numeral(n, base)
  {
    hide Stored, Wrap, Digits;
    StoredBelowZero(n, base);
    DigitsFromZero(Unsigned(n), base);
    assert Itoa(n, base)[0] < '0';
  }

  /** itoa keeps that promise exactly for the non-negative numbers and, in base 10, for
      the negative ones that have a positive counterpart. */
  lemma ItoaIsNumeral(num: Int32, base: nat)
    requires 2 <= base <= 36
    ensures Itoa(num, base) == Numeral(num, base) <==> num >= 0 || (base == 10 && num > -0x8000_0000)
  {
    if num >= 0 {
      StoredIsNumeral(num, base);
      DigitCodeIsDigitChar(0);
    } else if base == 10 {
      ItoaNegativeDecimal(num);
    } else {
      ItoaNegativeElsewhere(num, base);
    }
  }

  lemma MinusFirst(s: string)
    ensures Reversed(s + "-") == "-" + Reversed(s)
  {
  }
}
