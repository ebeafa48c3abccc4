// atoi, and what becomes of a number printed by itoa and read back.
module Atoi {
  import opened Text
  import opened Stdlib

  predicate IsSpace(c: char) {
    c == ' ' || c == '\n' || c == '\t' || c == 11 as char || c == 12 as char || c == '\r'
  }

  // Plain `char` is signed in this build.
  function SignedCode(c: char): int {
    var b := c as int % 256;
    if b >= 128 then b - 256 else b
  }

  /** The sum atoi forms: every character counts as a digit, whatever it is. */
  function Horner(s: string): int {
    if s == "" then 0 else Horner(s[..|s| - 1]) * 10 + SignedCode(s[|s| - 1]) - '0' as int
  }

  function AfterSpaces(s: seq<char>, i: nat): (j: nat)
    requires CString(s) && i < |s|
    ensures i <= j < |s| && !IsSpace(s[j]) && forall k :: i <= k < j ==> IsSpace(s[k])
    decreases |s| - i
  {
    if IsSpace(s[i]) then AfterSpaces(s, i + 1) else i
  }

  /** The value of a C string, modulo the width of an int. */
  function ReadInt(s: seq<char>): Int32
    requires CString(s)
  {
    Wrap(Horner(s[AfterSpaces(s, 0)..|s| - 1]))
  }

  lemma WrapTwice(x: int, d: int)
    ensures Wrap(Wrap(x) * 10 + d) == Wrap(x * 10 + d)
  {
    var k := (x + 0x8000_0000) / 0x1_0000_0000;
    assert Wrap(x) == x - k * 0x1_0000_0000;
    WrapShift(x * 10 + d, -10 * k);
  }

  lemma WrapShift(x: int, k: int)
    ensures Wrap(x + k * 0x1_0000_0000) == Wrap(x)
  {
  }

  lemma HornerSnoc(s: string, c: char)
    ensures Horner(s + [c]) == Horner(s) * 10 + SignedCode(c) - '0' as int
  {
    assert (s + [c])[..|s|] == s;
  }

  lemma HornerEmpty()
    ensures Horner("") == 0 && Wrap(0) == 0
  {
  }

  method ParseInt(s: seq<char>) returns (res: Int32)
    requires CString(s)
    ensures res == ReadInt(s)
  {
    hide Horner, Wrap;
    var p := 0;
    while IsSpace(s[p])
      invariant p < |s| && AfterSpaces(s, p) == AfterSpaces(s, 0)
      decreases |s| - p
    {
      p := p + 1;
    }
    var i := p;
    HornerEmpty();
    assert s[p..i] == "";
    res := 0;
    while s[i] != NUL
      invariant p <= i < |s| && res == Wrap(Horner(s[p..i]))
      decreases |s| - i
    {
      assert s[p..i + 1] == s[p..i] + [s[i]];
      HornerSnoc(s[p..i], s[i]);
      WrapTwice(Horner(s[p..i]), SignedCode(s[i]) - '0' as int);
      res := Wrap(res * 10 + (SignedCode(s[i]) - '0' as int));
      i := i + 1;
    }
  }

  // ------------------------------------------------------------------ the round trip

  function Pow10(k: nat): nat { if k == 0 then 1 else 10 * Pow10(k - 1) }

  lemma {:induction false} HornerAfterMinus(s: string)
    ensures Horner("-" + s) == Horner(s) - 3 * Pow10(|s|)
    decreases |s|
  {
    if s == "" {
      assert "-" + s == "" + ['-'];
      HornerSnoc("", '-');
    } else {
      var t := s[..|s| - 1];
      HornerAfterMinus(t);
      assert "-" + s == ("-" + t) + [s[|s| - 1]];
      HornerSnoc("-" + t, s[|s| - 1]);
    }
  }

  function Abs(n: int): nat { if n >= 0 then n else -n }

  lemma QuoRemTen(n: int)
    ensures Quo(n, 10) * 10 + Rem(n, 10) == n && -10 < Rem(n, 10) < 10
    ensures n != 0 ==> Abs(Quo(n, 10)) < Abs(n)
    ensures Abs(n) < 10 ==> Quo(n, 10) == 0
    ensures 10 * Abs(Quo(n, 10)) <= Abs(n) < 10 * Abs(Quo(n, 10)) + 10
  {
  }

  lemma DigitCounts(d: int)
    requires -10 < d < 10
    ensures SignedCode(DigitCode(d)) - '0' as int == d
  {
  }

  /** Whatever itoa stores in base 10, digit or not, adds up to the number again. */
  lemma {:induction false} StoredAddsUp(n: int)
    ensures Horner(Reversed(Stored(n, 10))) == n
    decreases Abs(n)
  {
    if n == 0 {
      assert Reversed(Stored(n, 10)) == "";
    } else {
      hide Horner;
      QuoRemTen(n);
      StoredAddsUp(Quo(n, 10));
      var c, rest := DigitCode(Rem(n, 10)), Stored(Quo(n, 10), 10);
      assert Reversed([c] + rest) == Reversed(rest) + [c];
      HornerSnoc(Reversed(rest), c);
      DigitCounts(Rem(n, 10));
    }
  }

  lemma {:induction false} StoredLength(n: int, k: nat)
    ensures Abs(n) < Pow10(|Stored(n, 10)|)
    ensures Abs(n) < Pow10(k) ==> |Stored(n, 10)| <= k
    decreases Abs(n)
  {
    if n != 0 {
      QuoRemTen(n);
      StoredLength(Quo(n, 10), if k > 0 then k - 1 else 0);
    }
  }

  lemma Powers()
    ensures Pow10(1) == 10 && Pow10(2) == 100 && Pow10(3) == 1000 && Pow10(4) == 10000
    ensures Pow10(5) == 100000 && Pow10(6) == 1000000 && Pow10(7) == 10000000
    ensures Pow10(8) == 100000000 && Pow10(9) == 1000000000 && Pow10(10) == 10000000000
  {
    assert Pow10(3) == 1000;
    assert Pow10(6) == 1000000;
  }

  // The minus sign counts as digit -3, so a negative number is off by 3 * 10^k.
  lemma MinusIsOff(n: int, m: int, k: nat)
    requires -0x8000_0000 <= n < 0 && (m == -n || (m == n == -0x8000_0000))
    requires k <= 10 && Abs(m) < Pow10(k)
    ensures Wrap(m - 3 * Pow10(k)) == n <==> n == -2115098112
  {
    Powers();
    assert Pow10(0) == 1;
    var x := m - 3 * Pow10(k);
    if k <= 8 {
      assert -0x8000_0000 <= x < 0 || m == n;
    } else if k == 9 {
      assert x == m - 3000000000;
    } else {
      assert x == m - 30000000000;
      WrapShift(x, 7);
    }
  }

  lemma NegativeReadsBack(n: Int32)
    requires n < 0
    ensures Wrap(Horner(Itoa(n, 10))) == n <==> n == -2115098112
  {
    hide Wrap, Stored, Horner, Pow10, Itoa, Numeral;
    var m: int := n;
    ItoaNegativeDecimal(n);
    WrapNegated(m);
    var v: int := Wrap(-m);
    var r := Reversed(Stored(v, 10));
    StoredAddsUp(v);
    Powers();
    StoredLength(v, 10);
    HornerAfterMinus(r);
    MinusIsOff(m, v, |r|);
  }

  lemma {:induction false} StoredNotNul(n: int)
    ensures forall i :: 0 <= i < |Stored(n, 10)| ==> Stored(n, 10)[i] > ' '
    decreases Abs(n)
  {
    if n != 0 {
      QuoRemTen(n);
      StoredNotNul(Quo(n, 10));
    }
  }

  // The text has no blank and no terminator in it.
  lemma ItoaIsText(n: Int32)
    ensures |Itoa(n, 10)| > 0 && forall i :: 0 <= i < |Itoa(n, 10)| ==> Itoa(n, 10)[i] > ' '
  {
    hide Stored;
    var m: int := n;
    if m > 0 {
      StoredIsNumeral(m, 10);
      StoredNotNul(m);
    } else if m < 0 {
      ItoaNegativeDecimal(n);
      StoredNotNul(Wrap(-m));
    }
  }

  /** atoi reads back what itoa printed in base 10 for every non-negative number, and for
      just one negative one, where the error happens to be a multiple of 2^32. */
  lemma AtoiAfterItoa(n: Int32)
    ensures CString(Itoa(n, 10) + [NUL])
    ensures ReadInt(Itoa(n, 10) + [NUL]) == n <==> n >= 0 || n == -2115098112
  {
    hide Wrap, Stored, Horner, Itoa;
    ItoaIsText(n);
    var text := Itoa(n, 10);
    var s := text + [NUL];
    assert s[0] == text[0] && s[0..|text|] == text;
    if n < 0 {
      NegativeReadsBack(n);
    } else {
      NonNegativeReadsBack(n);
    }
  }

  lemma NonNegativeReadsBack(n: Int32)
    requires n >= 0
    ensures Wrap(Horner(Itoa(n, 10))) == n
  {
    if n == 0 {
      ZeroText();
    } else {
      StoredAddsUp(n);
      WrapSmall(n);
    }
  }

  lemma WrapSmall(n: Int32)
    ensures Wrap(n) == n
  {
  }

  lemma ZeroText()
    ensures Itoa(0, 10) == "0" && Wrap(Horner("0")) == 0
  {
    HornerSnoc("", '0');
    assert "" + ['0'] == "0";
  }

  lemma {:induction false} SpacesStopAt(s: seq<char>, i: nat, j: nat)
    requires CString(s) && i <= j < |s| && !IsSpace(s[j]) && forall k :: i <= k < j ==> IsSpace(s[k])
    ensures AfterSpaces(s, i) == j
    decreases j - i
  {
    if i < j { SpacesStopAt(s, i + 1, j); }
  }

  /** Blanks, tabs and line breaks of any kind in front of a numeral do not count. */
  lemma BlanksDoNotCount(blanks: string, n: Int32)
    requires n >= 0
    requires forall i :: 0 <= i < |blanks| ==> blanks[i] == ' ' || 9 <= blanks[i] as int <= 13
    ensures var s := blanks + Digits(n, 10, false) + [NUL];
      CString(s) && ReadInt(s) == n
  {
    hide Wrap, Stored, Horner, Itoa, Digits;
    var text := Itoa(n, 10);
    var s := blanks + text + [NUL];
    ItoaIsNumeral(n, 10);
    ItoaIsText(n);
    NonNegativeReadsBack(n);
    assert s[|blanks|] == text[0] && s[|blanks|..|s| - 1] == text;
    assert forall k :: 0 <= k < |blanks| ==> s[k] == blanks[k];
    SpacesStopAt(s, 0, |blanks|);
  }
}
