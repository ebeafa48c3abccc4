// Reading a formatted number back from its text alone.
module NumberReading {
  import Arithmetic
  import opened Wrappers
  import opened Text
  import opened NumberFormat

  predicate IsDigitOf(c: char, base: nat) { 0 <= DigitValue(c) < base }

  function SkipBlanks(s: string): string { if s != "" && s[0] == ' ' then SkipBlanks(s[1..]) else s }

  // The length of the run of digits a text starts with.
  function DigitRun(s: string, base: nat): (k: nat)
    ensures k <= |s|
  {
    if s != "" && IsDigitOf(s[0], base) then 1 + DigitRun(s[1..], base) else 0
  }

  // At least one digit, and nothing but blanks behind them.
  function ReadDigits(s: string, base: nat): Option<int> {
    var k := DigitRun(s, base);
    if k == 0 || SkipBlanks(s[k..]) != "" then None else Some(ValueOf(s[..k], base))
  }

  // In base 16 the digits may follow a prefix.
  function ReadUnsigned(s: string, base: nat): Option<int> {
    if base == 16 && |s| >= 2 && s[0] == '0' && (s[1] == 'x' || s[1] == 'X') then ReadDigits(s[2..], base)
    else ReadDigits(s, base)
  }

  /** The number a text denotes: blanks, a sign, a prefix, digits, blanks, and nothing else. */
  function ReadNumber(s: string, base: nat): Option<int> {
    var t := SkipBlanks(s);
    if t != "" && t[0] == '-' then
      var n := ReadUnsigned(t[1..], base);
      if n.Some? then Some(-n.value) else None
    else if t != "" && t[0] == '+' then ReadUnsigned(t[1..], base)
    else ReadUnsigned(t, base)
  }

  // ------------------------------------------------------------------ the parts of a layout

  lemma {:induction false} BlanksSkipped(n: int, s: string)
    ensures SkipBlanks(Repeat(' ', n) + s) == SkipBlanks(s)
    decreases n
  {
    if n <= 0 {
      assert Repeat(' ', n) + s == s;
    } else {
      assert (Repeat(' ', n) + s)[1..] == Repeat(' ', n - 1) + s;
      BlanksSkipped(n - 1, s);
    }
  }

  lemma {:induction false} RunOf(body: string, rest: string, base: nat)
    requires forall i :: 0 <= i < |body| ==> IsDigitOf(body[i], base)
    requires rest == "" || !IsDigitOf(rest[0], base)
    ensures DigitRun(body + rest, base) == |body|
  {
    if body == "" {
      assert body + rest == rest;
    } else {
      assert (body + rest)[1..] == body[1..] + rest;
      RunOf(body[1..], rest, base);
    }
  }

  // A run of digits.
  ghost predicate Digital(body: string, base: nat) {
    body != "" && forall i :: 0 <= i < |body| ==> IsDigitOf(body[i], base)
  }

  lemma BodyRead(body: string, after: int, base: nat)
    requires Digital(body, base)
    ensures ReadDigits(body + Repeat(' ', after), base) == Some(ValueOf(body, base))
  {
    hide ValueOf, DigitRun, SkipBlanks;
    var rest := Repeat(' ', after);
    RunOf(body, rest, base);
    assert (body + rest)[..|body|] == body && (body + rest)[|body|..] == rest + "";
    BlanksSkipped(after, "");
    assert SkipBlanks("") == "" by { NothingSkipped(); }
  }

  lemma NothingSkipped()
    ensures SkipBlanks("") == ""
  {
  }

  lemma {:induction false} LeadingZeros(n: int, s: string, base: nat)
    ensures ValueOf(Repeat('0', n) + s, base) == ValueOf(s, base)
    decreases |s|, n
  {
    if s != "" {
      var t, c := s[..|s| - 1], s[|s| - 1];
      LeadingZeros(n, t, base);
      assert Repeat('0', n) + s == (Repeat('0', n) + t) + [c];
      ValueOfSnoc(Repeat('0', n) + t, c, base);
    } else if n > 0 {
      LeadingZeros(n - 1, "", base);
      RepeatSnoc('0', n - 1);
      ValueOfSnoc(Repeat('0', n - 1), '0', base);
      assert Repeat('0', n - 1) + "" == Repeat('0', n - 1) && Repeat('0', n) + "" == Repeat('0', n);
    }
  }

  lemma {:induction false} NumeralDigits(n: nat, base: nat, small: bool)
    requires 2 <= base <= 16
    ensures forall i :: 0 <= i < |Digits(n, base, small)| ==> IsDigitOf(Digits(n, base, small)[i], base)
    decreases n
  {
    if n < base {
      DigitCharValue(n, small);
    } else {
      Arithmetic.DivShrinks(n, base);
      NumeralDigits(n / base, base, small);
      DigitCharValue(n % base, small);
    }
  }

  // Digits of a base, the sign and the letter of a prefix are all different characters.
  lemma NoMark(c: char, base: nat)
    requires base <= 16 && IsDigitOf(c, base)
    ensures c != ' ' && c != '-' && c != '+' && c != 'x' && c != 'X'
  {
  }

  lemma HexPrefixRead(x: char, body: string, after: int)
    requires (x == 'x' || x == 'X') && Digital(body, 16)
    ensures var t := ['0', x] + body + Repeat(' ', after);
      ReadUnsigned(t, 16) == Some(ValueOf(body, 16)) && t != "" && IsDigitOf(t[0], 16)
  {
    hide ReadDigits, ValueOf;
    assert (['0', x] + body + Repeat(' ', after))[2..] == body + Repeat(' ', after);
    BodyRead(body, after, 16);
  }

  lemma NoPrefixRead(base: nat, body: string, after: int)
    requires base <= 16 && Digital(body, base)
    ensures var t := body + Repeat(' ', after);
      ReadUnsigned(t, base) == Some(ValueOf(body, base)) && t != "" && IsDigitOf(t[0], base)
  {
    hide ReadDigits, ValueOf;
    BodyRead(body, after, base);
    if |body| >= 2 {
      NoMark(body[1], base);
    }
  }

  lemma PrefixRead(base: nat, f: Flags, body: string, after: int)
    requires 2 <= base <= 16 && Digital(body, base)
    ensures var t := PrefixOf(base, f) + body + Repeat(' ', after);
      ReadUnsigned(t, base) == Some(ValueOf(body, base)) && t != "" && IsDigitOf(t[0], base)
  {
    hide ReadUnsigned, ValueOf, Repeat;
    if f.special && base == 16 {
      PrefixLetter(f.small);
      HexPrefixRead(OrCase('X', f.small), body, after);
    } else if f.special && base == 8 {
      OctalPrefix(body);
      NoPrefixRead(8, "0" + body, after);
    } else {
      assert "" + body == body;
      NoPrefixRead(base, body, after);
    }
  }

  lemma OctalPrefix(body: string)
    requires Digital(body, 8)
    ensures Digital("0" + body, 8) && ValueOf("0" + body, 8) == ValueOf(body, 8)
  {
    hide ValueOf;
    LeadingZeros(1, body, 8);
    assert Repeat('0', 1) == "0";
  }

  lemma SignRead(sign: string, before: int, t: string, base: nat)
    requires sign == "" || sign == "-" || sign == "+" || sign == " "
    requires base <= 16 && t != "" && IsDigitOf(t[0], base)
    ensures var n := ReadUnsigned(t, base);
      ReadNumber(Repeat(' ', before) + (sign + t), base) ==
      if sign == "-" && n.Some? then Some(-n.value) else n
  {
    hide ReadUnsigned;
    BlanksSkipped(before, sign + t);
    NoMark(t[0], base);
    if sign == "" {
      assert sign + t == t;
    } else {
      assert (sign + t)[1..] == t;
    }
  }

  lemma ZerosAndDigits(zeros: int, n: nat, base: nat, small: bool)
    requires 2 <= base <= 16
    ensures var body := Repeat('0', zeros) + Digits(n, base, small);
      Digital(body, base) && ValueOf(body, base) == n
  {
    NumeralDigits(n, base, small);
    DigitsRoundTrip(n, base, small);
    LeadingZeros(zeros, Digits(n, base, small), base);
  }

  lemma LayoutGroups(l: Layout)
    ensures l.Text() ==
      Repeat(' ', l.before) + (l.sign + (l.prefix + (Repeat('0', l.zeros) + l.digits) + Repeat(' ', l.after)))
  {
  }

  /** The text of a layout, read back as a whole, gives the number: its signed value when
      it was formatted signed, its unsigned value otherwise. */
  lemma LayoutReadsBack(w: Word, base: nat, size: int, precision: int, f: Flags)
    requires 2 <= base <= 16
    ensures ReadNumber(LayoutOf(w, base, size, precision, f).Text(), base) == Some(if f.sign then Signed(w) else w)
  {
    hide ReadNumber, ReadUnsigned, PrefixOf, Digits, ValueOf, LayoutOf, Layout.Text;
    var l := LayoutOf(w, base, size, precision, f);
    LayoutFits(w, base, size, precision, f);
    ZerosAndDigits(l.zeros, Magnitude(w, f), base, f.small);
    PrefixRead(base, f, Repeat('0', l.zeros) + l.digits, l.after);
    SignRead(l.sign, l.before, l.prefix + (Repeat('0', l.zeros) + l.digits) + Repeat(' ', l.after), base);
    LayoutGroups(l);
  }
}
