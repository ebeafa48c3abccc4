// `number`: one integer, laid out in a field.
module NumberFormat {
  import Arithmetic
  import opened Text

  datatype Flags = Flags(
    zeropad: bool, sign: bool, plus: bool, space: bool, left: bool, small: bool, special: bool)

  const NOFLAGS := Flags(false, false, false, false, false, false, false)

  const DIGITS := "0123456789ABCDEF"

  // Two's complement negation of a 32-bit long.
  function Negate(w: Word): Word {
    if w == 0 then 0 else 0x1_0000_0000 - w
  }

  predicate Negative(w: Word) { w >= 0x8000_0000 }

  function SignOf(w: Word, f: Flags): string {
    if !f.sign then ""
    else if Negative(w) then "-"
    else if f.plus then "+"
    else if f.space then " "
    else ""
  }

  function Magnitude(w: Word, f: Flags): Word {
    if f.sign && Negative(w) then Negate(w) else w
  }

  function PrefixOf(base: nat, f: Flags): string {
    if !f.special then ""
    else if base == 8 then "0"
    else if base == 16 then ['0', OrCase('X', f.small)]
    else ""
  }

  lemma PrefixLetter(small: bool)
    ensures OrCase('X', small) == if small then 'x' else 'X'
  {
  }

  /** The closed form of a formatted integer: spaces, sign, prefix, zeros, digits, spaces. */
  datatype Layout = Layout(before: int, sign: string, prefix: string, zeros: int, digits: string, after: int)
  {
    function Text(): string {
      Repeat(' ', before) + sign + prefix + Repeat('0', zeros) + digits + Repeat(' ', after)
    }
  }

  function Max(a: int, b: int): int { if a >= b then a else b }

  function LayoutOf(w: Word, base: nat, size: int, precision: int, f: Flags): (l: Layout)
    requires 2 <= base <= 16
  {
    var sign, prefix := SignOf(w, f), PrefixOf(base, f);
    var digits := Digits(Magnitude(w, f), base, f.small);
    var least := Max(precision, |digits|);
    var room := Max(0, size - |sign| - |prefix| - least);
    if f.left then Layout(0, sign, prefix, least - |digits|, digits, room)
    else if f.zeropad then Layout(0, sign, prefix, room + least - |digits|, digits, 0)
    else Layout(room, sign, prefix, least - |digits|, digits, 0)
  }

  // ------------------------------------------------------------------ what the layout promises

  /** The text fills the field exactly, or is as long as its contents need; at most one
      of the three kinds of padding fills the field. */
  lemma LayoutLength(w: Word, base: nat, size: int, precision: int, f: Flags)
    requires 2 <= base <= 16
    ensures var l := LayoutOf(w, base, size, precision, f);
      && |l.Text()| == Max(size, |l.sign| + |l.prefix| + Max(precision, |l.digits|))
      && (l.before > 0 ==> l.after == 0 && l.zeros == Max(precision - |l.digits|, 0))
      && (l.after > 0 ==> l.before == 0 && l.zeros == Max(precision - |l.digits|, 0))
      && (l.zeros > Max(precision - |l.digits|, 0) ==> f.zeropad && !f.left && l.before == l.after == 0)
      && (l.after > 0 ==> f.left) && (l.before > 0 ==> !f.left && !f.zeropad)
  {
  }

  /** The signed reading of a machine word. */
  function Signed(w: Word): int { if Negative(w) then w - 0x1_0000_0000 else w }

  /** Sign and digits give back the number, whatever the flags: its signed value when
      formatted signed, its unsigned value otherwise. */
  lemma LayoutValue(w: Word, base: nat, size: int, precision: int, f: Flags)
    requires 2 <= base <= 16
    ensures var l := LayoutOf(w, base, size, precision, f);
      var n := ValueOf(l.digits, base);
      (if l.sign == "-" then -n else n) == if f.sign then Signed(w) else w
    ensures |LayoutOf(w, base, size, precision, f).digits| <= 32
  {
    DigitsRoundTrip(Magnitude(w, f), base, f.small);
    WordBits();
    DigitsBound(Magnitude(w, f), base, f.small, 32);
  }

  // ------------------------------------------------------------------ the routine

  // `while (size-- > 0) *str++ = c;`: the counter ends below zero.
  method Pad(buf: array<char>, str: nat, size: int, c: char) returns (end: nat, left: int)
    requires str + Max(size, 0) <= buf.Length
    modifies buf
    ensures left == if size > 0 then -1 else size - 1
    ensures end == str + Max(size, 0)
    ensures Wrote(buf[..], old(buf[..]), str, Repeat(c, size))
  {
    hide Wrote;
    ghost var b0, done := buf[..], 0;
    WroteNothing(b0, str);
    end, left := str, size;
    RepeatSnoc(c, 0);
    while left > 0
      invariant done >= 0 && left == size - done && (done > 0 ==> left >= 0)
      invariant end == str + done
      invariant Wrote(buf[..], b0, str, Repeat(c, done))
    {
      left := left - 1;
      RepeatSnoc(c, done);
      end := PutChar(buf, end, c, b0, str, Repeat(c, done));
      done := done + 1;
    }
    RepeatClip(c, done, size);
    left := left - 1;
  }

  // Divides off the lowest digit.
  method DoDiv(n: nat, base: nat, ghost small: bool) returns (q: nat, r: nat)
    requires 2 <= base <= 16 && n > 0
    ensures q < n && r < base
    ensures UpperDigits(n, base, small) == UpperDigits(q, base, small) + [DigitChar(r, small)]
  {
    UpperDigitsStep(n, base, small);
    Arithmetic.DivMod(n, base);
    r := n % base;
    q := n / base;
  }

  // The table holds the digits of all bases up to 16.
  lemma TableDigit(d: nat, small: bool)
    requires d < 16
    ensures DIGITS[d] as int < 256 && OrCase(DIGITS[d], small) == DigitChar(d, small)
  {
  }

  // The digits, least significant first, into a scratch buffer of 66 characters.
  method PutDigits(tmp: array<char>, num: Word, base: nat, small: bool) returns (i: nat)
    requires 2 <= base <= 16 && tmp.Length == 66
    modifies tmp
    ensures i <= 32 && tmp[..i] == Reversed(Digits(num, base, small))
  {
    hide Digits, UpperDigits, DigitChar, OrCase, Pow2;
    ghost var all := Digits(num, base, small);
    WordBits();
    DigitsBound(num, base, small, 32);
    UpperDigitsEnds(num, base, small);
    i := 0;
    if num == 0 {
      tmp[i] := '0';
      return 1;
    }
    var n: nat := num;
    while n != 0
      invariant i + |UpperDigits(n, base, small)| == |all| <= 32
      invariant all == UpperDigits(n, base, small) + Reversed(tmp[..i])
    {
      var q, r := DoDiv(n, base, small);
      TakeDigit(UpperDigits(n, base, small), UpperDigits(q, base, small), DigitChar(r, small), tmp[..i]);
      ghost var lower := tmp[..i];
      TableDigit(r, small);
      tmp[i] := OrCase(DIGITS[r], small);
      assert tmp[..i + 1] == lower + [tmp[i]];
      i, n := i + 1, q;
    }
    ReversedTwice(tmp[..i]);
    assert all == Reversed(tmp[..i]);
  }

  // `while (i < precision--) *str++ = '0';`
  method PutZeros(buf: array<char>, str: nat, i: nat, precision: int) returns (end: nat)
    requires str + Max(precision - i, 0) <= buf.Length
    modifies buf
    ensures end == str + Max(precision - i, 0)
    ensures Wrote(buf[..], old(buf[..]), str, Repeat('0', precision - i))
  {
    hide Wrote;
    ghost var b0 := buf[..];
    WroteNothing(b0, str);
    RepeatSnoc('0', 0);
    end := str;
    var p := precision;
    while i < p
      invariant p <= precision && end == str + (precision - p) && (p < precision ==> i <= p)
      invariant Wrote(buf[..], b0, str, Repeat('0', precision - p))
    {
      RepeatSnoc('0', precision - p);
      end := PutChar(buf, end, '0', b0, str, Repeat('0', precision - p));
      p := p - 1;
    }
    RepeatClip('0', precision - i, precision - p);
  }

  // `while (i-- > 0) *str++ = tmp[i];`
  method PutTmp(buf: array<char>, str: nat, tmp: array<char>, len: nat) returns (end: nat)
    requires buf != tmp && len <= tmp.Length && str + len <= buf.Length
    modifies buf
    ensures end == str + len
    ensures Wrote(buf[..], old(buf[..]), str, Reversed(tmp[..len]))
  {
    hide Wrote;
    ghost var b0, all := buf[..], Reversed(tmp[..len]);
    WroteNothing(b0, str);
    end := str;
    var i := len;
    while i > 0
      invariant 0 <= i <= len && end == str + len - i
      invariant Wrote(buf[..], b0, str, all[..len - i])
      invariant all == Reversed(tmp[..len])
    {
      i := i - 1;
      ghost var out := all[..len - i - 1];
      assert all[..len - i] == out + [tmp[i]];
      end := PutChar(buf, end, tmp[i], b0, str, out);
    }
    assert all[..len] == all;
  }

  // The sign, and the prefix of the `#` flag.
  method PutSignAndPrefix(buf: array<char>, str: nat, sign: char, base: nat, f: Flags) returns (end: nat)
    requires str + |SignText(sign)| + |PrefixOf(base, f)| <= buf.Length
    modifies buf
    ensures var out := SignText(sign) + PrefixOf(base, f);
      end == str + |out| && Wrote(buf[..], old(buf[..]), str, out)
  {
    hide Wrote;
    ghost var before := buf[..];
    ghost var out := "";
    WroteNothing(before, str);
    end := str;
    if sign != NUL {
      end := PutChar(buf, end, sign, before, str, out);
      out := out + [sign];
    }
    if f.special {
      if base == 8 {
        end := PutChar(buf, end, '0', before, str, out);
        out := out + ['0'];
      } else if base == 16 {
        end := PutChar(buf, end, '0', before, str, out);
        out := out + ['0'];
        end := PutChar(buf, end, OrCase('X', f.small), before, str, out);
        out := out + [OrCase('X', f.small)];
      }
    }
    assert out == SignText(sign) + PrefixOf(base, f);
  }

  lemma RepeatAdd(c: char, m: nat, n: nat)
    ensures Repeat(c, m) + Repeat(c, n) == Repeat(c, m + n)
  {
  }

  // Padding in front of the sign, the sign and the prefix: `size` is what is left of
  // the field.
  method PutMarks(buf: array<char>, str: nat, sign: char, base: nat, size: int, zeropad: bool, f: Flags)
    returns (end: nat, left: int)
    requires str + |Spaces(size, zeropad, f)| + |SignText(sign)| + |PrefixOf(base, f)| <= buf.Length
    modifies buf
    ensures var out := Spaces(size, zeropad, f) + (SignText(sign) + PrefixOf(base, f));
      end == str + |out| && Wrote(buf[..], old(buf[..]), str, out)
    ensures if zeropad || f.left then left == size else left < 0
  {
    hide Wrote;
    ghost var b0 := buf[..];
    end, left := str, size;
    if !zeropad && !f.left {
      end, left := Pad(buf, end, left, ' ');
    } else {
      WroteNothing(b0, str);
      assert Spaces(size, zeropad, f) == "";
    }
    ghost var b1 := buf[..];
    end := PutSignAndPrefix(buf, end, sign, base, f);
    WroteThen(b0, b1, buf[..], str, Spaces(size, zeropad, f), SignText(sign) + PrefixOf(base, f));
  }

  // Everything before the precision's zeros.
  method PutHead(buf: array<char>, str: nat, sign: char, base: nat, size: int, zeropad: bool, f: Flags)
    returns (end: nat, left: int)
    requires str + |Head(sign, base, size, zeropad, f)| <= buf.Length
    requires zeropad ==> !f.left
    modifies buf
    ensures end == str + |Head(sign, base, size, zeropad, f)|
    ensures Wrote(buf[..], old(buf[..]), str, Head(sign, base, size, zeropad, f))
    ensures if f.left then left == size else left < 0
  {
    hide Wrote;
    ghost var b0 := buf[..];
    end, left := PutMarks(buf, str, sign, base, size, zeropad, f);
    ghost var b1 := buf[..];
    ghost var marks := Spaces(size, zeropad, f) + (SignText(sign) + PrefixOf(base, f));
    WroteNothing(b1, str + |marks|);
    if !f.left {
      assert Repeat(if zeropad then '0' else ' ', left) == Zeros(size, zeropad);
      end, left := Pad(buf, end, left, if zeropad then '0' else ' ');
    } else {
      assert Zeros(size, zeropad) == "";
    }
    WroteThen(b0, b1, buf[..], str, marks, Zeros(size, zeropad));
  }

  function Spaces(size: int, zeropad: bool, f: Flags): string {
    Repeat(' ', if zeropad || f.left then 0 else size)
  }

  function Zeros(size: int, zeropad: bool): string { Repeat('0', if zeropad then size else 0) }

  function SignText(sign: char): string { if sign == NUL then "" else [sign] }

  function Head(sign: char, base: nat, size: int, zeropad: bool, f: Flags): string {
    Spaces(size, zeropad, f) + (SignText(sign) + PrefixOf(base, f)) + Zeros(size, zeropad)
  }

  // The precision's zeros, the digits, and the field that is left.
  method PutTail(buf: array<char>, str: nat, tmp: array<char>, i: nat, precision: int, size: int) returns (end: nat)
    requires buf != tmp && i <= tmp.Length && i <= precision
    requires str + precision + Max(size, 0) <= buf.Length
    modifies buf
    ensures end == str + precision + Max(size, 0)
    ensures Wrote(buf[..], old(buf[..]), str, Tail(Reversed(tmp[..i]), precision, size))
  {
    hide Wrote, Repeat;
    ghost var b0 := buf[..];
    end := PutZeros(buf, str, i, precision);
    ghost var b1 := buf[..];
    end := PutTmp(buf, end, tmp, i);
    ghost var b2 := buf[..];
    WroteThen(b0, b1, b2, str, Repeat('0', precision - i), Reversed(tmp[..i]));
    var left;
    end, left := Pad(buf, end, size, ' ');
    WroteThen(b0, b2, buf[..], str, Repeat('0', precision - i) + Reversed(tmp[..i]), Repeat(' ', size));
  }

  function Tail(digits: string, precision: int, size: int): string {
    Repeat('0', precision - |digits|) + digits + Repeat(' ', size)
  }

  lemma RepeatClip(c: char, m: int, n: int)
    requires Max(m, 0) == Max(n, 0)
    ensures Repeat(c, m) == Repeat(c, n)
  {
  }

  lemma Regroup(a: string, s: string, p: string, z: string, n: string, d: string, w: string)
    ensures (a + (s + p) + z) + (n + d + w) == a + s + p + (z + n) + d + w
  {
  }

  // `sz` is the room left of the field beside sign, prefix and at least `least` digits.
  ghost predicate Fits(l: Layout, sz: int, least: int, base: nat, f: Flags) {
    && least >= |l.digits| && l.prefix == PrefixOf(base, f)
    && l.before == (if f.left || f.zeropad then 0 else Max(0, sz))
    && l.after == (if f.left then Max(0, sz) else 0)
    && l.zeros == (if f.zeropad && !f.left then Max(0, sz) else 0) + least - |l.digits|
  }

  lemma LayoutFits(num: Word, base: nat, size: int, precision: int, f: Flags)
    requires 2 <= base <= 16
    ensures var l := LayoutOf(num, base, size, precision, f);
      var least := Max(precision, |l.digits|);
      && l.sign == SignOf(num, f) && l.digits == Digits(Magnitude(num, f), base, f.small)
      && Fits(l, size - |l.sign| - |l.prefix| - least, least, base, f)
  {
  }

  lemma FieldParts(l: Layout, sz: int, least: int, base: nat, f: Flags, left: int)
    requires Fits(l, sz, least, base, f)
    requires if f.left then left == sz else left < 0
    ensures Spaces(sz, f.zeropad && !f.left, f) == Repeat(' ', l.before)
    ensures Repeat(' ', left) == Repeat(' ', l.after)
  {
    RepeatClip(' ', if f.zeropad || f.left then 0 else sz, l.before);
    RepeatClip(' ', left, l.after);
  }

  lemma ZeroParts(l: Layout, sz: int, least: int, base: nat, f: Flags)
    requires Fits(l, sz, least, base, f)
    ensures Zeros(sz, f.zeropad && !f.left) + Repeat('0', least - |l.digits|) == Repeat('0', l.zeros)
  {
    var n := if f.zeropad && !f.left then sz else 0;
    RepeatClip('0', n, Max(0, n));
    RepeatAdd('0', Max(0, n), least - |l.digits|);
  }

  // The text, as the two halves of the routine write it.
  lemma TextInHalves(l: Layout, sz: int, least: int, base: nat, f: Flags, sign: char, left: int)
    requires Fits(l, sz, least, base, f) && l.sign == SignText(sign)
    requires if f.left then left == sz else left < 0
    ensures Head(sign, base, sz, f.zeropad && !f.left, f) + Tail(l.digits, least, left) == l.Text()
  {
    hide Repeat, Spaces, Zeros;
    var zeropad := f.zeropad && !f.left;
    FieldParts(l, sz, least, base, f, left);
    ZeroParts(l, sz, least, base, f);
    Regroup(Spaces(sz, zeropad, f), l.sign, l.prefix, Zeros(sz, zeropad), Repeat('0', least - |l.digits|), l.digits,
      Repeat(' ', left));
  }

  // The sign, the magnitude, and the room left once sign and prefix are counted.
  method SignAndRoom(num: Word, base: nat, size: int, f: Flags) returns (sign: char, n: Word, sz: int)
    ensures SignText(sign) == SignOf(num, f) && n == Magnitude(num, f)
    ensures sz == size - |SignOf(num, f)| - |PrefixOf(base, f)|
  {
    sign, n, sz := NUL, num, size;
    if f.sign {
      if Negative(n) {
        sign, n, sz := '-', Negate(n), sz - 1;
      } else if f.plus {
        sign, sz := '+', sz - 1;
      } else if f.space {
        sign, sz := ' ', sz - 1;
      }
    }
    if f.special {
      if base == 16 {
        sz := sz - 2;
      } else if base == 8 {
        sz := sz - 1;
      }
    }
  }

  method Emit(buf: array<char>, str: nat, sign: char, base: nat, sz: int, prec: int, f: Flags,
              tmp: array<char>, i: nat, ghost l: Layout) returns (end: nat)
    requires buf != tmp && i <= tmp.Length && Reversed(tmp[..i]) == l.digits && l.sign == SignText(sign)
    requires Fits(l, sz, prec, base, f)
    requires str + |l.Text()| <= buf.Length
    modifies buf
    ensures end == str + |l.Text()| && Wrote(buf[..], old(buf[..]), str, l.Text())
  {
    hide Wrote;
    var zeropad := f.zeropad && !f.left;
    ghost var b0 := buf[..];
    TextInHalves(l, sz, prec, base, f, sign, if f.left then sz else -1);
    var left;
    end, left := PutHead(buf, str, sign, base, sz, zeropad, f);
    TextInHalves(l, sz, prec, base, f, sign, left);
    ghost var b1 := buf[..];
    end := PutTail(buf, end, tmp, i, prec, left);
    WroteThen(b0, b1, buf[..], str, Head(sign, base, sz, zeropad, f), Tail(l.digits, prec, left));
  }

  /** Writes exactly the closed-form layout. */
  method Number(buf: array<char>, str: nat, num: Word, base: int, size: int, precision: int, flags: Flags)
    returns (end: int)
    requires 2 <= base <= 16 ==> str + |LayoutOf(num, base, size, precision, flags).Text()| <= buf.Length
    modifies buf
    ensures 2 <= base <= 16 ==>
      var out := LayoutOf(num, base, size, precision, flags).Text();
      end == str + |out| && Wrote(buf[..], old(buf[..]), str, out)
    ensures !(2 <= base <= 16) ==> end == -1 && buf[..] == old(buf[..])
  {
    if base < 2 || base > 16 {
      return -1;
    }
    var sign, n, sz := SignAndRoom(num, base, size, flags);
    var tmp := new char[66];
    var i := PutDigits(tmp, n, base, flags.small);
    var prec := if i > precision then i else precision;
    sz := sz - prec;

    ghost var l := LayoutOf(num, base, size, precision, flags);
    LayoutFits(num, base, size, precision, flags);
    ReversedTwice(l.digits);
    end := Emit(buf, str, sign, base, sz, prec, flags, tmp, i, l);
  }
}
