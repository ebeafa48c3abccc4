// Where `number` lays an integer out as ISO C99 asks (section 7.19.6.1), and where not.
module IsoNumbers {
  import Arithmetic
  import opened Text
  import opened NumberFormat

  predicate IsoBase(base: nat) { base == 8 || base == 10 || base == 16 }

  // Zero has no digits at all under precision 0.
  function IsoDigits(m: nat, base: nat, precision: int, small: bool): string
    requires 2 <= base <= 16
  {
    if m == 0 && precision == 0 then "" else Digits(m, base, small)
  }

  // The zeros the precision asks for, which is 1 when none is given; with `#` an octal
  // number gets one more unless its first digit is 0 anyway.
  function IsoZeros(digits: string, base: nat, precision: int, f: Flags): nat {
    var zeros := Max((if precision < 0 then 1 else precision) - |digits|, 0);
    var body := Repeat('0', zeros) + digits;
    if f.special && base == 8 && (body == "" || body[0] != '0') then zeros + 1 else zeros
  }

  // Only a hexadecimal number other than zero has a prefix.
  function IsoPrefix(m: nat, base: nat, f: Flags): string {
    if f.special && base == 16 && m != 0 then ['0', OrCase('X', f.small)] else ""
  }

  /** The layout of the standard; a negative precision means that none is given. Zeros
      fill the field only then. */
  function IsoLayout(w: Word, base: nat, size: int, precision: int, f: Flags): Layout
    requires 2 <= base <= 16
  {
    var m := Magnitude(w, f);
    var sign, prefix, digits := SignOf(w, f), IsoPrefix(m, base, f), IsoDigits(m, base, precision, f.small);
    var zeros := IsoZeros(digits, base, precision, f);
    var room := Max(0, size - |sign| - |prefix| - zeros - |digits|);
    if f.left then Layout(0, sign, prefix, zeros, digits, room)
    else if f.zeropad && precision < 0 then Layout(0, sign, prefix, zeros + room, digits, 0)
    else Layout(room, sign, prefix, zeros, digits, 0)
  }

  // ------------------------------------------------------------------ the four departures

  // Zero is printed although the precision is 0.
  predicate ZeroShown(m: nat, precision: int) { m == 0 && precision == 0 }

  // Zero gets a prefix; for an octal zero that fills a field with zeros it does not show.
  predicate ZeroPrefixed(m: nat, base: nat, room: int, precision: int, f: Flags) {
    && f.special && m == 0
    && (base == 16 || (base == 8 && !(f.zeropad && !f.left && precision < 0 && room >= 2)))
  }

  // An octal number gets a prefix although its precision puts a zero first.
  predicate ZeroDoubled(digits: nat, base: nat, precision: int, f: Flags) {
    f.special && base == 8 && precision > digits
  }

  // Zeros fill the field although a precision is given.
  predicate FieldZeroed(digits: nat, base: nat, room: int, precision: int, f: Flags) {
    f.zeropad && !f.left && precision >= 0 && room > |PrefixOf(base, f)| + Max(precision, digits)
  }

  predicate Departs(w: Word, base: nat, size: int, precision: int, f: Flags)
    requires 2 <= base <= 16
  {
    var m, room := Magnitude(w, f), size - |SignOf(w, f)|;
    var n := |Digits(m, base, f.small)|;
    || ZeroShown(m, precision)
    || ZeroPrefixed(m, base, room, precision, f)
    || ZeroDoubled(n, base, precision, f)
    || FieldZeroed(n, base, room, precision, f)
  }

  // ------------------------------------------------------------------ counting characters

  ghost function Count(s: string, c: char): nat { multiset(s)[c] }

  lemma CountAppend(s: string, t: string, c: char)
    ensures Count(s + t, c) == Count(s, c) + Count(t, c)
  {
  }

  lemma {:induction false} CountRepeat(a: char, n: int, c: char)
    ensures Count(Repeat(a, n), c) == if a == c && n > 0 then n else 0
    decreases n
  {
    if n > 0 {
      CountRepeat(a, n - 1, c);
      RepeatSnoc(a, n - 1);
      CountAppend(Repeat(a, n - 1), [a], c);
    }
  }

  lemma CountText(l: Layout, c: char)
    requires c != ' ' && Count(l.sign, c) == 0
    ensures Count(l.Text(), c) ==
      Count(l.prefix, c) + (if c == '0' && l.zeros > 0 then l.zeros else 0) + Count(l.digits, c)
  {
    hide Count;
    var a, z, e := Repeat(' ', l.before), Repeat('0', l.zeros), Repeat(' ', l.after);
    CountRepeat(' ', l.before, c);
    CountRepeat('0', l.zeros, c);
    CountRepeat(' ', l.after, c);
    CountAppend(a, l.sign, c);
    CountAppend(a + l.sign, l.prefix, c);
    CountAppend(a + l.sign + l.prefix, z, c);
    CountAppend(a + l.sign + l.prefix + z, l.digits, c);
    CountAppend(a + l.sign + l.prefix + z + l.digits, e, c);
  }

  // ------------------------------------------------------------------ digits

  lemma {:induction false} NoLeadingZero(n: nat, base: nat, small: bool)
    requires 2 <= base <= 16 && n > 0
    ensures Digits(n, base, small)[0] != '0'
    decreases n
  {
    if n < base {
      DigitCharValue(n, small);
    } else {
      Arithmetic.DivMod(n, base);
      Arithmetic.DivShrinks(n, base);
      NoLeadingZero(n / base, base, small);
    }
  }

  lemma ZeroDigits(base: nat, small: bool)
    requires 2 <= base <= 16
    ensures Digits(0, base, small) == "0"
  {
    DigitCharValue(0, small);
  }

  // ------------------------------------------------------------------ where they agree

  // A zero may stand as prefix or with the other zeros.
  lemma ZeroMoves(l: Layout)
    requires l.prefix == "0" && l.zeros >= 0
    ensures l.Text() == l.(prefix := "", zeros := l.zeros + 1).Text()
  {
    assert "0" + Repeat('0', l.zeros) == Repeat('0', l.zeros + 1);
    var head, digits, blanks := Repeat(' ', l.before) + l.sign, l.digits, Repeat(' ', l.after);
    assert head + "0" + Repeat('0', l.zeros) + digits + blanks
        == head + "" + ("0" + Repeat('0', l.zeros)) + digits + blanks;
  }

  lemma AgreesWithoutOctalPrefix(w: Word, base: nat, size: int, precision: int, f: Flags)
    requires IsoBase(base) && !Departs(w, base, size, precision, f) && !(f.special && base == 8)
    ensures LayoutOf(w, base, size, precision, f) == IsoLayout(w, base, size, precision, f)
  {
    hide Digits;
  }

  // The zeros of an octal number with `#`: one, unless its digits are a zero.
  lemma OctalZeros(m: nat, precision: int, f: Flags)
    requires f.special && (m == 0 ==> precision < 0) && precision <= |Digits(m, 8, f.small)|
    ensures IsoZeros(Digits(m, 8, f.small), 8, precision, f) == if m == 0 then 0 else 1
  {
    var digits := Digits(m, 8, f.small);
    assert Repeat('0', 0) + digits == digits;
    if m == 0 {
      ZeroDigits(8, f.small);
    } else {
      NoLeadingZero(m, 8, f.small);
    }
  }

  lemma AgreesWithOctalPrefix(w: Word, size: int, precision: int, f: Flags)
    requires !Departs(w, 8, size, precision, f) && f.special
    ensures var l := LayoutOf(w, 8, size, precision, f);
      && l.prefix == "0" && l.zeros >= 0
      && IsoLayout(w, 8, size, precision, f) == l.(prefix := "", zeros := l.zeros + 1)
  {
    hide Digits, IsoZeros, SignOf, Magnitude;
    ZeroDigits(8, f.small);
    OctalZeros(Magnitude(w, f), precision, f);
  }

  // ------------------------------------------------------------------ where they differ

  lemma CountSign(w: Word, f: Flags, c: char)
    requires c == '0' || c == 'x' || c == 'X'
    ensures Count(SignOf(w, f), c) == 0
  {
  }

  lemma CountPair(a: char, b: char, c: char)
    ensures Count([], c) == 0 && Count([a], c) == (if a == c then 1 else 0)
    ensures Count([a, b], c) == (if a == c then 1 else 0) + (if b == c then 1 else 0)
  {
    assert [a, b] == [a] + [b];
  }

  lemma CountMarks(w: Word, base: nat, f: Flags, c: char)
    requires IsoBase(base) && (c == '0' || c == OrCase('X', f.small))
    ensures Count(SignOf(w, f), c) == 0
    ensures Count(PrefixOf(base, f), c) == if !f.special then 0 else if c == '0' then |PrefixOf(base, f)| - base / 16
      else base / 16
  {
    hide Count, SignOf, OrCase;
    PrefixLetter(f.small);
    CountSign(w, f, c);
    CountPair('0', OrCase('X', f.small), c);
  }

  lemma CountIsoMarks(m: nat, base: nat, f: Flags, c: char)
    requires IsoBase(base) && (c == '0' || c == OrCase('X', f.small))
    ensures Count(IsoPrefix(m, base, f), c) == if f.special && m != 0 then base / 16 else 0
  {
    hide Count, OrCase;
    PrefixLetter(f.small);
    CountPair('0', OrCase('X', f.small), c);
  }

  // How often a digit or the prefix letter occurs in the two texts.

  lemma CountLayout(w: Word, base: nat, size: int, precision: int, f: Flags, c: char)
    requires IsoBase(base) && (c == '0' || c == OrCase('X', f.small))
    ensures var l := LayoutOf(w, base, size, precision, f);
      Count(l.Text(), c) == Count(PrefixOf(base, f), c) + (if c == '0' then l.zeros else 0) + Count(l.digits, c)
  {
    hide Count, Digits, Layout.Text, PrefixOf, SignOf, Magnitude;
    CountMarks(w, base, f, c);
    PrefixLetter(f.small);
    CountText(LayoutOf(w, base, size, precision, f), c);
  }

  lemma CountIsoLayout(w: Word, base: nat, size: int, precision: int, f: Flags, c: char)
    requires IsoBase(base) && (c == '0' || c == OrCase('X', f.small))
    ensures var i := IsoLayout(w, base, size, precision, f);
      Count(i.Text(), c) ==
        (if f.special && Magnitude(w, f) != 0 then base / 16 else 0)
        + (if c == '0' then i.zeros else 0) + Count(i.digits, c)
  {
    hide Count, Digits, Layout.Text, IsoPrefix, IsoZeros, IsoDigits, SignOf, Magnitude;
    CountMarks(w, base, f, c);
    CountIsoMarks(Magnitude(w, f), base, f, c);
    PrefixLetter(f.small);
    CountText(IsoLayout(w, base, size, precision, f), c);
  }

  lemma ZeroCounts(w: Word, base: nat, size: int, precision: int, f: Flags)
    requires IsoBase(base)
    ensures var l, i := LayoutOf(w, base, size, precision, f), IsoLayout(w, base, size, precision, f);
      && Count(l.Text(), '0') == (if f.special && base != 10 then 1 else 0) + l.zeros + Count(l.digits, '0')
      && Count(i.Text(), '0') ==
        (if f.special && base == 16 && Magnitude(w, f) != 0 then 1 else 0) + i.zeros + Count(i.digits, '0')
  {
    hide Count, Digits, Layout.Text, LayoutOf, IsoLayout, SignOf, Magnitude;
    CountLayout(w, base, size, precision, f, '0');
    CountIsoLayout(w, base, size, precision, f, '0');
    CountMarks(w, base, f, '0');
  }

  lemma DiffersAtZero(w: Word, base: nat, size: int, precision: int, f: Flags)
    requires IsoBase(base) && ZeroShown(Magnitude(w, f), precision)
    ensures LayoutOf(w, base, size, precision, f).Text() != IsoLayout(w, base, size, precision, f).Text()
  {
    hide Digits, Layout.Text;
    ZeroDigits(base, f.small);
    ZeroCounts(w, base, size, precision, f);
    assert Count("0", '0') == 1 && Count("", '0') == 0;
  }

  lemma DiffersAtHexZero(w: Word, size: int, precision: int, f: Flags)
    requires f.special && Magnitude(w, f) == 0
    ensures LayoutOf(w, 16, size, precision, f).Text() != IsoLayout(w, 16, size, precision, f).Text()
  {
    hide Digits, Layout.Text, OrCase, IsoZeros, SignOf, Magnitude;
    var x := OrCase('X', f.small);
    PrefixLetter(f.small);
    ZeroDigits(16, f.small);
    CountLayout(w, 16, size, precision, f, x);
    CountIsoLayout(w, 16, size, precision, f, x);
    CountMarks(w, 16, f, x);
    assert Count("0", x) == 0 && Count("", x) == 0;
  }

  lemma DiffersAtOctalZero(w: Word, size: int, precision: int, f: Flags)
    requires ZeroPrefixed(Magnitude(w, f), 8, size - |SignOf(w, f)|, precision, f) && precision != 0
    ensures LayoutOf(w, 8, size, precision, f).Text() != IsoLayout(w, 8, size, precision, f).Text()
  {
    hide Digits, Layout.Text;
    ZeroDigits(8, f.small);
    ZeroCounts(w, 8, size, precision, f);
  }

  lemma DiffersAtOctalPrecision(w: Word, size: int, precision: int, f: Flags)
    requires ZeroDoubled(|Digits(Magnitude(w, f), 8, f.small)|, 8, precision, f)
    ensures LayoutOf(w, 8, size, precision, f).Text() != IsoLayout(w, 8, size, precision, f).Text()
  {
    hide Digits, Layout.Text;
    ZeroCounts(w, 8, size, precision, f);
  }

  lemma DiffersInField(w: Word, base: nat, size: int, precision: int, f: Flags)
    requires IsoBase(base) && Magnitude(w, f) > 0
    requires var n := |Digits(Magnitude(w, f), base, f.small)|;
      FieldZeroed(n, base, size - |SignOf(w, f)|, precision, f) && !ZeroDoubled(n, base, precision, f)
    ensures LayoutOf(w, base, size, precision, f).Text() != IsoLayout(w, base, size, precision, f).Text()
  {
    hide Digits, Layout.Text;
    NoLeadingZero(Magnitude(w, f), base, f.small);
    ZeroCounts(w, base, size, precision, f);
  }

  // A zero without a prefix of its own.
  lemma DiffersInFieldOfZero(w: Word, base: nat, size: int, precision: int, f: Flags)
    requires IsoBase(base) && Magnitude(w, f) == 0 && precision > 0 && !(f.special && base != 10)
    requires FieldZeroed(1, base, size - |SignOf(w, f)|, precision, f)
    ensures LayoutOf(w, base, size, precision, f).Text() != IsoLayout(w, base, size, precision, f).Text()
  {
    hide Digits, Layout.Text;
    ZeroDigits(base, f.small);
    ZeroCounts(w, base, size, precision, f);
  }

  /** The text is that of the standard exactly when the number departs from it in none of
      the four ways. */
  lemma ConformsUnlessDeparts(w: Word, base: nat, size: int, precision: int, f: Flags)
    requires IsoBase(base)
    ensures LayoutOf(w, base, size, precision, f).Text() == IsoLayout(w, base, size, precision, f).Text() <==>
      !Departs(w, base, size, precision, f)
  {
    hide Digits, Layout.Text, LayoutOf, IsoLayout;
    var m, room := Magnitude(w, f), size - |SignOf(w, f)|;
    ZeroDigits(base, f.small);
    if !Departs(w, base, size, precision, f) {
      if f.special && base == 8 {
        AgreesWithOctalPrefix(w, size, precision, f);
        ZeroMoves(LayoutOf(w, 8, size, precision, f));
      } else {
        AgreesWithoutOctalPrefix(w, base, size, precision, f);
      }
    } else if ZeroShown(m, precision) {
      DiffersAtZero(w, base, size, precision, f);
    } else if ZeroPrefixed(m, base, room, precision, f) {
      if base == 16 {
        DiffersAtHexZero(w, size, precision, f);
      } else {
        DiffersAtOctalZero(w, size, precision, f);
      }
    } else if ZeroDoubled(|Digits(m, base, f.small)|, base, precision, f) {
      DiffersAtOctalPrecision(w, size, precision, f);
    } else if m == 0 {
      DiffersInFieldOfZero(w, base, size, precision, f);
    } else {
      DiffersInField(w, base, size, precision, f);
    }
  }

  lemma OctalEight()
    ensures var f := NOFLAGS.(special := true);
      LayoutOf(8, 8, -1, 3, f).Text() == "0010" && IsoLayout(8, 8, -1, 3, f).Text() == "010"
  {
    assert Digits(8, 8, false) == "10";
    hide Digits;
  }

  lemma HexZero()
    ensures var f := NOFLAGS.(special := true);
      LayoutOf(0, 16, -1, -1, f).Text() == "0X0" && IsoLayout(0, 16, -1, -1, f).Text() == "0"
  {
    PrefixLetter(false);
    ZeroDigits(16, false);
    hide Digits, OrCase;
  }

  /** One input for each way: `%.0u` of 0, `%#X` of 0, `%#.3o` of 8 and `%04.2u` of 7. */
  lemma DepartsInEachWay()
    ensures LayoutOf(0, 10, -1, 0, NOFLAGS).Text() == "0" && IsoLayout(0, 10, -1, 0, NOFLAGS).Text() == ""
    ensures var f := NOFLAGS.(special := true);
      && LayoutOf(0, 16, -1, -1, f).Text() == "0X0" && IsoLayout(0, 16, -1, -1, f).Text() == "0"
      && LayoutOf(8, 8, -1, 3, f).Text() == "0010" && IsoLayout(8, 8, -1, 3, f).Text() == "010"
    ensures var f := NOFLAGS.(zeropad := true);
      LayoutOf(7, 10, 4, 2, f).Text() == "0007" && IsoLayout(7, 10, 4, 2, f).Text() == "  07"
  {
    HexZero();
    OctalEight();
    DecimalSeven();
    ZeroDigits(10, false);
    hide Digits;
  }

  lemma DecimalSeven()
    ensures var f := NOFLAGS.(zeropad := true);
      LayoutOf(7, 10, 4, 2, f).Text() == "0007" && IsoLayout(7, 10, 4, 2, f).Text() == "  07"
  {
    assert Digits(7, 10, false) == "7";
    hide Digits;
  }
}
