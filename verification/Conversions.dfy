// What each conversion prints, for all flags, widths and precisions.
module Conversions {
  import opened Wrappers
  import opened Text
  import opened NumberFormat
  import opened NumberReading
  import opened Printf
  import opened PrintfLaws
  import opened Directives

  // A format that is the one directive.
  function Format(w: Written): seq<char> { ['%'] + w.Text() + [NUL] }

  lemma NoNul(w: Written)
    requires w.Valid()
    ensures forall i :: 0 <= i < |w.Text()| - 1 ==> w.Text()[i] != NUL
    ensures w.Text()[|w.Text()| - 1] == w.conv
  {
    hide Digits;
    SizeNoNul(w.width);
    if w.precision.Some? { SizeNoNul(w.precision.value); }
    var t := w.flags + w.width.Text() + w.PrecisionText() + w.QualifierText();
    assert w.Text() == t + [w.conv];
    forall c | c in w.flags ensures c != NUL {
      Marks(c);
    }
    assert NUL !in t;
  }

  lemma SizeNoNul(z: Size)
    ensures NUL !in z.Text()
  {
    if z.Number? {
      DecimalDigits(z.n, false);
    }
  }

  lemma DirectiveFits(w: Written, g: seq<char>)
    requires w.Valid() && w.conv != NUL && CString(g)
    ensures CString(['%'] + w.Text() + g) && At(['%'] + w.Text() + g, 1, w.Text())
  {
    hide Written.Text, Written.Valid;
    NoNul(w);
    var t := w.Text();
    var s := ['%'] + t + g;
    assert s[1..1 + |t|] == t;
    forall i | 0 <= i < |s| - 1 ensures s[i] != NUL {
      if 1 <= i < |t| {
        assert s[i] == t[i - 1];
      }
    }
  }

  /** The first directive of a format prints what it would print alone, and the rest
      goes on with the arguments it leaves: a conversion that formats one takes one. */
  lemma DirectiveThen(w: Written, g: seq<char>, args: Args, a: nat, mem: Memory)
    requires w.Valid() && w.conv != NUL && CString(g)
    ensures CString(['%'] + w.Text() + g) && CString(Format(w))
    ensures Denote(['%'] + w.Text() + g, 0, args, a, mem) ==
      Denote(Format(w), 0, args, a, mem)
      + Denote(g, 0, args, a + w.Sizes() + (if w.conv in "cspnoxXdiu" then 1 else 0), mem)
  {
    hide Denote, Render, Parse, Written.Text, Written.Valid, Says, Uses, Whole;
    var b := a + w.Sizes() + if w.conv in "cspnoxXdiu" then 1 else 0;
    TakesOne(w.conv);
    DirectiveFits(w, [NUL]);
    DirectiveFits(w, g);
    FirstDirective(w, g, args, a, mem);
    FirstDirective(w, [NUL], args, a, mem);
    DenoteEnd(args, b, mem);
  }

  lemma TakesOne(c: char)
    ensures Takes(c) == if c in "cspnoxXdiu" then 1 else 0
  {
    assert "cspnoxXdiu" == ['c', 's', 'p', 'n', 'o', 'x', 'X', 'd', 'i', 'u'];
  }

  lemma DenoteEnd(args: Args, a: nat, mem: Memory)
    ensures Denote([NUL], 0, args, a, mem) == ""
  {
  }

  // What is printed for the directive w.
  ghost function Printed(w: Written, args: Args, a: nat, mem: Memory): string
    requires w.Valid() && w.conv != NUL
  {
    DirectiveFits(w, [NUL]);
    Render(Parse(Format(w), 1, args, a).dir, args(a + w.Sizes()), mem)
  }

  lemma SaysAlike(w: Written, p: Parsed, q: Parsed, args: Args, a: nat)
    requires Says(w, p, args, a) && Says(w, q, args, a)
    ensures p.dir == q.dir && p.used == q.used
  {
  }

  lemma FirstDirective(w: Written, g: seq<char>, args: Args, a: nat, mem: Memory)
    requires w.Valid() && w.conv != NUL && CString(g) && CString(['%'] + w.Text() + g)
    ensures Denote(['%'] + w.Text() + g, 0, args, a, mem) ==
      Printed(w, args, a, mem) + Denote(g, 0, args, a + w.Sizes() + Takes(w.conv), mem)
  {
    hide Denote, Render, Parse, Written.Text, Written.Valid, Uses, Whole, At;
    var s, t := ['%'] + w.Text() + g, w.Text();
    DirectiveFits(w, g);
    DirectiveFits(w, [NUL]);
    ParseWritten(s, 1, w, args, a);
    ParseWritten(Format(w), 1, w, args, a);
    var p := Parse(s, 1, args, a);
    SaysAlike(w, p, Parse(Format(w), 1, args, a), args, a);
    DirectiveStep(s, 0, args, a, mem);
    assert s == (['%'] + t) + g;
    DenoteSuffix(['%'] + t, g, 0, args, p.used + Takes(w.conv), mem);
  }

  lemma PrintedAlone(w: Written, args: Args, a: nat, mem: Memory)
    requires w.Valid() && w.conv != NUL
    ensures CString(Format(w)) && Denote(Format(w), 0, args, a, mem) == Printed(w, args, a, mem)
  {
    hide Denote, Printed, Written.Valid, Written.Text;
    DirectiveFits(w, [NUL]);
    FirstDirective(w, [NUL], args, a, mem);
    DenoteEnd(args, a + w.Sizes() + Takes(w.conv), mem);
  }

  // ------------------------------------------------------------------ text

  // The text in a field: blanks up to the width, all on one side of it.
  ghost predicate Fills(out: string, text: string, width: int, left: bool) {
    var n := Max(width - |text|, 0);
    && |out| == |text| + n
    && (if left then text <= out else out[n..] == text)
    && forall i :: (if left then |text| else 0) <= i < (if left then |out| else n) ==> out[i] == ' '
  }

  lemma FieldFills(text: string, width: int, left: bool)
    ensures Fills(InField(text, width, left), text, width, left)
  {
    var n := Max(width - |text|, 0);
    var out := InField(text, width, left);
    if !left {
      assert out[n..] == text;
    }
  }

  lemma PrintedSays(w: Written, args: Args, a: nat, mem: Memory) returns (p: Parsed)
    requires w.Valid() && w.conv != NUL
    ensures CString(Format(w)) && Says(w, p, args, a)
    ensures Denote(Format(w), 0, args, a, mem) == Render(p.dir, args(a + w.Sizes()), mem)
  {
    hide Denote, Written.Valid, Written.Text, Says, Render, Parse, At;
    DirectiveFits(w, [NUL]);
    ParseWritten(Format(w), 1, w, args, a);
    PrintedAlone(w, args, a, mem);
    p := Parse(Format(w), 1, args, a);
  }

  /** `%s` prints the string its argument points to, up to the precision if there is one
      and the largest word otherwise, in its field. */
  lemma StringPrints(w: Written, args: Args, a: nat, mem: Memory)
    requires w.Valid() && w.conv == 's'
    ensures CString(Format(w))
    ensures var text, limit := mem(args(a + w.Sizes())), w.Limit(args, a);
      var most := if limit < 0 then 0xFFFF_FFFF else limit;
      Fills(Denote(Format(w), 0, args, a, mem), if |text| <= most then text else text[..most],
        w.FieldWidth(args, a), w.LeftSide(args, a))
  {
    hide Denote, Written.Valid, Written.Text, InField, Fills;
    var p := PrintedSays(w, args, a, mem);
    FieldFills(Clip(mem(args(a + w.Sizes())), p.dir.precision), p.dir.width, p.dir.flags.left);
  }

  /** `%c` prints the low byte of its argument in its field. */
  lemma CharPrints(w: Written, args: Args, a: nat, mem: Memory)
    requires w.Valid() && w.conv == 'c'
    ensures CString(Format(w))
    ensures Fills(Denote(Format(w), 0, args, a, mem), [(args(a + w.Sizes()) % 256) as char],
      w.FieldWidth(args, a), w.LeftSide(args, a))
  {
    hide Denote, Written.Valid, Written.Text, InField, Fills;
    var p := PrintedSays(w, args, a, mem);
    FieldFills([(args(a + w.Sizes()) % 256) as char], p.dir.width, p.dir.flags.left);
  }

  /** `%%` prints a percent sign, `%n` nothing, and an unknown conversion a percent sign
      and itself, whatever flags, width and precision are given. */
  lemma OtherPrints(w: Written, args: Args, a: nat, mem: Memory)
    requires w.Valid() && w.conv != NUL && w.conv !in "cspoxXdiu"
    ensures CString(Format(w))
    ensures Denote(Format(w), 0, args, a, mem) ==
      if w.conv == '%' then "%" else if w.conv == 'n' then "" else ['%', w.conv]
  {
    hide Denote, Written.Valid, Written.Text;
    var p := PrintedSays(w, args, a, mem);
    assert "cspoxXdiu" == ['c', 's', 'p', 'o', 'x', 'X', 'd', 'i', 'u'];
  }

  /** A directive that the end of the format cuts off prints a percent sign. */
  lemma TruncatedPrints(w: Written, args: Args, a: nat, mem: Memory)
    requires w.Valid() && w.conv == NUL
    ensures CString(['%'] + w.Text()) && Denote(['%'] + w.Text(), 0, args, a, mem) == "%"
  {
    hide Parse, Written.Valid, Written.Text;
    var s, t := ['%'] + w.Text(), w.Text();
    NoNul(w);
    TextLength(w);
    assert s[1..1 + |t|] == t && s[|s| - 1] == t[|t| - 1];
    forall i | 0 <= i < |s| - 1 ensures s[i] != NUL {
      assert i > 0 ==> s[i] == t[i - 1];
    }
    ParseWritten(s, 1, w, args, a);
  }

  // ------------------------------------------------------------------ numbers

  // A number as the word of its two's complement.
  function AsWord(n: int): Word
    requires -0x8000_0000 <= n < 0x1_0000_0000
  {
    if n < 0 then n + 0x1_0000_0000 else n
  }

  predicate IsSigned(conv: char) { conv == 'd' || conv == 'i' }

  // The argument in the type that qualifier and conversion name.
  function Argument(w: Written, args: Args, a: nat): int {
    Typed(args(a + w.Sizes()), if w.qualifier == Some('h') then 'h' else 'l', IsSigned(w.conv))
  }

  lemma ArgumentRange(w: Written, args: Args, a: nat)
    ensures -0x8000_0000 <= Argument(w, args, a) < 0x1_0000_0000
    ensures Narrow(args(a + w.Sizes()), if w.qualifier.None? then NUL else w.qualifier.value, IsSigned(w.conv))
      == AsWord(Argument(w, args, a))
  {
  }

  // The flags as they stand.
  function FlagsIn(w: Written, args: Args, a: nat): Flags {
    Flags('0' in w.flags, IsSigned(w.conv), '+' in w.flags, ' ' in w.flags, w.LeftSide(args, a), w.conv == 'x',
      '#' in w.flags)
  }

  /** An integer conversion lays its argument, in the type it names, out as its flags,
      width and precision say. */
  lemma IntegerPrints(w: Written, args: Args, a: nat, mem: Memory)
    requires w.Valid() && IsInteger(w.conv)
    ensures CString(Format(w)) && -0x8000_0000 <= Argument(w, args, a) < 0x1_0000_0000
    ensures Denote(Format(w), 0, args, a, mem) ==
      LayoutOf(AsWord(Argument(w, args, a)), BaseOf(w.conv), w.FieldWidth(args, a), w.Limit(args, a),
        FlagsIn(w, args, a)).Text()
  {
    hide Denote, Written.Valid, Written.Text, LayoutOf, Layout.Text, Argument, Narrow;
    var p := PrintedSays(w, args, a, mem);
    ArgumentRange(w, args, a);
  }

  /** `%p` prints its argument in base 16, eight digits at least if no width is given. */
  lemma PointerPrints(w: Written, args: Args, a: nat, mem: Memory)
    requires w.Valid() && w.conv == 'p'
    ensures CString(Format(w))
    ensures ReadNumber(Denote(Format(w), 0, args, a, mem), 16) == Some(args(a + w.Sizes()))
    ensures |Denote(Format(w), 0, args, a, mem)| >= if w.width.Absent? then 8 else w.FieldWidth(args, a)
    ensures w == Written("", Absent, None, None, 'p') ==>
      forall i :: 0 <= i < |Denote(Format(w), 0, args, a, mem)| ==> IsDigitOf(Denote(Format(w), 0, args, a, mem)[i], 16)
  {
    hide Denote, Written.Valid, Written.Text, LayoutOf, Layout.Text, ReadNumber;
    var p := PrintedSays(w, args, a, mem);
    var v, d := args(a + w.Sizes()), p.dir;
    var size, f := if d.width == -1 then 8 else d.width, if d.width == -1 then d.flags.(zeropad := true) else d.flags;
    LayoutReadsBack(v, 16, size, d.precision, f);
    LayoutLength(v, 16, size, d.precision, f);
    if w == Written("", Absent, None, None, 'p') {
      PlainDigits(v);
      assert f == NOFLAGS.(zeropad := true);
    }
  }

  lemma PlainDigits(v: Word)
    ensures var t := LayoutOf(v, 16, 8, -1, NOFLAGS.(zeropad := true)).Text();
      forall i :: 0 <= i < |t| ==> IsDigitOf(t[i], 16)
  {
    hide Digits;
    NumeralDigits(v, 16, false);
    var l := LayoutOf(v, 16, 8, -1, NOFLAGS.(zeropad := true));
    assert l.Text() == Repeat('0', l.zeros) + l.digits;
  }

  // ------------------------------------------------------------------ letter case and signs

  lemma DigitCharCase(d: nat, small: bool)
    requires d < 16
    ensures var c := DigitChar(d, small);
      '0' <= c <= '9' || (if small then 'a' <= c <= 'f' else 'A' <= c <= 'F')
  {
  }

  lemma {:induction false} DigitCase(n: nat, small: bool)
    ensures forall c :: c in Digits(n, 16, small) ==>
      '0' <= c <= '9' || (if small then 'a' <= c <= 'f' else 'A' <= c <= 'F')
    decreases n
  {
    hide DigitChar;
    if n < 16 {
      DigitCharCase(n, small);
    } else {
      DigitCase(n / 16, small);
      DigitCharCase(n % 16, small);
    }
  }

  predicate InCase(c: char, small: bool) { if small then !('A' <= c <= 'Z') else !('a' <= c <= 'z') }

  ghost predicate AllInCase(t: string, small: bool) { forall c :: c in t ==> InCase(c, small) }

  lemma CaseAppend(x: string, y: string, small: bool)
    requires AllInCase(x, small) && AllInCase(y, small)
    ensures AllInCase(x + y, small)
  {
  }

  lemma CaseParts(v: Word, f: Flags, before: int, zeros: int, after: int)
    ensures AllInCase(Repeat(' ', before), f.small) && AllInCase(Repeat('0', zeros), f.small)
    ensures AllInCase(Repeat(' ', after), f.small)
    ensures AllInCase(SignOf(v, f), f.small) && AllInCase(PrefixOf(16, f), f.small)
    ensures AllInCase(Digits(Magnitude(v, f), 16, f.small), f.small)
  {
    hide Digits, Repeat, Magnitude, OrCase;
    DigitCase(Magnitude(v, f), f.small);
    PrefixLetter(f.small);
  }

  lemma LayoutCase(v: Word, size: int, precision: int, f: Flags)
    ensures AllInCase(LayoutOf(v, 16, size, precision, f).Text(), f.small)
  {
    hide Digits, LayoutOf, Layout.Text, AllInCase, PrefixOf, SignOf, Magnitude, Repeat;
    var l := LayoutOf(v, 16, size, precision, f);
    LayoutFits(v, 16, size, precision, f);
    CaseParts(v, f, l.before, l.zeros, l.after);
    var body := Repeat('0', l.zeros) + l.digits;
    CaseAppend(Repeat('0', l.zeros), l.digits, f.small);
    CaseAppend(l.prefix, body, f.small);
    CaseAppend(l.prefix + body, Repeat(' ', l.after), f.small);
    CaseAppend(l.sign, l.prefix + body + Repeat(' ', l.after), f.small);
    CaseAppend(Repeat(' ', l.before), l.sign + (l.prefix + body + Repeat(' ', l.after)), f.small);
    LayoutGroups(l);
  }

  /** `%x` prints no upper-case letter and `%X` no lower-case one. */
  lemma HexCase(w: Written, args: Args, a: nat, mem: Memory)
    requires w.Valid() && (w.conv == 'x' || w.conv == 'X')
    ensures CString(Format(w))
    ensures AllInCase(Denote(Format(w), 0, args, a, mem), w.conv == 'x')
  {
    hide Denote, Written.Valid, Written.Text, LayoutOf, Layout.Text, Argument;
    IntegerPrints(w, args, a, mem);
    LayoutCase(AsWord(Argument(w, args, a)), w.FieldWidth(args, a), w.Limit(args, a), FlagsIn(w, args, a));
  }

  /** A signed conversion without a width starts with the sign of a negative number, or
      else a plus sign or a blank if the flags ask for one, the plus sign first; an
      unsigned one never does. */
  lemma SignPrints(w: Written, args: Args, a: nat, mem: Memory)
    requires w.Valid() && IsInteger(w.conv) && w.width.Absent?
    ensures CString(Format(w)) && Denote(Format(w), 0, args, a, mem) != ""
    ensures var c, n := Denote(Format(w), 0, args, a, mem)[0], Argument(w, args, a);
      && (c == '-' <==> n < 0)
      && (c == '+' <==> n >= 0 && IsSigned(w.conv) && '+' in w.flags)
      && (c == ' ' <==> n >= 0 && IsSigned(w.conv) && ' ' in w.flags && '+' !in w.flags)
  {
    hide Denote, Written.Valid, Written.Text, LayoutOf, Layout.Text, Argument;
    IntegerPrints(w, args, a, mem);
    ArgumentRange(w, args, a);
    ArgumentSign(w, args, a);
    FirstOfLayout(AsWord(Argument(w, args, a)), BaseOf(w.conv), w.Limit(args, a), FlagsIn(w, args, a));
  }

  lemma ArgumentSign(w: Written, args: Args, a: nat)
    ensures var n := Argument(w, args, a);
      -0x8000_0000 <= n < 0x1_0000_0000 && (n < 0 <==> IsSigned(w.conv) && Negative(AsWord(n)))
  {
  }

  lemma FirstOfLayout(v: Word, base: nat, precision: int, f: Flags)
    requires 2 <= base <= 16
    ensures var t := LayoutOf(v, base, -1, precision, f).Text();
      && t != ""
      && (t[0] == '-' <==> f.sign && Negative(v))
      && (t[0] == '+' <==> f.sign && !Negative(v) && f.plus)
      && (t[0] == ' ' <==> f.sign && !Negative(v) && f.space && !f.plus)
  {
    hide Digits, PrefixOf, LayoutOf, Layout.Text, ReadUnsigned, ValueOf;
    var l := LayoutOf(v, base, -1, precision, f);
    LayoutFits(v, base, -1, precision, f);
    ZerosAndDigits(l.zeros, Magnitude(v, f), base, f.small);
    PrefixRead(base, f, Repeat('0', l.zeros) + l.digits, l.after);
    var t := l.prefix + (Repeat('0', l.zeros) + l.digits) + Repeat(' ', l.after);
    NoMark(t[0], base);
    LayoutGroups(l);
    assert l.Text() == l.sign + t;
  }
}
