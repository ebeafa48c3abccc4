// What is written in a directive, and that reading it gives just that back.
module Directives {
  import opened Wrappers
  import opened Text
  import opened NumberFormat
  import opened Printf
  import IsoNumbers

  /** A width or precision: none, a number, or the next argument. */
  datatype Size = Absent | Number(n: nat) | Star
  {
    function Text(): string {
      match this
      case Absent => ""
      case Number(n) => Digits(n, 10, false)
      case Star => "*"
    }

    function Takes(): nat { if Star? then 1 else 0 }
  }

  /** A directive as it stands in a format, without its percent sign. */
  datatype Written = Written(flags: string, width: Size, precision: Option<Size>, qualifier: Option<char>, conv: char)
  {
    // Flags in any order and number; a width has no leading zero, since that is a flag.
    ghost predicate Valid() {
      && (forall i :: 0 <= i < |flags| ==> Mark(flags[i]))
      && (width.Number? ==> width.n > 0)
      && (qualifier.Some? ==> qualifier.value in "hlL")
      && !Mark(conv) && !('0' <= conv <= '9') && conv != '*' && conv != '.' && conv !in "hlL"
    }

    function PrecisionText(): string { if precision.None? then "" else "." + precision.value.Text() }

    function QualifierText(): string { if qualifier.None? then "" else [qualifier.value] }

    // The arguments its `*`s take.
    function Sizes(): nat { width.Takes() + if precision.None? then 0 else precision.value.Takes() }

    // A negative width from an argument means the left side.
    function FieldWidth(args: Args, a: nat): int {
      match width
      case Absent => -1
      case Number(n) => n
      case Star => if Signed(args(a)) < 0 then -Signed(args(a)) else Signed(args(a))
    }

    function LeftSide(args: Args, a: nat): bool { '-' in flags || (width.Star? && Signed(args(a)) < 0) }

    // -1 if no precision is given; a point alone, or a negative argument, means 0.
    function Limit(args: Args, a: nat): int {
      match precision
      case None => -1
      case Some(Absent) => 0
      case Some(Number(n)) => n
      case Some(Star) => var v := Signed(args(a + width.Takes())); if v < 0 then 0 else v
    }

    function Text(): string { flags + (width.Text() + (PrecisionText() + (QualifierText() + [conv]))) }
  }

  predicate Mark(c: char) { c in "-+ #0" }

  // The text w stands in s at i.
  ghost predicate At(s: seq<char>, i: nat, w: string) { i + |w| <= |s| && s[i..i + |w|] == w }

  lemma AtSplit(s: seq<char>, i: nat, x: string, y: string)
    requires At(s, i, x + y)
    ensures At(s, i, x) && At(s, i + |x|, y)
    ensures y != "" ==> s[i + |x|] == y[0]
  {
    var w := x + y;
    assert s[i..i + |x|] == s[i..i + |w|][..|x|];
    assert s[i + |x|..i + |w|] == s[i..i + |w|][|x|..];
    assert y != "" ==> s[i + |x|] == s[i..i + |w|][|x|];
  }

  // Neither a flag nor part of a size.
  ghost predicate Outside(c: char) { !IsFlag(c) && !IsDigit(c) && c != '*' }

  lemma Marks(c: char)
    ensures Mark(c) <==> IsFlag(c)
    ensures c in "hlL" <==> IsQualifier(c)
    ensures c in "hlL" ==> Outside(c) && c != '.'
  {
    assert "-+ #0" == ['-', '+', ' ', '#', '0'] && "hlL" == ['h', 'l', 'L'];
  }

  // ------------------------------------------------------------------ the parts

  lemma FlagsRead(s: seq<char>, i: nat, run: string)
    requires CString(s) && At(s, i, run) && i + |run| < |s| && !IsFlag(s[i + |run|])
    requires forall k :: 0 <= k < |run| ==> Mark(run[k])
    ensures AfterFlags(s, i) == i + |run| && s[i..i + |run|] == run
  {
    forall k | i <= k < i + |run| ensures IsFlag(s[k]) {
      assert s[k] == run[k - i];
      Marks(s[k]);
    }
    FlagsStopAt(s, i, i + |run|);
  }

  // What a size means: a value for none, and whether it takes its argument.
  function SizeValue(z: Size, none: int, arg: Word): int {
    match z
    case Absent => none
    case Number(n) => n
    case Star => Signed(arg)
  }

  lemma SizeRead(s: seq<char>, i: nat, z: Size, args: Args, a: nat)
    requires CString(s) && At(s, i, z.Text()) && i + |z.Text()| < |s|
    requires !IsDigit(s[i + |z.Text()|]) && s[i + |z.Text()|] != '*'
    ensures ParseField(s, i, args, a, -1) == Field(SizeValue(z, -1, args(a)), i + |z.Text()|, a + z.Takes())
  {
    hide ValueOf, Digits;
    match z
    case Absent =>
    case Number(n) => NumberRead(s, i, n);
    case Star => assert s[i] == s[i..i + 1][0];
  }

  lemma NumberRead(s: seq<char>, i: nat, n: nat)
    requires CString(s) && At(s, i, Digits(n, 10, false)) && i + |Digits(n, 10, false)| < |s|
    requires !IsDigit(s[i + |Digits(n, 10, false)|])
    ensures var j := i + |Digits(n, 10, false)|;
      i < j && AfterDigits(s, i) == j && ValueOf(s[i..j], 10) == n && IsDigit(s[i])
  {
    hide ValueOf, Digits;
    var d := Digits(n, 10, false);
    DecimalDigits(n, false);
    DigitsRoundTrip(n, 10, false);
    forall k | i <= k < i + |d| ensures IsDigit(s[k]) {
      assert s[k] == d[k - i];
    }
    DigitsStopAt(s, i, i + |d|);
  }

  lemma PrecisionGiven(s: seq<char>, i: nat, z: Size, args: Args, a: nat)
    requires CString(s) && At(s, i, "." + z.Text()) && i + 1 + |z.Text()| < |s| && Outside(s[i + 1 + |z.Text()|])
    ensures ParsePrecision(s, i, args, a) ==
      Field(Max(SizeValue(z, -1, args(a)), 0), i + 1 + |z.Text()|, a + z.Takes())
  {
    hide ParseField, Size.Text;
    AtSplit(s, i, ".", z.Text());
    assert s[i] == s[i..i + 1][0];
    SizeRead(s, i + 1, z, args, a);
  }

  lemma PrecisionRead(s: seq<char>, i: nat, w: Written, args: Args, a: nat)
    requires CString(s) && At(s, i, w.PrecisionText()) && i + |w.PrecisionText()| < |s|
    requires Outside(s[i + |w.PrecisionText()|]) && s[i + |w.PrecisionText()|] != '.'
    ensures ParsePrecision(s, i, args, a) == PrecisionField(w, i, args, a)
  {
    hide ParseField, Size.Text, SizeValue;
    if w.precision.Some? {
      hide ParsePrecision;
      PrecisionGiven(s, i, w.precision.value, args, a);
    }
  }

  function PrecisionField(w: Written, i: nat, args: Args, a: nat): Field {
    if w.precision.None? then Field(-1, i, a)
    else
      Field(Max(SizeValue(w.precision.value, -1, args(a)), 0), i + |w.PrecisionText()|, a + w.precision.value.Takes())
  }

  // ------------------------------------------------------------------ how the parts meet

  lemma AfterPrecision(w: Written)
    requires w.Valid()
    ensures var t := w.QualifierText() + [w.conv];
      t != "" && Outside(t[0]) && t[0] != '.' && (IsQualifier(t[0]) <==> w.qualifier.Some?)
  {
    Marks(w.conv);
    if w.qualifier.Some? {
      Marks(w.qualifier.value);
    }
  }

  lemma AfterWidth(w: Written)
    requires w.Valid()
    ensures var t := w.PrecisionText() + (w.QualifierText() + [w.conv]);
      t != "" && Outside(t[0])
  {
    AfterPrecision(w);
    if w.precision.None? {
      assert w.PrecisionText() + (w.QualifierText() + [w.conv]) == w.QualifierText() + [w.conv];
    }
  }

  lemma AfterFlagRun(w: Written)
    requires w.Valid()
    ensures var t := w.width.Text() + (w.PrecisionText() + (w.QualifierText() + [w.conv]));
      t != "" && !IsFlag(t[0]) && (t[0] == '*' <==> w.width.Star?)
  {
    hide Digits, Written.PrecisionText, Written.QualifierText;
    AfterWidth(w);
    match w.width
    case Absent =>
      assert w.width.Text() == "";
    case Number(n) =>
      DecimalDigits(n, false);
      IsoNumbers.NoLeadingZero(n, 10, false);
    case Star =>
  }

  // ------------------------------------------------------------------ the whole

  // What the directive w says, flag by flag and field by field.
  ghost predicate Says(w: Written, p: Parsed, args: Args, a: nat) {
    var f := p.dir.flags;
    && (f.zeropad <==> '0' in w.flags)
    && (f.plus <==> '+' in w.flags)
    && (f.space <==> ' ' in w.flags)
    && (f.special <==> '#' in w.flags)
    && (f.left <==> w.LeftSide(args, a))
    && !f.sign && !f.small
    && p.dir.width == w.FieldWidth(args, a)
    && p.dir.precision == w.Limit(args, a)
    && p.dir.qualifier == (if w.qualifier.None? then NUL else w.qualifier.value)
    && p.dir.conv == w.conv
    && p.used == a + w.Sizes()
  }

  lemma QualifierRead(s: seq<char>, i: nat, w: Written)
    requires w.Valid() && At(s, i, w.QualifierText() + [w.conv])
    ensures var q := IsQualifier(s[i]);
      && q == w.qualifier.Some? && (q ==> s[i] == w.qualifier.value)
      && i + |w.QualifierText()| < |s| && s[i + |w.QualifierText()|] == w.conv
      && |w.QualifierText()| == if q then 1 else 0
  {
    AfterPrecision(w);
    AtSplit(s, i, w.QualifierText(), [w.conv]);
    if w.qualifier.Some? {
      assert s[i] == s[i..i + 1][0];
    }
  }

  lemma FlagsSay(run: string)
    ensures var f := FlagsOf(run);
      && (f.zeropad <==> '0' in run) && (f.plus <==> '+' in run) && (f.space <==> ' ' in run)
      && (f.special <==> '#' in run) && (f.left <==> '-' in run) && !f.sign && !f.small
  {
  }

  // Once each part is read, so is the directive.
  lemma ParseParts(s: seq<char>, i: nat, w: Written, args: Args, a: nat, j: nat, k: nat, l: nat)
    requires CString(s) && w.Valid() && i <= j <= k <= l && i < |s| && l < |s|
    requires AfterFlags(s, i) == j && s[i..j] == w.flags && (s[j] == '*' <==> w.width.Star?)
    requires ParseField(s, j, args, a, -1) == Field(SizeValue(w.width, -1, args(a)), k, a + w.width.Takes())
    requires ParsePrecision(s, k, args, a + w.width.Takes()) == PrecisionField(w, k, args, a + w.width.Takes())
    requires l == k + |w.PrecisionText()| && At(s, l, w.QualifierText() + [w.conv])
    ensures Parse(s, i, args, a).at == l + |w.QualifierText()|
    ensures Says(w, Parse(s, i, args, a), args, a)
  {
    hide AfterFlags, ParseField, ParsePrecision, FlagsOf, Size.Text, Written.QualifierText, IsQualifier, Written.Valid;
    QualifierRead(s, l, w);
    FlagsSay(w.flags);
  }

  lemma TextLength(w: Written)
    ensures |w.Text()| ==
      |w.flags| + |w.width.Text()| + |w.PrecisionText()| + |w.QualifierText()| + 1
  {
    hide Size.Text, Written.PrecisionText, Written.QualifierText;
  }

  /** Reading a directive gives what is written in it, and stops at its last character. */
  lemma ParseWritten(s: seq<char>, i: nat, w: Written, args: Args, a: nat)
    requires CString(s) && w.Valid() && At(s, i, w.Text())
    ensures i < |s| && Parse(s, i, args, a).at == i + |w.Text()| - 1
    ensures Says(w, Parse(s, i, args, a), args, a)
  {
    hide Parse, AfterFlags, ParseField, ParsePrecision, Size.Text, Written.PrecisionText, Written.QualifierText, Says,
      At, PrecisionField, SizeValue;
    TextLength(w);
    var t3 := w.QualifierText() + [w.conv];
    var t2 := w.PrecisionText() + t3;
    var t1 := w.width.Text() + t2;
    AtInside(s, i, w.Text());
    AtSplit(s, i, w.flags, t1);
    AfterFlagRun(w);
    FlagsRead(s, i, w.flags);
    var j := i + |w.flags|;
    AtSplit(s, j, w.width.Text(), t2);
    AfterWidth(w);
    SizeRead(s, j, w.width, args, a);
    var k := j + |w.width.Text()|;
    AtSplit(s, k, w.PrecisionText(), t3);
    AfterPrecision(w);
    PrecisionRead(s, k, w, args, a + w.width.Takes());
    ParseParts(s, i, w, args, a, j, k, k + |w.PrecisionText()|);
  }

  lemma AtInside(s: seq<char>, i: nat, w: string)
    requires At(s, i, w)
    ensures i + |w| <= |s|
  {
  }
}
