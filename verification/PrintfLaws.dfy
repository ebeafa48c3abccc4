// Laws of the format language.
module PrintfLaws {
  import opened Text
  import opened NumberFormat
  import NumberReading
  import opened Printf
  import opened Wrappers

  /** A format without directives prints itself. */
  lemma {:induction false} LiteralPrintsItself(s: seq<char>, i: nat, args: Args, a: nat, mem: Memory)
    requires CString(s) && i < |s| && '%' !in s[i..]
    ensures Denote(s, i, args, a, mem) == s[i..|s| - 1]
    decreases |s| - i
  {
    if s[i] != NUL {
      assert s[i] in s[i..];
      assert s[i + 1..] == s[i..][1..];
      LiteralPrintsItself(s, i + 1, args, a, mem);
    }
  }

  // ------------------------------------------------------------------ locality

  // s at i and u at i + d agree up to and including position j of s.
  ghost predicate Agree(s: seq<char>, u: seq<char>, d: nat, i: nat, j: nat) {
    j < |s| && j + d < |u| && forall k :: i <= k <= j ==> s[k] == u[k + d]
  }

  lemma AgreeAt(s: seq<char>, u: seq<char>, d: nat, i: nat, j: nat, k: nat)
    requires Agree(s, u, d, i, j) && i <= k <= j
    ensures s[k] == u[k + d]
    ensures s[i..k] == u[i + d..k + d]
  {
    assert forall l :: 0 <= l < k - i ==> s[i..k][l] == u[i + d..k + d][l];
  }

  lemma {:induction false} DigitsLocal(s: seq<char>, u: seq<char>, d: nat, i: nat, j: nat)
    requires CString(s) && CString(u) && i <= j && Agree(s, u, d, i, j)
    requires AfterDigits(s, i) <= j
    ensures AfterDigits(u, i + d) == AfterDigits(s, i) + d
    decreases j - i
  {
    AgreeAt(s, u, d, i, j, i);
    if IsDigit(s[i]) {
      DigitsLocal(s, u, d, i + 1, j);
    }
  }

  lemma {:induction false} FlagsLocal(s: seq<char>, u: seq<char>, d: nat, i: nat, j: nat)
    requires CString(s) && CString(u) && i <= j && Agree(s, u, d, i, j)
    requires AfterFlags(s, i) <= j
    ensures AfterFlags(u, i + d) == AfterFlags(s, i) + d
    decreases j - i
  {
    AgreeAt(s, u, d, i, j, i);
    if IsFlag(s[i]) {
      FlagsLocal(s, u, d, i + 1, j);
    }
  }

  lemma FieldLocal(s: seq<char>, u: seq<char>, d: nat, i: nat, j: nat, args: Args, a: nat, default: int)
    requires CString(s) && CString(u) && i <= j && Agree(s, u, d, i, j)
    requires ParseField(s, i, args, a, default).at <= j
    ensures var f := ParseField(s, i, args, a, default);
      ParseField(u, i + d, args, a, default) == f.(at := f.at + d)
  {
    AgreeAt(s, u, d, i, j, i);
    if IsDigit(s[i]) {
      DigitsLocal(s, u, d, i, j);
      AgreeAt(s, u, d, i, j, AfterDigits(s, i));
    }
  }

  lemma PrecisionLocal(s: seq<char>, u: seq<char>, d: nat, i: nat, j: nat, args: Args, a: nat)
    requires CString(s) && CString(u) && i <= j && Agree(s, u, d, i, j)
    requires ParsePrecision(s, i, args, a).at <= j
    ensures var f := ParsePrecision(s, i, args, a);
      ParsePrecision(u, i + d, args, a) == f.(at := f.at + d)
  {
    AgreeAt(s, u, d, i, j, i);
    if s[i] == '.' {
      FieldLocal(s, u, d, i + 1, j, args, a, -1);
    }
  }

  /** A directive is read from its own characters only. */
  lemma ParseLocal(s: seq<char>, u: seq<char>, d: nat, i: nat, args: Args, a: nat)
    requires CString(s) && CString(u) && i < |s|
    requires Agree(s, u, d, i, Parse(s, i, args, a).at)
    ensures var p := Parse(s, i, args, a);
      Parse(u, i + d, args, a) == p.(at := p.at + d)
  {
    hide ParseField, ParsePrecision, FlagsOf;
    var e := Parse(s, i, args, a).at;
    var j := AfterFlags(s, i);
    var w := ParseField(s, j, args, a, -1);
    var p := ParsePrecision(s, w.at, args, w.used);
    FlagsLocal(s, u, d, i, e);
    AgreeAt(s, u, d, i, e, j);
    FieldLocal(s, u, d, j, e, args, a, -1);
    PrecisionLocal(s, u, d, w.at, e, args, w.used);
    AgreeAt(s, u, d, i, e, p.at);
    AgreeAt(s, u, d, i, e, e);
  }

  // ------------------------------------------------------------------ composition

  // Which characters a directive has, and how many arguments its `*`s take, depends on
  // the format alone.
  function Shape(s: seq<char>, i: nat): (p: Parsed)
    requires CString(s) && i < |s|
    ensures i <= p.at < |s| && s[p.at] == p.dir.conv
  {
    Parse(s, i, (k: nat) => 0, 0)
  }

  lemma ShapeOfParse(s: seq<char>, i: nat, args: Args, a: nat)
    requires CString(s) && i < |s|
    ensures var p := Parse(s, i, args, a);
      p.at == Shape(s, i).at && p.used == a + Shape(s, i).used
  {
    hide AfterDigits, AfterFlags, FlagsOf, ValueOf;
    var j := AfterFlags(s, i);
    var zeros: Args := (k: nat) => 0;
    FieldShape(s, j, args, a, zeros, 0);
    var w, w0 := ParseField(s, j, args, a, -1), ParseField(s, j, zeros, 0, -1);
    if s[w.at] == '.' {
      FieldShape(s, w.at + 1, args, w.used, zeros, w0.used);
    }
  }

  lemma FieldShape(s: seq<char>, i: nat, args: Args, a: nat, args': Args, a': nat)
    requires CString(s) && i < |s|
    ensures var f, f' := ParseField(s, i, args, a, -1), ParseField(s, i, args', a', -1);
      f.at == f'.at && f.used - a == f'.used - a'
  {
  }

  // No directive from position i on runs into the terminator.
  ghost predicate Whole(s: seq<char>, i: nat)
    requires CString(s) && i < |s|
    decreases |s| - i
  {
    s[i] != NUL ==>
      if s[i] != '%' then Whole(s, i + 1)
      else Shape(s, i + 1).dir.conv != NUL && Whole(s, Shape(s, i + 1).at + 1)
  }

  /** The number of arguments the format takes from position i on. */
  function Uses(s: seq<char>, i: nat): nat
    requires CString(s) && i < |s|
    decreases |s| - i
  {
    if s[i] == NUL then 0
    else if s[i] != '%' then Uses(s, i + 1)
    else
      var p := Shape(s, i + 1);
      p.used + Takes(p.dir.conv) + Uses(s, Next(s, p))
  }

  // One step of Denote, Whole and Uses at a directive.
  lemma DirectiveStep(s: seq<char>, i: nat, args: Args, a: nat, mem: Memory)
    requires CString(s) && i < |s| && s[i] == '%'
    ensures var q := Parse(s, i + 1, args, a);
      && Denote(s, i, args, a, mem) ==
         Render(q.dir, args(q.used), mem) + Denote(s, Next(s, q), args, q.used + Takes(q.dir.conv), mem)
      && a + Uses(s, i) == q.used + Takes(q.dir.conv) + Uses(s, Next(s, q))
      && (Whole(s, i) ==> q.dir.conv != NUL && Whole(s, q.at + 1))
  {
    hide Render, Parse;
    ShapeOfParse(s, i + 1, args, a);
  }

  // And anywhere else.
  lemma PlainStep(s: seq<char>, i: nat, args: Args, a: nat, mem: Memory)
    requires CString(s) && i < |s| && s[i] != '%'
    ensures if s[i] == NUL then Denote(s, i, args, a, mem) == "" && Uses(s, i) == 0
      else
        && Denote(s, i, args, a, mem) == [s[i]] + Denote(s, i + 1, args, a, mem)
        && Uses(s, i) == Uses(s, i + 1) && (Whole(s, i) ==> Whole(s, i + 1))
  {
  }

  // Formatting the tail of a format is formatting what the tail is.
  lemma {:induction false} DenoteSuffix(p: seq<char>, s: seq<char>, i: nat, args: Args, a: nat, mem: Memory)
    requires CString(s) && CString(p + s) && i < |s|
    ensures Denote(p + s, |p| + i, args, a, mem) == Denote(s, i, args, a, mem)
    decreases |s| - i
  {
    hide Render, Parse, Denote, Uses, Whole;
    var u := p + s;
    assert u[|p| + i] == s[i];
    if s[i] == '%' {
      var q := Parse(s, i + 1, args, a);
      DirectiveStep(s, i, args, a, mem);
      DirectiveStep(u, |p| + i, args, a, mem);
      ParseLocal(s, u, |p|, i + 1, args, a);
      DenoteSuffix(p, s, Next(s, q), args, q.used + Takes(q.dir.conv), mem);
    } else {
      PlainStep(s, i, args, a, mem);
      PlainStep(u, |p| + i, args, a, mem);
      if s[i] != NUL {
        DenoteSuffix(p, s, i + 1, args, a, mem);
      }
    }
  }

  /** Formatting is compositional: when no directive of f straddles its end, formatting
      f followed by g is formatting f, then g with the arguments f left over. */
  lemma {:induction false} FormatCompose(f: string, g: string, i: nat, args: Args, a: nat, mem: Memory)
    requires CString(f + [NUL]) && CString(g + [NUL]) && CString(f + (g + [NUL]))
    requires i <= |f| && Whole(f + [NUL], i)
    ensures Denote(f + (g + [NUL]), i, args, a, mem) ==
      Denote(f + [NUL], i, args, a, mem) + Denote(g + [NUL], 0, args, a + Uses(f + [NUL], i), mem)
    decreases |f| - i
  {
    hide Render, Parse, Denote, Uses, Whole;
    var s, u, v := f + [NUL], f + (g + [NUL]), g + [NUL];
    if i == |f| {
      PlainStep(s, i, args, a, mem);
      DenoteSuffix(f, v, 0, args, a, mem);
    } else if f[i] != '%' {
      PlainStep(s, i, args, a, mem);
      PlainStep(u, i, args, a, mem);
      FormatCompose(f, g, i + 1, args, a, mem);
      Regrouped([f[i]], Denote(s, i + 1, args, a, mem), Denote(v, 0, args, a + Uses(s, i + 1), mem));
    } else {
      var q := Parse(s, i + 1, args, a);
      DirectiveStep(s, i, args, a, mem);
      DirectiveStep(u, i, args, a, mem);
      ParseLocal(s, u, 0, i + 1, args, a);
      var b := q.used + Takes(q.dir.conv);
      FormatCompose(f, g, q.at + 1, args, b, mem);
      Regrouped(Render(q.dir, args(q.used), mem), Denote(s, q.at + 1, args, b, mem),
        Denote(v, 0, args, b + Uses(s, q.at + 1), mem));
    }
  }

  // ------------------------------------------------------------------ reading back

  lemma {:induction false} PrefixNotLarger(s: string, k: nat)
    requires k <= |s| && forall i :: 0 <= i < |s| ==> IsDigit(s[i])
    ensures 0 <= ValueOf(s[..k], 10) <= ValueOf(s, 10)
    decreases |s|
  {
    if k == |s| {
      assert s[..k] == s;
      if k > 0 { PrefixNotLarger(s[..k - 1], k - 1); }
    } else {
      PrefixNotLarger(s[..|s| - 1], k);
      assert s[..|s| - 1][..k] == s[..k];
    }
  }

  /** skip_atoi inverts unpadded decimal output, whatever non-digit follows it, and on
      the way never holds more than the number itself: nothing overflows. */
  lemma SkipAtoiReadsBack(n: nat, small: bool, rest: string)
    requires CString(rest) && !IsDigit(rest[0])
    requires CString(Digits(n, 10, small) + rest)
    ensures var s := Digits(n, 10, small) + rest;
      var j := AfterDigits(s, 0);
      && j == |Digits(n, 10, small)| && ValueOf(s[..j], 10) == n
      && forall k :: 0 <= k <= j ==> 0 <= ValueOf(s[..k], 10) <= n
  {
    var d := Digits(n, 10, small);
    var s := d + rest;
    DecimalDigits(n, small);
    DigitsStopAt(s, 0, |d|);
    assert s[..|d|] == d;
    DigitsRoundTrip(n, 10, small);
    forall k | 0 <= k <= |d| ensures 0 <= ValueOf(s[..k], 10) <= n {
      PrefixNotLarger(d, k);
      assert s[..k] == d[..k];
    }
  }

  /** A plain `%d` prints the signed value in decimal. */
  lemma PlainDecimal(args: Args, mem: Memory)
    ensures Denote(['%', 'd', NUL], 0, args, 0, mem) ==
      (if Signed(args(0)) < 0 then "-" + Digits(-Signed(args(0)), 10, false) else Digits(Signed(args(0)), 10, false))
  {
    hide Digits;
    var s := ['%', 'd', NUL];
    var p := Parse(s, 1, args, 0);
    assert s[1..1] == [];
    assert p == Parsed(Directive(NOFLAGS, -1, -1, NUL, 'd'), 1, 0);
    assert Denote(s, 2, args, 1, mem) == "";
    var l := LayoutOf(args(0), 10, -1, -1, NOFLAGS.(sign := true));
    assert l.Text() == l.sign + l.digits;
  }

  /** A field width is a minimum: no conversion that prints its argument prints less
      than its width. */
  lemma WidthIsMinimum(d: Directive, w: Word, mem: Memory)
    requires Takes(d.conv) == 1 && d.conv != 'n'
    ensures |Render(d, w, mem)| >= d.width
  {
    hide LayoutOf, Layout.Text;
    var n := Narrow(w, d.qualifier, d.flags.sign);
    forall x: Word, base: nat, size, f | 2 <= base <= 16
      ensures |LayoutOf(x, base, size, d.precision, f).Text()| >= size
    {
      LayoutLength(x, base, size, d.precision, f);
    }
  }

  // The base an integer conversion writes in, and whether it reads its argument signed.
  function BaseOf(c: char): nat {
    if c == 'o' then 8 else if c == 'x' || c == 'X' then 16 else 10
  }

  predicate IsInteger(c: char) {
    c == 'd' || c == 'i' || c == 'u' || c == 'o' || c == 'x' || c == 'X'
  }

  // The C type the qualifier names: short for `h`, else int or long, all of them here
  // parts of one word.
  function Typed(w: Word, qualifier: char, signed: bool): int {
    var n := if qualifier == 'h' then w % 0x1_0000 else w;
    var top := if qualifier == 'h' then 0x1_0000 else 0x1_0000_0000;
    if signed && n >= top / 2 then n - top else n
  }

  lemma NarrowValue(w: Word, qualifier: char, signed: bool)
    ensures (if signed then Signed(Narrow(w, qualifier, signed)) else Narrow(w, qualifier, signed)) ==
      Typed(w, qualifier, signed)
  {
  }

  /** Whatever the flags, width and precision, the text an integer conversion prints,
      read back as a number in the base of the conversion, is its argument in the type
      of the conversion. */
  lemma RenderedValue(d: Directive, w: Word, mem: Memory)
    requires IsInteger(d.conv)
    ensures NumberReading.ReadNumber(Render(d, w, mem), BaseOf(d.conv)) ==
      Some(Typed(w, d.qualifier, d.flags.sign || d.conv == 'd' || d.conv == 'i'))
  {
    hide LayoutOf, Layout.Text, NumberReading.ReadNumber, Narrow, Typed;
    var signed := d.flags.sign || d.conv == 'd' || d.conv == 'i';
    var f := d.flags.(sign := signed, small := d.flags.small || d.conv == 'x');
    NarrowValue(w, d.qualifier, signed);
    NumberReading.LayoutReadsBack(Narrow(w, d.qualifier, signed), BaseOf(d.conv), d.width, d.precision, f);
  }
}
