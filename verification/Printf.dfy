// vsprintf: what a format string means, and the loop that writes it.
module Printf {
  import opened Text
  import opened NumberFormat
  import Strings

  // ------------------------------------------------------------------ arguments

  /** Arguments are words of the caller's stack; a string argument is the address of a
      C string somewhere in memory (its characters, without the terminator). */
  type Args = nat -> Word
  type CText = s: string | NUL !in s witness ""
  type Memory = Word -> CText

  function ToInt(w: Word): int { Signed(w) }

  // ------------------------------------------------------------------ directives

  datatype Directive = Directive(flags: Flags, width: int, precision: int, qualifier: char, conv: char)

  /** A directive, the position of its conversion character, and the arguments its `*`s took. */
  datatype Parsed = Parsed(dir: Directive, at: nat, used: nat)

  predicate IsFlag(c: char) { c == '-' || c == '+' || c == ' ' || c == '#' || c == '0' }

  function AddFlag(f: Flags, c: char): Flags {
    match c
    case '-' => f.(left := true)
    case '+' => f.(plus := true)
    case ' ' => f.(space := true)
    case '#' => f.(special := true)
    case '0' => f.(zeropad := true)
    case _ => f
  }

  // The first position from i on whose character is no digit.
  function AfterDigits(s: seq<char>, i: nat): (j: nat)
    requires CString(s) && i < |s|
    ensures i <= j < |s| && !IsDigit(s[j]) && forall k :: i <= k < j ==> IsDigit(s[k])
    decreases |s| - i
  {
    if IsDigit(s[i]) then AfterDigits(s, i + 1) else i
  }

  function AfterFlags(s: seq<char>, i: nat): (j: nat)
    requires CString(s) && i < |s|
    ensures i <= j < |s| && !IsFlag(s[j]) && forall k :: i <= k < j ==> IsFlag(s[k])
    decreases |s| - i
  {
    if IsFlag(s[i]) then AfterFlags(s, i + 1) else i
  }

  /** The flags named by a run of flag characters: each counts, in any order and number. */
  function FlagsOf(run: seq<char>): Flags {
    Flags('0' in run, false, '+' in run, ' ' in run, '-' in run, false, '#' in run)
  }

  // A number, a `*`, or nothing.
  datatype Field = Field(value: int, at: nat, used: nat)

  function ParseField(s: seq<char>, i: nat, args: Args, a: nat, default: int): (r: Field)
    requires CString(s) && i < |s|
    ensures i <= r.at < |s| && a <= r.used
  {
    if IsDigit(s[i]) then Field(ValueOf(s[i..AfterDigits(s, i)], 10), AfterDigits(s, i), a)
    else if s[i] == '*' then Field(ToInt(args(a)), i + 1, a + 1)
    else Field(default, i, a)
  }

  function ParsePrecision(s: seq<char>, i: nat, args: Args, a: nat): (r: Field)
    requires CString(s) && i < |s|
    ensures i <= r.at < |s| && a <= r.used
  {
    if s[i] != '.' then Field(-1, i, a)
    else
      var p := ParseField(s, i + 1, args, a, -1);
      p.(value := Max(p.value, 0))
  }

  predicate IsQualifier(c: char) { c == 'h' || c == 'l' || c == 'L' }

  /** The directive that starts after a `%` at position i - 1. */
  function Parse(s: seq<char>, i: nat, args: Args, a: nat): (r: Parsed)
    requires CString(s) && i < |s|
    ensures i <= r.at < |s| && a <= r.used && s[r.at] == r.dir.conv
  {
    var j := AfterFlags(s, i);
    var flags := FlagsOf(s[i..j]);
    var w := ParseField(s, j, args, a, -1);
    var star := s[j] == '*' && w.value < 0;
    var p := ParsePrecision(s, w.at, args, w.used);
    var q := IsQualifier(s[p.at]);
    var at := if q then p.at + 1 else p.at;
    Parsed(
      Directive(
        if star then flags.(left := true) else flags,
        if star then -w.value else w.value,
        p.value, if q then s[p.at] else NUL, s[at]),
      at, p.used)
  }

  // ------------------------------------------------------------------ conversions

  // The arguments a conversion itself takes.
  function Takes(c: char): nat {
    if c == 'c' || c == 's' || c == 'p' || c == 'n' || c == 'o' || c == 'x' || c == 'X'
       || c == 'd' || c == 'i' || c == 'u' then 1 else 0
  }

  // The word an integer conversion formats.
  function Narrow(w: Word, qualifier: char, sign: bool): Word {
    if qualifier != 'h' then w
    else if sign && w % 0x1_0000 >= 0x8000 then w % 0x1_0000 + 0xFFFF_0000
    else w % 0x1_0000
  }

  // Text in a field of its own width: blanks on the left, or on the right.
  function InField(text: string, width: int, left: bool): string {
    var blanks := Repeat(' ', width - |text|);
    if left then text + blanks else blanks + text
  }

  // A precision of -1, as `size_t`, is the largest word.
  function Clip(s: string, precision: int): string {
    var most := if precision < 0 then 0xFFFF_FFFF else precision;
    if |s| <= most then s else s[..most]
  }

  function Integer(w: Word, base: nat, d: Directive): string
    requires 2 <= base <= 16
  {
    LayoutOf(Narrow(w, d.qualifier, d.flags.sign), base, d.width, d.precision, d.flags).Text()
  }

  /** What one directive prints, given the word its conversion takes. */
  function Render(d: Directive, w: Word, mem: Memory): string {
    match d.conv
    case 'c' => InField([(w % 256) as char], d.width, d.flags.left)
    case 's' => InField(Clip(mem(w), d.precision), d.width, d.flags.left)
    case 'p' =>
      if d.width == -1 then LayoutOf(w, 16, 8, d.precision, d.flags.(zeropad := true)).Text()
      else LayoutOf(w, 16, d.width, d.precision, d.flags).Text()
    case 'n' => ""
    case '%' => "%"
    case 'o' => Integer(w, 8, d)
    case 'x' => Integer(w, 16, d.(flags := d.flags.(small := true)))
    case 'X' => Integer(w, 16, d)
    case 'd' => Integer(w, 10, d.(flags := d.flags.(sign := true)))
    case 'i' => Integer(w, 10, d.(flags := d.flags.(sign := true)))
    case 'u' => Integer(w, 10, d)
    case c => if c == NUL then "%" else ['%', c]
  }

  // The position from which formatting goes on after a directive.
  function Next(s: seq<char>, p: Parsed): nat {
    if p.dir.conv == NUL then p.at else p.at + 1
  }

  /** The meaning of the format from position i on, the next argument being number a. */
  function Denote(s: seq<char>, i: nat, args: Args, a: nat, mem: Memory): string
    requires CString(s) && i < |s|
    decreases |s| - i
  {
    if s[i] == NUL then ""
    else if s[i] != '%' then [s[i]] + Denote(s, i + 1, args, a, mem)
    else
      var p := Parse(s, i + 1, args, a);
      Render(p.dir, args(p.used), mem)
      + Denote(s, Next(s, p), args, p.used + Takes(p.dir.conv), mem)
  }

  // ------------------------------------------------------------------ the routines

  method SkipAtoi(s: seq<char>, i: nat) returns (value: int, j: nat)
    requires CString(s) && i < |s|
    ensures j == AfterDigits(s, i) && value == ValueOf(s[i..j], 10)
  {
    value, j := 0, i;
    while IsDigit(s[j])
      invariant i <= j < |s| && forall k :: i <= k < j ==> IsDigit(s[k])
      invariant value == ValueOf(s[i..j], 10)
      decreases |s| - j
    {
      assert s[i..j + 1] == s[i..j] + [s[j]];
      ValueOfSnoc(s[i..j], s[j], 10);
      value := value * 10 + s[j] as int - '0' as int;
      j := j + 1;
    }
    DigitsStopAt(s, i, j);
  }

  lemma {:induction false} DigitsStopAt(s: seq<char>, i: nat, j: nat)
    requires CString(s) && i <= j < |s| && !IsDigit(s[j]) && forall k :: i <= k < j ==> IsDigit(s[k])
    ensures AfterDigits(s, i) == j
    decreases j - i
  {
    if i < j { DigitsStopAt(s, i + 1, j); }
  }

  lemma {:induction false} FlagsStopAt(s: seq<char>, i: nat, j: nat)
    requires CString(s) && i <= j < |s| && !IsFlag(s[j]) && forall k :: i <= k < j ==> IsFlag(s[k])
    ensures AfterFlags(s, i) == j
    decreases j - i
  {
    if i < j { FlagsStopAt(s, i + 1, j); }
  }

  method ReadField(s: seq<char>, i: nat, args: Args, a: nat, default: int) returns (r: Field)
    requires CString(s) && i < |s|
    ensures r == ParseField(s, i, args, a, default)
  {
    if IsDigit(s[i]) {
      var value, j := SkipAtoi(s, i);
      return Field(value, j, a);
    } else if s[i] == '*' {
      return Field(ToInt(args(a)), i + 1, a + 1);
    }
    return Field(default, i, a);
  }

  lemma FlagsSnoc(run: seq<char>, c: char)
    requires IsFlag(c)
    ensures FlagsOf(run + [c]) == AddFlag(FlagsOf(run), c)
  {
  }

  lemma NoFlags(s: seq<char>, i: nat)
    requires i < |s|
    ensures FlagsOf(s[i..i]) == NOFLAGS
  {
  }

  method ReadFlags(s: seq<char>, i: nat) returns (flags: Flags, j: nat)
    requires CString(s) && i < |s|
    ensures j == AfterFlags(s, i) && flags == FlagsOf(s[i..j])
  {
    hide FlagsOf, AddFlag;
    flags, j := NOFLAGS, i;
    NoFlags(s, i);
    while IsFlag(s[j])
      invariant i <= j < |s| && forall k :: i <= k < j ==> IsFlag(s[k])
      invariant flags == FlagsOf(s[i..j])
      decreases |s| - j
    {
      assert s[i..j + 1] == s[i..j] + [s[j]];
      FlagsSnoc(s[i..j], s[j]);
      flags := AddFlag(flags, s[j]);
      j := j + 1;
    }
    FlagsStopAt(s, i, j);
  }

  /** Reads a directive; no index ever passes the terminator. */
  method ReadDirective(s: seq<char>, i: nat, args: Args, a: nat) returns (p: Parsed)
    requires CString(s) && i < |s|
    ensures p == Parse(s, i, args, a)
  {
    hide ParseField, AfterFlags, FlagsOf;
    var flags, j := ReadFlags(s, i);
    var w := ReadField(s, j, args, a, -1);
    var width := w.value;
    if s[j] == '*' && width < 0 {
      width := -width;
      flags := flags.(left := true);
    }
    var at, used, precision := w.at, w.used, -1;
    if s[at] == '.' {
      var f := ReadField(s, at + 1, args, used, -1);
      at, used, precision := f.at, f.used, f.value;
      if precision < 0 {
        precision := 0;
      }
    }
    var qualifier := NUL;
    if IsQualifier(s[at]) {
      qualifier := s[at];
      at := at + 1;
    }
    return Parsed(Directive(flags, width, precision, qualifier, s[at]), at, used);
  }

  // `while (--field_width > 0) *str++ = ' ';`
  method PadC(buf: array<char>, str: nat, width: int) returns (end: nat, left: int)
    requires str + Max(width - 1, 0) <= buf.Length
    modifies buf
    ensures left <= 0 && end == str + Max(width - 1, 0)
    ensures Wrote(buf[..], old(buf[..]), str, Repeat(' ', width - 1))
  {
    hide Wrote;
    ghost var b0 := buf[..];
    WroteNothing(b0, str);
    RepeatSnoc(' ', 0);
    end, left := str, width - 1;
    while left > 0
      invariant left < width && (left < width - 1 ==> left >= 0) && end == str + (width - 1 - left)
      invariant Wrote(buf[..], b0, str, Repeat(' ', width - 1 - left))
    {
      RepeatSnoc(' ', width - 1 - left);
      end := PutChar(buf, end, ' ', b0, str, Repeat(' ', width - 1 - left));
      left := left - 1;
    }
    RepeatClip(' ', width - 1, width - 1 - left);
  }

  // `while (len < field_width--) *str++ = ' ';`
  method PadS(buf: array<char>, str: nat, len: nat, width: int) returns (end: nat, left: int)
    requires str + Max(width - len, 0) <= buf.Length
    modifies buf
    ensures left < len && end == str + Max(width - len, 0)
    ensures Wrote(buf[..], old(buf[..]), str, Repeat(' ', width - len))
  {
    hide Wrote;
    ghost var b0 := buf[..];
    WroteNothing(b0, str);
    RepeatSnoc(' ', 0);
    end, left := str, width;
    while len < left
      invariant left <= width && (left < width ==> left >= len) && end == str + (width - left)
      invariant Wrote(buf[..], b0, str, Repeat(' ', width - left))
    {
      RepeatSnoc(' ', width - left);
      end := PutChar(buf, end, ' ', b0, str, Repeat(' ', width - left));
      left := left - 1;
    }
    RepeatClip(' ', width - len, width - left);
    left := left - 1;
  }

  method PutC(buf: array<char>, str: nat, c: char, width: int, left: bool) returns (end: nat)
    requires str + |InField([c], width, left)| <= buf.Length
    modifies buf
    ensures var out := InField([c], width, left);
      end == str + |out| && Wrote(buf[..], old(buf[..]), str, out)
  {
    hide Wrote;
    ghost var b0 := buf[..];
    var w := width;
    end := str;
    ghost var out := "";
    WroteNothing(b0, str);
    if !left {
      end, w := PadC(buf, end, w);
      out := Repeat(' ', width - 1);
    }
    end := PutChar(buf, end, c, b0, str, out);
    out := out + [c];
    ghost var b1 := buf[..];
    end, w := PadC(buf, end, w);
    ghost var blanks := Repeat(' ', if left then width - 1 else 0);
    assert Wrote(buf[..], b1, str + |out|, blanks);
    WroteThen(b0, b1, buf[..], str, out, blanks);
    assert out + blanks == InField([c], width, left);
  }

  method PutText(buf: array<char>, str: nat, s: seq<char>, len: nat) returns (end: nat)
    requires len <= |s| && str + len <= buf.Length
    modifies buf
    ensures end == str + len && Wrote(buf[..], old(buf[..]), str, s[..len])
  {
    hide Wrote;
    ghost var b0 := buf[..];
    WroteNothing(b0, str);
    end := str;
    for i := 0 to len
      invariant end == str + i && Wrote(buf[..], b0, str, s[..i])
    {
      assert s[..i + 1] == s[..i] + [s[i]];
      end := PutChar(buf, end, s[i], b0, str, s[..i]);
    }
  }

  function Lead(len: nat, width: int, left: bool): string { Repeat(' ', if left then 0 else width - len) }

  method PutLead(buf: array<char>, str: nat, s: CText, len: nat, width: int, left: bool)
    returns (end: nat, w: int)
    requires len <= |s| && str + |Lead(len, width, left)| + len <= buf.Length
    modifies buf
    ensures var out := Lead(len, width, left) + s[..len];
      end == str + |out| && Wrote(buf[..], old(buf[..]), str, out)
    ensures if left then w == width else w < len
  {
    hide Wrote;
    ghost var b0 := buf[..];
    end, w := str, width;
    WroteNothing(b0, str);
    if !left {
      end, w := PadS(buf, end, len, w);
    }
    ghost var b1 := buf[..];
    assert Wrote(b1, b0, str, Lead(len, width, left));
    end := PutText(buf, end, s, len);
    WroteThen(b0, b1, buf[..], str, Lead(len, width, left), s[..len]);
  }

  lemma InFieldParts(text: string, width: int, left: bool, w: int)
    requires if left then w == width else w < |text|
    ensures Lead(|text|, width, left) + text + Repeat(' ', w - |text|) == InField(text, width, left)
  {
  }

  method ClipLength(s: CText, precision: int) returns (len: nat)
    ensures len <= |s| && Clip(s, precision) == s[..len]
  {
    len := Strings.StrNLen(s + [NUL], if precision < 0 then 0xFFFF_FFFF else precision);
  }

  method PutS(buf: array<char>, str: nat, s: CText, precision: int, width: int, left: bool) returns (end: nat)
    requires str + |InField(Clip(s, precision), width, left)| <= buf.Length
    modifies buf
    ensures var out := InField(Clip(s, precision), width, left);
      end == str + |out| && Wrote(buf[..], old(buf[..]), str, out)
  {
    var len := ClipLength(s, precision);
    end := PutField(buf, str, s, len, width, left);
  }

  method PutField(buf: array<char>, str: nat, s: CText, len: nat, width: int, left: bool) returns (end: nat)
    requires len <= |s| && str + |InField(s[..len], width, left)| <= buf.Length
    modifies buf
    ensures var out := InField(s[..len], width, left);
      end == str + |out| && Wrote(buf[..], old(buf[..]), str, out)
  {
    hide Wrote;
    ghost var b0, text := buf[..], s[..len];
    var w: int := if left then width else -1;
    InFieldParts(text, width, left, w);
    end, w := PutLead(buf, str, s, len, width, left);
    InFieldParts(text, width, left, w);
    ghost var b1, blanks := buf[..], Repeat(' ', w - len);
    end, w := PadS(buf, end, len, w);
    WroteThen(b0, b1, buf[..], str, Lead(len, width, left) + text, blanks);
  }

  method PutInteger(buf: array<char>, str: nat, w: Word, base: nat, d: Directive) returns (end: nat)
    requires base == 8 || base == 10 || base == 16
    requires str + |Integer(w, base, d)| <= buf.Length
    modifies buf
    ensures end == str + |Integer(w, base, d)|
    ensures Wrote(buf[..], old(buf[..]), str, Integer(w, base, d))
  {
    hide Wrote, LayoutOf, Layout.Text;
    var num := w;
    if d.qualifier == 'h' {
      num := w % 0x1_0000;
      if d.flags.sign && num >= 0x8000 {
        num := num + 0xFFFF_0000;
      }
    }
    end := Number(buf, str, num, base, d.width, d.precision, d.flags);
  }

  /** Writes what one directive means. */
  method Convert(buf: array<char>, str: nat, d: Directive, w: Word, mem: Memory) returns (end: nat)
    requires str + |Render(d, w, mem)| <= buf.Length
    modifies buf
    ensures end == str + |Render(d, w, mem)|
    ensures Wrote(buf[..], old(buf[..]), str, Render(d, w, mem))
  {
    hide LayoutOf, Layout.Text, InField, Clip, Integer, Wrote;
    ghost var b0 := buf[..];
    WroteNothing(b0, str);
    assert "" + ['%'] == "%";
    match d.conv
    case 'c' => end := PutC(buf, str, (w % 256) as char, d.width, d.flags.left);
    case 's' => end := PutS(buf, str, mem(w), d.precision, d.width, d.flags.left);
    case 'p' =>
      var width, flags := d.width, d.flags;
      if width == -1 {
        width, flags := 8, flags.(zeropad := true);
      }
      end := Number(buf, str, w, 16, width, d.precision, flags);
    case 'n' => end := str;
    case '%' => end := PutChar(buf, str, '%', b0, str, "");
    case 'o' => end := PutInteger(buf, str, w, 8, d);
    case 'x' => end := PutInteger(buf, str, w, 16, d.(flags := d.flags.(small := true)));
    case 'X' => end := PutInteger(buf, str, w, 16, d);
    case 'd' => end := PutInteger(buf, str, w, 10, d.(flags := d.flags.(sign := true)));
    case 'i' => end := PutInteger(buf, str, w, 10, d.(flags := d.flags.(sign := true)));
    case 'u' => end := PutInteger(buf, str, w, 10, d);
    case c =>
      end := PutChar(buf, str, '%', b0, str, "");
      if c != NUL {
        end := PutChar(buf, end, c, b0, str, "" + ['%']);
        assert "" + ['%'] + [c] == ['%', c];
      }
  }

  // One directive: i is the position of its `%`.
  method PutDirective(buf: array<char>, str: nat, fmt: seq<char>, i: nat, args: Args, a: nat, mem: Memory)
    returns (end: nat, next: nat, used: nat, ghost text: string)
    requires CString(fmt) && i < |fmt| && fmt[i] == '%'
    requires str + |Denote(fmt, i, args, a, mem)| <= buf.Length
    modifies buf
    ensures i < next < |fmt|
    ensures Denote(fmt, i, args, a, mem) == text + Denote(fmt, next, args, used, mem)
    ensures end == str + |text| && Wrote(buf[..], old(buf[..]), str, text)
  {
    hide Render, Parse, Wrote;
    var p := ReadDirective(fmt, i + 1, args, a);
    text := Render(p.dir, args(p.used), mem);
    end := Convert(buf, str, p.dir, args(p.used), mem);
    used := p.used + Takes(p.dir.conv);
    next := if p.dir.conv == NUL then p.at else p.at + 1;
  }

  lemma Regrouped(x: string, y: string, z: string)
    ensures x + (y + z) == (x + y) + z
  {
  }

  /** The output is what the format denotes, NUL-terminated; its length is returned. */
  method VSPrintf(buf: array<char>, fmt: seq<char>, args: Args, mem: Memory) returns (len: nat)
    requires CString(fmt) && |Denote(fmt, 0, args, 0, mem)| < buf.Length
    modifies buf
    ensures len == |Denote(fmt, 0, args, 0, mem)|
    ensures Wrote(buf[..], old(buf[..]), 0, Denote(fmt, 0, args, 0, mem) + [NUL])
  {
    hide Render, Parse, Wrote;
    ghost var b0, all := buf[..], Denote(fmt, 0, args, 0, mem);
    ghost var out := "";
    var str: nat, i: nat, a: nat := 0, 0, 0;
    WroteNothing(b0, 0);
    while fmt[i] != NUL
      invariant i < |fmt| && str == |out|
      invariant Wrote(buf[..], b0, 0, out)
      invariant out + Denote(fmt, i, args, a, mem) == all
      decreases |fmt| - i
    {
      if fmt[i] != '%' {
        Regrouped(out, [fmt[i]], Denote(fmt, i + 1, args, a, mem));
        str := PutChar(buf, str, fmt[i], b0, 0, out);
        out := out + [fmt[i]];
        i := i + 1;
        continue;
      }
      ghost var b1, text := buf[..], "";
      str, i, a, text := PutDirective(buf, str, fmt, i, args, a, mem);
      WroteThen(b0, b1, buf[..], 0, out, text);
      Regrouped(out, text, Denote(fmt, i, args, a, mem));
      out := out + text;
    }
    assert Denote(fmt, i, args, a, mem) == "";
    assert out == all;
    len := str;
    str := PutChar(buf, str, NUL, b0, 0, out);
  }
}
