// The two integer printers of the library agree, but for one number.
module Printers {
  import opened Text
  import opened NumberFormat
  import opened Printf
  import PrintfLaws
  import opened Stdlib

  /** For a non-negative number, in every base both know, itoa stores what `number`
      writes without flags, width or precision. */
  lemma ItoaIsPlainNumber(n: Int32, base: nat)
    requires n >= 0 && 2 <= base <= 16
    ensures Itoa(n, base) == LayoutOf(n, base, -1, -1, NOFLAGS).Text()
  {
    hide Itoa, Digits;
    ItoaIsNumeral(n, base);
    var l := LayoutOf(n, base, -1, -1, NOFLAGS);
    assert l.Text() == l.digits;
  }

  /** `%d` and itoa in base 10 print the same text for every int but the smallest. */
  lemma PercentDIsItoa(args: Args, mem: Memory)
    ensures Denote(['%', 'd', NUL], 0, args, 0, mem) == Itoa(Signed(args(0)), 10) <==> args(0) != 0x8000_0000
  {
    hide Itoa, Digits, Denote;
    PrintfLaws.PlainDecimal(args, mem);
    ItoaIsNumeral(Signed(args(0)), 10);
  }
}
