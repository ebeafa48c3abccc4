// The boot sector's conversion from a linear block address to cylinder, head and sector.
module Lba {
  import Text
  import opened Arithmetic

  type Word = x: nat | x < 0x1_0000
  type Byte = x: nat | x < 0x100

  // The halves of a 16-bit register.
  function Hi(w: Word): Byte { w / 0x100 }
  function Lo(w: Word): Byte { w % 0x100 }
  function Pair(hi: Byte, lo: Byte): (w: Word)
    ensures Hi(w) == hi && Lo(w) == lo
  {
    hi * 0x100 + lo
  }

  /** Bitwise or of the lowest `bits` bits. */
  function Or(a: nat, b: nat, bits: nat): nat {
    if bits == 0 then 0
    else (if a % 2 == 1 || b % 2 == 1 then 1 else 0) + 2 * Or(a / 2, b / 2, bits - 1)
  }

  lemma {:induction false} OrBound(a: nat, b: nat, bits: nat)
    ensures Or(a, b, bits) < Text.Pow2(bits)
    decreases bits
  {
    if bits > 0 { OrBound(a / 2, b / 2, bits - 1); }
  }

  function OrByte(a: Byte, b: Byte): (r: Byte)
  {
    OrBound(a, b, 8);
    assert Text.Pow2(4) == 16;
    assert Text.Pow2(8) == 256;
    Or(a, b, 8)
  }

  lemma {:induction false} OrZero(b: nat, bits: nat)
    requires b < Text.Pow2(bits)
    ensures Or(0, b, bits) == b
    decreases bits
  {
    if bits > 0 { OrZero(b / 2, bits - 1); }
  }

  lemma {:induction false} OrShifted(a: nat, v: nat, j: nat, bits: nat)
    requires j <= bits && a < Text.Pow2(j) && v * Text.Pow2(j) < Text.Pow2(bits)
    ensures Or(a, v * Text.Pow2(j), bits) == a + v * Text.Pow2(j)
    decreases j
  {
    if j == 0 {
      OrZero(v, bits);
    } else {
      var h := v * Text.Pow2(j - 1);
      assert v * Text.Pow2(j) == 2 * h;
      OrShifted(a / 2, v, j - 1, bits - 1);
    }
  }

  /** The two upper bits of the cylinder never collide with the six of the sector. */
  lemma SectorAndCylinderBits(sector: Byte, high: nat)
    requires sector < 64 && high < 4
    ensures OrByte(sector, high * 64) == sector + high * 64
  {
    assert Text.Pow2(3) == 8;
    assert Text.Pow2(6) == 64;
    assert Text.Pow2(8) == 256;
    OrShifted(sector, high, 6, 8);
  }

  // ------------------------------------------------------------------ the routine

  // `div`: DX:AX, with DX zero, by a word.
  method Div(ax: Word, m: Word) returns (q: Word, r: Word)
    requires m > 0
    ensures q == ax / m && r == ax % m
  {
    QuotientFits(ax, m);
    q, r := ax / m, ax % m;
  }

  lemma QuotientFits(n: nat, m: nat)
    requires m > 0
    ensures 0 <= n / m <= n && 0 <= n % m <= n
  {
    RemainderNotLarger(n, m);
    DivMod(n, m);
    MulMonotone(n / m, 1, m);
  }

  datatype Address = Address(cylinder: nat, head: nat, sector: nat)

  /** The cylinder, head and sector of a block. */
  function AddressOf(lba: nat, spt: nat, heads: nat): Address
    requires spt > 0 && heads > 0
  {
    Address(lba / spt / heads, lba / spt % heads, lba % spt + 1)
  }

  // How the routine packs them: CX and DH.
  function PackCx(a: Address): Word {
    Pair(a.cylinder % 0x100, OrByte(a.sector % 0x100, a.cylinder / 0x100 % 4 * 64))
  }

  // CL holds the sector already; CH and the top of CL take the cylinder in AX.
  method Pack(ax: Word, cl: Word) returns (cx: Word)
    ensures cx == Pair(ax % 0x100, OrByte(cl % 0x100, ax / 0x100 % 4 * 64))
  {
    hide OrByte, Pair;
    cx := Pair(Lo(ax), Lo(cl));
    var ah := Hi(ax) * 64 % 0x100;
    cx := Pair(Hi(cx), OrByte(Lo(cx), ah));
  }

  method LbaChs(ax: Word, dx: Word, spt: Word, heads: Word) returns (ax': Word, cx: Word, dx': Word)
    requires spt > 0 && heads > 0
    ensures ax' == ax
    ensures cx == PackCx(AddressOf(ax, spt, heads))
    ensures dx' == Pair(AddressOf(ax, spt, heads).head % 0x100, Lo(dx))
  {
    hide OrByte, Pair;
    var a, d := Div(ax, spt);
    DivMod(ax, spt);
    d := d + 1;
    cx := d;
    a, d := Div(a, heads);
    dx' := Pair(Lo(d), Lo(dx));
    cx := Pack(a, cx);
    ax' := ax;
  }

  // ------------------------------------------------------------------ lossless

  /** The address that CX and DH hold. */
  function Unpack(cx: Word, dh: Byte): Address {
    Address(Hi(cx) + Lo(cx) / 64 * 0x100, dh, Lo(cx) % 64)
  }

  function BlockOf(a: Address, spt: nat, heads: nat): int {
    (a.cylinder * heads + a.head) * spt + a.sector - 1
  }

  lemma AddressIsExact(lba: nat, spt: nat, heads: nat)
    requires spt > 0 && heads > 0
    ensures var a := AddressOf(lba, spt, heads);
      1 <= a.sector <= spt && a.head < heads && BlockOf(a, spt, heads) == lba
  {
    var t := lba / spt;
    DivMod(lba, spt);
    DivMod(t, heads);
  }

  lemma SplitLow(s: nat, h: nat)
    requires s < 64
    ensures (s + h * 64) / 64 == h && (s + h * 64) % 64 == s
  {
  }

  lemma SplitCylinder(c: nat)
    ensures c % 0x100 + c / 0x100 % 4 * 0x100 == c % 0x400
  {
  }

  lemma UnpackPacked(a: Address)
    requires a.sector < 64 && a.head < 0x100
    ensures Unpack(PackCx(a), a.head % 0x100) == a.(cylinder := a.cylinder % 0x400)
  {
    hide OrByte, Pair;
    var high := a.cylinder / 0x100 % 4;
    SectorAndCylinderBits(a.sector, high);
    SplitLow(a.sector, high);
    SplitCylinder(a.cylinder);
    assert a.sector % 0x100 == a.sector && a.head % 0x100 == a.head;
  }

  /** For every geometry the registers can express, the packed address stands for the
      block it was made from exactly when the cylinder is below 1024. */
  lemma LbaRoundTrip(lba: nat, spt: nat, heads: nat)
    requires 1 <= spt <= 63 && 1 <= heads <= 256
    ensures var a := AddressOf(lba, spt, heads);
      var b := Unpack(PackCx(a), a.head % 0x100);
      && 1 <= b.sector <= spt && b.head < heads
      && (BlockOf(b, spt, heads) == lba <==> a.cylinder < 0x400)
  {
    hide PackCx, Unpack, AddressOf;
    var a := AddressOf(lba, spt, heads);
    AddressIsExact(lba, spt, heads);
    UnpackPacked(a);
    var c := a.cylinder % 0x400;
    if c != a.cylinder {
      assert c < a.cylinder;
      SmallerBlock(a, c, spt, heads);
    }
  }

  lemma SmallerBlock(a: Address, c: nat, spt: nat, heads: nat)
    requires c < a.cylinder && spt > 0 && heads > 0
    ensures BlockOf(a.(cylinder := c), spt, heads) < BlockOf(a, spt, heads)
  {
    MulMonotone(heads, c + 1, a.cylinder);
    assert heads * (c + 1) == c * heads + heads;
    assert heads * a.cylinder == a.cylinder * heads;
    var x, y := c * heads + a.head, a.cylinder * heads + a.head;
    MulMonotone(spt, x + 1, y);
    assert spt * (x + 1) == x * spt + spt;
    assert spt * y == y * spt;
  }
}
