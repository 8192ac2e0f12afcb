/** The pixel word codec. A 32-bit FPGA word packs, least-significant field
    first, a 16-bit ADC sample, a 4-bit column, the row and a 4-bit local
    frame id. The row mask keeps 7 bits but the row shift is 8, so bit 27 is
    never decoded.

    Bit operations are written on non-negative integers: `x & (2^k - 1)` is
    `x % 2^k` and `x >> k` is `x / 2^k`; a mask `(2^w - 1) << k` followed by
    `>> k` is `(x / 2^k) % 2^w`. */
module PixelCodec {
  import opened SupixDefs

  /** The decoded fields of one pixel word. */
  datatype Pixel = Pixel(fid: int, row: int, col: int, adc: int)

  /** Fields small enough to be packed into one word with bit 27 clear. */
  predicate Packable(p: Pixel) {
    0 <= p.adc < 0x1_0000 && 0 <= p.col < 0x10 && 0 <= p.row < 0x80 && 0 <= p.fid < 0x10
  }

  /** SupixDAQ::fpga_decode: mask the low field, then shift it away by its
      width (16, 4, 8); what is left is the frame id. */
  function Decode(data: Word): (p: Pixel)
    ensures Packable(p)
  {
    var adc := data % (MASK_ADC + 1);
    var d1 := data / 0x1_0000;        // >>= NBITS_ADC
    var col := d1 % (MASK_COL + 1);
    var d2 := d1 / 0x10;              // >>= NBITS_COL
    var row := d2 % (MASK_ROW + 1);
    var d3 := d2 / 0x100;             // >>= NBITS_ROW
    Pixel(d3, row, col, adc)
  }

  /** SupixFPGA::fpga_decode: each field through its own positioned mask
      (0x0000FFFF, 0x000F0000, 0x07F00000, 0xF0000000), then shifted down. */
  function DecodeMasked(data: Word): Pixel {
    Pixel((data / 0x1000_0000) % 0x10,
          (data / 0x10_0000) % 0x80,
          (data / 0x1_0000) % 0x10,
          data % 0x1_0000)
  }

  /** Bit 27 of a word: the bit between the row mask and the frame id. */
  function Bit27(data: Word): int {
    (data / 0x800_0000) % 2
  }

  /** The inverse bit packing: adc | col << 16 | row << 20 | fid << 28. */
  function Encode(p: Pixel): (w: Word)
    requires Packable(p)
    ensures Bit27(w) == 0
  {
    var low := p.row * 0x10_0000 + p.col * 0x1_0000 + p.adc;
    DivMod(p.fid * 0x1000_0000 + low, 0x800_0000, 2 * p.fid, low);
    DivMod(2 * p.fid, 2, p.fid, 0);
    p.fid * 0x1000_0000 + low
  }

  /** The pixel address (row << 4) + col compared against 0x40F. */
  function Address(p: Pixel): int {
    p.row * 0x10 + p.col
  }

  /** The address of the last pixel of a frame (row 64, column 15). */
  const LAST_PIXEL_ADDR: int := 0x40F

  // ---------------------------------------------------------------------
  // Properties

  /** The two decoders extract the same four fields from every word. */
  lemma DecodersAgree(data: Word)
    ensures Decode(data) == DecodeMasked(data)
  {
    DivDiv(data, 0x1_0000, 0x10);
    DivDiv(data, 0x10_0000, 0x100);
  }

  /** Packing fields and decoding the word gives the fields back. */
  lemma DecodeEncode(p: Pixel)
    requires Packable(p)
    ensures Decode(Encode(p)) == p
  {
    var w := Encode(p);
    var hi := p.fid * 0x1000 + p.row * 0x10 + p.col;
    assert w == hi * 0x1_0000 + p.adc;
    DivMod(w, 0x1_0000, hi, p.adc);
    var hi2 := p.fid * 0x100 + p.row;
    assert hi == hi2 * 0x10 + p.col;
    DivMod(hi, 0x10, hi2, p.col);
    DivMod(hi2, 0x100, p.fid, p.row);
    DivMod(hi2, 0x80, p.fid * 2, p.row);
  }

  /** Decoding loses exactly bit 27: re-packing a decoded word gives the
      word with bit 27 cleared. */
  lemma EncodeDecode(data: Word)
    ensures Encode(Decode(data)) == data - Bit27(data) * 0x800_0000
  {
    var p := Decode(data);
    var d1 := data / 0x1_0000;
    var d2 := d1 / 0x10;
    var d3 := d2 / 0x100;
    assert data == d1 * 0x1_0000 + p.adc;
    assert d1 == d2 * 0x10 + p.col;
    assert d2 == d3 * 0x100 + (d2 % 0x100);
    assert d2 % 0x100 == p.row + 0x80 * ((d2 % 0x100) / 0x80);
    DivDiv(data, 0x1_0000, 0x10);
    DivDiv(data, 0x10_0000, 0x80);
    DivDiv(d2, 0x80, 2);
    assert (d2 % 0x100) / 0x80 == (d2 / 0x80) % 2;
  }

  /** Two words with the same bit 27 decode alike only when they are equal;
      words that differ only in bit 27 decode alike. */
  lemma DecodeInjectiveUpToBit27(a: Word, b: Word)
    ensures Decode(a) == Decode(b) && Bit27(a) == Bit27(b) <==> a == b
    ensures Decode(a) == Decode(b) <==> a - Bit27(a) * 0x800_0000 == b - Bit27(b) * 0x800_0000
  {
    EncodeDecode(a);
    EncodeDecode(b);
    if a - Bit27(a) * 0x800_0000 == b - Bit27(b) * 0x800_0000 {
      ClearBit27(a);
      ClearBit27(b);
      DecodeEncode(Decode(a));
      DecodeEncode(Decode(b));
    }
  }

  /** Clearing bit 27 does not change any decoded field. */
  lemma ClearBit27(data: Word)
    ensures 0 <= data - Bit27(data) * 0x800_0000 < 0x1_0000_0000
    ensures Decode(data - Bit27(data) * 0x800_0000) == Decode(data)
  {
    EncodeDecode(data);
    DecodeEncode(Decode(data));
  }

  /** The sentinel address 0x40F is pixel (row 64, column 15). */
  lemma LastPixelAddress(p: Pixel)
    requires Packable(p)
    ensures Address(p) == LAST_PIXEL_ADDR <==> p.row == 64 && p.col == 15
  {
  }

  // ---------------------------------------------------------------------
  // Arithmetic helpers

  lemma DivDiv(x: int, a: int, b: int)
    requires 0 <= x && 0 < a && 0 < b
    ensures x / a / b == x / (a * b)
    ensures (x / a) % b == (x % (a * b)) / a
  {
    var q := x / a / b;
    var r1 := x % a;
    var r2 := (x / a) % b;
    assert x == (x / a) * a + r1;
    assert x / a == q * b + r2;
    Regroup(q, b, r2, a, r1);
    LowPart(r2, a, r1, b);
    DivMod(x, a * b, q, r2 * a + r1);
    DivMod(r2 * a + r1, a, r2, r1);
  }

  /** Regrouping a two-level quotient-remainder expansion. */
  lemma Regroup(q: int, b: int, r2: int, a: int, r1: int)
    ensures (q * b + r2) * a + r1 == q * (a * b) + (r2 * a + r1)
  {
  }

  /** The low digits of a two-level expansion stay below a * b. */
  lemma LowPart(r2: int, a: int, r1: int, b: int)
    requires 0 <= r2 < b && 0 <= r1 < a
    ensures 0 <= r2 * a + r1 < a * b
  {
    assert r2 * a <= (b - 1) * a;
  }
}
