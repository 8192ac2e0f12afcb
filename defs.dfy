/** Chip geometry, wire-format widths and trigger codes shared by both DAQ
    programs (mydefs.h). */
module SupixDefs {

  // chip parameters
  const NMATRIX: int := 9
  const NROWS: int := 64
  const NCOLS: int := 16
  const NPIXS: int := 1024      // NROWS * NCOLS
  const FRAMESIZE: int := 4096  // bytes per frame, 4 * NPIXS
  const FID_MAX: int := 16      // local frame ids are 4 bits wide

  // FPGA data format: widths of the shifts ...
  const NBITS_ADC: int := 16
  const NBITS_COL: int := 4
  const NBITS_ROW: int := 8
  const NBITS_FID: int := 4

  // ... and the masks. MASK_ROW keeps 7 bits although the row shift is 8.
  const MASK_ADC: int := 0xFFFF
  const MASK_COL: int := 0xF
  const MASK_ROW: int := 0x7F
  const MASK_FID: int := 0xF

  // trigger pattern bits
  const TRIG_PERIOD: int := 0x01
  const TRIG_CDS: int := 0x02
  const TRIG_PRE: int := 0x80   // marks a replayed pre-trigger frame

  /** A 32-bit FPGA word (pixel_t). */
  type Word = x: int | 0 <= x < 0x1_0000_0000

  // ---------------------------------------------------------------------
  // Arithmetic helpers shared by the modules

  /** Division and remainder are determined by any decomposition x = q*d + r
      with 0 <= r < d. */
  lemma DivMod(x: int, d: int, q: int, r: int)
    requires 0 < d && 0 <= r < d && x == q * d + r
    ensures x / d == q && x % d == r
  {
    var q', r' := x / d, x % d;
    assert (q' - q) * d == r - r';
    if q' > q {
      MulAtLeast(q' - q, d);
    } else if q' < q {
      MulAtLeast(q - q', d);
    }
  }

  lemma MulAtLeast(k: int, d: int)
    requires 1 <= k && 0 < d
    ensures k * d >= d
  {
  }

  /** Appending is associative. */
  lemma AppendAssoc<T>(a: seq<T>, b: seq<T>, c: seq<T>)
    ensures a + b + c == a + (b + c)
  {
  }

  /** Adding the modulus does not change the remainder. */
  lemma ModShift(x: int, m: int)
    requires 0 < m
    ensures (x + m) % m == x % m
  {
    DivMod(x + m, m, x / m + 1, x % m);
  }

  /** A value already below the modulus is its own remainder. */
  lemma ModSmall(x: int, m: int)
    requires 0 <= x < m
    ensures x % m == x
  {
    DivMod(x, m, 0, x);
  }
}
