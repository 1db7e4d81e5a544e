/** Packed gray pixels: four 2-bit pixels in a byte, the leftmost in the highest bits. */
module Pixels {

  /** Pixel `k` of a byte, the leftmost being pixel 0. */
  function Pixel(b: bv8, k: nat): (p: bv8)
    requires k < 4
    ensures p <= 3
  {
    if k == 0 then (b >> 6) & 3 else if k == 1 then (b >> 4) & 3 else if k == 2 then (b >> 2) & 3 else b & 3
  }

  /** Four pixels packed into a byte. */
  function Pack(p0: bv8, p1: bv8, p2: bv8, p3: bv8): bv8 {
    ((p0 & 3) << 6) | ((p1 & 3) << 4) | ((p2 & 3) << 2) | (p3 & 3)
  }

  /** Packing the pixels of a byte gives the byte back. */
  lemma PackPixels(b: bv8)
    ensures Pack(Pixel(b, 0), Pixel(b, 1), Pixel(b, 2), Pixel(b, 3)) == b
  {
  }
}
