/** Repacking a 2-bit gray image into the rows of a bottom-up bitmap with one byte for each pixel. */
module BitmapRepack {
  import opened Division
  import opened Pixels

  /** Bytes in a row of the bitmap, padded to four. */
  function BytesPerLine(width: nat): nat { (width * 8 + 31) / 32 * 4 }

  /** Packed bytes that hold a row of so many pixels. */
  function PackedBytes(width: nat): nat { (width * 2 + 7) / 8 }

  /** The inner loop fills a row to exactly its padded length, which has room for the pixels and less than four more. */
  lemma RowIsFilled(width: nat)
    ensures 4 * PackedBytes(width) == BytesPerLine(width)
    ensures width <= BytesPerLine(width) < width + 4
  {
  }

  /** The pixels of `n` packed bytes from `from` on. */
  function Unpacked(bits: seq<bv8>, from: nat, n: nat): (row: seq<bv8>)
    requires from + n <= |bits|
    ensures |row| == 4 * n && forall c :: 0 <= c < |row| ==> row[c] == Pixel(bits[from + c / 4], c % 4)
  {
    seq(4 * n, c requires 0 <= c < 4 * n => Pixel(bits[from + c / 4], c % 4))
  }

  /** The inner loop: four bytes for each packed one. */
  method UnpackRow(imagebits: array<bv8>, from: nat, n: nat, buf: array<bv8>, at: nat)
    requires imagebits != buf && from + n <= imagebits.Length && at + 4 * n <= buf.Length
    modifies buf
    ensures buf[at..at + 4 * n] == Unpacked(imagebits[..], from, n)
    ensures forall j :: 0 <= j < buf.Length && !(at <= j < at + 4 * n) ==> buf[j] == old(buf[j])
  {
    hide Pixel;
    var bufPtr := at;
    for i := 0 to n
      invariant bufPtr == at + 4 * i
      invariant forall c :: 0 <= c < 4 * i ==> buf[at + c] == Pixel(imagebits[from + c / 4], c % 4)
      invariant forall j :: 0 <= j < buf.Length && !(at <= j < bufPtr) ==> buf[j] == old(buf[j])
    {
      var packed := imagebits[from + i];
      FourPixels(packed);
      buf[bufPtr] := (packed & 0xc0) >> 6;
      buf[bufPtr + 1] := (packed & 0x30) >> 4;
      buf[bufPtr + 2] := (packed & 0x0c) >> 2;
      buf[bufPtr + 3] := packed & 0x03;
      bufPtr := bufPtr + 4;
    }
  }

  lemma FourPixels(b: bv8)
    ensures (b & 0xc0) >> 6 == Pixel(b, 0) && (b & 0x30) >> 4 == Pixel(b, 1)
    ensures (b & 0x0c) >> 2 == Pixel(b, 2) && b & 0x03 == Pixel(b, 3)
  {
  }

  /** Row `r` of a bitmap with rows of `bpl` bytes. */
  function RowOf(screen: seq<bv8>, bpl: nat, r: nat): seq<bv8>
    requires Multiple(r, bpl) + bpl <= |screen|
  {
    screen[Multiple(r, bpl)..Multiple(r, bpl) + bpl]
  }

  /** The first packed byte that goes into row `y` of the target. */
  function RowStart(srcX: nat, srcY: nat, srcWidth: nat, y: nat): nat {
    Multiple(y + srcY, PackedBytes(srcWidth)) + srcX / 4
  }

  /** The image holds all the packed bytes that the rows need. */
  predicate HoldsRows(length: nat, srcX: nat, srcY: nat, srcWidth: nat, width: nat, height: nat) {
    height > 0 ==> RowStart(srcX, srcY, srcWidth, height - 1) + PackedBytes(width) <= length
  }

  predicate RowFits(length: nat, bpl: nat, r: nat) {
    Multiple(r, bpl) + bpl <= length
  }

  /** Source row `y` stands unpacked in row `height - 1 - y` of the bitmap. */
  predicate RowDone(screen: seq<bv8>, bits: seq<bv8>, srcX: nat, srcY: nat, srcWidth: nat, width: nat, height: nat, y: nat)
    requires y < height
  {
    && RowFits(|screen|, BytesPerLine(width), height - 1 - y)
    && RowStart(srcX, srcY, srcWidth, y) + PackedBytes(width) <= |bits|
    && RowOf(screen, BytesPerLine(width), height - 1 - y)
       == Unpacked(bits, RowStart(srcX, srcY, srcWidth, y), PackedBytes(width))
  }

  /** Writing a row leaves the rows below it alone. */
  lemma RowKept(before: seq<bv8>, after: seq<bv8>, bpl: nat, r: nat, q: nat)
    requires |before| == |after| && RowFits(|before|, bpl, q) && r < q
    requires forall j :: 0 <= j < |before| && !(Multiple(r, bpl) <= j < Multiple(r, bpl) + bpl) ==> after[j] == before[j]
    ensures RowOf(after, bpl, q) == RowOf(before, bpl, q)
  {
    MultipleMono(r, q, bpl);
  }

  /** The loop over the rows: source row `y` goes to row `height - 1 - y`. */
  method Repack(imagebits: array<bv8>, targetWidth: nat, targetHeight: nat, srcX: nat, srcY: nat,
                srcWidth: nat, srcHeight: nat)
    returns (screen: array<bv8>, width: nat, height: nat)
    requires HoldsRows(imagebits.Length, srcX, srcY, srcWidth, Min(targetWidth, srcWidth), Min(targetHeight, srcHeight))
    ensures width == Min(targetWidth, srcWidth) && height == Min(targetHeight, srcHeight) && fresh(screen)
    ensures screen.Length == height * BytesPerLine(width)
    ensures forall y :: 0 <= y < height ==>
              RowDone(screen[..], imagebits[..], srcX, srcY, srcWidth, width, height, y)
  {
    hide RowDone;
    width := Min(targetWidth, srcWidth);
    height := Min(targetHeight, srcHeight);
    MultipleIsProduct(height, BytesPerLine(width));
    screen := new bv8[height * BytesPerLine(width)](_ => 0);
    for lines := 0 to height
      invariant fresh(screen) && screen.Length == Multiple(height, BytesPerLine(width))
      invariant forall y :: 0 <= y < lines ==>
                  RowDone(screen[..], imagebits[..], srcX, srcY, srcWidth, width, height, y)
    {
      ghost var before := screen[..];
      FillRow(imagebits, srcX, srcY, srcWidth, width, height, lines, screen);
      forall y | 0 <= y < lines ensures RowDone(screen[..], imagebits[..], srcX, srcY, srcWidth, width, height, y) {
        assert RowDone(before, imagebits[..], srcX, srcY, srcWidth, width, height, y);
        RowStays(before, screen[..], imagebits[..], srcX, srcY, srcWidth, width, height, lines, y);
      }
    }
  }

  lemma RowStays(before: seq<bv8>, after: seq<bv8>, bits: seq<bv8>, srcX: nat, srcY: nat, srcWidth: nat, width: nat,
                 height: nat, lines: nat, y: nat)
    requires y < lines < height && |before| == |after|
    requires RowDone(before, bits, srcX, srcY, srcWidth, width, height, y)
    requires var at := Multiple(height - 1 - lines, BytesPerLine(width));
             forall j :: 0 <= j < |before| && !(at <= j < at + BytesPerLine(width)) ==> after[j] == before[j]
    ensures RowDone(after, bits, srcX, srcY, srcWidth, width, height, y)
  {
    hide Unpacked, BytesPerLine, PackedBytes, RowStart, RowOf;
    RowKept(before, after, BytesPerLine(width), height - 1 - lines, height - 1 - y);
  }

  /** One turn of the outer loop. */
  method FillRow(imagebits: array<bv8>, srcX: nat, srcY: nat, srcWidth: nat, width: nat, height: nat, lines: nat,
                 screen: array<bv8>)
    requires imagebits != screen && lines < height && screen.Length == Multiple(height, BytesPerLine(width))
    requires HoldsRows(imagebits.Length, srcX, srcY, srcWidth, width, height)
    modifies screen
    ensures RowDone(screen[..], imagebits[..], srcX, srcY, srcWidth, width, height, lines)
    ensures var at := Multiple(height - 1 - lines, BytesPerLine(width));
            forall j :: 0 <= j < screen.Length && !(at <= j < at + BytesPerLine(width)) ==> screen[j] == old(screen[j])
  {
    hide Unpacked;
    var r, bpl, stride := height - 1 - lines, BytesPerLine(width), PackedBytes(srcWidth);
    RowIsFilled(width);
    MultipleIsProduct(r, bpl);
    MultipleIsProduct(lines + srcY, stride);
    MultipleMono(r, height, bpl);
    MultipleMono(lines + srcY, height - 1 + srcY, stride);
    UnpackRow(imagebits, (lines + srcY) * stride + srcX / 4, PackedBytes(width), screen, r * bpl);
  }

  // ---- what the bitmap shows ----

  /** Pixel (`x`, `y`) of a packed image with rows of `width` pixels. */
  function ImagePixel(bits: seq<bv8>, width: nat, x: nat, y: nat): bv8
    requires Multiple(y, PackedBytes(width)) + x / 4 < |bits|
  {
    Pixel(bits[Multiple(y, PackedBytes(width)) + x / 4], x % 4)
  }

  /** Where the pixels land: with `bpl` bytes in a row of the bitmap and `stride` bytes in a row of the image, byte
      `(height - 1 - y) * bpl + x` of the bitmap is pixel `x % 4` of the packed byte at
      `(y + srcY) * stride + srcX / 4 + x / 4`. */
  lemma PixelLands(screen: seq<bv8>, bits: seq<bv8>, srcX: nat, srcY: nat, srcWidth: nat, width: nat, height: nat,
                   x: nat, y: nat, bpl: nat, stride: nat)
    requires bpl == (width * 8 + 31) / 32 * 4 && stride == (srcWidth * 2 + 7) / 8
    requires x < width && y < height && RowDone(screen, bits, srcX, srcY, srcWidth, width, height, y)
    ensures Multiple(height - 1 - y, bpl) + x < |screen| && Multiple(y + srcY, stride) + srcX / 4 + x / 4 < |bits|
    ensures screen[Multiple(height - 1 - y, bpl) + x] == Pixel(bits[Multiple(y + srcY, stride) + srcX / 4 + x / 4], x % 4)
    ensures Multiple(height - 1 - y, bpl) == (height - 1 - y) * bpl && Multiple(y + srcY, stride) == (y + srcY) * stride
  {
    hide Pixel, BytesPerLine, PackedBytes, Unpacked;
    RowIsFilled(width);
    RowSizes(width, srcWidth);
    MultipleIsProduct(height - 1 - y, bpl);
    MultipleIsProduct(y + srcY, stride);
    var row := RowOf(screen, bpl, height - 1 - y);
    assert row[x] == screen[Multiple(height - 1 - y, bpl) + x];
  }

  lemma RowSizes(width: nat, srcWidth: nat)
    ensures BytesPerLine(width) == (width * 8 + 31) / 32 * 4 && PackedBytes(srcWidth) == (srcWidth * 2 + 7) / 8
  {
  }

  /** Pixel `k` of a byte is its two bits from bit `6 - 2 * k` on. */
  lemma PixelIsShift(b: bv8, k: nat)
    requires k < 4
    ensures Pixel(b, k) == (b >> (6 - 2 * k)) & 3
  {
    if k == 0 {
      assert (b >> 6) & 3 == Pixel(b, 0);
    } else if k == 1 {
      assert (b >> 4) & 3 == Pixel(b, 1);
    } else if k == 2 {
      assert (b >> 2) & 3 == Pixel(b, 2);
    } else {
      assert (b >> 0) & 3 == Pixel(b, 3);
    }
  }

  /** With a horizontal offset that is a multiple of four, column `x` of a target row shows the image's pixel in column
      `srcX + x`. */
  lemma ShowsPixel(bits: seq<bv8>, srcX: nat, srcY: nat, srcWidth: nat, width: nat, x: nat, y: nat)
    requires RowStart(srcX, srcY, srcWidth, y) + PackedBytes(width) <= |bits| && x < width && srcX % 4 == 0
    ensures Multiple(y + srcY, PackedBytes(srcWidth)) + (srcX + x) / 4 < |bits|
    ensures Unpacked(bits, RowStart(srcX, srcY, srcWidth, y), PackedBytes(width))[x]
            == ImagePixel(bits, srcWidth, srcX + x, y + srcY)
  {
    hide Pixel;
    assert (srcX + x) / 4 == srcX / 4 + x / 4 && (srcX + x) % 4 == x % 4;
  }

  /** Each column of target row `y` shows the image's pixel in the column that is `srcX` further right. */
  predicate ShowsRow(bits: seq<bv8>, srcX: nat, srcY: nat, srcWidth: nat, width: nat, y: nat) {
    && RowStart(srcX, srcY, srcWidth, y) + PackedBytes(width) <= |bits|
    && forall x :: 0 <= x < width ==>
         && Multiple(y + srcY, PackedBytes(srcWidth)) + (srcX + x) / 4 < |bits|
         && Unpacked(bits, RowStart(srcX, srcY, srcWidth, y), PackedBytes(width))[x]
            == ImagePixel(bits, srcWidth, srcX + x, y + srcY)
  }

  /** An image that a row is taken from has the row's packed bytes. */
  predicate LongEnough(bits: seq<bv8>, srcX: nat, srcY: nat, srcWidth: nat, width: nat, y: nat) {
    RowStart(srcX, srcY, srcWidth, y) + PackedBytes(width) <= |bits|
  }

  /** All images are shown column by column exactly when the horizontal offset is a multiple of four. */
  lemma ColumnsLineUp(srcX: nat, srcY: nat, srcWidth: nat, width: nat, y: nat)
    requires width > 0
    ensures (forall bits :: LongEnough(bits, srcX, srcY, srcWidth, width, y) ==>
                              ShowsRow(bits, srcX, srcY, srcWidth, width, y))
            <==> srcX % 4 == 0
  {
    hide ShowsRow, LongEnough;
    if srcX % 4 == 0 {
      forall bits | LongEnough(bits, srcX, srcY, srcWidth, width, y)
        ensures ShowsRow(bits, srcX, srcY, srcWidth, width, y)
      {
        AlignedShows(bits, srcX, srcY, srcWidth, width, y);
      }
    } else {
      var bits := MisalignedShift(srcX, srcY, srcWidth, width, y);
    }
  }

  lemma AlignedShows(bits: seq<bv8>, srcX: nat, srcY: nat, srcWidth: nat, width: nat, y: nat)
    requires LongEnough(bits, srcX, srcY, srcWidth, width, y) && srcX % 4 == 0
    ensures ShowsRow(bits, srcX, srcY, srcWidth, width, y)
  {
    hide Unpacked, ImagePixel;
    forall x | 0 <= x < width
      ensures Multiple(y + srcY, PackedBytes(srcWidth)) + (srcX + x) / 4 < |bits|
      ensures Unpacked(bits, RowStart(srcX, srcY, srcWidth, y), PackedBytes(width))[x]
              == ImagePixel(bits, srcWidth, srcX + x, y + srcY)
    {
      ShowsPixel(bits, srcX, srcY, srcWidth, width, x, y);
    }
  }

  /** Stripes, of which the leftmost pixel of each byte is light and the others are dark, are not shown at their place. */
  lemma MisalignedShift(srcX: nat, srcY: nat, srcWidth: nat, width: nat, y: nat) returns (bits: seq<bv8>)
    requires width > 0 && srcX % 4 != 0
    ensures LongEnough(bits, srcX, srcY, srcWidth, width, y) && !ShowsRow(bits, srcX, srcY, srcWidth, width, y)
  {
    hide Pixel;
    bits := seq(RowStart(srcX, srcY, srcWidth, y) + PackedBytes(width) + 1, _ => 0xC0);
    Stripes(srcX % 4);
    assert Unpacked(bits, RowStart(srcX, srcY, srcWidth, y), PackedBytes(width))[0] == Pixel(0xC0, 0);
    assert ImagePixel(bits, srcWidth, srcX + 0, y + srcY) == Pixel(0xC0, srcX % 4);
  }

  lemma Stripes(k: nat)
    requires 0 < k < 4
    ensures Pixel(0xC0, k) != Pixel(0xC0, 0)
  {
  }

  /** Packing a target row back, four bytes at a time, gives the packed bytes it came from. */
  lemma PackingBack(bits: seq<bv8>, from: nat, n: nat, b: nat)
    requires from + n <= |bits| && b < n
    ensures var row := Unpacked(bits, from, n);
            Pack(row[4 * b], row[4 * b + 1], row[4 * b + 2], row[4 * b + 3]) == bits[from + b]
  {
    hide Pack, Pixel;
    PackPixels(bits[from + b]);
  }
}
