/** Squeezing a screen image vertically inside its own buffer, to make room for a window below it. */
module BackgroundFit {
  import opened Division
  import opened Pixels

  // ---- four 2-bit pixels in a byte ----

  /** The byte-parallel blend, on 16-bit words: even and odd pixels are spread out, added, and halved. */
  function Spread(n: bv16): bv16 { ((n & 0x33) << 8) | ((n & 0xCC) >> 2) }

  function Gather(n: bv16): bv16 { ((n & 0x3300) >> 8) | ((n & 0x33) << 2) }

  function Blend(a: bv8, b: bv8): bv8 {
    (Gather((Spread(a as bv16) + Spread(b as bv16)) >> 1) & 0xFF) as bv8
  }

  lemma BlendBits0(a: bv8, b: bv8)
    ensures (Blend(a, b) >> 6) & 3 == (((a >> 6) & 3) + ((b >> 6) & 3)) >> 1
  {
  }

  lemma BlendBits1(a: bv8, b: bv8)
    ensures (Blend(a, b) >> 4) & 3 == (((a >> 4) & 3) + ((b >> 4) & 3)) >> 1
  {
  }

  lemma BlendBits2(a: bv8, b: bv8)
    ensures (Blend(a, b) >> 2) & 3 == (((a >> 2) & 3) + ((b >> 2) & 3)) >> 1
  {
  }

  lemma BlendBits3(a: bv8, b: bv8)
    ensures Blend(a, b) & 3 == ((a & 3) + (b & 3)) >> 1
  {
  }

  lemma BlendBits(a: bv8, b: bv8, k: nat)
    requires k < 4
    ensures Pixel(Blend(a, b), k) == (Pixel(a, k) + Pixel(b, k)) >> 1
  {
    hide Blend;
    if k == 0 {
      BlendBits0(a, b);
    } else if k == 1 {
      BlendBits1(a, b);
    } else if k == 2 {
      BlendBits2(a, b);
    } else {
      BlendBits3(a, b);
    }
  }

  lemma HalfOfSmall(p: bv8, q: bv8)
    requires p <= 3 && q <= 3
    ensures ((p + q) >> 1) as nat == (p as nat + q as nat) / 2
  {
    if p == 0 {
    } else if p == 1 {
    } else if p == 2 {
    } else {
    }
  }

  /** Each pixel of the blended byte is the mean of the two pixels, rounded down. */
  lemma BlendIsFloorMean(a: bv8, b: bv8, k: nat)
    requires k < 4
    ensures Pixel(Blend(a, b), k) as nat == (Pixel(a, k) as nat + Pixel(b, k) as nat) / 2
  {
    BlendBits(a, b, k);
    HalfOfSmall(Pixel(a, k), Pixel(b, k));
  }

  // ---- which source rows make up a row ----

  /** The source row of destination row `y`, for height `h` squeezed to `d`. */
  function Source(h: nat, d: nat, y: nat): nat
    requires d > 0
  {
    h * y / d + 1
  }

  /** Row `y` is blended with the source row after its own: the next destination row skips exactly that one. */
  predicate Blended(h: nat, d: nat, y: nat)
    requires d > 0
  {
    y + 1 < d && Source(h, d, y + 1) == Source(h, d, y) + 2
  }

  lemma SourceBounds(h: nat, d: nat, y: nat)
    requires d > 0
    ensures var s := Source(h, d, y);
            (s - 1) * d <= h * y < s * d
  {
    var q := h * y / d;
    assert h * y == q * d + h * y % d;
    assert (q + 1) * d == q * d + d;
  }

  /** A source row lies below its destination row, and within the image. */
  lemma SourceInside(h: nat, d: nat, y: nat)
    requires 0 < d < h && y < d
    ensures y < Source(h, d, y) < h
  {
    var s := Source(h, d, y);
    SourceBounds(h, d, y);
    assert y * d == d * y && h * y == y * h;
    assert (h - 1) * d == h * d - d && (d - 1) * h == h * d - h;
    if s <= y {
      MulMono(s, y, d);
      MulMono(d, h, y);
    }
    if s >= h {
      MulMono(h - 1, s - 1, d);
      MulMono(y, d - 1, h);
    }
  }

  /** Source rows strictly increase, by at most two when the height is at most doubled. */
  lemma SourceSteps(h: nat, d: nat, y: nat)
    requires 0 < d < h
    ensures Source(h, d, y) < Source(h, d, y + 1)
    ensures h <= 2 * d ==> Source(h, d, y + 1) <= Source(h, d, y) + 2
  {
    var s, t := Source(h, d, y), Source(h, d, y + 1);
    SourceBounds(h, d, y);
    SourceBounds(h, d, y + 1);
    assert h * (y + 1) == h * y + h;
    assert (s - 1) * d + d == s * d && (s + 2) * d == s * d + 2 * d;
    if t <= s {
      MulMono(t, s, d);
    }
    if h <= 2 * d && t > s + 2 {
      MulMono(s + 2, t - 1, d);
    }
  }

  lemma {:induction false} SourceIncreases(h: nat, d: nat, x: nat, y: nat)
    requires 0 < d < h && x < y
    ensures Source(h, d, x) < Source(h, d, y)
    decreases y
  {
    SourceSteps(h, d, y - 1);
    if x < y - 1 {
      SourceIncreases(h, d, x, y - 1);
    }
  }

  // ---- the squeeze ----

  type Row = seq<bv8>

  type Image = seq<Row>

  /** The blend of two rows, byte by byte. */
  function BlendRows(a: Row, b: Row): (r: Row)
    requires |a| == |b|
    ensures |r| == |a| && forall i :: 0 <= i < |r| ==> r[i] == Blend(a[i], b[i])
  {
    seq(|a|, i requires 0 <= i < |a| => Blend(a[i], b[i]))
  }

  predicate Rectangular(image: Image, linesz: nat) {
    forall y :: 0 <= y < |image| ==> |image[y]| == linesz
  }

  /** What row `y` must become, in terms of the original image. */
  function Expected(image: Image, linesz: nat, h: nat, d: nat, twoBits: bool, y: nat): Row
    requires 0 < d < h <= |image| && y < d && Rectangular(image, linesz)
  {
    SourceInside(h, d, y);
    var s := Source(h, d, y);
    if twoBits && Blended(h, d, y) then
      SourceInside(h, d, y + 1);
      BlendRows(image[s + 1], image[s])
    else image[s]
  }

  /** Pixel by pixel: a squeezed pixel is the one of its source row, or the mean, rounded down, of the ones of its source
      row and the row after it. */
  lemma SqueezedPixel(image: Image, linesz: nat, h: nat, d: nat, twoBits: bool, y: nat, i: nat, k: nat)
    requires 0 < d < h <= |image| && y < d && Rectangular(image, linesz) && i < linesz && k < 4
    ensures var s, next := h * y / d + 1, h * (y + 1) / d + 1;
            && s < h && (y + 1 < d ==> next < h)
            && Pixel(Expected(image, linesz, h, d, twoBits, y)[i], k) as nat
               == if twoBits && y + 1 < d && next == s + 2
                  then (Pixel(image[s][i], k) as nat + Pixel(image[s + 1][i], k) as nat) / 2
                  else Pixel(image[s][i], k) as nat
  {
    SourceRows(h, d, y);
    hide Blend, Pixel, Source;
    var s := Source(h, d, y);
    SourceInside(h, d, y);
    if y + 1 < d {
      SourceInside(h, d, y + 1);
    }
    if Blended(h, d, y) {
      SourceInside(h, d, y + 1);
      BlendIsFloorMean(image[s + 1][i], image[s][i], k);
    }
  }

  lemma SourceRows(h: nat, d: nat, y: nat)
    requires d > 0
    ensures Source(h, d, y) == h * y / d + 1 && Source(h, d, y + 1) == h * (y + 1) / d + 1
  {
  }

  /** The rows of the buffer as a value. */
  ghost function Rows(buf: array2<bv8>): (image: Image)
    reads buf
    ensures |image| == buf.Length0 && Rectangular(image, buf.Length1)
    ensures forall y, i :: 0 <= y < buf.Length0 && 0 <= i < buf.Length1 ==> image[y][i] == buf[y, i]
  {
    seq(buf.Length0, y requires 0 <= y < buf.Length0 reads buf =>
      seq(buf.Length1, i requires 0 <= i < buf.Length1 reads buf => buf[y, i]))
  }

  /** `memcpy` of one scan line onto another. */
  method CopyRow(buf: array2<bv8>, dst: nat, src: nat)
    requires dst < buf.Length0 && src < buf.Length0
    modifies buf
    ensures Rows(buf) == old(Rows(buf))[dst := old(Rows(buf))[src]]
  {
    ghost var before := Rows(buf);
    forall i | 0 <= i < buf.Length1 {
      buf[dst, i] := buf[src, i];
    }
    forall y | 0 <= y < buf.Length0 ensures Rows(buf)[y] == before[dst := before[src]][y] {
    }
  }

  /** Blends row `src` into row `dst`, byte by byte. */
  method BlendRow(buf: array2<bv8>, dst: nat, src: nat)
    requires dst < buf.Length0 && src < buf.Length0 && dst != src
    modifies buf
    ensures Rows(buf) == old(Rows(buf))[dst := BlendRows(old(Rows(buf))[src], old(Rows(buf))[dst])]
  {
    ghost var before := Rows(buf);
    for k := 0 to buf.Length1
      invariant forall y, i :: 0 <= y < buf.Length0 && 0 <= i < buf.Length1 ==>
                  buf[y, i] == if y == dst && i < k then Blend(old(buf[src, i]), old(buf[dst, i])) else old(buf[y, i])
    {
      buf[dst, k] := Blend(buf[src, k], buf[dst, k]);
    }
    ghost var after := before[dst := BlendRows(before[src], before[dst])];
    forall y | 0 <= y < buf.Length0 ensures Rows(buf)[y] == after[y] {
    }
  }

  /** `draw`: the loop over the destination rows, on a buffer of `h` rows. Row by row, the result is the expected one in
      terms of the original image, although the rows are read from the buffer that is being overwritten. */
  method Squeeze(buf: array2<bv8>, h: nat, d: nat, twoBits: bool)
    requires d < h <= buf.Length0
    modifies buf
    ensures forall y :: 0 <= y < d ==> Rows(buf)[y] == Expected(old(Rows(buf)), buf.Length1, h, d, twoBits, y)
    ensures forall y :: d <= y < buf.Length0 ==> Rows(buf)[y] == old(Rows(buf))[y]
  {
    hide Blend, Source, Rows, BlendRows;
    ghost var image := Rows(buf);
    var lastline: int := -3;
    var y := 0;
    while y < d
      invariant 0 <= y <= d && (y == 0 ==> lastline == -3)
      invariant y > 0 ==> lastline == Source(h, d, y - 1) < h && Rows(buf)[y - 1] == image[lastline]
      invariant forall r :: 0 <= r < y - 1 ==> Rows(buf)[r] == Expected(image, buf.Length1, h, d, twoBits, r)
      invariant forall r :: y <= r < buf.Length0 ==> Rows(buf)[r] == image[r]
    {
      var srcy := Source(h, d, y);
      SourceInside(h, d, y);
      CopyRow(buf, y, srcy);
      if srcy == lastline + 2 {
        if twoBits {
          SourceInside(h, d, y - 1);
          BlendRow(buf, y - 1, srcy - 1);
        }
      }
      lastline := srcy;
      y := y + 1;
    }
  }

  // ---- conservation of rows ----

  /** Source row `r` contributes to destination row `y`. */
  predicate Contributes(h: nat, d: nat, y: nat, r: nat)
    requires d > 0
  {
    y < d && (r == Source(h, d, y) || (Blended(h, d, y) && r == Source(h, d, y) + 1))
  }

  /** Source row `r` contributes to some destination row. */
  ghost predicate Kept(h: nat, d: nat, r: nat)
    requires d > 0
  {
    exists y :: Contributes(h, d, y, r)
  }

  /** No source row contributes to two destination rows. */
  lemma ContributesOnce(h: nat, d: nat, x: nat, y: nat, r: nat)
    requires 0 < d < h && Contributes(h, d, x, r) && Contributes(h, d, y, r)
    ensures x == y
  {
    if x < y {
      Later(h, d, x, y, r);
    } else if y < x {
      Later(h, d, y, x, r);
    }
  }

  lemma Later(h: nat, d: nat, x: nat, y: nat, r: nat)
    requires 0 < d < h && x < y && Contributes(h, d, x, r)
    ensures !Contributes(h, d, y, r)
  {
    SourceIncreases(h, d, x, y);
    if x + 1 < y {
      SourceIncreases(h, d, x + 1, y);
    }
  }

  lemma {:induction false} Owner(h: nat, d: nat, r: nat, n: nat) returns (y: nat)
    requires 0 < d < h <= 2 * d && n < d && 1 <= r <= Source(h, d, n)
    ensures Contributes(h, d, y, r)
    decreases n
  {
    assert Source(h, d, 0) == 1 by { SourceZero(h, d); }
    if r == Source(h, d, n) {
      y := n;
    } else if r > Source(h, d, n - 1) {
      SourceSteps(h, d, n - 1);
      y := n - 1;
    } else {
      y := Owner(h, d, r, n - 1);
    }
  }

  lemma SourceZero(h: nat, d: nat)
    requires d > 0
    ensures Source(h, d, 0) == 1
  {
    assert h * 0 == 0;
  }

  /** The last destination row comes from the last source row, or from above it. */
  lemma LastSource(h: nat, d: nat)
    requires 0 < d < h
    ensures Source(h, d, d - 1) == h - 1 <==> h <= 2 * d
  {
    var s := Source(h, d, d - 1);
    SourceBounds(h, d, d - 1);
    SourceInside(h, d, d - 1);
    assert h * (d - 1) == h * d - h && (h - 2) * d == h * d - 2 * d;
    if h <= 2 * d && s < h - 1 {
      MulMono(s, h - 2, d);
    }
    if h > 2 * d && s >= h - 1 {
      MulMono(h - 2, s - 1, d);
    }
  }

  /** Row conservation: every source row except row 0 contributes to some destination row exactly when the height is at
      most twice the target (and to one only, by ContributesOnce). */
  lemma RowsConserved(h: nat, d: nat)
    requires 0 < d < h
    ensures (forall r :: 1 <= r < h ==> Kept(h, d, r)) <==> h <= 2 * d
  {
    if h <= 2 * d {
      LastSource(h, d);
      forall r | 1 <= r < h ensures Kept(h, d, r) {
        var y := Owner(h, d, r, d - 1);
      }
    } else {
      assert !Kept(h, d, h - 1) by {
        if Kept(h, d, h - 1) {
          var y :| Contributes(h, d, y, h - 1);
          NotLast(h, d, y);
        }
      }
    }
  }

  lemma NotLast(h: nat, d: nat, y: nat)
    requires 0 < d && 2 * d < h
    ensures !Contributes(h, d, y, h - 1)
  {
    LastSource(h, d);
    if y < d {
      SourceInside(h, d, y);
      if y + 1 < d {
        SourceInside(h, d, y + 1);
      }
    }
  }
}
