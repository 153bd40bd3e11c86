/** Glyphs and fonts of the BDF renderer (bdf/bdf.go:14-89): a glyph is a
    1-bit mask stored row by row, each row padded to whole bytes with the
    leftmost pixel in the most significant bit. */
module Bdf {
  import opened Imaging
  import opened Bits
  import Raster

  /** Bounds are relative to the origin on the baseline, so ascent is negative. */
  datatype Glyph = Glyph(bounds: Rect, bitmap: seq<bv8>, advance: int)

  /** Go's zero glyph: empty bounds, no bitmap, no advance. */
  const ZeroGlyph: Glyph := Glyph(Rect(Point(0, 0), Point(0, 0)), [], 0)

  /** Bytes per bitmap row for a glyph `width` pixels wide. */
  function Stride(width: int): (n: nat)
    requires width >= 0
    ensures 8 * n >= width && 8 * n < width + 8
  {
    (width + 7) / 8
  }

  /** The shape every glyph the parser produces has, which keeps At in range. */
  predicate GlyphValid(g: Glyph)
  {
    g.bounds.Dx() >= 0 && g.bounds.Dy() >= 0
    && |g.bitmap| == g.bounds.Dy() * Stride(g.bounds.Dx())
  }

  lemma ZeroGlyphValid()
    ensures GlyphValid(ZeroGlyph)
  {
  }

  /** Byte `py*stride + px/8` exists for every pixel inside the bounds. */
  lemma PixelIndexInRange(dy: nat, stride: nat, width: nat, px: nat, py: nat)
    requires width <= 8 * stride && px < width && py < dy
    ensures py * stride + px / 8 < dy * stride
  {
    assert px / 8 < stride;
    MulLe(py + 1, dy, stride);
    assert (py + 1) * stride == py * stride + stride;
  }

  lemma MulLe(a: nat, b: nat, c: nat)
    requires a <= b
    ensures a * c <= b * c
  {
  }

  /** byte(1 << (7 - k)) for k = 0 .. 7: the mask of the k-th pixel of a byte. */
  const PixelMask: seq<bv8> := [0x80, 0x40, 0x20, 0x10, 0x08, 0x04, 0x02, 0x01]

  /** The mask of pixel k selects bit 7 - k. */
  lemma MaskBit(b: bv8, k: nat)
    requires k < 8
    ensures (b & PixelMask[k]) == 0 <==> !Bit(b, 7 - k)
  {
    assert PixelMask[k] == BitMask[7 - k];
  }

  /** glyph.At: opaque where the pixel's bit is set, transparent elsewhere,
      in particular everywhere outside the bounds. */
  function GlyphAt(g: Glyph, x: int, y: int): (c: Color)
    requires GlyphValid(g)
    ensures c == Opaque || c == Transparent
    ensures c == Opaque ==> g.bounds.Contains(Point(x, y))
  {
    var px := x - g.bounds.min.x;
    var py := y - g.bounds.min.y;
    var dx, dy := g.bounds.Dx(), g.bounds.Dy();
    if px < 0 || py < 0 || px >= dx || py >= dy then Transparent
    else if InkBit(g, px, py) then Opaque
    else Transparent
  }

  /** The masked test of pixel (px, py), relative to the bounds' corner. */
  predicate InkBit(g: Glyph, px: nat, py: nat)
    requires GlyphValid(g) && px < g.bounds.Dx() && py < g.bounds.Dy()
  {
    var stride := Stride(g.bounds.Dx());
    PixelIndexInRange(g.bounds.Dy(), stride, g.bounds.Dx(), px, py);
    g.bitmap[py * stride + px / 8] & PixelMask[px % 8] != 0
  }

  // ---------------------------------------------------------------------------
  // A pixel-grid reference for GlyphAt.

  /** One row of pixels packed into Stride bytes, padded with clear bits. */
  function PackGlyphRow(pixels: seq<bool>): (row: seq<bv8>)
    ensures |row| == Stride(|pixels|)
    ensures forall p :: 0 <= p < |pixels| ==> (Bit(row[p / 8], 7 - p % 8) <==> pixels[p])
  {
    var n := Stride(|pixels|);
    var padded := pixels + seq(8 * n - |pixels|, _ => false);
    var row := Raster.PackBytes(padded, n);
    assert forall p :: 0 <= p < |pixels| ==> padded[p] == pixels[p];
    row
  }

  predicate Grid(pixels: seq<seq<bool>>, width: nat)
  {
    forall i :: 0 <= i < |pixels| ==> |pixels[i]| == width
  }

  /** A glyph drawn from a grid of pixels, top row first. */
  function PackGlyph(bounds: Rect, pixels: seq<seq<bool>>, advance: int): (g: Glyph)
    requires bounds.Dx() >= 0 && |pixels| == bounds.Dy() && Grid(pixels, bounds.Dx())
    ensures GlyphValid(g) && g.bounds == bounds && g.advance == advance
  {
    var rows := GlyphRows(pixels, bounds.Dx());
    Raster.ConcatLength(rows, Stride(bounds.Dx()));
    Glyph(bounds, Raster.Concat(rows), advance)
  }

  /** Each row of the grid packed on its own. */
  function GlyphRows(pixels: seq<seq<bool>>, width: nat): (rows: seq<seq<bv8>>)
    requires Grid(pixels, width)
    ensures |rows| == |pixels|
    ensures forall i :: 0 <= i < |rows| ==> rows[i] == PackGlyphRow(pixels[i]) && |rows[i]| == Stride(width)
  {
    seq(|pixels|, i requires 0 <= i < |pixels| => PackGlyphRow(pixels[i]))
  }

  /** Inside the bounds a pixel is opaque exactly when bit 7 - px%8 of byte
      py*stride + px/8 is set, counting from the top-left corner. */
  lemma GlyphAtBit(g: Glyph, x: int, y: int)
    requires GlyphValid(g) && g.bounds.Contains(Point(x, y))
    ensures var px, py := x - g.bounds.min.x, y - g.bounds.min.y;
      var i := py * Stride(g.bounds.Dx()) + px / 8;
      && 0 <= i < |g.bitmap|
      && (GlyphAt(g, x, y) == Opaque <==> Bit(g.bitmap[i], 7 - px % 8))
  {
    InkBitMask(g, x - g.bounds.min.x, y - g.bounds.min.y);
  }

  lemma InkBitMask(g: Glyph, px: nat, py: nat)
    requires GlyphValid(g) && px < g.bounds.Dx() && py < g.bounds.Dy()
    ensures var i := py * Stride(g.bounds.Dx()) + px / 8;
      && 0 <= i < |g.bitmap|
      && (InkBit(g, px, py) <==> Bit(g.bitmap[i], 7 - px % 8))
  {
    var stride := Stride(g.bounds.Dx());
    PixelIndexInRange(g.bounds.Dy(), stride, g.bounds.Dx(), px, py);
    MaskBit(g.bitmap[py * stride + px / 8], px % 8);
  }

  /** Byte j of row i of equally long rows, after flattening. */
  lemma ConcatAt(rows: seq<seq<bv8>>, n: nat, i: nat, j: nat)
    requires forall k :: 0 <= k < |rows| ==> |rows[k]| == n
    requires i < |rows| && j < n
    ensures 0 <= i * n + j < |Raster.Concat(rows)| && Raster.Concat(rows)[i * n + j] == rows[i][j]
  {
    MulLe(0, i, n);
    assert i * n == n * i;
    Raster.ConcatSlice(rows, n, i);
    assert Raster.Concat(rows)[n * i .. n * i + n][j] == rows[i][j];
  }

  /** GlyphAt reads back exactly the grid a glyph was packed from. */
  lemma GlyphAtPacked(bounds: Rect, pixels: seq<seq<bool>>, advance: int, x: int, y: int)
    requires bounds.Dx() >= 0 && |pixels| == bounds.Dy() && Grid(pixels, bounds.Dx())
    ensures GlyphAt(PackGlyph(bounds, pixels, advance), x, y)
      == if bounds.Contains(Point(x, y)) && pixels[y - bounds.min.y][x - bounds.min.x]
         then Opaque else Transparent
  {
    if bounds.Contains(Point(x, y)) {
      PackedInside(bounds, pixels, advance, x, y);
    }
  }

  lemma PackedInside(bounds: Rect, pixels: seq<seq<bool>>, advance: int, x: int, y: int)
    requires bounds.Dx() >= 0 && |pixels| == bounds.Dy() && Grid(pixels, bounds.Dx())
    requires bounds.Contains(Point(x, y))
    ensures 0 <= y - bounds.min.y < |pixels| && 0 <= x - bounds.min.x < |pixels[y - bounds.min.y]|
    ensures GlyphAt(PackGlyph(bounds, pixels, advance), x, y) == Opaque
      <==> pixels[y - bounds.min.y][x - bounds.min.x]
  {
    var g := PackGlyph(bounds, pixels, advance);
    var px, py := x - bounds.min.x, y - bounds.min.y;
    PackGlyphBit(bounds, pixels, advance, px, py);
    OpaqueFromBit(g, x, y, px, py, pixels[py][px]);
  }

  /** A pixel inside the bounds is opaque exactly when its bit says so. */
  lemma OpaqueFromBit(g: Glyph, x: int, y: int, px: nat, py: nat, ink: bool)
    requires GlyphValid(g) && g.bounds.Contains(Point(x, y))
    requires px == x - g.bounds.min.x && py == y - g.bounds.min.y
    requires 0 <= py * Stride(g.bounds.Dx()) + px / 8 < |g.bitmap|
    requires Bit(g.bitmap[py * Stride(g.bounds.Dx()) + px / 8], 7 - px % 8) <==> ink
    ensures GlyphAt(g, x, y) == Opaque <==> ink
  {
    GlyphAtBit(g, x, y);
  }

  /** Bit 7 - px%8 of byte py*stride + px/8 of a packed glyph is pixel (px, py) of its grid. */
  lemma PackGlyphBit(bounds: Rect, pixels: seq<seq<bool>>, advance: int, px: nat, py: nat)
    requires bounds.Dx() >= 0 && |pixels| == bounds.Dy() && Grid(pixels, bounds.Dx())
    requires px < bounds.Dx() && py < bounds.Dy()
    ensures var g := PackGlyph(bounds, pixels, advance);
      && g.bounds == bounds
      && 0 <= py * Stride(g.bounds.Dx()) + px / 8 < |g.bitmap|
      && (Bit(g.bitmap[py * Stride(g.bounds.Dx()) + px / 8], 7 - px % 8) <==> pixels[py][px])
  {
    var rows := GlyphRows(pixels, bounds.Dx());
    var stride := Stride(bounds.Dx());
    assert px / 8 < stride;
    ConcatAt(rows, stride, py, px / 8);
  }

  // ---------------------------------------------------------------------------
  // Fonts.

  /** Glyphs are keyed by rune (a 32-bit code point value). */
  datatype Font = Font(name: string, glyphs: map<int, Glyph>, fallback: Glyph)

  predicate FontValid(f: Font)
  {
    GlyphValid(f.fallback) && forall r :: r in f.glyphs ==> GlyphValid(f.glyphs[r])
  }

  /** FindGlyph: the rune's own glyph and true, or the fallback and false.
      The boolean says whether the rune had its own glyph. */
  function FindGlyph(f: Font, r: int): (found: (Glyph, bool))
    ensures found.1 <==> r in f.glyphs
    ensures found.1 ==> found.0 == f.glyphs[r]
    ensures !found.1 ==> found.0 == f.fallback
    ensures FontValid(f) ==> GlyphValid(found.0)
  {
    if r in f.glyphs then (f.glyphs[r], true) else (f.fallback, false)
  }

  function GlyphOf(f: Font, c: char): Glyph { FindGlyph(f, c as int).0 }

  /** The pen position after the first `k` characters. */
  function Dot(f: Font, s: string, k: nat): int
    requires k <= |s|
    decreases k
  {
    if k == 0 then 0 else Dot(f, s, k - 1) + GlyphOf(f, s[k - 1]).advance
  }

  /** The sum of the advances, accumulated from the end of the string. */
  function TotalAdvance(f: Font, s: string): int
    decreases |s|
  {
    if |s| == 0 then 0 else GlyphOf(f, s[0]).advance + TotalAdvance(f, s[1..])
  }

  /** Where the k-th glyph lands on the baseline. */
  function Placed(f: Font, s: string, k: nat): Rect
    requires k < |s|
  {
    GlyphOf(f, s[k]).bounds.Add(Point(Dot(f, s, k), 0))
  }

  /** BoundString: the union of the placed glyph boxes and the total advance. */
  function BoundString(f: Font, s: string): (r: (Rect, int))
    decreases |s|
  {
    if |s| == 0 then (Rect(Point(0, 0), Point(0, 0)), 0)
    else
      var (bounds, dot) := BoundString(f, s[..|s| - 1]);
      var g := GlyphOf(f, s[|s| - 1]);
      (bounds.Union(g.bounds.Add(Point(dot, 0))), dot + g.advance)
  }

  /** Dot positions only depend on the characters before them. */
  lemma {:induction false} DotPrefix(f: Font, s: string, n: nat, k: nat)
    requires k <= n <= |s|
    ensures Dot(f, s[..n], k) == Dot(f, s, k)
    decreases k
  {
    if k > 0 {
      DotPrefix(f, s, n, k - 1);
      assert s[..n][k - 1] == s[k - 1];
    }
  }

  lemma {:induction false} DotShift(f: Font, s: string, k: nat)
    requires 0 < k <= |s|
    ensures Dot(f, s, k) == GlyphOf(f, s[0]).advance + Dot(f, s[1..], k - 1)
    decreases k
  {
    if k > 1 {
      DotShift(f, s, k - 1);
      assert s[1..][k - 2] == s[k - 1];
    }
  }

  /** The advance BoundString returns is the sum of every glyph's advance. */
  lemma {:induction false} BoundStringAdvance(f: Font, s: string)
    ensures BoundString(f, s).1 == Dot(f, s, |s|) == TotalAdvance(f, s)
    decreases |s|
  {
    if |s| > 0 {
      var init := s[..|s| - 1];
      BoundStringAdvance(f, init);
      DotPrefix(f, s, |s| - 1, |s| - 1);
      DotShift(f, s, |s|);
      if |s| > 1 {
        BoundStringAdvance(f, s[1..]);
      }
    }
  }

  /** Every placed glyph box lies inside the measured bounds. */
  lemma {:induction false} BoundStringCovers(f: Font, s: string, k: nat, q: Point)
    requires k < |s| && Placed(f, s, k).Contains(q)
    ensures BoundString(f, s).0.Contains(q)
    decreases |s|
  {
    var init := s[..|s| - 1];
    var bounds := BoundString(f, init).0;
    var last := Placed(f, s, |s| - 1);
    BoundStringLast(f, s);
    if k < |s| - 1 {
      PlacedPrefix(f, s, k);
      BoundStringCovers(f, init, k, q);
    }
    UnionContains(bounds, last, q);
  }

  /** The measured box grows by the last glyph's placed box. */
  lemma BoundStringLast(f: Font, s: string)
    requires |s| > 0
    ensures BoundString(f, s).0 == BoundString(f, s[..|s| - 1]).0.Union(Placed(f, s, |s| - 1))
  {
    var init := s[..|s| - 1];
    BoundStringAdvance(f, init);
    DotPrefix(f, s, |s| - 1, |s| - 1);
  }

  /** The measured bounds are the least rectangle holding every placed
      glyph box: any rectangle holding all of them holds the bounds. */
  lemma {:induction false} BoundStringLeast(f: Font, s: string, b: Rect)
    requires forall k :: 0 <= k < |s| ==> Placed(f, s, k).In(b)
    ensures BoundString(f, s).0.In(b)
    decreases |s|
  {
    if |s| > 0 {
      var init := s[..|s| - 1];
      forall k | 0 <= k < |init| ensures Placed(f, init, k).In(b) {
        PlacedPrefix(f, s, k);
      }
      BoundStringLeast(f, init, b);
      BoundStringLast(f, s);
      UnionLeast(BoundString(f, init).0, Placed(f, s, |s| - 1), b);
    }
  }

  /** A glyph is placed the same in the text and in any longer text. */
  lemma PlacedPrefix(f: Font, s: string, k: nat)
    requires k < |s| - 1
    ensures Placed(f, s[..|s| - 1], k) == Placed(f, s, k)
  {
    DotPrefix(f, s, |s| - 1, k);
    assert s[..|s| - 1][k] == s[k];
  }

  /** Every opaque pixel of a drawn glyph falls inside the measured bounds. */
  lemma BoundStringCoversInk(f: Font, s: string, k: nat, x: int, y: int)
    requires FontValid(f) && k < |s|
    requires GlyphAt(GlyphOf(f, s[k]), x - Dot(f, s, k), y) == Opaque
    ensures BoundString(f, s).0.Contains(Point(x, y))
  {
    PlacedContains(f, s, k, x, y);
    BoundStringCovers(f, s, k, Point(x, y));
  }

  /** A point of a glyph's own box, shifted by the pen position, lies in the placed box. */
  lemma PlacedContains(f: Font, s: string, k: nat, x: int, y: int)
    requires k < |s| && GlyphOf(f, s[k]).bounds.Contains(Point(x - Dot(f, s, k), y))
    ensures Placed(f, s, k).Contains(Point(x, y))
  {
    var d := Point(Dot(f, s, k), 0);
    var p := Point(x - Dot(f, s, k), y);
    AddContains(GlyphOf(f, s[k]).bounds, d, p);
    assert p.Add(d) == Point(x, y);
  }

  /** Text whose glyphs all have empty boxes measures as an empty rectangle. */
  lemma {:induction false} BoundStringEmpty(f: Font, s: string)
    requires forall k :: 0 <= k < |s| ==> GlyphOf(f, s[k]).bounds.Empty()
    ensures BoundString(f, s).0.Empty()
    decreases |s|
  {
    if |s| > 0 {
      var init := s[..|s| - 1];
      assert forall k :: 0 <= k < |init| ==> init[k] == s[k];
      BoundStringEmpty(f, init);
    }
  }
}
