/** makeBitmapData: an image becomes the printer's uncompressed raster rows.
    Each row is a 3-byte header `'g' 0x00 90` followed by 90 bytes holding the
    720 head pins, most significant bit first. Image columns are scanned right
    to left starting at the side margin, and only black pixels with non-zero
    alpha (not transparent) mark. */
module Raster {
  import opened Imaging
  import Media
  import opened Bits

  const RowBytes: int := 90
  /** 'g', 0x00, 90 */
  const RowHeader: seq<bv8> := [0x67, 0x00, 90]
  const RowSize: int := 93
  const BlankRow: seq<bv8> := seq(90, _ => 0)

  /** The Go test `r == 0 && g == 0 && b == 0 && a != 0`. */
  predicate IsMark(c: Color)
  {
    c.r == 0 && c.g == 0 && c.b == 0 && c.a != 0
  }

  function Width(r: Rect): nat { if r.max.x > r.min.x then r.max.x - r.min.x else 0 }
  function Height(r: Rect): nat { if r.max.y > r.min.y then r.max.y - r.min.y else 0 }

  /** Reference definition of one pin of image row `y`: pin `p` shows column
      max.x-1-(p-offset), counted from the right edge of the image. */
  predicate Marked(src: Image, offset: nat, y: int, p: int)
  {
    offset <= p < offset + Width(src.bounds)
    && IsMark(src.at(src.bounds.max.x - 1 - (p - offset), y))
  }

  /** The 720-pin buffer of image row `y`. */
  function ScanRow(src: Image, offset: nat, y: int): (pixels: seq<bool>)
    ensures |pixels| == Media.HeadPins
  {
    seq(Media.HeadPins, p => Marked(src, offset, y, p))
  }

  /** One byte from up to eight pins, as the Go loop builds it: shift left,
      then set the low bit for a marked pin. */
  function PackBits(bits: seq<bool>): bv8
    requires |bits| <= 8
    decreases |bits|
  {
    if |bits| == 0 then 0
    else (PackBits(bits[..|bits| - 1]) << 1) | (if bits[|bits| - 1] then 1 else 0)
  }

  lemma ShiftOrBit(b: bv8, c: bool, k: nat)
    requires k < 8
    ensures Bit((b << 1) | (if c then 1 else 0), k) == (if k == 0 then c else Bit(b, k - 1))
  {
  }

  /** The first pin lands in the most significant bit. */
  lemma {:induction false} PackBitsBit(bits: seq<bool>, k: nat)
    requires |bits| <= 8 && k < 8
    ensures Bit(PackBits(bits), k) == (k < |bits| && bits[|bits| - 1 - k])
    decreases |bits|
  {
    if |bits| > 0 {
      var init := bits[..|bits| - 1];
      ShiftOrBit(PackBits(init), bits[|bits| - 1], k);
      if k > 0 {
        PackBitsBit(init, k - 1);
      }
    }
  }

  /** The 90 data bytes of a row: pin p is bit 7 - p%8 of byte p/8. */
  function PackRow(pixels: seq<bool>): (row: seq<bv8>)
    requires |pixels| == Media.HeadPins
    ensures |row| == RowBytes
    ensures forall p :: 0 <= p < Media.HeadPins ==> (Bit(row[p / 8], 7 - p % 8) <==> pixels[p])
  {
    PackBytes(pixels, RowBytes)
  }

  /** Runs of eight bits packed into bytes, the first bit of each run in
      the most significant place: bit p is bit 7 - p%8 of byte p/8. */
  function PackBytes(bits: seq<bool>, n: nat): (row: seq<bv8>)
    requires |bits| == 8 * n
    ensures |row| == n
    ensures forall p :: 0 <= p < |bits| ==> (Bit(row[p / 8], 7 - p % 8) <==> bits[p])
  {
    var row := seq(n, i requires 0 <= i < n => EightWithin(n, i); ByteAt(bits, i));
    assert forall p :: 0 <= p < |bits| ==> (Bit(row[p / 8], 7 - p % 8) <==> bits[p]) by {
      forall p | 0 <= p < |bits|
        ensures Bit(row[p / 8], 7 - p % 8) <==> bits[p]
      {
        ByteAtBit(bits, n, p);
      }
    }
    row
  }

  /** Byte `i` of a packed run of bits. */
  function ByteAt(bits: seq<bool>, i: nat): bv8
    requires 8 * i + 8 <= |bits|
  {
    PackBits(bits[8 * i .. 8 * i + 8])
  }

  lemma EightWithin(n: nat, i: nat)
    requires i < n
    ensures 8 * i + 8 <= 8 * n
  {
  }

  lemma ByteAtBit(bits: seq<bool>, n: nat, p: nat)
    requires |bits| == 8 * n && p < |bits|
    ensures p / 8 < n && 8 * (p / 8) + 8 <= |bits|
    ensures Bit(ByteAt(bits, p / 8), 7 - p % 8) <==> bits[p]
  {
    var i := p / 8;
    PackBitsBit(bits[8 * i .. 8 * i + 8], 7 - p % 8);
  }

  /** A row of all-false pins packs to 90 zero bytes. */
  lemma PackBlank()
    ensures PackRow(seq(Media.HeadPins, _ => false)) == BlankRow
  {
    var pixels := seq(Media.HeadPins, _ => false);
    var row := PackRow(pixels);
    forall i | 0 <= i < RowBytes
      ensures row[i] == 0
    {
      forall k | 0 <= k < 8 ensures !Bit(row[i], k) {
        var p := 8 * i + 7 - k;
        assert p / 8 == i && p % 8 == 7 - k;
        assert !pixels[p];
      }
      BitsZero(row[i]);
    }
  }

  /** Rows flattened into one byte stream, in order. */
  function Concat(rows: seq<seq<bv8>>): seq<bv8>
    decreases |rows|
  {
    if |rows| == 0 then [] else Concat(rows[..|rows| - 1]) + rows[|rows| - 1]
  }

  lemma ConcatSnoc(rows: seq<seq<bv8>>, r: seq<bv8>)
    ensures Concat(rows + [r]) == Concat(rows) + r
  {
    assert (rows + [r])[..|rows|] == rows;
  }

  lemma {:induction false} ConcatLength(rows: seq<seq<bv8>>, n: nat)
    requires forall i :: 0 <= i < |rows| ==> |rows[i]| == n
    ensures |Concat(rows)| == n * |rows|
    decreases |rows|
  {
    if |rows| > 0 {
      ConcatLength(rows[..|rows| - 1], n);
      assert n * |rows| == n * (|rows| - 1) + n;
    }
  }

  /** Row `i` of the flattened stream sits at bytes n*i .. n*i+n. */
  lemma {:induction false} ConcatSlice(rows: seq<seq<bv8>>, n: nat, i: nat)
    requires forall j :: 0 <= j < |rows| ==> |rows[j]| == n
    requires i < |rows|
    ensures n * i + n <= |Concat(rows)|
    ensures Concat(rows)[n * i .. n * i + n] == rows[i]
    decreases |rows|
  {
    var init, last := rows[..|rows| - 1], rows[|rows| - 1];
    var lo := n * i;
    ConcatLength(init, n);
    var head := Concat(init);
    assert Concat(rows) == head + last;
    if i < |init| {
      ConcatSlice(init, n, i);
      assert lo + n <= |head|;
      SliceLeft(head, last, lo, lo + n);
    } else {
      assert i == |init|;
      assert lo == |head|;
      SliceRight(head, last, lo);
    }
  }

  lemma SliceLeft(a: seq<bv8>, b: seq<bv8>, lo: nat, hi: nat)
    requires lo <= hi <= |a|
    ensures (a + b)[lo..hi] == a[lo..hi]
  {
  }

  lemma SliceRight(a: seq<bv8>, b: seq<bv8>, lo: nat)
    requires lo == |a|
    ensures (a + b)[lo..lo + |b|] == b
  {
  }

  /** Number of image rows the loop emits before `length` runs out. */
  function ImageRowCount(height: nat, length: int): nat
  {
    if length - 1 <= 0 then 0 else Min(height, length - 1)
  }

  /** Number of blank rows the trailing loop adds: what is left of `length`. */
  function PaddingRowCount(height: nat, length: int): nat
  {
    if height < length then length - height else 0
  }

  function ImageRow(src: Image, offset: nat, i: int): seq<bv8>
  {
    RowHeader + PackRow(ScanRow(src, offset, src.bounds.min.y + i))
  }

  function ImageRows(src: Image, offset: nat, n: nat): (rows: seq<seq<bv8>>)
    ensures |rows| == n
    ensures forall i :: 0 <= i < n ==> |rows[i]| == RowSize
  {
    seq(n, i requires 0 <= i < n => ImageRow(src, offset, i))
  }

  function PaddingRows(n: nat): (rows: seq<seq<bv8>>)
    ensures |rows| == n
    ensures forall i :: 0 <= i < n ==> |rows[i]| == RowSize
  {
    seq(n, _ => RowHeader + BlankRow)
  }

  function BitmapRows(src: Image, offset: nat, length: int): seq<seq<bv8>>
  {
    var h := Height(src.bounds);
    ImageRows(src, offset, ImageRowCount(h, length)) + PaddingRows(PaddingRowCount(h, length))
  }

  /** makeBitmapData(src, offset, length). An image shorter than `length`
      is padded to exactly `length` rows; an image at least that tall yields
      only length-1 rows, because the counter is decremented before it is compared with zero. */
  function BitmapData(src: Image, offset: nat, length: int): (data: seq<bv8>)
    ensures |data| == RowSize * (if Height(src.bounds) < length then length else Max(0, length - 1))
  {
    var rows := BitmapRows(src, offset, length);
    ConcatLength(rows, RowSize);
    Concat(rows)
  }

  /** Every row starts with the header; image rows carry the packed scan of
      image row min.y+i, padding rows carry 90 zero bytes. */
  lemma BitmapRowLayout(src: Image, offset: nat, length: int, i: nat)
    requires i < |BitmapRows(src, offset, length)|
    ensures RowSize * i + RowSize <= |BitmapData(src, offset, length)|
    ensures BitmapData(src, offset, length)[RowSize * i .. RowSize * i + 3] == RowHeader
    ensures i < ImageRowCount(Height(src.bounds), length) ==>
      BitmapData(src, offset, length)[RowSize * i + 3 .. RowSize * i + RowSize]
        == PackRow(ScanRow(src, offset, src.bounds.min.y + i))
    ensures i >= ImageRowCount(Height(src.bounds), length) ==>
      BitmapData(src, offset, length)[RowSize * i + 3 .. RowSize * i + RowSize] == BlankRow
  {
    var rows := BitmapRows(src, offset, length);
    ConcatSlice(rows, RowSize, i);
    var row := BitmapData(src, offset, length)[RowSize * i .. RowSize * i + RowSize];
    assert row == rows[i];
    assert BitmapData(src, offset, length)[RowSize * i .. RowSize * i + 3] == row[..3];
    assert BitmapData(src, offset, length)[RowSize * i + 3 .. RowSize * i + RowSize] == row[3..];
  }

  /** Raster pin p of emitted image row i (byte p/8, bit 7-p%8 of the row's
      data) is set exactly when p lies in [offset, min(720, offset+width)) and
      the pixel at column max.x-1-(p-offset) is pure black and not transparent. */
  lemma BitmapPin(src: Image, offset: nat, length: int, i: nat, p: nat)
    requires i < ImageRowCount(Height(src.bounds), length)
    requires p < Media.HeadPins
    ensures RowSize * i + 3 + p / 8 < |BitmapData(src, offset, length)|
    ensures Bit(BitmapData(src, offset, length)[RowSize * i + 3 + p / 8], 7 - p % 8)
      <==> (offset <= p < offset + Width(src.bounds)
            && IsMark(src.at(src.bounds.max.x - 1 - (p - offset), src.bounds.min.y + i)))
  {
    BitmapRowLayout(src, offset, length, i);
    var data := BitmapData(src, offset, length);
    var packed := PackRow(ScanRow(src, offset, src.bounds.min.y + i));
    assert data[RowSize * i + 3 .. RowSize * i + RowSize] == packed;
    assert data[RowSize * i + 3 + p / 8] == packed[p / 8];
  }

  /** The off-by-one: when the image is at least as tall as `length` >= 1,
      one row fewer than `length` is emitted, all of them image rows. On
      continuous tape `length` is the image height, so its last row is lost. */
  lemma {:induction false} TallImageLosesRow(src: Image, offset: nat, length: int)
    requires 1 <= length <= Height(src.bounds)
    ensures |BitmapRows(src, offset, length)| == length - 1
    ensures ImageRowCount(Height(src.bounds), length) == length - 1
    ensures |BitmapData(src, offset, length)| == RowSize * (length - 1)
  {
  }

  /** Rows of the corrected encoder: test the counter before decrementing it. */
  function IntendedImageRowCount(height: nat, length: int): nat
  {
    if length <= 0 then 0 else Min(height, length)
  }

  /** makeBitmapData as evidently intended: exactly `length` rows for any
      positive `length`, the first min(height, length) of them image rows. */
  function BitmapDataIntended(src: Image, offset: nat, length: int): (data: seq<bv8>)
    ensures |data| == RowSize * Max(0, length)
  {
    var h := Height(src.bounds);
    var rows := ImageRows(src, offset, IntendedImageRowCount(h, length)) + PaddingRows(PaddingRowCount(h, length));
    ConcatLength(rows, RowSize);
    Concat(rows)
  }

  /** The corrected encoder keeps every image row when the label is long
      enough, and agrees with the original whenever the image is shorter. */
  lemma {:induction false} IntendedKeepsRows(src: Image, offset: nat, length: int)
    ensures Height(src.bounds) <= length ==> IntendedImageRowCount(Height(src.bounds), length) == Height(src.bounds)
    ensures Height(src.bounds) < length ==> BitmapDataIntended(src, offset, length) == BitmapData(src, offset, length)
  {
  }

  /** The pin loop of makeBitmapData for one row. `pixels` is the buffer left
      over from the previous row; the pins outside the scanned strip are
      still false there because no row ever writes them. */
  method ScanInto(src: Image, offset: nat, y: int, pixels: seq<bool>) returns (out: seq<bool>)
    requires |pixels| == Media.HeadPins
    requires forall p :: 0 <= p < Media.HeadPins && !(offset <= p < offset + Width(src.bounds)) ==> !pixels[p]
    ensures out == ScanRow(src, offset, y)
  {
    out := pixels;
    var off := offset;
    var x := src.bounds.max.x - 1;
    while x >= src.bounds.min.x
      invariant |out| == Media.HeadPins
      invariant off == offset + (src.bounds.max.x - 1 - x)
      invariant off - offset <= Width(src.bounds)
      invariant forall p :: offset <= p < off && p < Media.HeadPins ==> out[p] == Marked(src, offset, y, p)
      invariant forall p :: 0 <= p < Media.HeadPins && !(offset <= p < offset + Width(src.bounds)) ==> !out[p]
      decreases x - src.bounds.min.x
    {
      if off >= Media.HeadPins {
        break;
      }
      out := out[off := IsMark(src.at(x, y))];
      off := off + 1;
      x := x - 1;
    }
    assert off >= Media.HeadPins || off == offset + Width(src.bounds);
    assert forall p :: 0 <= p < Media.HeadPins ==> out[p] == ScanRow(src, offset, y)[p];
  }

  /** The inner bit loop of makeBitmapData: one byte from pins base .. base+7. */
  method PackByte(pixels: seq<bool>, base: nat) returns (b: bv8)
    requires base + 8 <= |pixels|
    ensures b == PackBits(pixels[base .. base + 8])
  {
    b := 0;
    var j := 0;
    while j < 8
      invariant 0 <= j <= 8
      invariant b == PackBits(pixels[base .. base + j])
    {
      assert pixels[base .. base + j + 1][..j] == pixels[base .. base + j];
      b := b << 1;
      if pixels[base + j] {
        b := b | 1;
      }
      j := j + 1;
    }
  }

  /** The byte loop of makeBitmapData for one row. */
  method PackInto(pixels: seq<bool>) returns (row: seq<bv8>)
    requires |pixels| == Media.HeadPins
    ensures row == PackRow(pixels)
  {
    row := [];
    var i := 0;
    while i < RowBytes
      invariant 0 <= i <= RowBytes
      invariant |row| == i
      invariant forall t :: 0 <= t < i ==> row[t] == PackBits(pixels[8 * t .. 8 * t + 8])
    {
      var b := PackByte(pixels, 8 * i);
      row := row + [b];
      i := i + 1;
    }
    assert forall t :: 0 <= t < RowBytes ==> row[t] == PackRow(pixels)[t];
  }

  lemma {:induction false} ConcatAppend(a: seq<seq<bv8>>, b: seq<seq<bv8>>)
    ensures Concat(a + b) == Concat(a) + Concat(b)
    decreases |b|
  {
    if |b| > 0 {
      var init := b[..|b| - 1];
      assert a + b == (a + init) + [b[|b| - 1]];
      ConcatSnoc(a + init, b[|b| - 1]);
      ConcatAppend(a, init);
    } else {
      assert a + b == a;
    }
  }

  /** The row loop of makeBitmapData: it returns the image rows and what is
      left of `length` when it stops. */
  method EncodeImageRows(src: Image, offset: nat, length: int) returns (data: seq<bv8>, remaining: int)
    ensures data == Concat(ImageRows(src, offset, ImageRowCount(Height(src.bounds), length)))
    ensures Max(0, remaining) == PaddingRowCount(Height(src.bounds), length)
  {
    var bounds := src.bounds;
    var pixels := seq(Media.HeadPins, _ => false);
    remaining := length;
    data := [];
    var y := bounds.min.y;
    while y < bounds.max.y
      invariant bounds.min.y <= y
      invariant y - bounds.min.y <= Height(bounds)
      invariant remaining == length - (y - bounds.min.y)
      invariant y == bounds.min.y || remaining >= 1
      invariant ClearOutside(src, offset, pixels)
      invariant data == Concat(ImageRows(src, offset, y - bounds.min.y))
    {
      remaining := remaining - 1;
      if remaining <= 0 {
        break;
      }
      var row;
      row, pixels := EncodeRow(src, offset, y, pixels);
      ghost var n := y - bounds.min.y;
      ImageRowsSnoc(src, offset, n);
      ConcatSnoc(ImageRows(src, offset, n), ImageRow(src, offset, n));
      data := data + row;
      y := y + 1;
    }
  }

  /** The pin buffer between rows: 720 pins, clear outside the scanned strip. */
  predicate ClearOutside(src: Image, offset: nat, pixels: seq<bool>)
  {
    |pixels| == Media.HeadPins
    && forall p :: 0 <= p < Media.HeadPins && !(offset <= p < offset + Width(src.bounds)) ==> !pixels[p]
  }

  /** One pass of the row loop: scan the row into the buffer, then pack it. */
  method EncodeRow(src: Image, offset: nat, y: int, pixels: seq<bool>) returns (row: seq<bv8>, out: seq<bool>)
    requires ClearOutside(src, offset, pixels)
    ensures row == ImageRow(src, offset, y - src.bounds.min.y)
    ensures ClearOutside(src, offset, out)
  {
    out := ScanInto(src, offset, y, pixels);
    var packed := PackInto(out);
    row := RowHeader + packed;
  }

  lemma ImageRowsSnoc(src: Image, offset: nat, n: nat)
    ensures ImageRows(src, offset, n + 1) == ImageRows(src, offset, n) + [ImageRow(src, offset, n)]
  {
  }

  /** The trailing loop of makeBitmapData: a blank row while `remaining` is positive. */
  method AppendBlankRows(data: seq<bv8>, remaining: int) returns (out: seq<bv8>)
    ensures out == data + Concat(PaddingRows(Max(0, remaining)))
  {
    out := data;
    var left := remaining;
    ghost var done: nat := 0;
    while left > 0
      invariant left > 0 ==> done + left == remaining
      invariant left <= 0 ==> done == Max(0, remaining)
      invariant out == data + Concat(PaddingRows(done))
    {
      assert PaddingRows(done + 1) == PaddingRows(done) + [RowHeader + BlankRow];
      ConcatSnoc(PaddingRows(done), RowHeader + BlankRow);
      out := out + RowHeader + BlankRow;
      left := left - 1;
      done := done + 1;
    }
  }

  /** makeBitmapData, loop for loop: decrement `length`, stop once it is no
      longer positive, scan and pack the row; then pad while `length` stays
      positive. It computes exactly BitmapData. */
  method EncodeBitmap(src: Image, offset: nat, length: int) returns (data: seq<bv8>)
    ensures data == BitmapData(src, offset, length)
  {
    var rows, remaining := EncodeImageRows(src, offset, length);
    data := AppendBlankRows(rows, remaining);
    var h := Height(src.bounds);
    ConcatAppend(ImageRows(src, offset, ImageRowCount(h, length)), PaddingRows(PaddingRowCount(h, length)));
  }
}
