/** makePrintData: the complete raster job for one image on the loaded
    media: a fixed 40-byte command header, the raster rows, and the
    print-with-feed command. */
module Job {
  import opened Wrappers
  import opened Imaging
  import opened Bits
  import opened Media
  import opened Raster
  import opened StatusRecord

  const HeaderSize: int := 40

  /** ESC i a 1: switch to raster mode. */
  const RasterMode: seq<bv8> := [0x1b, 0x69, 0x61, 0x01]
  /** ESC i ! 0: automatic status notification. */
  const AutoStatus: seq<bv8> := [0x1b, 0x69, 0x21, 0x00]
  /** Print-information valid flags: kind, width, length and quality, plus
      recovery. */
  const InfoFlags: bv8 := 0x02 | 0x04 | 0x40 | 0x80
  /** ESC i M 0x40: auto cut. */
  const AutoCut: seq<bv8> := [0x1b, 0x69, 0x4d, 0x40]
  /** ESC i A 1: cut after every label. */
  const CutEach: seq<bv8> := [0x1b, 0x69, 0x41, 0x01]
  /** ESC i K 8: cut at end. */
  const CutAtEnd: seq<bv8> := [0x1b, 0x69, 0x4b, 0x08]
  /** M 0: no compression. */
  const NoCompression: seq<bv8> := [0x4d, 0x00]
  /** Print command with feeding. */
  const PrintWithFeed: bv8 := 0x1a

  /** Media type code: die-cut labels when the loaded media has a length. */
  function MediaType(lengthMM: int): (t: bv8)
    ensures t == 0x0b <==> lengthMM != 0
    ensures t == 0x0a <==> lengthMM == 0
  {
    if lengthMM != 0 then 0x0b else 0x0a
  }

  /** ESC i d: feed margin of 35 dots for die-cut labels, zero otherwise. */
  function FeedMargin(lengthMM: int): (m: seq<bv8>)
    ensures |m| == 5 && m[..3] == [0x1b, 0x69, 0x64]
    ensures lengthMM != 0 ==> m[3..] == [0x23, 0x00]
    ensures lengthMM == 0 ==> m[3..] == [0x00, 0x00]
  {
    [0x1b, 0x69, 0x64] + (if lengthMM != 0 then [0x23, 0x00] else [0x00, 0x00])
  }

  /** ESC i z: the print-information command announcing `dy` raster lines. */
  function PrintInfo(s: Status, dy: int): (c: seq<bv8>)
    ensures |c| == 13
  {
    [0x1b, 0x69, 0x7a, InfoFlags, MediaType(MediaLengthMM(s)),
     LowByte(MediaWidthMM(s)), LowByte(MediaLengthMM(s))]
    + LittleEndian32(dy) + [0x00, 0x00]
  }

  /** The command header of a job for `dy` raster lines. */
  function Header(s: Status, dy: int): (h: seq<bv8>)
    ensures |h| == HeaderSize
  {
    RasterMode + AutoStatus + PrintInfo(s, dy) + AutoCut + CutEach + CutAtEnd
    + FeedMargin(MediaLengthMM(s)) + NoCompression
  }

  /** Raster lines announced and sent: the die-cut label length when the
      media has one, otherwise the image height. */
  function JobLength(info: MediaInfo, src: Image): int
  {
    if info.printAreaLength != 0 then info.printAreaLength else src.bounds.Dy()
  }

  /** makePrintData guarded by the media lookup: no job for unknown media.
      A job is the header, the raster of the image at the media's side
      margin for JobLength lines, and the print command. */
  function PrintData(s: Status, src: Image): (r: Option<seq<bv8>>)
    ensures r.None? <==> GetMediaInfo(MediaWidthMM(s), MediaLengthMM(s)).None?
    ensures r.Some? ==>
      var info := GetMediaInfo(MediaWidthMM(s), MediaLengthMM(s)).value;
      var dy := JobLength(info, src);
      && |r.value| == HeaderSize + |BitmapData(src, info.sideMarginPins, dy)| + 1
      && r.value[..HeaderSize] == Header(s, dy)
      && r.value[HeaderSize .. |r.value| - 1] == BitmapData(src, info.sideMarginPins, dy)
      && r.value[|r.value| - 1] == PrintWithFeed
  {
    match GetMediaInfo(MediaWidthMM(s), MediaLengthMM(s))
    case None => None
    case Some(info) =>
      var dy := JobLength(info, src);
      var header := Header(s, dy);
      var raster := BitmapData(src, info.sideMarginPins, dy);
      var data := header + raster + [PrintWithFeed];
      assert data[..HeaderSize] == header;
      assert data[HeaderSize .. |data| - 1] == raster;
      Some(data)
  }

  /** What the print-information command tells the printer. */
  datatype JobInfo = JobInfo(dieCut: bool, widthMM: int, lengthMM: int, rasterLines: int)

  /** Reads a header back: None unless the fixed commands are in place. */
  function DecodeHeader(h: seq<bv8>): (r: Option<JobInfo>)
    ensures r.Some? ==> |h| == HeaderSize && 0 <= r.value.rasterLines < 0x1_0000_0000
  {
    if |h| != HeaderSize || h[..8] != RasterMode + AutoStatus || h[8..12] != [0x1b, 0x69, 0x7a, InfoFlags]
       || (h[12] != 0x0a && h[12] != 0x0b) || h[19..21] != [0x00, 0x00]
       || h[21..33] != AutoCut + CutEach + CutAtEnd || h[33..36] != [0x1b, 0x69, 0x64]
       || h[38..] != NoCompression
    then None
    else
      var lines := h[15] as int + 0x100 * h[16] as int + 0x1_0000 * h[17] as int + 0x100_0000 * h[18] as int;
      Some(JobInfo(h[12] == 0x0b, h[13] as int, h[14] as int, lines))
  }

  /** Where each command sits in the header. */
  lemma HeaderLayout(s: Status, dy: int)
    ensures var h := Header(s, dy);
      && h[..8] == RasterMode + AutoStatus
      && h[8..21] == PrintInfo(s, dy)
      && h[21..33] == AutoCut + CutEach + CutAtEnd
      && h[33..38] == FeedMargin(MediaLengthMM(s))
      && h[38..] == NoCompression
  {
    var h := Header(s, dy);
    var info := PrintInfo(s, dy);
    var margin := FeedMargin(MediaLengthMM(s));
    assert h == RasterMode + AutoStatus + info + (AutoCut + CutEach + CutAtEnd) + margin + NoCompression;
  }

  /** The fields of the print-information command. */
  lemma PrintInfoFields(s: Status, dy: int)
    ensures var c := PrintInfo(s, dy);
      && c[..4] == [0x1b, 0x69, 0x7a, InfoFlags]
      && c[4] == MediaType(MediaLengthMM(s))
      && c[5] == s[10] && c[6] == s[17]
      && c[7..11] == LittleEndian32(dy)
      && c[11..] == [0x00, 0x00]
  {
    LowByteOfByte(s[10]);
    LowByteOfByte(s[17]);
  }

  /** Four little-endian bytes read back as the line count modulo 2^32. */
  lemma LinesField(h: seq<bv8>, dy: int)
    requires |h| >= 19 && h[15..19] == LittleEndian32(dy)
    ensures h[15] as int + 0x100 * h[16] as int + 0x1_0000 * h[17] as int + 0x100_0000 * h[18] as int
      == dy % 0x1_0000_0000
  {
    var r := LittleEndian32(dy);
    assert h[15] == r[0] && h[16] == r[1] && h[17] == r[2] && h[18] == r[3];
    LittleEndian32RoundTrip(dy);
  }

  /** The header says what was decided: die-cut exactly when the media has a
      length, the media size in millimetres, and the raster line count
      modulo 2^32; the feed margin follows the media kind. */
  lemma DecodeHeaderOf(s: Status, dy: int)
    ensures DecodeHeader(Header(s, dy))
      == Some(JobInfo(MediaLengthMM(s) != 0, MediaWidthMM(s), MediaLengthMM(s), dy % 0x1_0000_0000))
    ensures Header(s, dy)[36..38] == (if MediaLengthMM(s) != 0 then [0x23, 0x00] else [0x00, 0x00])
  {
    var h := Header(s, dy);
    HeaderLayout(s, dy);
    PrintInfoFields(s, dy);
    var c := PrintInfo(s, dy);
    assert h[8..12] == c[..4];
    assert h[12] == c[4] && h[13] == c[5] && h[14] == c[6];
    assert h[15..19] == c[7..11];
    LinesField(h, dy);
    assert h[19..21] == c[11..];
    assert h[33..36] == FeedMargin(MediaLengthMM(s))[..3];
    assert h[36..38] == FeedMargin(MediaLengthMM(s))[3..];
  }

  /** On continuous tape the header announces the image height, but the
      raster carries one row fewer: the last image row is never sent. */
  lemma {:induction false} ContinuousJobShortByOneRow(s: Status, src: Image)
    requires GetMediaInfo(MediaWidthMM(s), MediaLengthMM(s)).Some?
    requires MediaLengthMM(s) == 0
    requires src.bounds.min.y < src.bounds.max.y
    ensures var info := GetMediaInfo(MediaWidthMM(s), MediaLengthMM(s)).value;
      && JobLength(info, src) == Height(src.bounds)
      && |PrintData(s, src).value| == HeaderSize + RowSize * (Height(src.bounds) - 1) + 1
  {
    var info := GetMediaInfo(MediaWidthMM(s), MediaLengthMM(s)).value;
    TallImageLosesRow(src, info.sideMarginPins, Height(src.bounds));
  }

  /** makePrintData with the corrected raster encoder. */
  function PrintDataIntended(s: Status, src: Image): (r: Option<seq<bv8>>)
    ensures r.None? <==> GetMediaInfo(MediaWidthMM(s), MediaLengthMM(s)).None?
    ensures r.Some? ==>
      var info := GetMediaInfo(MediaWidthMM(s), MediaLengthMM(s)).value;
      var dy := JobLength(info, src);
      && |r.value| == HeaderSize + |BitmapDataIntended(src, info.sideMarginPins, dy)| + 1
      && r.value[..HeaderSize] == Header(s, dy)
      && r.value[HeaderSize .. |r.value| - 1] == BitmapDataIntended(src, info.sideMarginPins, dy)
      && r.value[|r.value| - 1] == PrintWithFeed
  {
    match GetMediaInfo(MediaWidthMM(s), MediaLengthMM(s))
    case None => None
    case Some(info) =>
      var dy := JobLength(info, src);
      var header := Header(s, dy);
      var raster := BitmapDataIntended(src, info.sideMarginPins, dy);
      var data := header + raster + [PrintWithFeed];
      assert data[..HeaderSize] == header;
      assert data[HeaderSize .. |data| - 1] == raster;
      Some(data)
  }

  /** With the corrected encoder the raster always holds exactly the number
      of rows the header announces, and on continuous tape every image row. */
  lemma {:induction false} IntendedJobMatchesHeader(s: Status, src: Image)
    requires GetMediaInfo(MediaWidthMM(s), MediaLengthMM(s)).Some?
    requires WellFormed(src.bounds)
    ensures var info := GetMediaInfo(MediaWidthMM(s), MediaLengthMM(s)).value;
      var dy := JobLength(info, src);
      && 0 <= dy
      && |PrintDataIntended(s, src).value| == HeaderSize + RowSize * dy + 1
      && (MediaLengthMM(s) == 0 ==> IntendedImageRowCount(Height(src.bounds), dy) == Height(src.bounds))
  {
    var info := GetMediaInfo(MediaWidthMM(s), MediaLengthMM(s)).value;
    var dy := JobLength(info, src);
    IntendedKeepsRows(src, info.sideMarginPins, dy);
  }
}
