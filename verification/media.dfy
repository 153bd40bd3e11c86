/** The media catalog: physical tape or label size in millimetres mapped to
    print geometry in 300 dpi pins ("dots"). */
module Media {
  import opened Wrappers

  /** Width of the print head in pins; one raster row covers all of them. */
  const HeadPins: int := 720

  datatype MediaSize = MediaSize(widthMM: int, lengthMM: int)

  /** `printAreaLength` is the die-cut label length in pins, or 0 for
      continuous tape whose length follows the image. */
  datatype MediaInfo = MediaInfo(sideMarginPins: int, printAreaPins: int, printAreaLength: int)

  /** The catalog, entry for entry as the driver lists it. */
  const Catalog: map<MediaSize, MediaInfo> := map[
    // Continuous length tape
    MediaSize(12, 0) := MediaInfo(29, 106, 0),
    MediaSize(29, 0) := MediaInfo(6, 306, 0),
    MediaSize(38, 0) := MediaInfo(12, 413, 0),
    MediaSize(50, 0) := MediaInfo(12, 554, 0),
    MediaSize(54, 0) := MediaInfo(0, 590, 0),
    MediaSize(62, 0) := MediaInfo(12, 696, 0),
    // Die-cut labels
    MediaSize(17, 54) := MediaInfo(0, 165, 566),
    MediaSize(17, 87) := MediaInfo(0, 165, 956),
    MediaSize(23, 23) := MediaInfo(42, 236, 202),
    MediaSize(29, 42) := MediaInfo(6, 306, 425),
    MediaSize(29, 90) := MediaInfo(6, 306, 991),
    MediaSize(38, 90) := MediaInfo(12, 413, 991),
    MediaSize(39, 48) := MediaInfo(6, 425, 495),
    MediaSize(52, 29) := MediaInfo(0, 578, 271),
    MediaSize(54, 29) := MediaInfo(59, 602, 271),
    MediaSize(60, 86) := MediaInfo(24, 672, 954),
    MediaSize(62, 29) := MediaInfo(12, 696, 271),
    MediaSize(62, 100) := MediaInfo(12, 696, 1109),
    // Die-cut diameter labels
    MediaSize(12, 12) := MediaInfo(113, 94, 94),
    MediaSize(24, 24) := MediaInfo(42, 236, 236),
    MediaSize(58, 58) := MediaInfo(51, 618, 618)
  ]

  /** GetMediaInfo: exact-pair lookup, no interpolation. Every entry fits the
      print head, and it is continuous (length 0 in pins) exactly when the
      label length in millimetres is 0. */
  function GetMediaInfo(widthMM: int, lengthMM: int): (r: Option<MediaInfo>)
    ensures r.Some? <==> MediaSize(widthMM, lengthMM) in Catalog
    ensures r.Some? ==> 0 <= r.value.sideMarginPins && 0 < r.value.printAreaPins
    ensures r.Some? ==> r.value.sideMarginPins + r.value.printAreaPins <= HeadPins
    ensures r.Some? ==> (r.value.printAreaLength == 0 <==> lengthMM == 0)
    ensures r.Some? ==> 0 <= r.value.printAreaLength
    ensures r.Some? ==> 0 < widthMM < 256 && 0 <= lengthMM < 256
  {
    var key := MediaSize(widthMM, lengthMM);
    if key in Catalog then Some(Catalog[key]) else None
  }

  /** Sample lookups: the two 29 mm media and pairs that are not listed. */
  lemma CatalogExamples()
    ensures GetMediaInfo(29, 90) == Some(MediaInfo(6, 306, 991))
    ensures GetMediaInfo(29, 0) == Some(MediaInfo(6, 306, 0))
    ensures GetMediaInfo(29, 100) == None
    ensures GetMediaInfo(90, 29) == None
  {
  }
}
