# sklad core, modelled in Dafny

sklad is a small home-inventory web application with a Brother QL label
printer driver. This project models its core and proves properties of the
model.

**Printer driver (package `ql`)**
- The media catalog.
- The raster encoder that turns an image into 93-byte printer rows.
- The fixed-layout print job.
- The IEEE 1284 Device ID parser.
- The 32-byte status record and its classification.
- The Linux conversation with the printer:
  - discovery;
  - initialisation;
  - status polling;
  - the print loop.

**Image wrappers (package `imgutil`)**
- Integer scaling.
- The left rotation.

**BDF font reader (package `bdf`)**
- The line tokenizer.
- The parser of STARTFONT, FONT, FONTBOUNDINGBOX, METRICSSET, DWIDTH, properties and characters.
- Glyph pixels.
- Fallback selection.
- String bounds.

**Inventory database (`cmd/sklad/db.go`)**
- Series and containers, with four indexes.
- The create, update and remove operations, and the invariants they keep:
  - unique IDs;
  - existing parents;
  - no container inside itself.
- Automatic numbering.
- The two searches.
- Load-time validation.

**How the model is written**

Everything is modelled as immutable data and pure functions:
- Bytes are `bv8`.
- An image is a colour function over a rectangle.
- The printer device is a script of read and write outcomes. An operation whose script runs out is `Blocked`: the Go driver would still be waiting on the device.
- Each `*Container` of the Go code is a `Ref` into a heap map, so a stale index entry can be expressed.
- Every Go error return or panic is a `Result`, `Option` or error field.

**Modules, one file each**

| Module | What it holds |
|---|---|
| `Wrappers` | Option and Result. |
| `Bits` | Bits, population count, little-endian, bytes read as text one character each. |
| `Decimal` | `strconv.Atoi` and `%d`. |
| `Imaging` | The `image` types used. |
| `StatusRecord` | The status record. |
| `Media` | The media catalog. |
| `Raster` | makeBitmapData. |
| `Job` | makePrintData. |
| `DeviceId` | The Device ID parser. |
| `Driver` | The printer conversation. |
| `ImgUtil` | The image wrappers. |
| `BdfTokenize` | The BDF tokenizer. |
| `BdfParse` | The BDF parser. |
| `BdfWrite` | A BDF writer, used only to prove parse round trips. |
| `Bdf` | Glyphs and fonts. |
| `ContainerTree` | Parent chains. |
| `Inventory` | The inventory operations. |
| `InventoryValid` | Invariant preservation. |
| `InventoryLoad` | loadDatabase, and the commit snapshot. |
| `InventorySearch` | The two searches. |

**Where the model departs from the repository's texts**
- Two snapshots of package `ql` are kept.
  - The device conversation follows `ql/ql_linux.go`.
  - The status accessors follow `ql/status.go`. `ql/ql.go` repeats them at lines 410-583.
  - The older `Open` and `Print` at ql/ql.go:118-406 are not modelled.
- `Print` in `ql/ql_linux.go` calls a two-argument `makePrintData(status, image)` that returns nil for unknown media. That function is not part of the repository's visible code.
  - `Job.PrintData` is the builder of ql/ql.go:322-375 guarded by the catalog lookup.
  - The builder as written would dereference a nil media entry.
- `FindGlyph`'s comment says its boolean reports the use of the fallback. The code returns true when the rune has its own glyph, and the model follows the code.

## Model

| member | source | states |
|---|---|---|
| Media.GetMediaInfo | ql/ql.go:243-277 | the lookup succeeds exactly for the listed (width, length) pairs; every entry's side margin plus print area fits the 720-pin head, and the print-area length is 0 exactly when the length in millimetres is 0 |
| Media.CatalogExamples | ql/ql.go:246-257 | (29,90) gives {6,306,991}, (29,0) gives {6,306,0}, and (29,100) and (90,29) give nothing |
| Raster.PackRow | ql/ql.go:303-313 | a row of 720 pins packs into 90 bytes, with pin p set exactly when bit 7-p%8 of byte p/8 is set (most significant bit first) |
| Raster.PackBytes | ql/ql.go:304-313 | packing 8n pins gives n bytes, with every pin at bit 7-p%8 of byte p/8 |
| Raster.PackBlank | ql/ql.go:316-317 | an empty row of pins packs to 90 zero bytes, the padding row's payload |
| Raster.BitmapData | ql/ql.go:282-320 | the raster is a whole number of 93-byte rows: L rows when the image is shorter than the target length L, and L-1 otherwise |
| Raster.BitmapRowLayout | ql/ql.go:285-318 | every row starts 'g',0x00,90; image rows carry the packed scan of their image row, and padding rows carry 90 zero bytes |
| Raster.BitmapPin | ql/ql.go:291-313 | pin p of image row i is set iff offset <= p < offset+width and the pixel at column Max.X-1-(p-offset) is black (r = g = b = 0) with non-zero alpha, i.e. not transparent |
| Raster.TallImageLosesRow | ql/ql.go:285-289 | for 1 <= L <= image height only L-1 rows are emitted, all of them image rows (the off-by-one, as written) |
| Raster.BitmapDataIntended | ql/ql.go:282-320 | the corrected encoder emits exactly L rows for every target length L |
| Raster.IntendedKeepsRows | ql/ql.go:285-289 | with the correction, an image no taller than L keeps all its rows, and for shorter images the two encoders agree |
| Raster.ScanInto | ql/ql.go:291-301 | the reverse column scan with its 720-pin stop produces the reference scan row |
| Raster.PackByte | ql/ql.go:305-311 | the shift-or loop over 8 pins computes the reference packed byte |
| Raster.PackInto | ql/ql.go:303-313 | the 90-iteration packing loop produces the reference packed row |
| Raster.EncodeImageRows | ql/ql.go:285-314 | the image-row loop emits the reference image rows and leaves the decremented length at the padding count |
| Raster.EncodeRow | ql/ql.go:291-313 | one image row of the loop is the reference row, and pins outside the image stay clear |
| Raster.AppendBlankRows | ql/ql.go:315-318 | the padding loop appends exactly the reference padding rows |
| Raster.EncodeBitmap | ql/ql.go:282-320 | the loop-based encoder equals the functional reference BitmapData |
| Job.MediaType | ql/ql.go:341-344 | the media type is 0x0b iff the media length is non-zero, else 0x0a |
| Job.FeedMargin | ql/ql.go:358-364 | the feed-margin command is 1b 69 64 then 23 00 for die-cut labels and 00 00 for continuous tape |
| Job.HeaderLayout | ql/ql.go:328-368 | the 40-byte header is raster mode, auto status, print information, auto cut, cut each, cut at end, feed margin, no compression, in that order |
| Job.PrintInfoFields | ql/ql.go:346-348 | print information carries flags 0xC6, media type, width byte 10, length byte 17, dy little-endian over 4 bytes, and two zeros |
| Job.PrintData | ql/ql.go:322-375 | no job for a media pair outside the catalog; otherwise the header for dy, the raster at the side margin for dy lines, and 0x1A, with dy the print-area length or the image height |
| Job.DecodeHeader | ql/ql.go:346-364 | a decoded header is 40 bytes and carries a line count below 2^32 |
| Job.DecodeHeaderOf | ql/ql.go:341-364 | decoding a built header gives back die-cut-ness, width, length and dy modulo 2^32 |
| Job.ContinuousJobShortByOneRow | ql/ql.go:336-339 | on continuous tape the header announces the image height but the job carries one row fewer (as written) |
| Job.PrintDataIntended | ql/ql.go:322-375 | the job built on the corrected encoder: header, L rows, print command |
| Job.IntendedJobMatchesHeader | ql/ql.go:336-371 | with the corrected encoder the job carries exactly dy rows, and all image rows on continuous tape |
| StatusRecord.MediaWidthMM | ql/status.go:12 | the media width is a byte value |
| StatusRecord.MediaLengthMM | ql/status.go:13 | the media length is a byte value |
| StatusRecord.PhaseNumber | ql/status.go:182 | the phase number lies in 0..65535 |
| StatusRecord.AccessorsAreLocal | ql/status.go:12-35 | width, length, type, phase and phase number each depend only on their own bytes (10, 17, 18, 19, 20-21) |
| StatusRecord.PhaseNumberBytes | ql/status.go:182 | the phase number is big-endian over bytes 20 and 21 |
| StatusRecord.Decode | ql/status.go:12-35 | decoding is total on every 32-byte record and gives in-range fields |
| StatusRecord.DecodeEncode | ql/status.go:12-35 | decoding a record written from fields gives those fields back |
| StatusRecord.EncodeDecode | ql/status.go:12-35 | writing a record's own fields over it changes nothing |
| StatusRecord.DecodeDetermines | ql/status.go:12-35 | two records with equal fields that agree elsewhere are equal |
| StatusRecord.DecodeBitfieldErrors | ql/status.go:37-45 | one name per set bit: the count is the population count and every set bit's name is listed |
| StatusRecord.BitfieldOnlySetBits | ql/status.go:37-45 | every listed name is the name of a set bit |
| Bits.SetBitListAscending | ql/status.go:39 | the loop visits bit positions 0 to 7 in increasing order, so the list of set positions is strictly ascending |
| StatusRecord.BitfieldInOrder | ql/status.go:39-43 | the names come out in ascending bit order |
| StatusRecord.Errors | ql/status.go:47-56 | the length is popcount(s[8])+popcount(s[9]), the list is empty iff both bytes are zero, and every set bit's name is present |
| StatusRecord.ErrorsInOrder | ql/status.go:47-56 | the byte-8 names in ascending bit order, then the byte-9 names |
| StatusRecord.QuestionMarkIsBit3 | ql/status.go:48-50 | "?" is listed exactly when bit 3 of byte 8 is set; no bit is suppressed |
| StatusRecord.ClassifyTypeRoundTrip | ql/status.go:17-24 | status types 0x00-0x02 and 0x04-0x06 are named, every other byte keeps its raw value, and the code is recovered |
| StatusRecord.TypeCodeRoundTrip | ql/status.go:17-24 | every classification maps back to itself through its code |
| StatusRecord.ClassifyMediaCodes | ql/status.go:119-128 | 0x0a/0x4a are continuous tape, 0x0b/0x4b die-cut labels, 0x00 no media, anything else the raw byte |
| StatusRecord.ClassifyPhase | ql/status.go:28-33 | phase 0 is receiving and nothing else is; phase 1 is printing and nothing else is; every other byte is kept raw |
| StatusRecord.PhaseRoundTrip | ql/status.go:172-179 | the raw phase byte comes back from its class, and named classes and their codes correspond one to one |
| StatusRecord.ClassifyNotification | ql/status.go:185-194 | notification 0 is not available, 3 is cooling started, 4 is cooling finished, each exactly; every other byte is kept raw |
| StatusRecord.NotificationRoundTrip | ql/status.go:185-194 | the raw notification byte comes back from its class, and named classes and their numbers correspond one to one |
| StatusRecord.ModelName | ql/status.go:76-90 | 0x38 is QL-800, 0x39 QL-810W, 0x41 QL-820NWB, 0x43 QL-1100, 0x44 QL-1110NWB, 0x45 QL-1115NWB, each iff; every other code has no name |
| StatusRecord.ModelNameRoundTrip | ql/status.go:76-90 | each known code comes back from its name, so the six names are distinct |
| DeviceId.ReadDeviceId | ql/ql_linux.go:39-45 | with n = buf[0]*256+buf[1] the ID is buf[2..2+n] when it fits in 1024 bytes, and otherwise all 1022 bytes after the prefix, marked as trimmed |
| DeviceId.Trim | ql/ql.go:73 | trimming removes exactly the leading and trailing cut-set characters |
| DeviceId.Split | ql/ql.go:72 | splitting gives at least one piece and no piece holds the separator |
| DeviceId.JoinSplit | ql/ql.go:72 | joining the pieces of a split gives back the string |
| DeviceId.SplitJoin | ql/ql.go:72 | splitting a join of separator-free pieces gives back the pieces |
| DeviceId.ParseSegment | ql/ql.go:61-62 | an entry has a non-empty key free of ':' and ',' and at least one trimmed value; a segment without ':' gives none |
| DeviceId.ValuesOf | ql/ql.go:72-74 | every comma-separated value is trimmed of ASCII white space |
| DeviceId.ParseFormatEntry | ql/ql.go:61-75 | an entry written as KEY:v1,v2 parses back to itself |
| DeviceId.ColonInValueShiftsKey | ql/ql.go:61-62 | in "k:a:b" the pattern takes "a" as the key and "b" as the value |
| DeviceId.CommaInKeyCutsKey | ql/ql.go:61-62 | in "a,b:x" the key is "b" |
| DeviceId.BlankKeyKeepsOneBlank | ql/ql.go:61-62 | a key of two blanks is kept as the last blank |
| DeviceId.BuildMapLastWins | ql/ql.go:70-76 | a key is mapped iff some entry has it, and a repeated key keeps the value list of its last entry |
| DeviceId.ParseString | ql/ql.go:68-78 | at most one key per ';'-separated segment; every key is mapped to the entry of some segment that parses, and every segment that parses has its key in the map |
| DeviceId.EntriesSource | ql/ql.go:69 | every entry found comes from a segment that parses to it |
| DeviceId.EntriesComplete | ql/ql.go:69 | every segment that parses contributes its entry |
| DeviceId.BuildMapFrom | ql/ql.go:70-76 | every key is paired with the value list of one of the entries, and every entry's key is mapped |
| DeviceId.ParseStringShape | ql/ql.go:61-76 | every key of a parsed ID is non-empty and free of ':' and ',' and has at least one value, each trimmed of ASCII white space |
| DeviceId.Parse | ql/ql.go:68-78 | on the ID bytes read as Latin-1, the same shape: non-empty separator-free keys, each with at least one trimmed value |
| DeviceId.ParseFormatId | ql/ql.go:68-78 | parsing a well-formed "K:v,...;" string gives the map of its entries |
| DeviceId.Find | ql/ql.go:80-88 | the full key first, then the abbreviation, then nothing |
| DeviceId.FindFirst | ql/ql.go:90-95 | the first value found, or "" |
| DeviceId.Compatible | ql/ql.go:107-114 | compatible iff "PT-CBP" is among the COMMAND SET / CMD values |
| DeviceId.FindFormatId | ql/ql.go:68-88 | on an ID written from entries, the lookup gives the values of the last entry with the full key, else of the last one with the abbreviation, else nothing |
| DeviceId.FindFirstFormatId | ql/ql.go:68-95 | on such an ID, the first value of that entry, or "" when neither key occurs |
| DeviceId.CompatibleFormatId | ql/ql.go:68-114 | such an ID is compatible iff PT-CBP is among the values of the last COMMAND SET entry, or of the last CMD entry when there is none, and never when neither occurs |
| Driver.Write | ql/ql_linux.go:100-107 | a write consumes one write outcome; a failed write sends nothing and reads are untouched |
| Driver.Zeros | ql/ql_linux.go:99 | the invalidate block is 400 zero bytes |
| Driver.FirstSettling | ql/ql_linux.go:138-152 | the first read that ends a poll: data, an error, or an end-of-file past the timeout |
| Driver.PollReads | ql/ql_linux.go:135-153 | a poll is decided by the first settling read; earlier end-of-file reads only retry |
| Driver.Received | ql/ql_linux.go:126-131 | a received status becomes the last status and is handed to the callback exactly once, if one is installed |
| Driver.Poll | ql/ql_linux.go:135-153 | a full read updates the last status; a failed poll leaves the printer unchanged; nothing is written |
| Driver.UpdateStatus | ql/ql_linux.go:157-169 | blocked iff the script runs out before a write outcome or a settling read; a failed write returns its error with the printer and reads untouched; after ESC i S is written, the settling read decides: a full status is received and succeeds, any other outcome returns that read's error and clears the last status; success iff the write succeeds and the settling read is a full status |
| Driver.FirstEof | ql/ql_linux.go:114-118 | the position of the first end-of-file read |
| Driver.DrainStopsAtFirstEof | ql/ql_linux.go:113-118 | the drain discards reads up to and including the first end-of-file, read errors included |
| Driver.Initialize | ql/ql_linux.go:97-121 | blocked iff the script runs out before both write outcomes or, after two good writes, holds no end-of-file; a failed first write returns its error having sent nothing; a failed second write returns its error having sent only the 400 zero bytes; success iff both writes succeed and an end-of-file arrives, and then the reads up to it are consumed |
| Driver.FirstDecisive | ql/ql_linux.go:188-204 | the first poll outcome that is not a phase change |
| Driver.PrintLoopVerdict | ql/ql_linux.go:188-204 | the print loop's result is decided by the first poll outcome that is not a phase change |
| Driver.PrintLoopSuccess | ql/ql_linux.go:194-198 | the loop succeeds only on a printing-completed status |
| Driver.Print | ql/ql_linux.go:175-205 | unknown media gives the unknown-media error with nothing written; a blocked write blocks; a failed write returns its error with the device after that write; after a good write the result is decided by the first poll outcome that is not a phase change (blocked iff there is none); success means the whole job was written and printing completed |
| Driver.OpenedBetween | ql/ql_linux.go:70-86 | the candidates in a range that were opened, in order |
| Driver.Open | ql/ql_linux.go:64-94 | the first candidate that opens, has an untrimmed ID and is compatible is chosen, named by FindFirst of MANUFACTURER/MFG and MODEL/MDL; each opened and rejected candidate before it is closed; a glob failure is the only error |
| Driver.OpenFromSpec | ql/ql_linux.go:70-93 | the candidate loop from any position picks the first qualifying candidate and closes the opened ones it skips |
| ImgUtil.GoDiv | imgutil/imgutil.go:34 | the quotient's magnitude is the quotient of the magnitudes, and it is negative only when exactly one operand is |
| ImgUtil.GoDivTruncates | imgutil/imgutil.go:34 | q*b lies on the side of zero that a lies on, no further out than a, and less than one divisor short of it: truncation toward zero |
| ImgUtil.ScaleAxisIsFloor | imgutil/imgutil.go:27-35 | the negative-coordinate adjustment turns truncating division into floor division |
| ImgUtil.ScaleInBounds | imgutil/imgutil.go:20-35 | the scaled bounds multiply all four coordinates, and every point inside them reads a point inside the source |
| ImgUtil.ScaleCoversSource | imgutil/imgutil.go:20-35 | every source point has a scaled point inside the bounds that reads it back |
| ImgUtil.Scaled | imgutil/imgutil.go:9-35 | the scaled image keeps the colour model and reads the source at (floor(x/s), floor(y/s)) |
| ImgUtil.RotateInBounds | imgutil/imgutil.go:48-57 | the rotated bounds swap width and height, every point inside them reads inside the source, and every source point appears |
| ImgUtil.Rotated | imgutil/imgutil.go:38-57 | the rotated image keeps the colour model and reads the source at (-y, x) |
| Bits.Latin1 | bdf/bdf.go:93-99 | every byte becomes the character of the same code; the device-ID parser reads its bytes the same way (ql/ql.go:70) |
| Bits.Latin1Injective | bdf/bdf.go:93-99 | different lines stay different |
| BdfTokenize.Finish | bdf/bdf.go:147-153 | the end of a line fails exactly inside an open quote, and otherwise keeps the tokens so far |
| BdfTokenize.RunAppend | bdf/bdf.go:105-146 | the tokenizer reads a line character by character: running on a+b is running on a, then on b |
| BdfTokenize.TokenizeUnquoted | bdf/bdf.go:127-153 | without quotes, tokens are the blank-separated words; no empty token, nothing for a blank line |
| BdfTokenize.TokenizeComment | bdf/bdf.go:129-136 | after a leading COMMENT, quotes are ordinary characters |
| BdfTokenize.TokenizeQuoteAll | bdf/bdf.go:107-126 | words written quoted, with "" for each quote, read back as exactly those tokens, empty ones included |
| BdfTokenize.TokenizeUnterminated | bdf/bdf.go:147-148 | a quoted string left open is an error |
| BdfTokenize.EmptyQuotedToken | bdf/bdf.go:150-152 | "" alone yields one empty token |
| BdfTokenize.QuoteThenText | bdf/bdf.go:116-118 | a non-blank character after a closing quote continues the token |
| BdfParse.ReadLine | bdf/bdf.go:173-193 | the next line with tokens, after skipping empty ones, or the end of input; a tokenizer error is an error |
| BdfParse.ReadNumber | bdf/bdf.go:195-204 | reads the second token as an integer; fewer than two tokens or a non-integer fail |
| BdfParse.ReadBBX | bdf/bdf.go:229-247 | with w,h >= 0 the box is Min=(x,-(y+h)), Max=(x+w,-y); fewer than five tokens, non-integers or negative sizes fail |
| BdfParse.HexRoundTrip | bdf/bdf.go:254 | hex decoding reads back hex encoding |
| BdfParse.Rune | bdf/bdf.go:283-284 | an encoding becomes a 32-bit rune, unchanged when it fits |
| BdfParse.ParseProperties | bdf/bdf.go:206-215 | properties change only the default character |
| BdfParse.CharStep | bdf/bdf.go:252-274 | inside BITMAP a row keeps the box; ENDCHAR ends the character |
| BdfParse.StoreGlyph | bdf/bdf.go:276-288 | stored iff the row count is the box height, then the bitmap fits the box; stored under its rune iff the encoding is non-negative, and the fallback iff the encoding is DEFAULT_CHAR |
| BdfParse.ParseChar | bdf/bdf.go:249-289 | a parsed character leaves every stored glyph's bitmap fitting its box |
| BdfParse.FontStep | bdf/bdf.go:300-323 | ENDFONT ends the font, METRICSSET 1 is refused, and FONT needs and sets a name |
| BdfParse.Header | bdf/bdf.go:294-299 | the header is one line of exactly STARTFONT 2.1 or STARTFONT 2.2 |
| BdfParse.ParseLines | bdf/bdf.go:293-331 | a parsed font has a good header, a name, at least one glyph, and only glyphs whose bitmaps fit |
| BdfParse.NewFromBdf | bdf/bdf.go:333-353 | on the file's lines read as Latin-1 and tokenized: a loaded font has a name, at least one glyph and only glyphs whose bitmaps fit; an empty file is refused with an invalid header |
| BdfWrite.ReadBBXWritten | bdf/bdf.go:229-247 | a box written as BBX w h x y reads back as that box |
| BdfWrite.ParseCharWritten | bdf/bdf.go:249-289 | a character written out parses back to its glyph under its rune |
| BdfWrite.GlyphMapLastWins | bdf/bdf.go:283-285 | a rune defined twice keeps its last glyph |
| BdfWrite.ParseFontLines | bdf/bdf.go:293-331 | a font written out parses back to the same name and glyphs |
| Bdf.Stride | bdf/bdf.go:40 | the stride is the number of bytes covering the width, (dx+7)/8 |
| Bdf.GlyphAt | bdf/bdf.go:31-45 | a pixel is opaque or transparent, and opaque only inside the bounds |
| Bdf.GlyphAtBit | bdf/bdf.go:40-44 | inside the bounds the bitmap index is in range, and the pixel is opaque iff bit 7-x%8 of byte y*stride+x/8 is set |
| Bdf.PackGlyph | bdf/bdf.go:258-278 | a glyph packed from rows of pixels has a bitmap that fits its box |
| Bdf.PackedInside | bdf/bdf.go:31-45 | a packed glyph is opaque exactly at its set pixels |
| Bdf.FindGlyph | bdf/bdf.go:58-63 | the flag is true iff the rune has its own glyph, which is returned; otherwise the fallback is returned |
| Bdf.BoundStringAdvance | bdf/bdf.go:78-89 | the advance is the sum of the advances of the glyphs used |
| Bdf.BoundStringCovers | bdf/bdf.go:83-87 | the bounds hold every placed glyph box |
| Bdf.BoundStringCoversInk | bdf/bdf.go:78-89 | every opaque pixel of the drawn string lies within the bounds |
| Bdf.BoundStringEmpty | bdf/bdf.go:78-89 | when every glyph box is empty, so are the bounds |
| Bdf.BoundStringLeast | bdf/bdf.go:78-89 | any rectangle holding every placed glyph box holds the bounds, so the bounds are the smallest such rectangle |
| Decimal.AtoiFormat | cmd/sklad/db.go:34 | strconv.Atoi reads back every int64 written with %d |
| Decimal.FormatDigits | cmd/sklad/db.go:34 | %d is the only canonical decimal form of a number |
| Inventory.Without | cmd/sklad/db.go:118-125 | filtering removes exactly the element, keeps the others and changes nothing when it is absent |
| Inventory.SeriesApart | cmd/sklad/db.go:33-35 | two containers with the same number and the same ID are in the same series |
| Inventory.SeriesCreate | cmd/sklad/db.go:127-137 | an empty prefix or an existing one is refused with nothing changed; otherwise the series is appended and indexed |
| Inventory.SeriesUpdate | cmd/sklad/db.go:139-147 | a prefix change is refused with nothing changed; otherwise only the series record is replaced |
| Inventory.SeriesRemove | cmd/sklad/db.go:149-159 | a series with members is refused; otherwise it leaves the series list and both series indexes, and the others stay |
| Inventory.SeriesCreateValid | cmd/sklad/db.go:127-137 | creating a series keeps the database valid |
| Inventory.SeriesUpdateValid | cmd/sklad/db.go:139-147 | updating a series keeps the database valid |
| Inventory.SeriesRemoveValid | cmd/sklad/db.go:149-159 | removing a series keeps the database valid |
| Inventory.FreeAfter | cmd/sklad/db.go:182-191 | the number picked is the smallest after the counter whose ID is free |
| Inventory.ContainerCreate | cmd/sklad/db.go:179-205 | refused with no-such-series iff the series is unknown, with already-exists iff the series is known and the (possibly numbered) ID is taken, and with no-such-container iff the ID is free and a non-empty parent is not indexed; number 0 takes the smallest free number after the counter, which advances even on a later refusal; success appends and indexes the container everywhere |
| Inventory.UpdateRefusalMeans | cmd/sklad/db.go:207-233 | an update passes iff the series exists, the parent exists, a series change has no children, the number is kept, the new ID is free, and a new parent is not the container or below it |
| Inventory.ContainerUpdateAsWritten | cmd/sklad/db.go:207-239 | as written, on any store where the walk, when it runs, ends (cyclic stores included): the checks in Go's order, the walk looking for the updated ID; success replaces the record, moves the container from its old parent's children list to the end of the new one's when the parent changes, and leaves indexContainer, indexMembers, the container list, the series and the prefix as they were |
| Inventory.ContainerUpdate | cmd/sklad/db.go:207-239 | the corrected update: the same checks with the walk looking for the current ID; every index follows the new ID, series and parent, the old ID is dropped, and the series and prefix stay |
| Inventory.ContainerRemove | cmd/sklad/db.go:241-253 | a container with children is refused; otherwise it leaves the list and its ID's entries, with everything else kept |
| ContainerTree.WouldContainMeans | cmd/sklad/db.go:225-232 | on any links where the walk ends, the walk up from the new parent finds the container iff it is the parent or one of the parent's ancestors |
| ContainerTree.AcyclicWalkEnds | cmd/sklad/db.go:228 | without cycles, every walk up from a container ends |
| ContainerTree.SelfLoopNeverEnds | cmd/sklad/db.go:228 | from a container that is its own parent the walk stays put at every step, so it never ends unless it looks for that ID |
| Inventory.WalkableWalksEnd | cmd/sklad/db.go:228 | on a store without cycles every walk ends, whatever it looks for |
| Inventory.SelfLoopHangs | cmd/sklad/db.go:225-232 | an update whose walk runs from a self-parented ID and looks for another ID does not end |
| ContainerTree.LoopFreeIffAcyclic | cmd/sklad/db.go:337-348 | the per-container walk with a visited set succeeds for all containers iff no container is its own ancestor |
| ContainerTree.AcyclicAfterRelink | cmd/sklad/db.go:225-236 | moving a container under a parent that is not below it keeps the tree acyclic |
| InventoryValid.ContainerCreateValid | cmd/sklad/db.go:179-205 | creating a container keeps IDs unique, parents existing, indexes exact and the tree acyclic |
| InventoryValid.ContainerRemoveValid | cmd/sklad/db.go:241-253 | removing a container keeps the database valid |
| InventoryValid.ContainerUpdateValid | cmd/sklad/db.go:207-239 | the corrected update keeps the database valid |
| InventoryValid.AsWrittenLosesIndex | cmd/sklad/db.go:234-238 | as written, a successful series change leaves the new ID unindexed and the database invalid |
| InventoryValid.AsWrittenAcceptsOwnIdAsParent | cmd/sklad/db.go:225-238 | as written, moving a childless container to another series under its own current ID is accepted and leaves that ID its own parent, so the links have a cycle; the corrected update refuses it as WouldContainItself |
| InventoryValid.OwnIdRefusals | cmd/sklad/db.go:207-232 | for such an update every check passes when the walk looks for the updated ID, and the walk refuses it when it looks for the current ID |
| InventoryValid.SelfLoopAfter | cmd/sklad/db.go:234-238 | after the update as written, the stale entry for the old ID names a container whose parent is that ID, so the links are cyclic |
| InventoryValid.SelfParentOnExample | cmd/sklad/db.go:225-238 | B1 moved to series C under AB1: accepted as written with parent AB1, refused by the corrected update |
| InventoryValid.AsWrittenThenHangs | cmd/sklad/db.go:225-232 | after the self-parent update as written, the walk from the old ID stays there at every step, so moving any other container under it never returns |
| InventoryValid.UpdateAfterSelfLoopOnExample | cmd/sklad/db.go:207-239 | the cyclic store left by the self-parent update still takes an update whose walk does not run, and it succeeds |
| InventoryValid.DuplicateIdAfterSeriesChange | cmd/sklad/db.go:179-238 | as written: moving container A·B·1 to series C and then creating C with number 1 gives two containers with ID AC1 |
| InventoryValid.NoDuplicateWhenRekeyed | cmd/sklad/db.go:179-238 | with the corrected update the same creation is refused as already existing |
| InventoryLoad.FirstRepeat | cmd/sklad/db.go:311-323 | the index scan finds no repeat iff the keys are distinct, and otherwise the first repeated key |
| InventoryLoad.FirstOrphan | cmd/sklad/db.go:326-335 | none iff every parent is empty or known; otherwise a container with a nonexistent parent |
| InventoryLoad.FirstLoop | cmd/sklad/db.go:339-348 | none iff every container's walk up its parents never revisits an ID |
| InventoryLoad.FirstLoopAcyclic | cmd/sklad/db.go:337-348 | the cycle check passes iff no container is its own ancestor |
| InventoryLoad.Group | cmd/sklad/db.go:333-334 | the children and members indexes list exactly the containers with each key |
| InventoryLoad.Load | cmd/sklad/db.go:296-353 | an empty prefix is refused; a duplicate series names a repeated prefix |
| InventoryLoad.LoadContainers | cmd/sklad/db.go:317-323 | a duplicate container names a repeated ID |
| InventoryLoad.LoadLinked | cmd/sklad/db.go:326-335 | a nonexistent parent names a container whose parent is not an ID |
| InventoryLoad.LoadAcyclic | cmd/sklad/db.go:337-353 | the load succeeds iff the parent links are acyclic, and otherwise reports a cycle |
| InventoryLoad.LoadOk | cmd/sklad/db.go:296-353 | the load succeeds iff the prefix is set, prefixes and IDs are distinct, parents exist and no container contains itself; a loaded database is valid |
| InventoryLoad.Save | cmd/sklad/db.go:255-291 | the snapshot written holds the prefix, the series records and the container records in order |
| InventoryLoad.SavedLoads | cmd/sklad/db.go:255-353 | a database with a prefix, exact series and ID indexes, existing parents and no container inside itself (every valid one) loads back from its snapshot with the same prefix, series list and container under every ID |
| InventorySearch.ContainsMeans | cmd/sklad/db.go:85-86 | substring search agrees with "occurs at some position" |
| InventorySearch.SearchSeries | cmd/sklad/db.go:75-91 | the result is exactly the series whose lowered prefix is the query or whose lowered description contains it, with exact matches first |
| InventorySearch.SearchSeriesDistinct | cmd/sklad/db.go:75-91 | no series is listed twice |
| InventorySearch.SearchContainers | cmd/sklad/db.go:93-109 | the result is exactly the containers whose lowered ID is the query or whose lowered description contains it |
| InventorySearch.SearchContainersShape | cmd/sklad/db.go:93-109 | no repeats, exact ID matches first, and the same containers whatever order the map ranges take |

## Left out

- Device I/O. The ioctl, `_IOC`, file reads and writes, `filepath.Glob`, sleeps and the wall clock are replaced by a script of outcomes. An end-of-file read carries the elapsed time, and the timeout is compared on it.
- Driver.Print: requires a known last status. The Go method dereferences `LastStatus` and would panic without one.
- Closing the chosen printer's file and `Printer.Close` are left out. They have no logic.
- The older `Open`, `Print` and `Status` of ql/ql.go:118-583 are left out. They duplicate the code modelled from `ql/ql_linux.go` and `ql/status.go`.
- `Status.Dump` and `String` output text is left out. Only the classifications they print are modelled.
- `deviceIDRegexp` is modelled per `;` segment, with the regular expression's leftmost-first match worked out by hand. Byte-level RE2 details on non-ASCII input are not modelled.
- DeviceId.ParseString: for arbitrary input it states where each key and value list comes from, not which of several segments with the same key wins. That choice (the last) is stated for well-formed input (DeviceId.ParseFormatId) and by the examples.
- `strings.ToLower` is a parameter of the searches. It is not modelled, because Unicode case mapping is out of scope.
- `strings.Contains` works on characters here. Go works on UTF-8 bytes.
- The order in which a Go map range visits keys is a parameter, constrained only to visit each key once.
- Container `Path` and `Children`, and `Series.Containers`, are left out. They are index lookups used by the web pages.
- dbCommit: modelled only as the snapshot `InventoryLoad.Save` that it would write. The JSON encoding, the log file, fsync and the rename are I/O. A commit failure is returned after the in-memory change has already happened, and the model does not return it.
- loadDatabase opening the file, decoding JSON, loading the label font and opening the log are I/O. They are left out; the BDF parser itself is modelled separately.
- InventoryLoad.SavedLoads: states the same prefix, series and container under every ID. That the rebuilt children and members indexes are exact follows from InventoryLoad.LoadOk, which states that every loaded database is valid.
- InventoryLoad.Load: the ContainsItself error does not carry the ID that the Go message names.
- Error message texts are not modelled, including line numbers in BDF errors. Each error is a constructor.
- `Password` and `BDFPath` are fields the core never reads, so they are left out.
- The `uint` fields `Counter` and `Number` are `nat`. A 64-bit wrap-around of the numbering loop is not modelled.
- BdfParse.ReadBBX: `x+w` and `-(y+h)` (bdf/bdf.go:243-246) are unbounded integers. Go's 64-bit `int` wraps: x = 9223372036854775807 and w = 1 give a negative Max.X in Go, while the model gives 2^63.
- Bdf.GlyphAt: `(dx+7)/8` and `y*stride+offset` (bdf/bdf.go:40-41) are unbounded. Go's 64-bit wrap-around is not modelled; it takes boxes near 2^63 wide.
- Bdf.BoundString: `dot.X += g.advance` (bdf/bdf.go:86) is an unbounded sum. A 64-bit wrap-around after huge advances is not modelled.
- Bdf.BoundString: it takes the string as a sequence of characters. Go's `range` over a string (bdf/bdf.go:83) decodes UTF-8 and turns each invalid byte into U+FFFD. That decoding is not modelled.
- ImgUtil.Scaled: the scaled bounds `r.Min.X*s.Scale` and so on (imgutil/imgutil.go:22-23) are unbounded products. Go's 64-bit wrap-around is not modelled.
- ImgUtil.Rotated: the rotated bounds `-(r.Max.X - 1)` (imgutil/imgutil.go:51) are unbounded. Go's 64-bit wrap-around at the extremes of `int` is not modelled.
- `BDFScale` is clamped to 1 when not positive. Its use in label drawing is out of scope.
- `DrawString`, drawing through `image/draw`, and `label/label.go` are left out. They depend on external libraries.
- `glyph.ColorModel` and `glyph.Bounds` are left out. They are trivial accessors.
- `NewFromBDF` reads lines through `bufio.Scanner`. The model takes the lines as given: its default 64 KiB line limit and I/O errors are not modelled.

## Findings

| source | as written | input that shows it | evidently intended | confidence | as-written member | corrected member |
|---|---|---|---|---|---|---|
| ql/ql.go:285-289 | `length` is decremented before the row is emitted, and the loop stops when it reaches 0, so an image at least L rows tall yields only L-1 rows | continuous tape, where L is the image height: any image of height 1 or more gives one row fewer than the print-information header announces | emit min(height, L) image rows, then pad to exactly L | not executed | Raster.TallImageLosesRow, Job.ContinuousJobShortByOneRow | Raster.IntendedKeepsRows, Job.IntendedJobMatchesHeader |
| cmd/sklad/db.go:225-238 | a series change rewrites the record in place. indexContainer stays under the old ID and indexMembers under the old series. The walk up from the new parent looks for the updated ID, which is not yet indexed | prefix A, container series B number 1: update it to series C, then create series C number 1. Or update it to series C with parent AB1, its own ID; after that, move any other container under AB1 | re-key indexContainer and indexMembers to the new ID and series, and walk looking for the container's current ID | not executed | InventoryValid.DuplicateIdAfterSeriesChange, InventoryValid.AsWrittenLosesIndex, InventoryValid.AsWrittenAcceptsOwnIdAsParent, InventoryValid.SelfParentOnExample, InventoryValid.AsWrittenThenHangs | Inventory.ContainerUpdate, InventoryValid.ContainerUpdateValid, InventoryValid.NoDuplicateWhenRekeyed, InventoryValid.AsWrittenAcceptsOwnIdAsParent, InventoryValid.SelfParentOnExample |

In the second finding:
- The as-written path ends with two containers both identified as AC1.
- The model's corrected update refuses the second creation.
- The Go walk for a new parent looks for the updated ID. When the series changes, that ID is not indexed yet, so the walk misses the container itself. Moving B1 to series C under AB1, its own ID, is accepted. The container is then its own parent through the stale AB1 entry, and a saved database no longer loads.
- After that, the walk for any other container moved under AB1 steps from AB1 to the container's parent, which is AB1 again. It never meets the updated ID, so dbContainerUpdate never returns. Updates whose walk does not run, or whose walk starts elsewhere and ends, still return.
- The corrected walk looks for the container's current ID and refuses that update as WouldContainItself.
