/** A writer of BDF fonts as tokenized lines, and the round trip through the
    parser of bdf/bdf.go: writing glyphs out and parsing the lines back gives
    the font the glyphs describe. */
module BdfWrite {
  import opened Wrappers
  import opened Imaging
  import Decimal
  import Raster
  import opened Bdf
  import opened BdfParse

  /** One glyph as a BDF file describes it: its encoding, its BBX, its
      DWIDTH and its bitmap rows, top row first. */
  datatype CharSpec = CharSpec(encoding: int, bounds: Rect, advance: int, rows: seq<seq<bv8>>)

  predicate InInt64(n: int) { Decimal.MinInt64 <= n <= Decimal.MaxInt64 }

  /** A glyph the parser accepts: a non-negative encoding, every number
      within int64, one row per pixel line and Stride bytes per row. */
  predicate CharSpecOk(c: CharSpec)
  {
    && 0 <= c.encoding <= Decimal.MaxInt64
    && BoxOk(c.bounds)
    && InInt64(c.bounds.Dx()) && InInt64(c.bounds.Dy())
    && InInt64(c.bounds.min.x) && InInt64(-c.bounds.max.y)
    && InInt64(c.advance)
    && |c.rows| == c.bounds.Dy()
    && forall i :: 0 <= i < |c.rows| ==> |c.rows[i]| == Stride(c.bounds.Dx())
  }

  /** The glyph the parser builds from a glyph description. */
  function GlyphOfSpec(c: CharSpec): Glyph
  {
    Glyph(c.bounds, Raster.Concat(c.rows), c.advance)
  }

  /** One bitmap line per row, each a single hexadecimal token. */
  function RowLines(rows: seq<seq<bv8>>): (ls: Lines)
    ensures |ls| == |rows|
  {
    seq(|rows|, i requires 0 <= i < |rows| => Ok([HexEncode(rows[i])]))
  }

  /** How the writer prints a number: any rendering that strconv.Atoi
      reads back, over the whole int64 range (%d is one, FormatIntReadsBack). */
  ghost predicate ReadsBackAll(fmt: int -> string)
  {
    forall n :: InInt64(n) ==> ReadsBackAt(fmt, n)
  }

  predicate ReadsBackAt(fmt: int -> string, n: int)
  {
    Decimal.Atoi(fmt(n)) == Some(n)
  }

  /** The lines of a glyph after STARTCHAR: ENCODING, DWIDTH, BBX, BITMAP,
      the rows, and ENDCHAR. */
  function CharBody(fmt: int -> string, c: CharSpec): Lines
  {
    CharHeadLines(fmt, c) + (RowLines(c.rows) + [Ok(["ENDCHAR"])])
  }

  function CharHeadLines(fmt: int -> string, c: CharSpec): (ls: Lines)
    ensures |ls| == 4
  {
    [ Ok(["ENCODING", fmt(c.encoding)]),
      Ok(["DWIDTH", fmt(c.advance), "0"]),
      Ok(BbxTokens(fmt, c.bounds)),
      Ok(["BITMAP"]) ]
  }

  /** `BBX w h x y`, with y the offset of the bottom edge above the baseline. */
  function BbxTokens(fmt: int -> string, b: Rect): seq<string>
  {
    ["BBX", fmt(b.Dx()), fmt(b.Dy()), fmt(b.min.x), fmt(-b.max.y)]
  }

  function CharLines(fmt: int -> string, c: CharSpec): Lines
  {
    [Ok(["STARTCHAR", "glyph"])] + CharBody(fmt, c)
  }

  function CharsLines(fmt: int -> string, cs: seq<CharSpec>): Lines
    decreases |cs|
  {
    if |cs| == 0 then [] else CharLines(fmt, cs[0]) + CharsLines(fmt, cs[1..])
  }

  /** A whole font: the header, the name, the glyphs and ENDFONT. */
  function FontLines(fmt: int -> string, name: string, cs: seq<CharSpec>): Lines
  {
    [Ok(["STARTFONT", "2.1"]), Ok(["FONT", name])] + (CharsLines(fmt, cs) + [Ok(["ENDFONT"])])
  }

  /** The glyph map the parser fills, one glyph after another: a later glyph
      with the same rune replaces an earlier one. */
  function GlyphMap(m: map<int, Glyph>, cs: seq<CharSpec>): map<int, Glyph>
    decreases |cs|
  {
    if |cs| == 0 then m else GlyphMap(m[Rune(cs[0].encoding) := GlyphOfSpec(cs[0])], cs[1..])
  }

  // ---------------------------------------------------------------------------
  // Lines at a position.

  /** The lines from `pos` on begin with `block`. */
  predicate At(ls: Lines, pos: nat, block: Lines)
  {
    pos + |block| <= |ls| && forall i {:trigger block[i]} :: 0 <= i < |block| ==> ls[pos + i] == block[i]
  }

  lemma AtSplit(ls: Lines, pos: nat, a: Lines, b: Lines)
    requires At(ls, pos, a + b)
    ensures At(ls, pos, a) && At(ls, pos + |a|, b)
  {
    forall i | 0 <= i < |a| ensures ls[pos + i] == a[i] {
      assert (a + b)[i] == a[i];
    }
    forall i | 0 <= i < |b| ensures ls[pos + |a| + i] == b[i] {
      assert (a + b)[|a| + i] == b[i];
    }
  }

  lemma AtIndex(ls: Lines, pos: nat, block: Lines, i: nat)
    requires At(ls, pos, block) && i < |block|
    ensures ls[pos + i] == block[i]
  {
  }

  lemma AtMove(ls: Lines, pos: nat, pos': nat, block: Lines)
    requires At(ls, pos, block) && pos == pos'
    ensures At(ls, pos', block)
  {
  }

  lemma AtWhole(ls: Lines, block: Lines)
    requires ls == block
    ensures At(ls, 0, block)
  {
  }

  /** A line with tokens is read as it stands. */
  lemma ReadLineAt(ls: Lines, pos: nat, t: seq<string>)
    requires pos < |ls| && ls[pos] == Ok(t) && |t| > 0
    ensures ReadLine(ls, pos) == Ok(Line(t, pos + 1))
  {
  }

  // ---------------------------------------------------------------------------
  // One glyph.

  /** A line other than ENDCHAR moves parseChar's loop on by one step. */
  lemma CharLoopContinue(ls: Lines, pos: nat, c: CharState, t: seq<string>)
    requires pos < |ls| && ls[pos] == Ok(t) && |t| > 0 && CharOk(c)
    requires CharStep(t, pos + 1, c).Continue?
    ensures CharStep(t, pos + 1, c).next == pos + 1
    ensures CharLoop(ls, pos, c) == CharLoop(ls, pos + 1, CharStep(t, pos + 1, c).state)
  {
    ReadLineAt(ls, pos, t);
  }

  lemma CharLoopEnd(ls: Lines, pos: nat, c: CharState)
    requires pos < |ls| && ls[pos] == Ok(["ENDCHAR"]) && CharOk(c)
    ensures CharLoop(ls, pos, c) == Ok((c, pos + 1))
  {
    ReadLineAt(ls, pos, ["ENDCHAR"]);
  }

  /** After BITMAP, a row of Stride bytes written in hexadecimal is appended. */
  lemma RowStep(row: seq<bv8>, next: nat, c: CharState)
    requires CharOk(c) && c.inBitmap && |row| == Stride(c.glyph.bounds.Dx())
    ensures CharStep([HexEncode(row)], next, c)
      == Continue(c.(glyph := c.glyph.(bitmap := c.glyph.bitmap + row), rows := c.rows + 1), next)
  {
    var token := HexEncode(row);
    assert token != "ENDCHAR" by {
      assert |token| % 2 == 0;
    }
    HexRoundTrip(row);
  }

  /** The bitmap lines up to ENDCHAR append their bytes, row by row; the
      loop ends after ENDCHAR with one more row counted per line. */
  lemma {:induction false} RowsLoop(ls: Lines, pos: nat, c: CharState, rows: seq<seq<bv8>>, count: int, end: nat)
    requires CharOk(c) && c.inBitmap
    requires forall i :: 0 <= i < |rows| ==> |rows[i]| == Stride(c.glyph.bounds.Dx())
    requires At(ls, pos, RowLines(rows) + [Ok(["ENDCHAR"])])
    requires count == c.rows + |rows| && end == pos + |rows| + 1
    ensures CharLoop(ls, pos, c)
      == Ok((c.(glyph := c.glyph.(bitmap := c.glyph.bitmap + Raster.Concat(rows)), rows := count), end))
    decreases |rows|
  {
    if |rows| == 0 {
      AtIndex(ls, pos, RowLines(rows) + [Ok(["ENDCHAR"])], 0);
      CharLoopEnd(ls, pos, c);
      assert c.glyph.bitmap + [] == c.glyph.bitmap;
    } else {
      var c' := c.(glyph := c.glyph.(bitmap := c.glyph.bitmap + rows[0]), rows := c.rows + 1);
      RowFirst(ls, pos, c, rows, c');
      RowsLoop(ls, pos + 1, c', rows[1..], count, end);
    }
  }

  /** The first bitmap line appends its row and leaves the rest to read. */
  lemma RowFirst(ls: Lines, pos: nat, c: CharState, rows: seq<seq<bv8>>, c': CharState)
    requires CharOk(c) && c.inBitmap && |rows| > 0
    requires forall i :: 0 <= i < |rows| ==> |rows[i]| == Stride(c.glyph.bounds.Dx())
    requires At(ls, pos, RowLines(rows) + [Ok(["ENDCHAR"])])
    requires c' == c.(glyph := c.glyph.(bitmap := c.glyph.bitmap + rows[0]), rows := c.rows + 1)
    ensures CharOk(c') && c'.inBitmap && c'.glyph.bounds == c.glyph.bounds
    ensures At(ls, pos + 1, RowLines(rows[1..]) + [Ok(["ENDCHAR"])])
    ensures CharLoop(ls, pos, c) == CharLoop(ls, pos + 1, c')
    ensures c.glyph.bitmap + Raster.Concat(rows) == c'.glyph.bitmap + Raster.Concat(rows[1..])
  {
    RowLinesSplit(ls, pos, rows);
    RowStep(rows[0], pos + 1, c);
    CharLoopContinue(ls, pos, c, [HexEncode(rows[0])]);
    ConcatFront(rows);
  }

  /** The first bitmap line, and the lines after it. */
  lemma RowLinesSplit(ls: Lines, pos: nat, rows: seq<seq<bv8>>)
    requires |rows| > 0 && At(ls, pos, RowLines(rows) + [Ok(["ENDCHAR"])])
    ensures pos < |ls| && ls[pos] == Ok([HexEncode(rows[0])])
    ensures At(ls, pos + 1, RowLines(rows[1..]) + [Ok(["ENDCHAR"])])
  {
    AtIndex(ls, pos, RowLines(rows) + [Ok(["ENDCHAR"])], 0);
    RowLinesFront(rows);
    AtSplit(ls, pos, [Ok([HexEncode(rows[0])])], RowLines(rows[1..]) + [Ok(["ENDCHAR"])]);
  }

  lemma RowLinesFront(rows: seq<seq<bv8>>)
    requires |rows| > 0
    ensures RowLines(rows) + [Ok(["ENDCHAR"])]
      == [Ok([HexEncode(rows[0])])] + (RowLines(rows[1..]) + [Ok(["ENDCHAR"])])
  {
    assert RowLines(rows) == [Ok([HexEncode(rows[0])])] + RowLines(rows[1..]);
  }

  lemma {:induction false} ConcatFront(rows: seq<seq<bv8>>)
    requires |rows| > 0
    ensures Raster.Concat(rows) == rows[0] + Raster.Concat(rows[1..])
    decreases |rows|
  {
    var n := |rows|;
    var init := rows[..n - 1];
    if n == 1 {
      assert rows[1..] == [];
      assert init == [];
    } else {
      ConcatFront(init);
      assert init[1..] == rows[1..][..n - 2];
      assert init[0] == rows[0] && rows[1..][n - 2] == rows[n - 1];
    }
  }

  /** The numbers of a glyph's head lines read back as written. */
  predicate HeadReadsBack(fmt: int -> string, c: CharSpec)
  {
    && ReadsBackAt(fmt, c.encoding) && ReadsBackAt(fmt, c.advance)
    && ReadsBackAt(fmt, c.bounds.Dx()) && ReadsBackAt(fmt, c.bounds.Dy())
    && ReadsBackAt(fmt, c.bounds.min.x) && ReadsBackAt(fmt, -c.bounds.max.y)
  }

  lemma HeadReadsBackOf(fmt: int -> string, c: CharSpec)
    requires ReadsBackAll(fmt) && CharSpecOk(c)
    ensures HeadReadsBack(fmt, c)
  {
  }

  /** BBX written from a box reads back as the same box. */
  lemma ReadBBXWritten(fmt: int -> string, b: Rect)
    requires ReadsBackAt(fmt, b.Dx()) && ReadsBackAt(fmt, b.Dy())
    requires ReadsBackAt(fmt, b.min.x) && ReadsBackAt(fmt, -b.max.y)
    requires BoxOk(b)
    ensures ReadBBX(BbxTokens(fmt, b)) == Ok(b)
  {
    var n := -b.max.y;
    var t := ["BBX", fmt(b.Dx()), fmt(b.Dy()), fmt(b.min.x), fmt(n)];
    assert ReadsBackAt(fmt, n);
    ReadBBXBox(t, b);
  }

  /** Tokens that read as the box's width, height and bottom-left offset
      make readBBX return the box. */
  lemma ReadBBXBox(t: seq<string>, b: Rect)
    requires |t| >= 5 && BoxOk(b)
    requires Decimal.Atoi(t[1]) == Some(b.Dx()) && Decimal.Atoi(t[2]) == Some(b.Dy())
    requires Decimal.Atoi(t[3]) == Some(b.min.x) && Decimal.Atoi(t[4]) == Some(-b.max.y)
    ensures ReadBBX(t) == Ok(b)
  {
    var w, h, x, y := b.Dx(), b.Dy(), b.min.x, -b.max.y;
    ReadBBXOf(t, w, h, x, y);
    BoxFromBBX(b, w, h, x, y);
  }

  /** The box BBX describes by width, height and bottom-left offset. */
  lemma BoxFromBBX(b: Rect, w: int, h: int, x: int, y: int)
    requires w == b.Dx() && h == b.Dy() && x == b.min.x && y == -b.max.y
    ensures Rect(Point(x, -(y + h)), Point(x + w, -y)) == b
  {
  }

  lemma ReadBBXOf(t: seq<string>, w: int, h: int, x: int, y: int)
    requires |t| >= 5 && w >= 0 && h >= 0
    requires Decimal.Atoi(t[1]) == Some(w) && Decimal.Atoi(t[2]) == Some(h)
    requires Decimal.Atoi(t[3]) == Some(x) && Decimal.Atoi(t[4]) == Some(y)
    ensures ReadBBX(t) == Ok(Rect(Point(x, -(y + h)), Point(x + w, -y)))
  {
  }

  /** ENCODING sets the encoding. */
  lemma EncodingLine(fmt: int -> string, n: int, s: CharState, next: nat)
    requires ReadsBackAt(fmt, n) && CharOk(s) && !s.inBitmap
    ensures CharStep(["ENCODING", fmt(n)], next, s) == Continue(s.(encoding := n), next)
  {
  }

  /** DWIDTH sets the advance. */
  lemma DwidthLine(fmt: int -> string, n: int, s: CharState, next: nat)
    requires ReadsBackAt(fmt, n) && CharOk(s) && !s.inBitmap
    ensures CharStep(["DWIDTH", fmt(n), "0"], next, s) == Continue(s.(glyph := s.glyph.(advance := n)), next)
  {
  }

  /** BBX sets the box. */
  lemma BbxLine(fmt: int -> string, b: Rect, s: CharState, next: nat)
    requires ReadsBackAt(fmt, b.Dx()) && ReadsBackAt(fmt, b.Dy())
    requires ReadsBackAt(fmt, b.min.x) && ReadsBackAt(fmt, -b.max.y)
    requires BoxOk(b) && CharOk(s) && !s.inBitmap
    ensures CharStep(BbxTokens(fmt, b), next, s) == Continue(s.(glyph := s.glyph.(bounds := b)), next)
  {
    ReadBBXWritten(fmt, b);
  }

  /** BITMAP starts the rows. */
  lemma BitmapLine(s: CharState, next: nat)
    requires CharOk(s) && !s.inBitmap
    ensures CharStep(["BITMAP"], next, s) == Continue(s.(inBitmap := true), next)
  {
  }

  /** The lines before BITMAP set the encoding, the advance and the box. */
  lemma CharHead(fmt: int -> string, ls: Lines, pos: nat, p: Parser, c: CharSpec)
    requires HeadReadsBack(fmt, c) && BoxOk(c.bounds) && BoxOk(p.defaultBounds)
    requires At(ls, pos, CharHeadLines(fmt, c))
    ensures CharOk(BitmapStart(c))
    ensures CharLoop(ls, pos, StartGlyph(p)) == CharLoop(ls, pos + 4, BitmapStart(c))
  {
    var body := CharHeadLines(fmt, c);
    AtIndex(ls, pos, body, 0);
    AtIndex(ls, pos, body, 1);
    AtIndex(ls, pos, body, 2);
    AtIndex(ls, pos, body, 3);
    HeadNumbers(fmt, ls, pos, p, c);
    HeadBox(fmt, ls, pos + 2, p, c);
  }

  /** The state after ENCODING and DWIDTH. */
  function AfterDwidth(p: Parser, c: CharSpec): CharState
  {
    CharState(Glyph(p.defaultBounds, [], c.advance), false, 0, c.encoding)
  }

  /** ENCODING and DWIDTH, as written, set the encoding and the advance. */
  lemma HeadNumbers(fmt: int -> string, ls: Lines, pos: nat, p: Parser, c: CharSpec)
    requires ReadsBackAt(fmt, c.encoding) && ReadsBackAt(fmt, c.advance) && BoxOk(p.defaultBounds)
    requires pos + 1 < |ls|
    requires ls[pos] == Ok(["ENCODING", fmt(c.encoding)])
    requires ls[pos + 1] == Ok(["DWIDTH", fmt(c.advance), "0"])
    ensures CharOk(AfterDwidth(p, c))
    ensures CharLoop(ls, pos, StartGlyph(p)) == CharLoop(ls, pos + 2, AfterDwidth(p, c))
  {
    var s0 := StartGlyph(p);
    EncodingLine(fmt, c.encoding, s0, pos + 1);
    var s1 := s0.(encoding := c.encoding);
    DwidthLine(fmt, c.advance, s1, pos + 2);
    CharLoopContinue(ls, pos, s0, ["ENCODING", fmt(c.encoding)]);
    CharLoopContinue(ls, pos + 1, s1, ["DWIDTH", fmt(c.advance), "0"]);
    assert s1.(glyph := s1.glyph.(advance := c.advance)) == AfterDwidth(p, c);
  }

  /** BBX and BITMAP, as written, set the box and start the rows. */
  lemma HeadBox(fmt: int -> string, ls: Lines, pos: nat, p: Parser, c: CharSpec)
    requires ReadsBackAt(fmt, c.bounds.Dx()) && ReadsBackAt(fmt, c.bounds.Dy())
    requires ReadsBackAt(fmt, c.bounds.min.x) && ReadsBackAt(fmt, -c.bounds.max.y)
    requires BoxOk(c.bounds) && BoxOk(p.defaultBounds)
    requires pos + 1 < |ls|
    requires ls[pos] == Ok(BbxTokens(fmt, c.bounds)) && ls[pos + 1] == Ok(["BITMAP"])
    ensures CharOk(BitmapStart(c))
    ensures CharLoop(ls, pos, AfterDwidth(p, c)) == CharLoop(ls, pos + 2, BitmapStart(c))
  {
    var s2 := AfterDwidth(p, c);
    BbxLine(fmt, c.bounds, s2, pos + 1);
    var s3 := s2.(glyph := s2.glyph.(bounds := c.bounds));
    BitmapLine(s3, pos + 2);
    CharLoopContinue(ls, pos, s2, BbxTokens(fmt, c.bounds));
    CharLoopContinue(ls, pos + 1, s3, ["BITMAP"]);
    assert s3.(inBitmap := true) == BitmapStart(c);
  }

  /** The state at BITMAP: the written box and advance, no rows yet. */
  function BitmapStart(c: CharSpec): CharState
  {
    CharState(Glyph(c.bounds, [], c.advance), true, 0, c.encoding)
  }

  /** From BITMAP on, the written rows and ENDCHAR complete the glyph. */
  lemma RowsFromStart(ls: Lines, pos: nat, c: CharSpec, end: nat)
    requires CharSpecOk(c) && At(ls, pos, RowLines(c.rows) + [Ok(["ENDCHAR"])])
    requires end == pos + |c.rows| + 1
    ensures CharOk(BitmapStart(c))
    ensures CharLoop(ls, pos, BitmapStart(c)) == Ok((CharState(GlyphOfSpec(c), true, |c.rows|, c.encoding), end))
  {
    var s := BitmapStart(c);
    MulZero(Stride(c.bounds.Dx()));
    RowsLoop(ls, pos, s, c.rows, |c.rows|, end);
    assert [] + Raster.Concat(c.rows) == Raster.Concat(c.rows);
  }

  lemma MulZero(n: int)
    ensures 0 * n == 0
  {
  }

  /** The body of a written glyph parses to the glyph it describes. */
  lemma CharBodyLoop(fmt: int -> string, ls: Lines, pos: nat, p: Parser, c: CharSpec, end: nat)
    requires ReadsBackAll(fmt)
    requires CharSpecOk(c) && ParserOk(p) && At(ls, pos, CharBody(fmt, c))
    requires end == pos + |CharBody(fmt, c)|
    ensures CharLoop(ls, pos, StartGlyph(p)) == Ok((CharState(GlyphOfSpec(c), true, |c.rows|, c.encoding), end))
  {
    var mid := pos + |CharHeadLines(fmt, c)|;
    AtSplit(ls, pos, CharHeadLines(fmt, c), RowLines(c.rows) + [Ok(["ENDCHAR"])]);
    HeadReadsBackOf(fmt, c);
    CharHead(fmt, ls, pos, p, c);
    RowsFromStart(ls, mid, c, end);
  }

  /** A glyph with a non-negative encoding goes into the map under its rune
      and, with DEFAULT_CHAR unset, leaves the fallback alone. */
  lemma ParseCharWritten(fmt: int -> string, ls: Lines, pos: nat, p: Parser, c: CharSpec, q: Parser, end: nat)
    requires ReadsBackAll(fmt)
    requires CharSpecOk(c) && ParserOk(p) && p.defaultChar == -1 && At(ls, pos, CharBody(fmt, c))
    requires q == p.(font := p.font.(glyphs := p.font.glyphs[Rune(c.encoding) := GlyphOfSpec(c)]))
    requires end == pos + |CharBody(fmt, c)|
    ensures ParseChar(ls, pos, p) == Ok((q, end))
  {
    CharBodyLoop(fmt, ls, pos, p, c, end);
    StoreWritten(p, c);
  }

  /** A complete glyph with a non-negative encoding is stored under its rune. */
  lemma StoreWritten(p: Parser, c: CharSpec)
    requires CharSpecOk(c) && ParserOk(p) && p.defaultChar == -1
    ensures CharOk(CharState(GlyphOfSpec(c), true, |c.rows|, c.encoding))
    ensures StoreGlyph(p, CharState(GlyphOfSpec(c), true, |c.rows|, c.encoding))
      == Ok(p.(font := p.font.(glyphs := p.font.glyphs[Rune(c.encoding) := GlyphOfSpec(c)])))
  {
    Raster.ConcatLength(c.rows, Stride(c.bounds.Dx()));
    assert |c.rows| * Stride(c.bounds.Dx()) == Stride(c.bounds.Dx()) * |c.rows|;
  }

  // ---------------------------------------------------------------------------
  // The font.

  lemma CharsLinesFront(fmt: int -> string, cs: seq<CharSpec>)
    requires |cs| > 0
    ensures CharsLines(fmt, cs) + [Ok(["ENDFONT"])]
      == [Ok(["STARTCHAR", "glyph"])] + (CharBody(fmt, cs[0]) + (CharsLines(fmt, cs[1..]) + [Ok(["ENDFONT"])]))
  {
    var start, body, rest := [Ok(["STARTCHAR", "glyph"])], CharBody(fmt, cs[0]), CharsLines(fmt, cs[1..]);
    assert CharsLines(fmt, cs) == (start + body) + rest;
    Reassociate(start, body, rest, [Ok(["ENDFONT"])]);
  }

  lemma Reassociate(a: Lines, b: Lines, c: Lines, d: Lines)
    ensures ((a + b) + c) + d == a + (b + (c + d))
  {
  }

  /** One written glyph, STARTCHAR to ENDCHAR, moves the font loop past it
      with the glyph stored under its rune. */
  lemma CharsStep(fmt: int -> string, ls: Lines, pos: nat, p: Parser, c: CharSpec, rest: Lines, q: Parser, after: nat)
    requires ReadsBackAll(fmt) && CharSpecOk(c) && ParserOk(p) && p.defaultChar == -1
    requires At(ls, pos, [Ok(["STARTCHAR", "glyph"])] + (CharBody(fmt, c) + rest))
    requires q == p.(font := p.font.(glyphs := p.font.glyphs[Rune(c.encoding) := GlyphOfSpec(c)]))
    requires after == pos + 1 + |CharBody(fmt, c)|
    ensures after <= |ls| && ParserOk(q) && At(ls, after, rest)
    ensures FontLoop(ls, pos, p) == FontLoop(ls, after, q)
  {
    CharBlock(fmt, ls, pos, p, c, rest, q, after);
    FontLoopChar(ls, pos, p, q, after);
  }

  /** The lines of one written glyph: STARTCHAR, then a body parseChar
      reads up to the lines after it. */
  lemma CharBlock(fmt: int -> string, ls: Lines, pos: nat, p: Parser, c: CharSpec, rest: Lines, q: Parser, after: nat)
    requires ReadsBackAll(fmt) && CharSpecOk(c) && ParserOk(p) && p.defaultChar == -1
    requires At(ls, pos, [Ok(["STARTCHAR", "glyph"])] + (CharBody(fmt, c) + rest))
    requires q == p.(font := p.font.(glyphs := p.font.glyphs[Rune(c.encoding) := GlyphOfSpec(c)]))
    requires after == pos + 1 + |CharBody(fmt, c)|
    ensures pos < |ls| && ls[pos] == Ok(["STARTCHAR", "glyph"]) && At(ls, after, rest)
    ensures ParseChar(ls, pos + 1, p) == Ok((q, after))
  {
    BlockLines(ls, pos, CharBody(fmt, c), rest, after);
    ParseCharWritten(fmt, ls, pos + 1, p, c, q, after);
  }

  /** STARTCHAR, a body, and whatever follows, each at its position. */
  lemma BlockLines(ls: Lines, pos: nat, body: Lines, rest: Lines, after: nat)
    requires At(ls, pos, [Ok(["STARTCHAR", "glyph"])] + (body + rest))
    requires after == pos + 1 + |body|
    ensures pos < |ls| && ls[pos] == Ok(["STARTCHAR", "glyph"])
    ensures At(ls, pos + 1, body) && At(ls, after, rest)
  {
    AtSplit(ls, pos, [Ok(["STARTCHAR", "glyph"])], body + rest);
    AtSplit(ls, pos + 1, body, rest);
    AtIndex(ls, pos, [Ok(["STARTCHAR", "glyph"])], 0);
    AtMove(ls, pos + 1 + |body|, after, rest);
  }

  /** The written glyphs, then ENDFONT, fill the glyph map one by one. */
  lemma {:induction false} CharsLoop(fmt: int -> string, ls: Lines, pos: nat, p: Parser, cs: seq<CharSpec>)
    requires ReadsBackAll(fmt)
    requires ParserOk(p) && p.defaultChar == -1
    requires forall i :: 0 <= i < |cs| ==> CharSpecOk(cs[i])
    requires At(ls, pos, CharsLines(fmt, cs) + [Ok(["ENDFONT"])])
    ensures FontLoop(ls, pos, p) == Ok(p.(font := p.font.(glyphs := GlyphMap(p.font.glyphs, cs))))
    decreases |cs|
  {
    if |cs| == 0 {
      AtIndex(ls, pos, CharsLines(fmt, cs) + [Ok(["ENDFONT"])], 0);
      ReadLineAt(ls, pos, ["ENDFONT"]);
    } else {
      var c := cs[0];
      var rest := CharsLines(fmt, cs[1..]) + [Ok(["ENDFONT"])];
      CharsLinesFront(fmt, cs);
      var q := p.(font := p.font.(glyphs := p.font.glyphs[Rune(c.encoding) := GlyphOfSpec(c)]));
      var after := pos + 1 + |CharBody(fmt, c)|;
      CharsStep(fmt, ls, pos, p, c, rest, q, after);
      CharsLoop(fmt, ls, after, q, cs[1..]);
    }
  }

  /** STARTCHAR hands the glyph block to parseChar and carries on after it. */
  lemma FontLoopChar(ls: Lines, pos: nat, p: Parser, q: Parser, after: nat)
    requires pos < |ls| && ParserOk(p) && ls[pos] == Ok(["STARTCHAR", "glyph"])
    requires ParseChar(ls, pos + 1, p) == Ok((q, after))
    ensures after <= |ls| && ParserOk(q)
    ensures FontLoop(ls, pos, p) == FontLoop(ls, after, q)
  {
    ReadLineAt(ls, pos, ["STARTCHAR", "glyph"]);
  }

  /** Every rune written is a key of the map, and so is every earlier key. */
  lemma {:induction false} GlyphMapKeys(m: map<int, Glyph>, cs: seq<CharSpec>, k: int)
    requires k in m || exists i :: 0 <= i < |cs| && Rune(cs[i].encoding) == k
    ensures k in GlyphMap(m, cs)
    decreases |cs|
  {
    if |cs| > 0 {
      if k !in m[Rune(cs[0].encoding) := GlyphOfSpec(cs[0])] {
        var i :| 0 <= i < |cs| && Rune(cs[i].encoding) == k;
        assert i > 0 && Rune(cs[1..][i - 1].encoding) == k;
      }
      GlyphMapKeys(m[Rune(cs[0].encoding) := GlyphOfSpec(cs[0])], cs[1..], k);
    }
  }

  /** Under each rune the map holds the glyph written last with that rune. */
  lemma {:induction false} GlyphMapLastWins(m: map<int, Glyph>, cs: seq<CharSpec>, i: nat)
    requires i < |cs|
    requires forall j :: i < j < |cs| ==> Rune(cs[j].encoding) != Rune(cs[i].encoding)
    ensures Rune(cs[i].encoding) in GlyphMap(m, cs) && GlyphMap(m, cs)[Rune(cs[i].encoding)] == GlyphOfSpec(cs[i])
    decreases |cs|
  {
    var m' := m[Rune(cs[0].encoding) := GlyphOfSpec(cs[0])];
    if i == 0 {
      GlyphMapUntouched(m', cs[1..], Rune(cs[0].encoding));
    } else {
      forall j | i - 1 < j < |cs[1..]|
        ensures Rune(cs[1..][j].encoding) != Rune(cs[1..][i - 1].encoding)
      {
        assert cs[1..][j] == cs[j + 1];
      }
      GlyphMapLastWins(m', cs[1..], i - 1);
    }
  }

  /** A rune no glyph is written under keeps its entry. */
  lemma {:induction false} GlyphMapUntouched(m: map<int, Glyph>, cs: seq<CharSpec>, k: int)
    requires k in m
    requires forall j :: 0 <= j < |cs| ==> Rune(cs[j].encoding) != k
    ensures k in GlyphMap(m, cs) && GlyphMap(m, cs)[k] == m[k]
    decreases |cs|
  {
    if |cs| > 0 {
      assert Rune(cs[0].encoding) != k;
      forall j | 0 <= j < |cs[1..]|
        ensures Rune(cs[1..][j].encoding) != k
      {
        assert cs[1..][j] == cs[j + 1];
      }
      GlyphMapUntouched(m[Rune(cs[0].encoding) := GlyphOfSpec(cs[0])], cs[1..], k);
    }
  }

  /** The parser state after the FONT line. */
  function Named(name: string): Parser
  {
    Initial.(font := Initial.font.(name := name))
  }

  /** STARTFONT 2.1 passes the header check and FONT names the font. */
  lemma FontHead(ls: Lines, name: string, rest: Lines)
    requires At(ls, 0, [Ok(["STARTFONT", "2.1"]), Ok(["FONT", name])] + rest)
    ensures Header(ls) == Ok(1) && ParserOk(Initial) && ParserOk(Named(name)) && At(ls, 2, rest)
    ensures FontLoop(ls, 1, Initial) == FontLoop(ls, 2, Named(name))
  {
    var head := [Ok(["STARTFONT", "2.1"]), Ok(["FONT", name])];
    AtSplit(ls, 0, head, rest);
    AtIndex(ls, 0, head, 0);
    AtIndex(ls, 0, head, 1);
    ReadLineAt(ls, 0, ["STARTFONT", "2.1"]);
    ReadLineAt(ls, 1, ["FONT", name]);
    ZeroGlyphValid();
  }

  /** A font loop that ends with a name and a glyph completes the parse. */
  lemma ParseLinesOk(ls: Lines, p: Parser)
    requires Header(ls) == Ok(1) && ParserOk(Initial)
    requires FontLoop(ls, 1, Initial) == Ok(p)
    requires p.font.name != "" && |p.font.glyphs| > 0
    ensures ParseLines(ls) == Ok(p.font)
  {
  }

  /** Writing a named font with at least one glyph and parsing the lines
      back gives the font: its name, the glyph map with later glyphs of the
      same rune winning, and the zero glyph as the fallback. */
  lemma ParseFontLinesWith(fmt: int -> string, name: string, cs: seq<CharSpec>)
    requires ReadsBackAll(fmt)
    requires name != "" && |cs| > 0
    requires forall i :: 0 <= i < |cs| ==> CharSpecOk(cs[i])
    ensures ParseLines(FontLines(fmt, name, cs)) == Ok(Font(name, GlyphMap(map[], cs), ZeroGlyph))
  {
    var ls := FontLines(fmt, name, cs);
    var rest := CharsLines(fmt, cs) + [Ok(["ENDFONT"])];
    AtWhole(ls, [Ok(["STARTFONT", "2.1"]), Ok(["FONT", name])] + rest);
    FontHead(ls, name, rest);
    CharsLoop(fmt, ls, 2, Named(name), cs);
    var g := GlyphMap(map[], cs);
    GlyphMapKeys(map[], cs, Rune(cs[0].encoding));
    NamedFontParses(ls, name, g, Rune(cs[0].encoding));
  }

  /** The header, then a loop that names the font and fills a non-empty
      glyph map, parse to that font. */
  lemma NamedFontParses(ls: Lines, name: string, g: map<int, Glyph>, k: int)
    requires Header(ls) == Ok(1) && ParserOk(Initial) && name != "" && k in g && 2 <= |ls|
    requires FontLoop(ls, 1, Initial) == FontLoop(ls, 2, Named(name))
    requires FontLoop(ls, 2, Named(name)) == Ok(Named(name).(font := Named(name).font.(glyphs := g)))
    ensures ParseLines(ls) == Ok(Font(name, g, ZeroGlyph))
  {
    assert k in g.Keys;
    ParseLinesOk(ls, Named(name).(font := Named(name).font.(glyphs := g)));
  }

  /** %d prints numbers strconv.Atoi reads back. */
  lemma FormatIntReadsBack()
    ensures ReadsBackAll(Decimal.FormatInt)
  {
    forall n | InInt64(n) ensures ReadsBackAt(Decimal.FormatInt, n) {
      Decimal.AtoiFormat(n);
    }
  }

  /** The round trip with numbers printed by %d. */
  lemma ParseFontLines(name: string, cs: seq<CharSpec>)
    requires name != "" && |cs| > 0
    requires forall i :: 0 <= i < |cs| ==> CharSpecOk(cs[i])
    ensures ParseLines(FontLines(Decimal.FormatInt, name, cs)) == Ok(Font(name, GlyphMap(map[], cs), ZeroGlyph))
  {
    FormatIntReadsBack();
    ParseFontLinesWith(Decimal.FormatInt, name, cs);
  }
}
