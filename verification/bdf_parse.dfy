/** The BDF font parser (bdf/bdf.go:158-353): line by line over tokenized
    lines, with the font header, the global defaults, the properties block
    and one block per glyph. */
module BdfParse {
  import opened Wrappers
  import opened Imaging
  import Decimal
  import opened BdfTokenize
  import opened Bdf
  import Bits

  /** Why a font file is rejected; the messages of the Go errors are
      reduced to their kind. */
  datatype BdfError =
    | LineError(message: string)
    | InvalidHeader
    | UnsupportedVersion
    | InsufficientArguments
    | InvalidArguments
    | NegativeDimensions
    | InvalidNumber
    | InvalidHex
    | WidthMismatch
    | HeightMismatch
    | VerticalFont
    | MissingName
    | NoGlyphs

  /** Every line of the file, already split into tokens. */
  type Lines = seq<Result<seq<string>, string>>

  datatype LineRead = EndOfInput | Line(tokens: seq<string>, next: nat)

  /** readLine: the next line with at least one token; a line the tokenizer
      rejects is an error, and the end of the input ends the caller's loop. */
  function ReadLine(ls: Lines, pos: nat): (r: Result<LineRead, BdfError>)
    requires pos <= |ls|
    ensures r.Ok? && r.value.Line? ==> pos < r.value.next <= |ls| && |r.value.tokens| > 0
    ensures r.Ok? && r.value.Line? ==> ls[r.value.next - 1] == Ok(r.value.tokens)
    ensures r.Ok? && r.value.Line? ==> forall k :: pos <= k < r.value.next - 1 ==> ls[k] == Ok([])
    ensures r.Ok? && r.value.EndOfInput? ==> forall k :: pos <= k < |ls| ==> ls[k] == Ok([])
    decreases |ls| - pos
  {
    if pos == |ls| then Ok(EndOfInput)
    else match ls[pos]
      case Err(m) => Err(LineError(m))
      case Ok(t) => if |t| == 0 then ReadLine(ls, pos + 1) else Ok(Line(t, pos + 1))
  }

  // ---------------------------------------------------------------------------
  // Arguments.

  /** readCharEncoding and readDwidth: the second token as a decimal integer. */
  function ReadNumber(t: seq<string>): (r: Result<int, BdfError>)
    ensures r.Ok? <==> |t| >= 2 && Decimal.Atoi(t[1]).Some?
    ensures r.Ok? ==> r.value == Decimal.Atoi(t[1]).value
    ensures r.Err? && |t| < 2 ==> r.error == InsufficientArguments
  {
    if |t| < 2 then Err(InsufficientArguments)
    else match Decimal.Atoi(t[1])
      case None => Err(InvalidNumber)
      case Some(i) => Ok(i)
  }

  /** A rectangle with non-negative width and height, as every BBX is. */
  predicate BoxOk(r: Rect) { r.Dx() >= 0 && r.Dy() >= 0 }

  /** readBBX: `BBX w h x y` is the box from (x, -(y+h)) to (x+w, -y): y is
      the offset of the bottom edge above the baseline. */
  function ReadBBX(t: seq<string>): (r: Result<Rect, BdfError>)
    ensures |t| < 5 ==> r == Err(InsufficientArguments)
    ensures r.Ok? <==> (|t| >= 5 && (forall k :: 1 <= k <= 4 ==> Decimal.Atoi(t[k]).Some?)
                        && Decimal.Atoi(t[1]).value >= 0 && Decimal.Atoi(t[2]).value >= 0)
    ensures r.Ok? ==> (BoxOk(r.value)
                       && r.value.Dx() == Decimal.Atoi(t[1]).value && r.value.Dy() == Decimal.Atoi(t[2]).value
                       && r.value.min.x == Decimal.Atoi(t[3]).value && r.value.max.y == -Decimal.Atoi(t[4]).value)
  {
    if |t| < 5 then Err(InsufficientArguments)
    else
      var w, h, x, y := Decimal.Atoi(t[1]), Decimal.Atoi(t[2]), Decimal.Atoi(t[3]), Decimal.Atoi(t[4]);
      if w.None? || h.None? || x.None? || y.None? then Err(InvalidArguments)
      else if w.value < 0 || h.value < 0 then Err(NegativeDimensions)
      else Ok(Rect(Point(x.value, -(y.value + h.value)), Point(x.value + w.value, -y.value)))
  }

  // ---------------------------------------------------------------------------
  // Hexadecimal bitmap rows (encoding/hex).

  function HexDigit(c: char): (v: Option<nat>)
    ensures v.Some? ==> v.value < 16
  {
    if '0' <= c <= '9' then Some(c as int - '0' as int)
    else if 'a' <= c <= 'f' then Some(c as int - 'a' as int + 10)
    else if 'A' <= c <= 'F' then Some(c as int - 'A' as int + 10)
    else None
  }

  /** hex.DecodeString: pairs of hex digits of either case, high digit first;
      an odd length or any other character is an error. */
  function HexDecode(s: string): (r: Option<seq<bv8>>)
    ensures r.Some? ==> 2 * |r.value| == |s|
    decreases |s|
  {
    if |s| == 0 then Some([])
    else if |s| == 1 then None
    else match (HexDigit(s[0]), HexDigit(s[1]))
      case (Some(hi), Some(lo)) =>
        (match HexDecode(s[2..])
         case None => None
         case Some(rest) => Some([(16 * hi + lo) as bv8] + rest))
      case _ => None
  }

  const LowerHex: string := "0123456789abcdef"

  /** hex.EncodeToString: two lower-case digits per byte. */
  function HexEncode(b: seq<bv8>): (s: string)
    ensures |s| == 2 * |b|
  {
    if |b| == 0 then []
    else [LowerHex[(b[0] as int) / 16], LowerHex[(b[0] as int) % 16]] + HexEncode(b[1..])
  }

  lemma HexDigitOfLower(d: nat)
    requires d < 16
    ensures HexDigit(LowerHex[d]) == Some(d)
  {
  }

  /** The two digits HexEncode writes for a byte decode back to it. */
  lemma HexByte(x: bv8)
    ensures HexDigit(LowerHex[(x as int) / 16]) == Some((x as int) / 16)
    ensures HexDigit(LowerHex[(x as int) % 16]) == Some((x as int) % 16)
    ensures (16 * ((x as int) / 16) + (x as int) % 16) as bv8 == x
  {
    var v := x as int;
    HexDigitOfLower(v / 16);
    HexDigitOfLower(v % 16);
    assert 16 * (v / 16) + v % 16 == v;
    Bits.IntOfByte(x);
  }

  /** Decoding undoes encoding. */
  lemma {:induction false} HexRoundTrip(b: seq<bv8>)
    ensures HexDecode(HexEncode(b)) == Some(b)
    decreases |b|
  {
    if |b| > 0 {
      var s := HexEncode(b);
      HexByte(b[0]);
      assert s[2..] == HexEncode(b[1..]);
      HexRoundTrip(b[1..]);
      HexDecodePair(s, b[0], b[1..]);
      assert [b[0]] + b[1..] == b;
    }
  }

  /** Two digits of a byte in front of an encoded rest decode to the byte
      in front of the rest. */
  lemma HexDecodePair(s: string, x: bv8, rest: seq<bv8>)
    requires |s| >= 2 && HexDecode(s[2..]) == Some(rest)
    requires HexDigit(s[0]) == Some((x as int) / 16) && HexDigit(s[1]) == Some((x as int) % 16)
    requires (16 * ((x as int) / 16) + (x as int) % 16) as bv8 == x
    ensures HexDecode(s) == Some([x] + rest)
  {
  }

  // ---------------------------------------------------------------------------
  // Parser state.

  /** The parser's variables besides the input position. */
  datatype Parser = Parser(font: Font, defaultBounds: Rect, defaultAdvance: int, defaultChar: int)

  /** The state NewFromBDF starts from: no name, no glyphs, the zero fallback
      and DEFAULT_CHAR -1. */
  const Initial: Parser := Parser(Font("", map[], ZeroGlyph), Rect(Point(0, 0), Point(0, 0)), 0, -1)

  /** What holds of the parser state between lines. */
  predicate ParserOk(p: Parser)
  {
    FontValid(p.font) && BoxOk(p.defaultBounds)
  }

  /** rune(encoding): Go's conversion to a 32-bit signed code point wraps. */
  function Rune(encoding: int): (r: int)
    ensures -0x8000_0000 <= r < 0x8000_0000
    ensures 0 <= encoding < 0x8000_0000 ==> r == encoding
  {
    (encoding + 0x8000_0000) % 0x1_0000_0000 - 0x8000_0000
  }

  // ---------------------------------------------------------------------------
  // STARTPROPERTIES .. ENDPROPERTIES

  /** parseProperties: only DEFAULT_CHAR matters; the block ends at
      ENDPROPERTIES or at the end of the input. */
  function ParseProperties(ls: Lines, pos: nat, p: Parser): (r: Result<(Parser, nat), BdfError>)
    requires pos <= |ls|
    ensures r.Ok? ==> pos <= r.value.1 <= |ls|
    ensures r.Ok? ==> r.value.0 == p.(defaultChar := r.value.0.defaultChar)
    decreases |ls| - pos
  {
    match ReadLine(ls, pos)
    case Err(e) => Err(e)
    case Ok(EndOfInput) => Ok((p, |ls|))
    case Ok(Line(t, next)) =>
      if t[0] == "ENDPROPERTIES" then Ok((p, next))
      else
        match PropertyStep(t, p)
        case Err(e) => Err(e)
        case Ok(q) => ParseProperties(ls, next, q)
  }

  /** One property line: DEFAULT_CHAR sets the fallback's encoding, every
      other property is ignored. */
  function PropertyStep(t: seq<string>, p: Parser): (r: Result<Parser, BdfError>)
    requires |t| > 0
    ensures r.Ok? ==> r.value == p.(defaultChar := r.value.defaultChar)
    ensures r.Ok? && t[0] != "DEFAULT_CHAR" ==> r.value == p
  {
    if t[0] == "DEFAULT_CHAR" then
      match ReadNumber(t)
      case Err(e) => Err(e)
      case Ok(c) => Ok(p.(defaultChar := c))
    else Ok(p)
  }

  // ---------------------------------------------------------------------------
  // STARTCHAR .. ENDCHAR

  /** parseChar's variables: the glyph so far, whether BITMAP has been seen,
      the bitmap rows read and the encoding (-1 until ENCODING). */
  datatype CharState = CharState(glyph: Glyph, inBitmap: bool, rows: int, encoding: int)

  /** The bitmap always holds `rows` rows of the current width, and no row
      comes before BITMAP. */
  predicate CharOk(c: CharState)
  {
    BoxOk(c.glyph.bounds) && c.rows >= 0
    && |c.glyph.bitmap| == c.rows * Stride(c.glyph.bounds.Dx())
    && (!c.inBitmap ==> c.rows == 0)
  }

  /** What one line does to a loop: end it, fail, or carry on with a new
      state from a position. */
  datatype Step<S> = Done | Fail(error: BdfError) | Continue(state: S, next: nat)

  /** One line of parseChar other than ENDCHAR. Before BITMAP the ENCODING,
      DWIDTH and BBX lines set their fields and other lines are ignored;
      after it every line is one row of hexadecimal, exactly Stride bytes. */
  function CharStep(t: seq<string>, next: nat, c: CharState): (r: Step<CharState>)
    requires |t| > 0 && CharOk(c)
    ensures r.Continue? ==> r.next == next && CharOk(r.state)
    ensures r.Continue? && c.inBitmap ==> r.state.glyph.bounds == c.glyph.bounds && r.state.inBitmap
    ensures r.Done? <==> t[0] == "ENDCHAR"
  {
    if t[0] == "ENDCHAR" then Done
    else if c.inBitmap then
      match HexDecode(t[0])
      case None => Fail(InvalidHex)
      case Some(row) =>
        if |row| != Stride(c.glyph.bounds.Dx()) then Fail(WidthMismatch)
        else
          var g := c.glyph.(bitmap := c.glyph.bitmap + row);
          assert |g.bitmap| == (c.rows + 1) * Stride(c.glyph.bounds.Dx());
          Continue(c.(glyph := g, rows := c.rows + 1), next)
    else if t[0] == "ENCODING" then
      match ReadNumber(t)
      case Err(e) => Fail(e)
      case Ok(v) => Continue(c.(encoding := v), next)
    else if t[0] == "DWIDTH" then
      match ReadNumber(t)
      case Err(e) => Fail(e)
      case Ok(v) => Continue(c.(glyph := c.glyph.(advance := v)), next)
    else if t[0] == "BBX" then
      match ReadBBX(t)
      case Err(e) => Fail(e)
      case Ok(b) => Continue(c.(glyph := c.glyph.(bounds := b)), next)
    else if t[0] == "BITMAP" then Continue(c.(inBitmap := true), next)
    else Continue(c, next)
  }

  /** The line loop of parseChar, up to ENDCHAR or the end of the input. */
  function CharLoop(ls: Lines, pos: nat, c: CharState): (r: Result<(CharState, nat), BdfError>)
    requires pos <= |ls| && CharOk(c)
    ensures r.Ok? ==> pos <= r.value.1 <= |ls| && CharOk(r.value.0)
    ensures r.Ok? && c.inBitmap ==> r.value.0.glyph.bounds == c.glyph.bounds
    decreases |ls| - pos
  {
    match ReadLine(ls, pos)
    case Err(e) => Err(e)
    case Ok(EndOfInput) => Ok((c, |ls|))
    case Ok(Line(t, next)) =>
      match CharStep(t, next, c)
      case Done => Ok((c, next))
      case Fail(e) => Err(e)
      case Continue(c', next') => CharLoop(ls, next', c')
  }

  /** The glyph parseChar starts from: the font's default box and advance. */
  function StartGlyph(p: Parser): CharState
  {
    CharState(Glyph(p.defaultBounds, [], p.defaultAdvance), false, 0, -1)
  }

  /** parseChar: the height check, then storing the glyph under its rune when
      the encoding is non-negative, and as the fallback when it equals
      DEFAULT_CHAR. */
  function StoreGlyph(p: Parser, c: CharState): (r: Result<Parser, BdfError>)
    requires CharOk(c)
    ensures r.Ok? <==> c.rows == c.glyph.bounds.Dy()
    ensures r.Ok? ==> GlyphValid(c.glyph)
    ensures r.Ok? ==> (r.value.defaultBounds == p.defaultBounds && r.value.defaultAdvance == p.defaultAdvance
                       && r.value.defaultChar == p.defaultChar && r.value.font.name == p.font.name)
    ensures r.Ok? ==> r.value.font.glyphs == (if c.encoding >= 0 then p.font.glyphs[Rune(c.encoding) := c.glyph] else p.font.glyphs)
    ensures r.Ok? ==> r.value.font.fallback == if c.encoding == p.defaultChar then c.glyph else p.font.fallback
  {
    if c.rows != c.glyph.bounds.Dy() then Err(HeightMismatch)
    else
      var glyphs := if c.encoding >= 0 then p.font.glyphs[Rune(c.encoding) := c.glyph] else p.font.glyphs;
      var fallback := if c.encoding == p.defaultChar then c.glyph else p.font.fallback;
      Ok(p.(font := Font(p.font.name, glyphs, fallback)))
  }

  function ParseChar(ls: Lines, pos: nat, p: Parser): (r: Result<(Parser, nat), BdfError>)
    requires pos <= |ls| && ParserOk(p)
    ensures r.Ok? ==> pos <= r.value.1 <= |ls| && ParserOk(r.value.0)
  {
    match CharLoop(ls, pos, StartGlyph(p))
    case Err(e) => Err(e)
    case Ok((c, next)) =>
      match StoreGlyph(p, c)
      case Err(e) => Err(e)
      case Ok(q) => Ok((q, next))
  }

  // ---------------------------------------------------------------------------
  // The font.

  /** One line of parse other than ENDFONT: FONT names the font,
      FONTBOUNDINGBOX and DWIDTH set the defaults, METRICSSET 1 is refused,
      STARTPROPERTIES and STARTCHAR read their blocks; other lines are
      ignored. */
  function FontStep(ls: Lines, t: seq<string>, next: nat, p: Parser): (r: Step<Parser>)
    requires |t| > 0 && next <= |ls| && ParserOk(p)
    ensures r.Continue? ==> next <= r.next <= |ls| && ParserOk(r.state)
    ensures r.Done? <==> t[0] == "ENDFONT"
    ensures t[0] == "METRICSSET" ==> (r.Fail? <==> |t| < 2 || t[1] == "1")
    ensures t[0] == "FONT" ==> (r.Fail? <==> |t| < 2) && (r.Continue? ==> r.state.font.name == t[1])
  {
    if t[0] == "ENDFONT" then Done
    else if t[0] == "FONT" then
      if |t| < 2 then Fail(InsufficientArguments)
      else Continue(p.(font := p.font.(name := t[1])), next)
    else if t[0] == "FONTBOUNDINGBOX" then
      match ReadBBX(t)
      case Err(e) => Fail(e)
      case Ok(b) => Continue(p.(defaultBounds := b), next)
    else if t[0] == "METRICSSET" then
      if |t| < 2 then Fail(InsufficientArguments)
      else if t[1] == "1" then Fail(VerticalFont)
      else Continue(p, next)
    else if t[0] == "DWIDTH" then
      match ReadNumber(t)
      case Err(e) => Fail(e)
      case Ok(v) => Continue(p.(defaultAdvance := v), next)
    else if t[0] == "STARTPROPERTIES" then
      match ParseProperties(ls, next, p)
      case Err(e) => Fail(e)
      case Ok((q, after)) => Continue(q, after)
    else if t[0] == "STARTCHAR" then
      match ParseChar(ls, next, p)
      case Err(e) => Fail(e)
      case Ok((q, after)) => Continue(q, after)
    else Continue(p, next)
  }

  /** The line loop of parse, up to ENDFONT or the end of the input. */
  function FontLoop(ls: Lines, pos: nat, p: Parser): (r: Result<Parser, BdfError>)
    requires pos <= |ls| && ParserOk(p)
    ensures r.Ok? ==> ParserOk(r.value)
    decreases |ls| - pos
  {
    match ReadLine(ls, pos)
    case Err(e) => Err(e)
    case Ok(EndOfInput) => Ok(p)
    case Ok(Line(t, next)) =>
      match FontStep(ls, t, next, p)
      case Done => Ok(p)
      case Fail(e) => Err(e)
      case Continue(q, after) => FontLoop(ls, after, q)
  }

  /** The header check of parse: one line of exactly STARTFONT and 2.1 or 2.2. */
  function Header(ls: Lines): (r: Result<nat, BdfError>)
    ensures r.Ok? ==> 0 < r.value <= |ls|
    ensures r.Ok? <==> (ReadLine(ls, 0).Ok? && ReadLine(ls, 0).value.Line?
                        && (ReadLine(ls, 0).value.tokens == ["STARTFONT", "2.1"]
                            || ReadLine(ls, 0).value.tokens == ["STARTFONT", "2.2"]))
  {
    match ReadLine(ls, 0)
    case Err(e) => Err(e)
    case Ok(EndOfInput) => Err(InvalidHeader)
    case Ok(Line(t, next)) =>
      if |t| != 2 || t[0] != "STARTFONT" then Err(InvalidHeader)
      else if t[1] != "2.1" && t[1] != "2.2" then Err(UnsupportedVersion)
      else Ok(next)
  }

  /** parse on tokenized lines: a successful result has a name, at least one
      glyph, and only glyphs whose bitmaps fit their boxes. */
  function ParseLines(ls: Lines): (r: Result<Font, BdfError>)
    ensures r.Ok? ==> Header(ls).Ok?
    ensures r.Ok? ==> FontValid(r.value) && r.value.name != "" && |r.value.glyphs| > 0
  {
    match Header(ls)
    case Err(e) => Err(e)
    case Ok(next) =>
      match FontLoop(ls, next, Initial)
      case Err(e) => Err(e)
      case Ok(p) =>
        if p.font.name == "" then Err(MissingName)
        else if |p.font.glyphs| == 0 then Err(NoGlyphs)
        else Ok(p.font)
  }

  /** NewFromBDF on the lines of a file as bytes: each line is read as
      Latin-1 and tokenized, then parsed. */
  function NewFromBdf(lines: seq<seq<bv8>>): (r: Result<Font, BdfError>)
    ensures r.Ok? ==> FontValid(r.value) && r.value.name != "" && |r.value.glyphs| > 0
    ensures |lines| == 0 ==> r == Err(InvalidHeader)
  {
    ParseLines(seq(|lines|, i requires 0 <= i < |lines| => Tokenize(Bits.Latin1(lines[i]))))
  }
}
