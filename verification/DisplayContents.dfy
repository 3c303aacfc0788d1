/** What each call leaves in the buffer, byte for byte, and what the panel then shows of it. */
module DisplayContents {

  import opened Modular
  import opened Widths
  import opened Display
  import opened DisplayCoherence

  // ---------- clearing ----------

  lemma {:induction false} ClearedBuffer(c: Config, s: Screen)
    ensures |Clear(c, s).buffer| == Matrix(c) && forall i :: 0 <= i < Matrix(c) ==> Clear(c, s).buffer[i] == 0
    ensures Clear(c, s).cursor == 0 && Clear(c, s).initialized == s.initialized
    ensures |Clear(c, s).dirty| == c.blockCount && forall b :: 0 <= b < c.blockCount ==> Clear(c, s).dirty[b]
  {
    hide Matrix;
  }

  /** A clear and as many renders as there are blocks leave nothing on the panel, whatever it showed before. */
  lemma {:induction false} ClearShows(c: Config, s: Screen, i: nat)
    requires Sane(c) && BlocksFit(c) && Ok(c, s) && s.initialized && i < Matrix(c)
    ensures Ok(c, Clear(c, s))
    ensures var s' := Renders(c, Clear(c, s), c.blockCount);
            Cell(c, i) < |s'.ram| && s'.ram[Cell(c, i)] == 0
  {
    hide Matrix, Cell, Sane, Coherent, Renders, BlocksFit;
    var s1 := Clear(c, s);
    ClearedBuffer(c, s);
    MatrixPositive(c);
    AllDirtyCoherent(c, s1);
    RendersShowBuffer(c, s1, i);
    CellBelow(c, i);
  }

  // ---------- characters and bytes ----------

  lemma {:induction false} GlyphAt(c: Config, ch: Byte, invert: bool, k: nat)
    requires Sane(c) && k < c.fontWidth
    ensures var at := (ch - c.fontStart) * c.fontWidth + k;
            var b := Glyph(c, ch, invert)[k];
            if c.fontStart <= ch <= c.fontEnd then
              0 <= at < |c.font| && b == if invert then !c.font[at] else c.font[at]
            else b == if invert then 0xFF else 0
  {
    if c.fontStart <= ch <= c.fontEnd {
      GlyphInFont(c, ch, k);
    }
  }

  lemma {:induction false} DrawnByte(c: Config, s: Screen, ch: Byte, invert: bool, i: nat)
    requires Sane(c) && Ok(c, s) && Room(c, s) && i < Matrix(c)
    ensures DrawChar(c, s, ch, invert).buffer[i] ==
      if s.cursor <= i < s.cursor + c.fontWidth then Glyph(c, ch, invert)[i - s.cursor] else s.buffer[i]
    ensures DrawChar(c, s, ch, invert).cursor == NextCursor(c, s.cursor)
  {
    hide NextCursor, Block, Matrix, Splice, Glyph;
    SpliceAt(s.buffer, s.cursor, Glyph(c, ch, invert), i);
  }

  /** A character goes to its columns from the cursor on, inverted or not, blank when the font lacks it; no other byte
      changes. */
  lemma {:induction false} CharWritten(c: Config, s: Screen, ch: Byte, invert: bool, i: nat)
    requires Sane(c) && Ok(c, s) && Room(c, s) && ch !in {0x0A, 0x0D} && i < Matrix(c)
    ensures var b := WriteChar(c, s, ch, invert).buffer[i];
            if s.cursor <= i < s.cursor + c.fontWidth then
              var column := i - s.cursor;
              var at := (ch - c.fontStart) * c.fontWidth + column;
              if c.fontStart <= ch <= c.fontEnd then
                0 <= at < |c.font| && b == if invert then !c.font[at] else c.font[at]
              else b == if invert then 0xFF else 0
            else b == s.buffer[i]
    ensures WriteChar(c, s, ch, invert).cursor == NextCursor(c, s.cursor)
  {
    hide NextCursor, DrawChar, Matrix, Sane, Glyph;
    DrawnByte(c, s, ch, invert, i);
    if s.cursor <= i < s.cursor + c.fontWidth {
      GlyphAt(c, ch, invert, i - s.cursor);
    }
  }

  /** A carriage return goes to the start of the next line, or to the top, and writes nothing. */
  lemma {:induction false} CarriageReturnExactly(c: Config, s: Screen)
    requires Sane(c) && Ok(c, s)
    ensures var s' := WriteChar(c, s, 0x0D, false);
            && s' == s.(cursor := s'.cursor)
            && Mod(s'.cursor, c.width) == 0
            && Div(s'.cursor, c.width) == if Div(s.cursor, c.width) + 1 < c.pages then Div(s.cursor, c.width) + 1 else 0
  {
    var w, line := c.width, Div(s.cursor, c.width);
    DivMod(s.cursor, w);
    var next := (line + 1) * w;
    assert next == line * w + w;
    assert next == s.cursor + (w - Mod(s.cursor, w));
    ModUnique(next, w, line + 1, 0);
    DivUnique(next, w, line + 1, 0);
    ModSmall(0, w);
    DivUnique(0, w, 0, 0);
    LinesBelow(c, line + 1);
    hide Mod, Div, Matrix;
  }

  lemma {:induction false} LinesBelow(c: Config, line: nat)
    ensures line * c.width >= 0
    ensures c.width > 0 ==> (line * c.width < Matrix(c) <==> line < c.pages)
  {
    MulNatural(line, c.width);
    assert (c.pages - line) * c.width == Matrix(c) - line * c.width;
    assert (line - c.pages) * c.width == line * c.width - Matrix(c);
    if c.width > 0 {
      if line < c.pages {
        MulAtLeast(c.pages - line, c.width);
      } else {
        MulNatural(line - c.pages, c.width);
      }
    }
  }

  /** The cursor is set to the line and to the column's first dot, or home when that is no place of the buffer. */
  lemma {:induction false} CursorPlace(c: Config, s: Screen, col: Byte, line: Byte)
    requires Sane(c) && col * c.fontWidth < c.width
    ensures var cursor := SetCursor(c, s, col, line).cursor;
            if line < c.pages then Div(cursor, c.width) == line && Mod(cursor, c.width) == col * c.fontWidth
            else cursor == 0
    ensures SetCursor(c, s, col, line) == s.(cursor := SetCursor(c, s, col, line).cursor)
  {
    hide Mod, Div, Matrix, Sane;
    SizesPositive(c);
    MulNatural(col, c.fontWidth);
    LineColumn(c, line, col * c.fontWidth);
  }

  lemma {:induction false} LineColumn(c: Config, line: nat, x: nat)
    requires x < c.width
    ensures line * c.width >= 0
    ensures Div(line * c.width + x, c.width) == line && Mod(line * c.width + x, c.width) == x
    ensures line * c.width + x < Matrix(c) <==> line < c.pages
  {
    hide Mod, Div, Matrix;
    PixelInside(c, x, 8 * line);
  }

  /** Raw data goes in from the cursor on, as far as the buffer reaches. */
  lemma {:induction false} RawWritten(c: Config, s: Screen, data: seq<bv8>, i: nat)
    requires Sane(c) && Ok(c, s) && i < Matrix(c)
    ensures WriteRaw(c, s, data).buffer[i] == if s.cursor <= i < s.cursor + |data| then data[i - s.cursor]
                                              else s.buffer[i]
    ensures WriteRaw(c, s, data).cursor == s.cursor
  {
    hide Splice, Altered, Matrix;
    var n := if |data| + s.cursor > Matrix(c) then Matrix(c) - s.cursor else |data|;
    SpliceAt(s.buffer, s.cursor, data[..n], i);
  }

  lemma {:induction false} RawByteWritten(c: Config, s: Screen, value: bv8, at: nat, i: nat)
    requires Sane(c) && Ok(c, s) && at < Matrix(c) && i < Matrix(c)
    ensures WriteRawByte(c, s, value, at).buffer[i] == if i == at then value else s.buffer[i]
    ensures WriteRawByte(c, s, value, at).cursor == s.cursor
  {
    hide Matrix;
  }

  // ---------- panning ----------

  /** Every dot moves by one column; the column at the end stays. */
  lemma {:induction false} PanMoves(c: Config, s: Screen, left: bool, x: nat, y: nat)
    requires Sane(c) && Ok(c, s) && x < c.width && y < 8 * c.pages
    ensures var from := if left then (if x + 1 < c.width then x + 1 else x) else (if x > 0 then x - 1 else x);
            LitAt(c, Pan(c, s, left), x, y) == LitAt(c, s, from, y)
    ensures Pan(c, s, left).cursor == s.cursor
  {
    var from := if left then (if x + 1 < c.width then x + 1 else x) else (if x > 0 then x - 1 else x);
    PixelInside(c, x, y);
    PixelInside(c, from, y);
    hide Mod, Div, Matrix, Lit, Sane;
    assert PanSource(c, x + y / 8 * c.width, left) == from + y / 8 * c.width;
  }

  // ---------- the panel ----------

  /** Buffer byte `i` is shown by the page of its line, at its column. */
  lemma {:induction false} CellIs(c: Config, page: nat, x: nat)
    requires Sane(c) && page < c.pages && x < c.width
    ensures page * c.width >= 0 && page * c.width + x < Matrix(c)
    ensures Cell(c, page * c.width + x) == page * 132 + Shift(c) + x < 8 * 132
  {
    hide Mod, Div, Matrix, Sane;
    LineColumn(c, page, x);
    CellBelow(c, page * c.width + x);
  }

  /** Seen from the panel's other end, a rotated image without an offset stands where the image stood. */
  lemma {:induction false} RotationTurns(c: Config, x: nat)
    requires c.offset == 0 && x < c.width <= PANEL_COLUMNS
    ensures 131 - (Shift(c.(rotated := true)) + x)
      == Shift(c.(rotated := false)) + (c.width - 1 - x)
  {
  }

  // ---------- nothing new ----------

  /** The calls that mark only what they change; a byte above 0x7F never equals itself when `char` is signed. */
  predicate Compares(c: Config, op: Op) {
    match op
    case OpWriteChar(ch, _) => ch !in {NEW_LINE, CARRIAGE_RETURN}
    case OpWriteRaw(_) => true
    case OpWriteRawByte(value, _) => !(c.signedChar && value >= 0x80)
    case OpWritePixel(_, _, _) => true
    case _ => false
  }

  /** A call that leaves the buffer as it was makes no block dirty. */
  lemma {:induction false} NothingNew(c: Config, s: Screen, op: Op)
    requires Sane(c) && Ok(c, s) && InRange(c, s, op) && Compares(c, op) && Step(c, s, op).buffer == s.buffer
    ensures Step(c, s, op).dirty == s.dirty
  {
    hide Sane, Matrix, WithBit, NextCursor, Splice, Block;
    match op
    case OpWriteChar(ch, invert) =>
      SizesPositive(c);
      GlyphThere(c, s, ch, invert);
    case OpWriteRaw(data) =>
      SizesPositive(c);
      assert forall b :: 0 <= b < c.blockCount ==> !Altered(c, s.buffer, s.buffer, b);
    case OpWriteRawByte(value, index) =>
    case OpWritePixel(x, y, on) =>
  }

  /** With a signed `char` a byte above 0x7F makes its block dirty even when it was there. */
  lemma {:induction false} SignedByteMarks(c: Config, s: Screen, value: bv8, i: nat)
    requires Sane(c) && Ok(c, s) && i < Matrix(c) && c.signedChar
    ensures DirtyAt(c, WriteRawByte(c, s, value, i), i)
      <==> DirtyAt(c, s, i) || s.buffer[i] != value || value >= 0x80
  {
    hide Matrix, Block;
    BlockBelow(c, i);
  }

  lemma {:induction false} GlyphThere(c: Config, s: Screen, ch: Byte, invert: bool)
    requires Sane(c) && Ok(c, s) && Room(c, s) && DrawChar(c, s, ch, invert).buffer == s.buffer
    ensures s.buffer[s.cursor..s.cursor + c.fontWidth] == Glyph(c, ch, invert)
  {
    hide Glyph, NextCursor, Block, Matrix;
    var g := Glyph(c, ch, invert);
    assert Splice(s.buffer, s.cursor, g)[s.cursor..s.cursor + |g|] == g;
  }

  lemma {:induction false} DrawnBlocks(c: Config, s: Screen, ch: Byte, invert: bool, b: nat)
    requires Sane(c) && Ok(c, s) && Room(c, s) && b < c.blockCount
    ensures DrawChar(c, s, ch, invert).dirty[b] ==>
      s.dirty[b] || b in {Block(c, s.cursor), Block(c, s.cursor + c.fontWidth - 1)}
  {
    hide NextCursor, Block, Matrix, Splice, Glyph;
    BlockBelow(c, s.cursor);
    BlockBelow(c, s.cursor + c.fontWidth - 1);
  }

  /** It makes no block dirty in which nothing changes, but for the blocks of a character's first and last column. */
  lemma {:induction false} OnlyTouched(c: Config, s: Screen, op: Op, b: nat)
    requires Sane(c) && Ok(c, s) && InRange(c, s, op) && Compares(c, op) && b < c.blockCount
    requires Step(c, s, op).dirty[b] && !s.dirty[b]
    ensures (exists i: nat :: i < Matrix(c) && Step(c, s, op).buffer[i] != s.buffer[i] && Block(c, i) == b)
            || (op.OpWriteChar? && b in {Block(c, s.cursor), Block(c, s.cursor + c.fontWidth - 1)})
  {
    hide Sane, Matrix, WithBit, DrawChar, Splice, Block;
    SizesPositive(c);
    match op
    case OpWriteChar(ch, invert) => DrawnBlocks(c, s, ch, invert, b);
    case OpWriteRaw(data) =>
      var s' := WriteRaw(c, s, data);
      assert Altered(c, s.buffer, s'.buffer, b);
      var i :| 0 <= i < |s.buffer| && s.buffer[i] != s'.buffer[i] && Block(c, i) == b;
      assert s'.buffer[i] != s.buffer[i];
    case OpWriteRawByte(value, index) =>
      assert Step(c, s, op).buffer[index] != s.buffer[index];
    case OpWritePixel(x, y, on) =>
      var i := x + y / 8 * c.width;
      assert Step(c, s, op).buffer[i] != s.buffer[i];
  }
}
