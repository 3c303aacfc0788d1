/** The cache is coherent on every run, and renders show the whole buffer. */
module DisplayCoherence {

  import opened Widths
  import opened Modular
  import opened Display

  /** Every changed byte lies in a block that is dirty afterwards, and nothing becomes clean. */
  ghost predicate Marks(c: Config, s: Screen, s': Screen)
    requires Sane(c) && Ok(c, s) && Ok(c, s')
  {
    && s'.ram == s.ram
    && (forall b: nat :: b < c.blockCount && s.dirty[b] ==> s'.dirty[b])
    && forall i: nat :: i < Matrix(c) && s'.buffer[i] != s.buffer[i] ==> DirtyAt(c, s', i)
  }

  lemma {:induction false} MarksCoherent(c: Config, s: Screen, s': Screen)
    requires Sane(c) && Ok(c, s) && Ok(c, s') && Coherent(c, s) && Marks(c, s, s')
    ensures Coherent(c, s')
  {
    hide Sane;
    hide Matrix;
    hide Cell;
    hide Block;
    forall i: nat | i < Matrix(c) && !DirtyAt(c, s', i)
      ensures Shown(c, s', i)
    {
      BlockBelow(c, i);
      assert !DirtyAt(c, s, i);
      assert Shown(c, s, i);
    }
  }

  lemma {:induction false} AllDirtyCoherent(c: Config, s: Screen)
    requires Sane(c) && Ok(c, s) && forall b: nat :: b < c.blockCount ==> s.dirty[b]
    ensures Coherent(c, s)
  {
    hide Sane;
    hide Matrix;
    hide Cell;
    hide Block;
    forall i: nat | i < Matrix(c)
      ensures DirtyAt(c, s, i)
    {
      BlockBelow(c, i);
    }
  }

  /** A run of at most `blockSize + 1` bytes lies in the blocks of its first and last byte. */
  lemma {:induction false} FirstOrLast(n: nat, at: nat, length: nat, i: nat)
    requires 0 < length <= n + 1 && n > 0 && at <= i < at + length
    ensures Div(i, n) == Div(at, n) || Div(i, n) == Div(at + length - 1, n)
  {
    var p, q, r := Div(at, n), Div(i, n), Div(at + length - 1, n);
    DivMod(at, n);
    DivMod(i, n);
    DivMod(at + length - 1, n);
    DivMonotone(at, i, n);
    DivMonotone(i, at + length - 1, n);
    assert (r - p) * n == r * n - p * n;
    if r - p >= 2 {
      assert (r - p - 1) * n == (r - p) * n - n;
      MulAtLeast(r - p - 1, n);
    }
  }

  lemma {:induction false} DivMonotone(a: nat, b: nat, n: nat)
    requires n > 0 && a <= b
    ensures Div(a, n) <= Div(b, n)
  {
    DivMod(a, n);
    DivMod(b, n);
    assert (Div(a, n) - Div(b, n)) * n == Div(a, n) * n - Div(b, n) * n;
    if Div(a, n) > Div(b, n) {
      MulAtLeast(Div(a, n) - Div(b, n), n);
    }
  }

  lemma {:induction false} SpliceAt(b: seq<bv8>, at: nat, data: seq<bv8>, i: nat)
    requires at + |data| <= |b| && i < |b|
    ensures Splice(b, at, data)[i] == if at <= i < at + |data| then data[i - at] else b[i]
  {
  }

  /** A character at `at` lies in the blocks of its first and last column. */
  ghost predicate Covered(c: Config, at: nat)
    requires Sane(c)
  {
    forall i: nat :: at <= i < at + c.fontWidth ==>
      Block(c, i) == Block(c, at) || Block(c, i) == Block(c, at + c.fontWidth - 1)
  }

  lemma {:induction false} FontCovers(c: Config, at: nat)
    requires Sane(c) && SizesFit(c)
    ensures Covered(c, at)
  {
    hide Sane, Matrix, Div;
    SizesPositive(c);
    forall i: nat | at <= i < at + c.fontWidth
      ensures Block(c, i) == Block(c, at) || Block(c, i) == Block(c, at + c.fontWidth - 1)
    {
      FirstOrLast(c.blockSize, at, c.fontWidth, i);
    }
  }

  lemma {:induction false} DrawCharMarks(c: Config, s: Screen, ch: Byte, invert: bool)
    requires Sane(c) && Ok(c, s) && Room(c, s) && Covered(c, s.cursor)
    ensures Marks(c, s, DrawChar(c, s, ch, invert))
  {
    var s' := DrawChar(c, s, ch, invert);
    var last := s.cursor + c.fontWidth - 1;
    BlockBelow(c, s.cursor);
    BlockBelow(c, last);
    hide Glyph;
    hide NextCursor;
    var g := Glyph(c, ch, invert);
    if s.buffer[s.cursor..last + 1] == g {
      assert Splice(s.buffer, s.cursor, g) == s.buffer;
    } else {
      forall i: nat | i < Matrix(c) && s'.buffer[i] != s.buffer[i]
        ensures DirtyAt(c, s', i)
      {
        SpliceAt(s.buffer, s.cursor, g, i);
      }
    }
  }

  lemma {:induction false} DrawCharCoherent(c: Config, s: Screen, ch: Byte, invert: bool)
    requires Sane(c) && Ok(c, s) && Room(c, s) && Coherent(c, s) && Covered(c, s.cursor)
    ensures Coherent(c, DrawChar(c, s, ch, invert))
  {
    DrawCharMarks(c, s, ch, invert);
    hide *;
    MarksCoherent(c, s, DrawChar(c, s, ch, invert));
  }

  lemma {:induction false} BlanksCoherent(c: Config, s: Screen, n: nat)
    requires Sane(c) && SizesFit(c) && Ok(c, s) && Mod(s.cursor, c.width) + Chars(c, n) <= c.width && Coherent(c, s)
    ensures Coherent(c, Blanks(c, s, n))
    decreases n
  {
    if n > 0 {
      LineHasRoom(c, s.cursor, n);
      FontCovers(c, s.cursor);
      DrawCharCoherent(c, s, 0x20, false);
      hide Coherent;
      hide Sane;
      hide Ok;
      BlanksCoherent(c, DrawChar(c, s, 0x20, false), n - 1);
    }
  }

  lemma {:induction false} SetByteCoherent(c: Config, s: Screen, i: nat, value: bv8)
    requires Sane(c) && Ok(c, s) && i < Matrix(c) && Coherent(c, s)
    ensures Coherent(c, SetByte(c, s, i, value))
  {
    BlockBelow(c, i);
    hide Coherent;
    hide Sane;
    hide Matrix;
    MarksCoherent(c, s, SetByte(c, s, i, value));
  }

  lemma {:induction false} WriteRawCoherent(c: Config, s: Screen, data: seq<bv8>)
    requires Sane(c) && Ok(c, s) && Coherent(c, s)
    ensures Coherent(c, WriteRaw(c, s, data))
  {
    var s' := WriteRaw(c, s, data);
    hide Coherent;
    hide Sane;
    hide Matrix;
    hide Splice;
    forall i: nat | i < Matrix(c) && s'.buffer[i] != s.buffer[i]
      ensures DirtyAt(c, s', i)
    {
      BlockBelow(c, i);
      assert Altered(c, s.buffer, s'.buffer, Block(c, i));
    }
    MarksCoherent(c, s, s');
  }

  lemma {:induction false} CursorCoherent(c: Config, s: Screen, cursor: nat)
    requires Sane(c) && Ok(c, s) && cursor < Matrix(c) && Coherent(c, s)
    ensures Coherent(c, s.(cursor := cursor))
  {
    hide Coherent;
    hide Matrix;
    hide Sane;
    MarksCoherent(c, s, s.(cursor := cursor));
  }

  lemma {:induction false} AdvancePageCoherent(c: Config, s: Screen, clear: bool)
    requires Sane(c) && SizesFit(c) && Ok(c, s) && Coherent(c, s)
    ensures Coherent(c, AdvancePage(c, s, clear))
  {
    var remaining := c.width - Mod(s.cursor, c.width);
    MatrixPositive(c);
    hide Coherent;
    hide Matrix;
    if clear {
      CharsFit(c, remaining);
      BlanksCoherent(c, s, Div(remaining, c.fontWidth));
    } else {
      CursorCoherent(c, s, AdvancePage(c, s, clear).cursor);
    }
  }

  // ---------- rendering ----------

  lemma {:induction false} FirstIs(dirty: seq<bool>, b: nat)
    requires b <= |dirty| && (b < |dirty| ==> dirty[b]) && forall k :: 0 <= k < b ==> !dirty[k]
    ensures First(dirty) == b
  {
  }

  lemma {:induction false} ReceivedAt(ram: seq<bv8>, page: nat, column: nat, data: seq<bv8>, j: nat)
    requires |ram| == PANEL_PAGES * PANEL_COLUMNS && page < PANEL_PAGES && column + |data| <= PANEL_COLUMNS && j < |ram|
    ensures var base := page * PANEL_COLUMNS + column;
            Received(ram, page, column, data)[j] == if base <= j < base + |data| then data[j - base] else ram[j]
    decreases |data|
  {
    if data != [] {
      ReceivedAt(ram, page, column, data[..|data| - 1], j);
    }
  }

  /** A block lies on one line, in consecutive cells. */
  lemma {:induction false} BlockCells(c: Config, b: nat, k: nat)
    requires Sane(c) && BlocksFit(c) && b < c.blockCount && k < c.blockSize
    ensures c.blockSize * b >= 0
    ensures var start := c.blockSize * b;
            && Mod(start, c.width) + c.blockSize <= c.width
            && Cell(c, start + k) == Cell(c, start) + k
            && Block(c, start + k) == b
  {
    var start := c.blockSize * b;
    MulNatural(b, c.blockSize);
    ModUnique(start, c.blockSize, b, 0);
    DivUnique(start + k, c.blockSize, b, k);
    ModAdvance(start, k, c.blockSize, c.width);
    ModAdvance(start, c.blockSize - 1, c.blockSize, c.width);
    var q := Div(start, c.width);
    DivMod(start, c.width);
    DivUnique(start + k, c.width, q, Mod(start, c.width) + k);
    hide Mod;
    hide Div;
  }

  /** A render puts its block on the panel and leaves every other cell of the image alone. */
  lemma {:induction false} RenderCell(c: Config, s: Screen, i: nat)
    requires Sane(c) && BlocksFit(c) && Ok(c, s) && i < Matrix(c) && s.initialized && First(s.dirty) < c.blockCount
    ensures Cell(c, i) < PANEL_PAGES * PANEL_COLUMNS
    ensures Render(c, s).ram[Cell(c, i)] == if Block(c, i) == First(s.dirty) then s.buffer[i] else s.ram[Cell(c, i)]
  {
    var b := First(s.dirty);
    var start := c.blockSize * b;
    BlockFits(c, b);
    BlockBelow(c, i);
    BlockCells(c, b, 0);
    CellBelow(c, i);
    CellBelow(c, start);
    var data := s.buffer[start..start + c.blockSize];
    RenderedAt(c, s, Cell(c, i));
    hide First;
    hide Mod;
    hide Render;
    hide Matrix;
    if Block(c, i) == b {
      BlockCells(c, b, i - start);
    } else if Cell(c, start) <= Cell(c, i) < Cell(c, start) + c.blockSize {
      var k := Cell(c, i) - Cell(c, start);
      BlockCells(c, b, k);
      CellInjective(c, i, start + k);
    }
  }

  lemma {:induction false} SizesPositive(c: Config)
    requires Sane(c)
    ensures c.width > 0 && c.fontWidth > 0 && c.blockSize > 0 && Shift(c) + c.width <= PANEL_COLUMNS
  {
    hide Matrix, Mod;
  }

  /** The cell a render changes at `j`, for the block that starts at `start`. */
  lemma {:induction false} SentAt(c: Config, s: Screen, start: nat, j: nat)
    requires Sane(c) && Ok(c, s) && start + c.blockSize <= Matrix(c) && Mod(start, c.width) + c.blockSize <= c.width
    requires j < PANEL_PAGES * PANEL_COLUMNS
    ensures Received(s.ram, Div(start, c.width), Shift(c) + Mod(start, c.width),
      s.buffer[start..start + c.blockSize])[j]
              ==
               if Cell(c, start) <= j < Cell(c, start) + c.blockSize then s.buffer[start + (j - Cell(c, start))]
               else s.ram[j]
  {
    hide Mod, Div, Sane, Matrix, Received;
    SizesPositive(c);
    CellBelow(c, start);
    ReceivedAt(s.ram, Div(start, c.width), Shift(c) + Mod(start, c.width), s.buffer[start..start + c.blockSize], j);
  }

  lemma {:induction false} RenderedAt(c: Config, s: Screen, j: nat)
    requires Sane(c) && BlocksFit(c) && Ok(c, s) && j < PANEL_PAGES * PANEL_COLUMNS && s.initialized
    requires First(s.dirty) < c.blockCount
    ensures var start := c.blockSize * First(s.dirty);
            && 0 <= start && start + c.blockSize <= Matrix(c)
            && Render(c, s).ram[j] ==
                 if Cell(c, start) <= j < Cell(c, start) + c.blockSize then s.buffer[start + (j - Cell(c, start))]
                 else s.ram[j]
  {
    hide First, Mod, Div, Sane, Matrix, Received, Cell;
    SizesPositive(c);
    BlockFits(c, First(s.dirty));
    BlockCells(c, First(s.dirty), 0);
    SentAt(c, s, c.blockSize * First(s.dirty), j);
  }

  lemma {:induction false} RenderCoherent(c: Config, s: Screen)
    requires Sane(c) && BlocksFit(c) && Ok(c, s) && Coherent(c, s)
    ensures Coherent(c, Render(c, s))
  {
    if s.initialized && First(s.dirty) < c.blockCount {
      var s' := Render(c, s);
      assert s'.dirty == s.dirty[First(s.dirty) := false] && s'.buffer == s.buffer;
      hide Render;
      hide First;
      hide Matrix;
      hide Block;
      hide Cell;
      hide Sane;
      forall i: nat | i < Matrix(c) && !DirtyAt(c, s', i)
        ensures Shown(c, s', i)
      {
        BlockBelow(c, i);
        RenderCell(c, s, i);
        if Block(c, i) != First(s.dirty) {
          assert !DirtyAt(c, s, i);
          assert Shown(c, s, i);
        }
      }
    }
  }

  // ---------- runs ----------

  lemma {:induction false} StepCoherent(c: Config, s: Screen, op: Op)
    requires Sane(c) && SizesFit(c) && Ok(c, s) && InRange(c, s, op) && Coherent(c, s)
    ensures Coherent(c, Step(c, s, op))
  {
    MatrixPositive(c);
    hide Coherent;
    hide Sane;
    hide Matrix;
    hide AdvancePage;
    hide DrawChar;
    hide Render;
    hide WriteRaw;
    match op
    case OpClear => AllDirtyCoherent(c, Clear(c, s));
    case OpSetCursor(col, line) => CursorCoherent(c, s, SetCursor(c, s, col, line).cursor);
    case OpWriteChar(ch, invert) => {
      if ch == NEW_LINE || ch == CARRIAGE_RETURN {
        AdvancePageCoherent(c, s, ch == NEW_LINE);
      } else {
        FontCovers(c, s.cursor);
        DrawCharCoherent(c, s, ch, invert);
      }
    }
    case OpAdvancePage(clear) => AdvancePageCoherent(c, s, clear);
    case OpWriteRaw(data) => WriteRawCoherent(c, s, data);
    case OpWriteRawByte(value, index) => SetByteCoherent(c, s, RawIndex(c, index), value);
    case OpWritePixel(x, y, on) => WritePixelCoherent(c, s, x, y, on);
    case OpPan(left) => AllDirtyCoherent(c, Pan(c, s, left));
    case OpRender => RenderCoherent(c, s);
  }

  lemma {:induction false} WritePixelCoherent(c: Config, s: Screen, x: Byte, y: Byte, on: bool)
    requires Sane(c) && Ok(c, s) && Coherent(c, s)
    ensures Coherent(c, WritePixel(c, s, x, y, on))
  {
    hide Coherent;
    hide Sane;
    hide Matrix;
    hide WithBit;
    var i := x + y / 8 * c.width;
    if x < c.width && i < Matrix(c) {
      SetByteCoherent(c, s, i, WithBit(s.buffer[i], y % 8, on));
    }
  }

  /** On every run of in-range calls each clean block is on the panel. */
  lemma {:induction false} RunCoherent(c: Config, s: Screen, ops: seq<Op>)
    requires Sane(c) && SizesFit(c) && Ok(c, s) && RunInRange(c, s, ops) && Coherent(c, s)
    ensures Coherent(c, Run(c, s, ops))
    decreases |ops|
  {
    if ops != [] {
      StepCoherent(c, s, ops[0]);
      hide Coherent;
      hide Sane;
      hide Ok;
      hide Step;
      RunCoherent(c, Step(c, s, ops[0]), ops[1..]);
    }
  }

  ghost function Renders(c: Config, s: Screen, n: nat): (s': Screen)
    requires Sane(c) && Ok(c, s)
    ensures Ok(c, s')
  {
    if n == 0 then s else Render(c, Renders(c, s, n - 1))
  }

  /** One render cleans the first dirty block. */
  lemma {:induction false} RenderCleans(c: Config, s: Screen)
    requires Sane(c) && Ok(c, s) && s.initialized
    ensures var s' := Render(c, s);
            && s'.buffer == s.buffer && s'.initialized
            && (First(s'.dirty) > First(s.dirty) || First(s'.dirty) == c.blockCount)
  {
    hide Received;
    hide Matrix;
  }

  /** `n` renders leave no dirty block among the first `n`. */
  lemma {:induction false} RendersClean(c: Config, s: Screen, n: nat)
    requires Sane(c) && BlocksFit(c) && Ok(c, s) && s.initialized && Coherent(c, s)
    ensures var s' := Renders(c, s, n);
            && s'.buffer == s.buffer && s'.initialized && Coherent(c, s')
            && First(s'.dirty) >= (if n < c.blockCount then n else c.blockCount)
  {
    if n > 0 {
      RendersClean(c, s, n - 1);
      var p := Renders(c, s, n - 1);
      RenderCoherent(c, p);
      RenderCleans(c, p);
      hide Coherent;
      hide Sane;
      hide Matrix;
      hide Render;
    }
  }

  lemma {:induction false} NoneDirty(dirty: seq<bool>, b: nat)
    requires First(dirty) == |dirty| && b < |dirty|
    ensures !dirty[b]
  {
  }

  lemma {:induction false} CleanShows(c: Config, s: Screen, i: nat)
    requires Sane(c) && Ok(c, s) && Coherent(c, s) && First(s.dirty) == c.blockCount && i < Matrix(c)
    ensures Shown(c, s, i)
  {
    NotDirty(c, s, i);
    hide Sane, Ok, Matrix, DirtyAt, First;
  }

  lemma {:induction false} NotDirty(c: Config, s: Screen, i: nat)
    requires Sane(c) && Ok(c, s) && First(s.dirty) == c.blockCount && i < Matrix(c)
    ensures !DirtyAt(c, s, i)
  {
    BlockBelow(c, i);
    NoneDirty(s.dirty, Block(c, i));
    hide First, Sane, Matrix, Block;
  }

  /** Once there have been as many renders as blocks, the panel shows the buffer. */
  lemma {:induction false} RendersShowBuffer(c: Config, s: Screen, i: nat)
    requires Sane(c) && BlocksFit(c) && Ok(c, s) && s.initialized && Coherent(c, s) && i < Matrix(c)
    ensures var s' := Renders(c, s, c.blockCount);
            s'.buffer == s.buffer && Shown(c, s', i)
  {
    RendersClean(c, s, c.blockCount);
    CleanShows(c, Renders(c, s, c.blockCount), i);
    hide *;
  }

  // ---------- pixels and lines ----------

  /** A pixel write changes that pixel and no other. */
  lemma {:induction false} WithBitExactly(b: bv8, k: nat, on: bool, j: nat)
    requires k < 8 && j < 8
    ensures Lit(WithBit(b, k, on), j) == if j == k then on else Lit(b, j)
  {
    MasksDisjoint(k, j);
    hide Mask, Has, WithMask;
    if j == k {
      MaskSets(b, Mask(k), on);
    } else {
      MaskSpares(b, Mask(k), Mask(j), on);
    }
  }

  predicate Has(b: bv8, mask: bv8) {
    b & mask != 0
  }

  lemma {:induction false} MaskSets(b: bv8, m: bv8, on: bool)
    requires m != 0
    ensures Has(WithMask(b, m, on), m) == on
  {
    assert (b | m) & m == m;
  }

  lemma {:induction false} MaskSpares(b: bv8, m: bv8, n: bv8, on: bool)
    requires m & n == 0
    ensures Has(WithMask(b, m, on), n) == Has(b, n)
  {
  }

  lemma {:induction false} MasksDisjoint(k: nat, j: nat)
    requires k < 8 && j < 8
    ensures Mask(k) != 0
    ensures k != j ==> Mask(k) & Mask(j) == 0
  {
  }

  predicate Lit(b: bv8, k: nat)
    requires k < 8
  {
    Has(b, Mask(k))
  }

  /** The buffer byte and bit of a pixel. */
  ghost predicate LitAt(c: Config, s: Screen, x: nat, y: nat)
    requires Sane(c) && Ok(c, s) && x < c.width && y < 8 * c.pages
  {
    PixelInside(c, x, y);
    Lit(s.buffer[x + y / 8 * c.width], y % 8)
  }

  lemma {:induction false} PixelInside(c: Config, x: nat, y: nat)
    requires c.width > 0 && x < c.width
    ensures y / 8 * c.width >= 0
    ensures x + y / 8 * c.width < Matrix(c) <==> y < 8 * c.pages
    ensures Mod(x + y / 8 * c.width, c.width) == x && Div(x + y / 8 * c.width, c.width) == y / 8
  {
    var p := y / 8;
    MulNatural(p, c.width);
    ModUnique(x + p * c.width, c.width, p, x);
    DivUnique(x + p * c.width, c.width, p, x);
    if p < c.pages {
      MulAtLeast(c.pages - p, c.width);
    } else {
      MulNatural(p - c.pages, c.width);
    }
    assert (c.pages - p) * c.width == Matrix(c) - p * c.width;
    assert (p - c.pages) * c.width == p * c.width - Matrix(c);
  }

  lemma {:induction false} PixelExactly(c: Config, s: Screen, x: Byte, y: Byte, on: bool, u: nat, v: nat)
    requires Sane(c) && Ok(c, s) && u < c.width && v < 8 * c.pages
    ensures LitAt(c, WritePixel(c, s, x, y, on), u, v) == if u == x && v == y then on else LitAt(c, s, u, v)
  {
    PixelInside(c, u, v);
    if x < c.width {
      PixelInside(c, x, y);
      hide Mod;
      hide Div;
      hide Sane;
      hide Lit;
      hide WithBit;
      var i, j := x + y / 8 * c.width, u + v / 8 * c.width;
      if i < Matrix(c) {
        WithBitExactly(s.buffer[i], y % 8, on, v % 8);
      }
    }
  }

  /** `n` blanks that fill the line but for less than a character send the cursor to the next line or the top. */
  lemma {:induction false} BlanksCursor(c: Config, s: Screen, n: nat)
    requires Sane(c) && Ok(c, s) && n > 0
    requires Mod(s.cursor, c.width) + Chars(c, n) <= c.width < Mod(s.cursor, c.width) + Chars(c, n) + c.fontWidth
    ensures var end := s.cursor - Mod(s.cursor, c.width) + c.width;
            Blanks(c, s, n).cursor == if end < Matrix(c) then end else 0
    decreases n
  {
    LineHasRoom(c, s.cursor, n);
    var p := DrawChar(c, s, 0x20, false);
    CursorMoves(c, s.cursor);
    assert p.cursor == NextCursor(c, s.cursor);
    CharsStep(c, n);
    hide Sane, Matrix, DrawChar, Mod, NextCursor, Chars;
    if n > 1 {
      BlanksCursor(c, p, n - 1);
    } else {
      assert Blanks(c, p, 0) == p;
    }
  }

  /** Buffer byte `i`, holding `b`, after `n` blanks from `at`. */
  ghost function Blanked(c: Config, at: nat, n: nat, i: nat, b: bv8): bv8
    requires Sane(c)
  {
    if at <= i < at + Chars(c, n) then GlyphColumn(c, 0x20, Mod(i - at, c.fontWidth)) else b
  }

  lemma {:induction false} BlankedStep(c: Config, at: nat, n: nat, i: nat, b: bv8)
    requires Sane(c) && n > 0
    ensures Blanked(c, at, n, i, b) == Blanked(c, at + c.fontWidth, n - 1, i, Blanked(c, at, 1, i, b))
    ensures Blanked(c, at, 1, i, b) == if at <= i < at + c.fontWidth then GlyphColumn(c, 0x20, i - at) else b
  {
    var f := c.fontWidth;
    CharsStep(c, n);
    CharsStep(c, 1);
    if at <= i < at + f {
      ModSmall(i - at, f);
    } else if at + f <= i {
      ModAdd(i - at - f, 1, f);
    }
    hide GlyphColumn, Mod, Matrix, Chars;
  }

  lemma {:induction false} BlanksBuffer(c: Config, s: Screen, n: nat, i: nat)
    requires Sane(c) && Ok(c, s) && i < Matrix(c) && Mod(s.cursor, c.width) + Chars(c, n) <= c.width
    ensures Blanks(c, s, n).buffer[i] == Blanked(c, s.cursor, n, i, s.buffer[i])
    decreases n
  {
    hide Sane, Matrix, DrawChar, GlyphColumn, Mod, Chars, Blanked, NextCursor;
    SizesPositive(c);
    if n == 0 {
      NoBlanks(c, s.cursor, i, s.buffer[i]);
    } else {
      LineHasRoom(c, s.cursor, n);
      var p := DrawChar(c, s, 0x20, false);
      DrawCharAt(c, s, i);
      BlankedStep(c, s.cursor, n, i, s.buffer[i]);
      BlanksBuffer(c, p, n - 1, i);
      NoBlanks(c, p.cursor, i, p.buffer[i]);
      NoBlanks(c, s.cursor + c.fontWidth, i, p.buffer[i]);
    }
  }

  lemma {:induction false} NoBlanks(c: Config, at: nat, i: nat, b: bv8)
    requires Sane(c)
    ensures Blanked(c, at, 0, i, b) == b
  {
  }

  lemma {:induction false} DrawCharAt(c: Config, s: Screen, i: nat)
    requires Sane(c) && Ok(c, s) && Room(c, s) && i < Matrix(c)
    ensures DrawChar(c, s, 0x20, false).cursor == NextCursor(c, s.cursor)
    ensures DrawChar(c, s, 0x20, false).buffer[i]
              == if s.cursor <= i < s.cursor + c.fontWidth then GlyphColumn(c, 0x20, i - s.cursor) else s.buffer[i]
  {
    SpliceAt(s.buffer, s.cursor, Glyph(c, 0x20, false), i);
    hide Splice, GlyphColumn, NextCursor;
  }

  /** A newline blanks the rest of the line and goes to the next, unless less than a character is left: then it does
      nothing at all. */
  lemma {:induction false} NewLineExactly(c: Config, s: Screen, i: nat)
    requires Sane(c) && Ok(c, s) && i < Matrix(c)
    ensures var s' := WriteChar(c, s, 0x0A, false);
            var left := c.width - Mod(s.cursor, c.width);
            if left < c.fontWidth then s' == s
            else
              && s'.cursor == (if s.cursor + left < Matrix(c) then s.cursor + left else 0)
              && s'.buffer[i] == Blanked(c, s.cursor, Div(left, c.fontWidth), i, s.buffer[i])
  {
    hide Sane, Matrix, GlyphColumn, Mod, Div, Blanks, Chars, Blanked;
    SizesPositive(c);
    var left := c.width - Mod(s.cursor, c.width);
    var n := Div(left, c.fontWidth);
    CharsFit(c, left);
    if left < c.fontWidth {
      DivUnique(left, c.fontWidth, 0, left);
      NoneBlanked(c, s);
    } else {
      CharsOfNone(c);
      BlanksCursor(c, s, n);
      BlanksBuffer(c, s, n, i);
    }
  }

  lemma {:induction false} CharsOfNone(c: Config)
    ensures Chars(c, 0) == 0
  {
  }

  lemma {:induction false} NoneBlanked(c: Config, s: Screen)
    requires Sane(c) && Ok(c, s) && Mod(s.cursor, c.width) + Chars(c, 0) <= c.width
    ensures Blanks(c, s, 0) == s
  {
  }
}
