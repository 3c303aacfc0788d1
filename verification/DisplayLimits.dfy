/** What the cache asks of its sizes: where a character stays coherent, and when a render does. */
module DisplayLimits {

  import opened Modular
  import opened Widths
  import opened Display
  import opened DisplayCoherence

  // ---------- characters ----------

  /** Marking a character's first and last block covers it wherever it stands exactly when the font is at most one
      column wider than a block. */
  lemma {:induction false} FontWidthExactly(blockSize: nat, fontWidth: nat)
    requires blockSize > 0 && fontWidth > 0
    ensures (forall at: nat, i: nat :: at <= i < at + fontWidth ==>
               Div(i, blockSize) == Div(at, blockSize) || Div(i, blockSize) == Div(at + fontWidth - 1, blockSize))
              <==> fontWidth <= blockSize + 1
  {
    if fontWidth <= blockSize + 1 {
      forall at: nat, i: nat | at <= i < at + fontWidth
        ensures Div(i, blockSize) == Div(at, blockSize) || Div(i, blockSize) == Div(at + fontWidth - 1, blockSize)
      {
        FirstOrLast(blockSize, at, fontWidth, i);
      }
    } else {
      var at, i := blockSize - 1, blockSize;
      var last := at + fontWidth - 1;
      DivUnique(at, blockSize, 0, at);
      DivUnique(i, blockSize, 1, 0);
      DivUnique(2 * blockSize, blockSize, 2, 0);
      DivMonotone(2 * blockSize, last, blockSize);
      assert at <= i < at + fontWidth;
    }
  }

  /** Some byte at `at` in a block that is neither the first nor the last is not marked. */
  lemma {:induction false} UncoveredBreaks(c: Config, at: nat, ch: Byte, invert: bool, i: nat) returns (s: Screen)
    requires Sane(c) && at <= i < at + c.fontWidth && at + c.fontWidth <= Matrix(c)
    requires Block(c, i) != Block(c, at) && Block(c, i) != Block(c, at + c.fontWidth - 1)
    ensures Ok(c, s) && s.cursor == at && Coherent(c, s) && !Coherent(c, DrawChar(c, s, ch, invert))
  {
    hide Glyph, Block, Cell, Sane;
    var g := Glyph(c, ch, invert);
    s := Plain(c, !g[i - at], at);
    PlainCoherent(c, !g[i - at], at);
    BlockBelow(c, i);
    CellBelow(c, i);
    BlockBelow(c, at);
    BlockBelow(c, at + c.fontWidth - 1);
    SpliceAt(s.buffer, at, g, i);
    Differs(g[i - at]);
    var s' := DrawChar(c, s, ch, invert);
    hide Splice, NextCursor, Coherent;
    assert !DirtyAt(c, s', i) && !Shown(c, s', i);
    NotCoherent(c, s', i);
  }

  lemma {:induction false} Differs(b: bv8)
    ensures !b != b
  {
  }

  lemma {:induction false} NotCoherent(c: Config, s: Screen, i: nat)
    requires Sane(c) && Ok(c, s) && i < Matrix(c) && !DirtyAt(c, s, i) && !Shown(c, s, i)
    ensures !Coherent(c, s)
  {
    hide DirtyAt, Shown, Sane, Ok, Matrix;
  }

  /** A screen of one value, on the panel as in the buffer. */
  ghost function Plain(c: Config, value: bv8, cursor: nat): Screen {
    Screen(seq(Matrix(c), _ => value), cursor, seq(c.blockCount, _ => false),
      seq(PANEL_PAGES * PANEL_COLUMNS, _ => value), true)
  }

  lemma {:induction false} PlainCoherent(c: Config, value: bv8, cursor: nat)
    requires Sane(c) && cursor < Matrix(c)
    ensures Ok(c, Plain(c, value, cursor)) && Coherent(c, Plain(c, value, cursor))
  {
    hide Sane, Matrix, Cell;
    var s := Plain(c, value, cursor);
    forall i: nat | i < Matrix(c) && !DirtyAt(c, s, i) ensures Shown(c, s, i) {
      CellBelow(c, i);
    }
  }

  /** A character drawn at `at` keeps every coherent screen coherent if and only if its first and last block cover
      it there. */
  lemma {:induction false} DrawExactly(c: Config, at: nat, ch: Byte, invert: bool)
    requires Sane(c) && at + c.fontWidth <= Matrix(c)
    ensures (forall s: Screen :: Ok(c, s) && s.cursor == at && Coherent(c, s) ==>
      Coherent(c, DrawChar(c, s, ch, invert)))
            <==> Covered(c, at)
  {
    hide Sane, Matrix, Coherent, DrawChar, Block;
    SizesPositive(c);
    if Covered(c, at) {
      forall s: Screen | Ok(c, s) && s.cursor == at && Coherent(c, s) ensures Coherent(c, DrawChar(c, s, ch, invert)) {
        DrawCharCoherent(c, s, ch, invert);
      }
    } else {
      var i: nat :| at <= i < at + c.fontWidth && Block(c, i) != Block(c, at)
        && Block(c, i) != Block(c, at + c.fontWidth - 1);
      var s := UncoveredBreaks(c, at, ch, invert, i);
    }
  }

  // ---------- renders ----------

  /** Bytes sent to one panel page stay on it. */
  lemma {:induction false} OtherPage(ram: seq<bv8>, page: nat, column: nat, data: seq<bv8>, j: nat)
    requires |ram| == PANEL_PAGES * PANEL_COLUMNS && j < |ram|
    requires !(page * PANEL_COLUMNS <= j < page * PANEL_COLUMNS + PANEL_COLUMNS)
    ensures Received(ram, page, column, data)[j] == ram[j]
    decreases |data|
  {
    if data != [] {
      OtherPage(ram, page, column, data[..|data| - 1], j);
    }
  }

  /** The block across the end of the first line, about to be rendered: its blocks before are on the panel. */
  ghost function Across(c: Config, b: nat): Screen {
    Screen(seq(Matrix(c), i => if i < c.blockSize * b then 0 else 1), 0, seq(c.blockCount, k => k >= b),
           seq(PANEL_PAGES * PANEL_COLUMNS, _ => 0), true)
  }

  lemma {:induction false} AcrossCoherent(c: Config, b: nat)
    requires Sane(c) && b < c.blockCount
    ensures Matrix(c) > 0 && Ok(c, Across(c, b)) && Coherent(c, Across(c, b)) && First(Across(c, b).dirty) == b
  {
    hide Sane, Matrix, Cell, Block, First;
    MatrixPositive(c);
    var s := Across(c, b);
    FirstIs(s.dirty, b);
    forall i: nat | i < Matrix(c) && !DirtyAt(c, s, i) ensures Shown(c, s, i) {
      BlockBelow(c, i);
      CellBelow(c, i);
      BlockOrder(c, i, b);
    }
  }

  lemma {:induction false} BlockOrder(c: Config, i: nat, b: nat)
    requires Sane(c) && i < Matrix(c) && Block(c, i) < b
    ensures i < c.blockSize * b
  {
    BlockBelow(c, i);
    MulAtLeast(b - Block(c, i), c.blockSize);
    assert (b - Block(c, i)) * c.blockSize == c.blockSize * b - c.blockSize * Block(c, i);
  }

  /** Rendering it leaves the start of the second line behind, unmarked. */
  lemma {:induction false} AcrossBreaks(c: Config, b: nat)
    requires Sane(c) && b < c.blockCount && c.blockSize * b < c.width < c.blockSize * b + c.blockSize
    requires c.width < Matrix(c)
    ensures Ok(c, Across(c, b)) && !Coherent(c, Render(c, Across(c, b)))
  {
    AcrossCoherent(c, b);
    var s := Across(c, b);
    var start := c.blockSize * b;
    MulNatural(b, c.blockSize);
    DivUnique(start, c.width, 0, start);
    DivUnique(c.width, c.width, 1, 0);
    ModUnique(c.width, c.width, 1, 0);
    DivUnique(c.width, c.blockSize, b, c.width - start);
    BlockBelow(c, c.width);
    CellBelow(c, c.width);
    BlockFits(c, b);
    OtherPage(s.ram, 0, Shift(c) + Mod(start, c.width), s.buffer[start..start + c.blockSize], Cell(c, c.width));
    hide Received, First, Coherent, Mod, Div, Matrix;
    var s' := Render(c, s);
    NotCoherent(c, s', c.width);
  }

  /** A render keeps every coherent screen coherent if and only if the block size divides the width. */
  lemma {:induction false} RenderExactly(c: Config)
    requires Sane(c)
    ensures (forall s: Screen :: Ok(c, s) && Coherent(c, s) ==> Coherent(c, Render(c, s))) <==> BlocksFit(c)
  {
    if BlocksFit(c) {
      hide Sane, Coherent, Render;
      forall s: Screen | Ok(c, s) && Coherent(c, s) ensures Coherent(c, Render(c, s)) {
        RenderCoherent(c, s);
      }
    } else {
      var b := Div(c.width, c.blockSize);
      DivMod(c.width, c.blockSize);
      SeveralPages(c);
      DivBelow(c.width, c.blockSize, c.blockCount);
      AcrossCoherent(c, b);
      hide Sane, Coherent, Render;
      AcrossBreaks(c, b);
    }
  }

  lemma {:induction false} SeveralPages(c: Config)
    requires Sane(c) && !BlocksFit(c)
    ensures c.width < Matrix(c) && c.width < c.blockSize * c.blockCount
  {
    if c.pages == 1 {
      ModUnique(c.width, c.blockSize, c.blockCount, 0);
    } else {
      MulAtLeast(c.pages - 1, c.width);
      assert (c.pages - 1) * c.width == Matrix(c) - c.width;
    }
  }
}
