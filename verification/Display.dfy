/** The dirty-block display cache: a buffer of columns, a dirty bit per block, and the panel's own memory. */
module Display {

  import opened Widths
  import opened Modular

  /** `pages` rows of eight lines. A 180-degree rotation starts at the far end of the panel's 132 columns. */
  datatype Config = Config(width: nat, pages: nat, blockSize: nat, blockCount: nat, offset: nat, rotated: bool,
                           fontWidth: nat, fontStart: Byte, fontEnd: Byte, font: seq<bv8>, signedChar: bool)

  const PANEL_COLUMNS := 132
  const PANEL_PAGES := 8

  function Matrix(c: Config): nat {
    c.pages * c.width
  }

  /** The panel column of buffer column 0. */
  function Shift(c: Config): nat {
    c.offset + if c.rotated && c.width <= PANEL_COLUMNS then PANEL_COLUMNS - c.width else 0
  }

  ghost predicate Sane(c: Config) {
    && 0 < c.width && 0 < c.pages <= PANEL_PAGES && Shift(c) + c.width <= PANEL_COLUMNS
    && 0 < c.blockSize && c.blockSize * c.blockCount == Matrix(c) && 0 < c.fontWidth <= c.width
    && c.fontStart <= c.fontEnd && |c.font| == (c.fontEnd + 1 - c.fontStart) * c.fontWidth
  }

  /** Every block lies on one line. */
  ghost predicate BlocksFit(c: Config)
    requires Sane(c)
  {
    Mod(c.width, c.blockSize) == 0
  }

  /** The two size conditions coherence rests on: every block lies on one line, and every character, wherever it
      stands, in the blocks of its first and last column. */
  ghost predicate SizesFit(c: Config)
    requires Sane(c)
  {
    BlocksFit(c) && c.fontWidth <= c.blockSize + 1
  }

  datatype Screen = Screen(buffer: seq<bv8>, cursor: nat, dirty: seq<bool>, ram: seq<bv8>, initialized: bool)

  ghost predicate Ok(c: Config, s: Screen) {
    && |s.buffer| == Matrix(c) && s.cursor < Matrix(c) && |s.dirty| == c.blockCount
    && |s.ram| == PANEL_PAGES * PANEL_COLUMNS
  }

  function Block(c: Config, i: nat): (b: nat)
    requires c.blockSize > 0
  {
    Div(i, c.blockSize)
  }

  lemma {:induction false} BlockBelow(c: Config, i: nat)
    requires Sane(c) && i < Matrix(c)
    ensures Block(c, i) < c.blockCount
    ensures c.blockSize * Block(c, i) <= i < c.blockSize * Block(c, i) + c.blockSize
  {
    DivMod(i, c.blockSize);
    DivBelow(i, c.blockSize, c.blockCount);
  }

  /** Where the panel shows buffer byte `i`. */
  function Cell(c: Config, i: nat): nat
    requires c.width > 0
  {
    Div(i, c.width) * PANEL_COLUMNS + Shift(c) + Mod(i, c.width)
  }

  lemma {:induction false} CellBelow(c: Config, i: nat)
    requires Sane(c) && i < Matrix(c)
    ensures Cell(c, i) < PANEL_PAGES * PANEL_COLUMNS
    ensures Div(i, c.width) < PANEL_PAGES
  {
    DivBelow(i, c.width, c.pages);
  }

  lemma {:induction false} CellInjective(c: Config, i: nat, j: nat)
    requires Sane(c) && Cell(c, i) == Cell(c, j)
    ensures i == j
  {
    var x, y := Shift(c) + Mod(i, c.width), Shift(c) + Mod(j, c.width);
    DivUnique(Cell(c, i), PANEL_COLUMNS, Div(i, c.width), x);
    DivUnique(Cell(c, j), PANEL_COLUMNS, Div(j, c.width), y);
    DivMod(i, c.width);
    DivMod(j, c.width);
  }

  /** The promise of the cache: a block that is not dirty is on the panel as it is in the buffer. */
  ghost predicate Coherent(c: Config, s: Screen)
    requires Sane(c) && Ok(c, s)
  {
    forall i: nat :: i < Matrix(c) && !DirtyAt(c, s, i) ==> Shown(c, s, i)
  }

  ghost predicate DirtyAt(c: Config, s: Screen, i: nat)
    requires Sane(c) && Ok(c, s) && i < Matrix(c)
  {
    BlockBelow(c, i);
    s.dirty[Block(c, i)]
  }

  ghost predicate Shown(c: Config, s: Screen, i: nat)
    requires Sane(c) && Ok(c, s) && i < Matrix(c)
  {
    CellBelow(c, i);
    s.ram[Cell(c, i)] == s.buffer[i]
  }

  // ---------- operations ----------

  ghost function Clear(c: Config, s: Screen): Screen {
    s.(buffer := seq(Matrix(c), _ => 0), cursor := 0, dirty := seq(c.blockCount, _ => true))
  }

  function Place(c: Config, col: nat, line: nat): nat {
    line * c.width + col * c.fontWidth
  }

  ghost function SetCursor(c: Config, s: Screen, col: Byte, line: Byte): Screen {
    var index := Place(c, col, line);
    s.(cursor := if index >= Matrix(c) then 0 else index)
  }

  /** The cursor after a character: the next place on the line, else the next line, else the top. */
  function NextCursor(c: Config, cursor: nat): nat
    requires c.width > 0
  {
    var next := cursor + c.fontWidth;
    var space := c.width - Mod(next, c.width);
    var placed := if space < c.fontWidth then next + space else next;
    if placed >= Matrix(c) then 0 else placed
  }

  function Splice(b: seq<bv8>, at: nat, data: seq<bv8>): (b': seq<bv8>)
    requires at + |data| <= |b|
    ensures |b'| == |b|
  {
    b[..at] + data + b[at + |data|..]
  }

  /** The columns of a character; characters outside the font are blank. */
  ghost function Glyph(c: Config, ch: Byte, invert: bool): (g: seq<bv8>)
    requires Sane(c)
    ensures |g| == c.fontWidth
  {
    seq(c.fontWidth, k requires 0 <= k < c.fontWidth => Inked(GlyphColumn(c, ch, k), invert))
  }

  function Inked(b: bv8, invert: bool): bv8 {
    if invert then !b else b
  }

  function GlyphColumn(c: Config, ch: Byte, k: nat): bv8
    requires Sane(c) && k < c.fontWidth
  {
    if ch < c.fontStart || ch > c.fontEnd then 0
    else
      GlyphInFont(c, ch, k);
      c.font[(ch - c.fontStart) * c.fontWidth + k]
  }

  lemma {:induction false} GlyphInFont(c: Config, ch: Byte, k: nat)
    requires Sane(c) && c.fontStart <= ch <= c.fontEnd && k < c.fontWidth
    ensures (ch - c.fontStart) * c.fontWidth >= 0
    ensures (ch - c.fontStart) * c.fontWidth + k < |c.font|
  {
    MulNatural(ch - c.fontStart, c.fontWidth);
    MulAtLeast(c.fontEnd + 1 - ch, c.fontWidth);
    assert (c.fontEnd + 1 - c.fontStart) * c.fontWidth == (ch - c.fontStart) * c.fontWidth
      + (c.fontEnd + 1 - ch) * c.fontWidth;
  }

  ghost predicate Room(c: Config, s: Screen) {
    s.cursor + c.fontWidth <= Matrix(c)
  }

  /** A character is drawn; when that changes the buffer, its first and last blocks become dirty. */
  ghost function DrawChar(c: Config, s: Screen, ch: Byte, invert: bool): (s': Screen)
    requires Sane(c) && Ok(c, s) && Room(c, s)
    ensures Ok(c, s')
  {
    var g := Glyph(c, ch, invert);
    BlockBelow(c, s.cursor);
    BlockBelow(c, s.cursor + c.fontWidth - 1);
    var dirty := if s.buffer[s.cursor..s.cursor + c.fontWidth] == g then s.dirty
                 else s.dirty[Block(c, s.cursor) := true][Block(c, s.cursor + c.fontWidth - 1) := true];
    s.(buffer := Splice(s.buffer, s.cursor, g), cursor := NextCursor(c, s.cursor), dirty := dirty)
  }

  /** The columns of `n` characters. */
  function Chars(c: Config, n: nat): nat {
    n * c.fontWidth
  }

  lemma {:induction false} CharsStep(c: Config, n: nat)
    requires n > 0
    ensures Chars(c, n) == Chars(c, n - 1) + c.fontWidth
    ensures Chars(c, 0) == 0
    ensures n > 1 ==> Chars(c, n - 1) >= c.fontWidth
  {
    assert (n - 1) * c.fontWidth == n * c.fontWidth - c.fontWidth;
    if n > 1 {
      MulAtLeast(n - 1, c.fontWidth);
    }
  }

  /** `n` blanks from a cursor that has room for them on its line. */
  ghost function Blanks(c: Config, s: Screen, n: nat): (s': Screen)
    requires Sane(c) && Ok(c, s) && Mod(s.cursor, c.width) + Chars(c, n) <= c.width
    ensures Ok(c, s')
    decreases n
  {
    if n == 0 then s
    else
      LineHasRoom(c, s.cursor, n);
      Blanks(c, DrawChar(c, s, 0x20, false), n - 1)
  }

  lemma {:induction false} LineHasRoom(c: Config, cursor: nat, n: nat)
    requires Sane(c) && cursor < Matrix(c) && n > 0 && Mod(cursor, c.width) + Chars(c, n) <= c.width
    ensures cursor + c.fontWidth <= Matrix(c)
    ensures Mod(NextCursor(c, cursor), c.width) + Chars(c, n - 1) <= c.width
    ensures n > 1 ==>
      NextCursor(c, cursor) == cursor + c.fontWidth
        && Mod(cursor + c.fontWidth, c.width) == Mod(cursor, c.width) + c.fontWidth
  {
    CharsStep(c, n);
    MatrixPaged(c);
    PageBelow(cursor, c.width, Matrix(c));
    CursorMoves(c, cursor);
    hide Matrix, Mod, Chars, NextCursor;
  }

  lemma {:induction false} MatrixPaged(c: Config)
    requires Sane(c)
    ensures Mod(Matrix(c), c.width) == 0
  {
    ModUnique(Matrix(c), c.width, c.pages, 0);
  }

  /** What the cursor does when the character fits on the line. */
  lemma {:induction false} CursorMoves(c: Config, cursor: nat)
    requires Sane(c) && cursor < Matrix(c) && Mod(cursor, c.width) + c.fontWidth <= c.width
    ensures var after := Mod(cursor, c.width) + c.fontWidth;
            if after + c.fontWidth <= c.width then
              NextCursor(c, cursor) == cursor + c.fontWidth < Matrix(c) && Mod(cursor + c.fontWidth, c.width) == after
            else
              var end := cursor - Mod(cursor, c.width) + c.width;
              && NextCursor(c, cursor) == (if end < Matrix(c) then end else 0)
              && Mod(NextCursor(c, cursor), c.width) == 0
  {
    var w := c.width;
    var q := ModSplit(cursor, w);
    var r := Mod(cursor, w);
    MatrixPaged(c);
    PageBelow(cursor, w, Matrix(c));
    ModSmall(0, w);
    hide Matrix;
    assert (q + 1) * w == q * w + w;
    ModUnique((q + 1) * w, w, q + 1, 0);
    if r + c.fontWidth < w {
      ModUnique(cursor + c.fontWidth, w, q, r + c.fontWidth);
    } else {
      ModUnique(cursor + c.fontWidth, w, q + 1, 0);
    }
  }

  /** The rest of the line: blanked character by character, or skipped. */
  ghost function AdvancePage(c: Config, s: Screen, clear: bool): (s': Screen)
    requires Sane(c) && Ok(c, s)
    ensures Ok(c, s')
  {
    var remaining := c.width - Mod(s.cursor, c.width);
    if clear then
      CharsFit(c, remaining);
      Blanks(c, s, Div(remaining, c.fontWidth))
    else
      s.(cursor := if s.cursor + remaining >= Matrix(c) then 0 else s.cursor + remaining)
  }

  lemma {:induction false} CharsFit(c: Config, columns: nat)
    requires c.fontWidth > 0
    ensures Chars(c, Div(columns, c.fontWidth)) <= columns < Chars(c, Div(columns, c.fontWidth)) + c.fontWidth
  {
    DivMod(columns, c.fontWidth);
  }

  const NEW_LINE: Byte := 0x0A
  const CARRIAGE_RETURN: Byte := 0x0D

  ghost function WriteChar(c: Config, s: Screen, ch: Byte, invert: bool): (s': Screen)
    requires Sane(c) && Ok(c, s) && (ch in {NEW_LINE, CARRIAGE_RETURN} || Room(c, s))
    ensures Ok(c, s')
  {
    if ch == NEW_LINE then AdvancePage(c, s, true)
    else if ch == CARRIAGE_RETURN then AdvancePage(c, s, false)
    else DrawChar(c, s, ch, invert)
  }

  /** The bytes go in at the cursor, as far as the buffer reaches; the cursor stays. */
  ghost function WriteRaw(c: Config, s: Screen, data: seq<bv8>): (s': Screen)
    requires Sane(c) && Ok(c, s)
    ensures Ok(c, s')
  {
    var n := if |data| + s.cursor > Matrix(c) then Matrix(c) - s.cursor else |data|;
    var buffer := Splice(s.buffer, s.cursor, data[..n]);
    s.(buffer := buffer,
      dirty := seq(c.blockCount, b requires 0 <= b < c.blockCount => s.dirty[b] || Altered(c, s.buffer, buffer, b)))
  }

  ghost predicate Altered(c: Config, before: seq<bv8>, after: seq<bv8>, b: nat)
    requires c.blockSize > 0 && |before| == |after|
  {
    exists i :: 0 <= i < |before| && before[i] != after[i] && Block(c, i) == b
  }

  ghost function SetByte(c: Config, s: Screen, i: nat, value: bv8): (s': Screen)
    requires Sane(c) && Ok(c, s) && i < Matrix(c)
    ensures Ok(c, s')
  {
    BlockBelow(c, i);
    s.(buffer := s.buffer[i := value], dirty := s.dirty[Block(c, i) := true])
  }

  /** The index st7565_write_raw_byte writes to. */
  function RawIndex(c: Config, index: nat): nat {
    if index > Matrix(c) then Matrix(c) else index
  }

  /** A compiler whose `char` is signed never finds a byte above 0x7F equal to its buffer cell. */
  ghost function WriteRawByte(c: Config, s: Screen, value: bv8, i: nat): (s': Screen)
    requires Sane(c) && Ok(c, s) && i < Matrix(c)
    ensures Ok(c, s')
  {
    if s.buffer[i] == value && !(c.signedChar && value >= 0x80) then s else SetByte(c, s, i, value)
  }

  function WithBit(b: bv8, k: nat, on: bool): bv8
    requires k < 8
  {
    WithMask(b, Mask(k), on)
  }

  function WithMask(b: bv8, mask: bv8, on: bool): bv8 {
    if on then b | mask else b & !mask
  }

  function Mask(k: nat): bv8
    requires k < 8
  {
    (1 as bv8) << k
  }

  ghost function WritePixel(c: Config, s: Screen, x: Byte, y: Byte, on: bool): (s': Screen)
    requires Sane(c) && Ok(c, s)
    ensures Ok(c, s')
  {
    var i := x + y / 8 * c.width;
    if x >= c.width || i >= Matrix(c) then s
    else
      var value := WithBit(s.buffer[i], y % 8, on);
      if s.buffer[i] == value then s else SetByte(c, s, i, value)
  }

  lemma {:induction false} LineBelow(c: Config, i: nat)
    requires Sane(c) && i < Matrix(c)
    ensures Mod(i, c.width) <= i && i - Mod(i, c.width) + c.width <= Matrix(c)
  {
    MatrixPaged(c);
    PageBelow(i, c.width, Matrix(c));
    ModBelow(i, c.width);
  }

  /** The column that panning brings to `i`; the last column of each line stays. */
  function PanSource(c: Config, i: nat, left: bool): (j: nat)
    requires Sane(c) && i < Matrix(c)
    ensures j < Matrix(c)
  {
    LineBelow(c, i);
    if left && Mod(i, c.width) < c.width - 1 then i + 1
    else if !left && Mod(i, c.width) > 0 then i - 1
    else i
  }

  ghost function Pan(c: Config, s: Screen, left: bool): (s': Screen)
    requires Sane(c) && Ok(c, s)
    ensures Ok(c, s')
  {
    s.(buffer := seq(Matrix(c), i requires 0 <= i < Matrix(c) => s.buffer[PanSource(c, i, left)]),
       dirty := seq(c.blockCount, _ => true))
  }

  /** The least dirty block, or the number of blocks. */
  function First(dirty: seq<bool>): (b: nat)
    ensures b <= |dirty| && (b < |dirty| ==> dirty[b])
    ensures forall k :: 0 <= k < b ==> !dirty[k]
  {
    if dirty == [] || dirty[0] then 0
    else
      var b := First(dirty[1..]);
      assert forall k :: 0 < k < b + 1 ==> dirty[k] == dirty[1..][k - 1];
      b + 1
  }

  /** The panel's memory after data bytes at a page and column; columns past the last are dropped. */
  function Received(ram: seq<bv8>, page: nat, column: nat, data: seq<bv8>): (ram': seq<bv8>)
    requires |ram| == PANEL_PAGES * PANEL_COLUMNS
    ensures |ram'| == |ram|
  {
    if data == [] then ram
    else
      var n := |data| - 1;
      var r := Received(ram, page, column, data[..n]);
      if page < PANEL_PAGES && column + n < PANEL_COLUMNS then r[page * PANEL_COLUMNS + column + n := data[n]] else r
  }

  ghost function Render(c: Config, s: Screen): (s': Screen)
    requires Sane(c) && Ok(c, s)
    ensures Ok(c, s')
  {
    var b := First(s.dirty);
    if !s.initialized || b == c.blockCount then s
    else
      var start := c.blockSize * b;
      BlockFits(c, b);
      s.(ram := Received(s.ram, Div(start, c.width), Shift(c) + Mod(start, c.width),
        s.buffer[start..start + c.blockSize]),
         dirty := s.dirty[b := false])
  }

  lemma {:induction false} BlockFits(c: Config, b: nat)
    requires Sane(c) && b < c.blockCount
    ensures 0 <= c.blockSize * b && c.blockSize * b + c.blockSize <= Matrix(c)
  {
    MulNatural(b, c.blockSize);
    MulAtLeast(c.blockCount - b, c.blockSize);
    assert c.blockSize * c.blockCount == c.blockSize * b + (c.blockCount - b) * c.blockSize;
  }

  // ---------- runs ----------

  datatype Op =
    | OpClear
    | OpSetCursor(col: Byte, line: Byte)
    | OpWriteChar(ch: Byte, invert: bool)
    | OpAdvancePage(clear: bool)
    | OpWriteRaw(data: seq<bv8>)
    | OpWriteRawByte(value: bv8, index: nat)
    | OpWritePixel(x: Byte, y: Byte, on: bool)
    | OpPan(left: bool)
    | OpRender

  /** Calls whose bytes lie inside the buffer. */
  ghost predicate InRange(c: Config, s: Screen, op: Op) {
    match op
    case OpWriteChar(ch, _) => ch in {NEW_LINE, CARRIAGE_RETURN} || Room(c, s)
    case OpWriteRawByte(_, index) => RawIndex(c, index) < Matrix(c)
    case _ => true
  }

  ghost function Step(c: Config, s: Screen, op: Op): (s': Screen)
    requires Sane(c) && Ok(c, s) && InRange(c, s, op)
    ensures Ok(c, s')
  {
    match op
    case OpClear => MatrixPositive(c); Clear(c, s)
    case OpSetCursor(col, line) => MatrixPositive(c); SetCursor(c, s, col, line)
    case OpWriteChar(ch, invert) => WriteChar(c, s, ch, invert)
    case OpAdvancePage(clear) => AdvancePage(c, s, clear)
    case OpWriteRaw(data) => WriteRaw(c, s, data)
    case OpWriteRawByte(value, index) => WriteRawByte(c, s, value, RawIndex(c, index))
    case OpWritePixel(x, y, on) => WritePixel(c, s, x, y, on)
    case OpPan(left) => Pan(c, s, left)
    case OpRender => Render(c, s)
  }

  lemma {:induction false} MatrixPositive(c: Config)
    requires Sane(c)
    ensures Matrix(c) > 0
  {
    MulAtLeast(c.pages, c.width);
  }

  ghost predicate RunInRange(c: Config, s: Screen, ops: seq<Op>)
    requires Sane(c) && Ok(c, s)
    decreases |ops|
  {
    ops == [] || (InRange(c, s, ops[0]) && RunInRange(c, Step(c, s, ops[0]), ops[1..]))
  }

  ghost function Run(c: Config, s: Screen, ops: seq<Op>): (s': Screen)
    requires Sane(c) && Ok(c, s) && RunInRange(c, s, ops)
    ensures Ok(c, s')
    decreases |ops|
  {
    if ops == [] then s else Run(c, Step(c, s, ops[0]), ops[1..])
  }
}
