/** The ST7565 driver: the buffer, cursor and dirty bits it updates in place, and the panel it sends blocks to. */
module St7565 {

  import opened Widths
  import opened Modular
  import opened Display
  import DisplayCoherence

  /** The panel: display memory and the two address registers that commands set. */
  class Panel {
    var ram: seq<bv8>
    var page: nat
    var column: nat

    constructor ()
      ensures |ram| == PANEL_PAGES * PANEL_COLUMNS
    {
      ram, page, column := seq(PANEL_PAGES * PANEL_COLUMNS, _ => 0xA5), 0, 0;
    }

    method SendCmd(cmd: Byte)
      modifies this`page, this`column
      ensures page == if cmd / 16 == 0xB then cmd % 16 else old(page)
      ensures column ==
        if cmd / 16 == 0x1 then cmd % 16 * 16 + old(column) % 16
        else if cmd / 16 == 0x0 then old(column) / 16 * 16 + cmd % 16
                        else old(column)
    {
      if cmd / 16 == 0xB {
        page := cmd % 16;
      } else if cmd / 16 == 0x1 {
        column := cmd % 16 * 16 + column % 16;
      } else if cmd / 16 == 0x0 {
        column := column / 16 * 16 + cmd % 16;
      }
    }

    method SendData(data: seq<bv8>)
      requires |ram| == PANEL_PAGES * PANEL_COLUMNS
      modifies this`ram, this`column
      ensures ram == Received(old(ram), page, old(column), data)
    {
      ghost var ram0, column0 := ram, column;
      for n: nat := 0 to |data|
        invariant |ram| == PANEL_PAGES * PANEL_COLUMNS && column == column0 + n
        invariant ram == Received(ram0, page, column0, data[..n])
      {
        assert data[..n + 1][..n] == data[..n];
        if page < PANEL_PAGES && column < PANEL_COLUMNS {
          ram := ram[page * PANEL_COLUMNS + column := data[n]];
        }
        column := column + 1;
      }
      assert data[..|data|] == data;
    }
  }

  class Driver {
    const c: Config
    const panel: Panel
    const buffer: array<bv8>
    var cursor: nat
    var dirty: seq<bool>
    var initialized: bool

    /** Initialization ends in a clear, so that everything is dirty. */
    constructor St7565Init(c: Config)
      requires Sane(c)
      ensures Valid() && this.c == c && fresh(buffer) && fresh(panel)
      ensures initialized && cursor == 0 && Coherent(c, Abstract())
      ensures Abstract().buffer == seq(Matrix(c), _ => 0)
    {
      this.c := c;
      panel := new Panel();
      buffer := new bv8[Matrix(c)](_ => 0);
      cursor, dirty, initialized := 0, seq(c.blockCount, _ => true), true;
      new;
      MatrixPositive(c);
      DisplayCoherence.AllDirtyCoherent(c, Abstract());
    }

    ghost predicate Valid()
      reads this, panel, buffer
    {
      && Sane(c) && buffer.Length == Matrix(c) && cursor < Matrix(c) && |dirty| == c.blockCount
      && |panel.ram| == PANEL_PAGES * PANEL_COLUMNS
    }

    ghost function Abstract(): (s: Screen)
      reads this, panel, buffer
      ensures Valid() ==> Ok(c, s)
    {
      Screen(buffer[..], cursor, dirty, panel.ram, initialized)
    }

    method St7565Clear()
      requires Valid()
      modifies this, buffer
      ensures Valid() && Abstract() == Clear(c, old(Abstract()))
      ensures (forall i :: 0 <= i < buffer.Length ==> buffer[i] == 0) && cursor == 0
      ensures forall b :: 0 <= b < c.blockCount ==> dirty[b]
    {
      MatrixPositive(c);
      forall i | 0 <= i < buffer.Length {
        buffer[i] := 0;
      }
      cursor := 0;
      dirty := seq(c.blockCount, _ => true);
    }

    method St7565SetCursor(col: Byte, line: Byte)
      requires Valid()
      modifies this`cursor
      ensures Valid() && Abstract() == SetCursor(c, old(Abstract()), col, line)
    {
      hide Sane, Matrix, Place;
      MatrixPositive(c);
      var index := Place(c, col, line);
      if index >= Matrix(c) {
        index := 0;
      }
      cursor := index;
    }

    method St7565AdvanceChar()
      requires Valid()
      modifies this`cursor
      ensures Valid() && Abstract() == old(Abstract()).(cursor := NextCursor(c, old(cursor)))
    {
      MatrixPositive(c);
      var next := cursor + c.fontWidth;
      var space := c.width - Mod(next, c.width);
      if space < c.fontWidth {
        next := next + space;
      }
      if next >= Matrix(c) {
        next := 0;
      }
      cursor := next;
    }

    method St7565AdvancePage(clear: bool)
      requires Valid()
      modifies this, buffer
      ensures Valid() && Abstract() == AdvancePage(c, old(Abstract()), clear)
      decreases 1
    {
      hide Sane, Matrix, Mod, Div, DrawChar, NextCursor, Chars;
      DisplayCoherence.SizesPositive(c);
      MatrixPositive(c);
      var remaining := c.width - Mod(cursor, c.width);
      if clear {
        CharsFit(c, remaining);
        remaining := Div(remaining, c.fontWidth);
        WriteBlanks(remaining);
      } else {
        var index := cursor;
        if index + remaining >= Matrix(c) {
          index, remaining := 0, 0;
        }
        cursor := index + remaining;
      }
    }

    /** The loop that writes blanks until the line is used up. */
    method WriteBlanks(count: nat)
      requires Valid() && Mod(cursor, c.width) + Chars(c, count) <= c.width
      modifies this, buffer
      ensures Valid() && Abstract() == Blanks(c, old(Abstract()), count)
      decreases 0, count
    {
      hide Sane, Matrix, Mod, DrawChar, Chars, Blanks, NextCursor;
      DisplayCoherence.SizesPositive(c);
      var remaining := count;
      while remaining > 0
        invariant Valid() && Mod(cursor, c.width) + Chars(c, remaining) <= c.width
        invariant Blanks(c, Abstract(), remaining) == Blanks(c, old(Abstract()), count)
      {
        BlankNext(c, Abstract(), remaining);
        DrawCharacter(0x20, false);
        remaining := remaining - 1;
      }
      DisplayCoherence.NoneBlanked(c, Abstract());
    }

    method InvertCharacter(at: nat)
      requires Valid() && at + c.fontWidth <= buffer.Length
      modifies buffer
      ensures buffer[..] == Splice(old(buffer[..]), at, Inverse(old(buffer[at..at + c.fontWidth])))
    {
      var i := at;
      while i < at + c.fontWidth
        invariant at <= i <= at + c.fontWidth
        invariant forall k :: 0 <= k < buffer.Length ==>
          buffer[k] == if at <= k < i then !old(buffer[k]) else old(buffer[k])
      {
        buffer[i] := !buffer[i];
        i := i + 1;
      }
    }

    /** Copies bytes to the cursor. */
    method CopyToCursor(g: seq<bv8>)
      requires Valid() && cursor + |g| <= buffer.Length
      modifies buffer
      ensures buffer[..] == Splice(old(buffer[..]), cursor, g)
    {
      forall k | 0 <= k < |g| {
        buffer[cursor + k] := g[k];
      }
    }

    /** The bytes of a character at the cursor. */
    method PutGlyph(data: Byte, invert: bool)
      requires Valid() && Room(c, Abstract())
      modifies buffer
      ensures Valid() && buffer[..] == Splice(old(buffer[..]), cursor, Glyph(c, data, invert))
    {
      GlyphBytes(c, data);
      hide Sane, Matrix, Splice, Glyph, Inverse;
      ghost var b0 := buffer[..];
      var g: seq<bv8>;
      if data < c.fontStart || data > c.fontEnd {
        g := seq(c.fontWidth, _ => 0);
      } else {
        var glyph := (data - c.fontStart) * c.fontWidth;
        g := c.font[glyph..glyph + c.fontWidth];
      }
      CopyToCursor(g);
      if invert {
        SpliceMiddle(b0, cursor, g);
        SpliceAgain(b0, cursor, g, Inverse(g));
        assert buffer[cursor..cursor + c.fontWidth] == buffer[..][cursor..cursor + c.fontWidth];
        InvertCharacter(cursor);
      }
    }

    /** A character that is neither newline nor return. */
    method DrawCharacter(data: Byte, invert: bool)
      requires Valid() && Room(c, Abstract())
      modifies this, buffer
      ensures Valid() && Abstract() == DrawChar(c, old(Abstract()), data, invert)
      decreases 0, 0
    {
      hide Sane, Matrix, Glyph, NextCursor, Splice;
      var temp := buffer[cursor..cursor + c.fontWidth];
      PutGlyph(data, invert);
      SpliceMiddle(old(buffer[..]), cursor, Glyph(c, data, invert));
      if temp != buffer[cursor..cursor + c.fontWidth] {
        BlockBelow(c, cursor);
        BlockBelow(c, cursor + c.fontWidth - 1);
        dirty := dirty[Block(c, cursor) := true];
        dirty := dirty[Block(c, cursor + c.fontWidth - 1) := true];
      }
      St7565AdvanceChar();
    }

    method St7565WriteChar(data: Byte, invert: bool)
      requires Valid() && (data in {NEW_LINE, CARRIAGE_RETURN} || Room(c, Abstract()))
      modifies this, buffer
      ensures Valid() && Abstract() == WriteChar(c, old(Abstract()), data, invert)
      decreases 2
    {
      hide Sane, AdvancePage, DrawChar;
      if data == NEW_LINE {
        St7565AdvancePage(true);
        return;
      }
      if data == CARRIAGE_RETURN {
        St7565AdvancePage(false);
        return;
      }
      DrawCharacter(data, invert);
    }

    /** The inner loops of panning, one line. */
    method PanLine(y: nat, left: bool)
      requires 0 < c.width && Line(c, y) + c.width <= buffer.Length
      modifies buffer
      ensures LinePanned(old(buffer[..]), buffer[..], Line(c, y), c.width, left)
    {
      var w, line := c.width, Line(c, y);
      hide Line;
      if left {
        var x := 0;
        while x < w - 1
          invariant 0 <= x <= w - 1
          invariant forall i :: 0 <= i < buffer.Length ==>
            buffer[i] == if line <= i < line + x then old(buffer[i + 1]) else old(buffer[i])
        {
          buffer[line + x] := buffer[line + x + 1];
          x := x + 1;
        }
      } else {
        var x := w - 1;
        while x > 0
          invariant 0 <= x <= w - 1
          invariant forall i :: 0 <= i < buffer.Length ==>
            buffer[i] == if line + x < i < line + w then old(buffer[i - 1]) else old(buffer[i])
        {
          buffer[line + x] := buffer[line + x - 1];
          x := x - 1;
        }
      }
    }

    method PanLines(left: bool)
      requires Valid()
      modifies buffer
      ensures PannedTo(c, old(buffer[..]), buffer[..], Line(c, c.pages), left)
    {
      hide Sane, Matrix, PannedTo, LinePanned, Line;
      ghost var b0 := buffer[..];
      DisplayCoherence.SizesPositive(c);
      NothingPanned(c, b0, left);
      var y: nat := 0;
      while y < c.pages
        invariant y <= c.pages && Sane(c) && buffer.Length == Matrix(c)
        invariant PannedTo(c, b0, buffer[..], Line(c, y), left)
      {
        ghost var b1 := buffer[..];
        LineInside(c, y);
        PanLine(y, left);
        LinePans(c, b0, b1, buffer[..], y, left);
        y := y + 1;
      }
    }

    method St7565Pan(left: bool)
      requires Valid()
      modifies this, buffer
      ensures Valid() && Abstract() == Pan(c, old(Abstract()), left)
    {
      PanLines(left);
      AllPanned(c, old(Abstract()), buffer[..], left);
      hide Sane, Matrix, PannedTo, Pan, Line;
      dirty := seq(c.blockCount, _ => true);
    }

    method St7565WriteRawByte(data: bv8, index: nat)
      requires Valid() && RawIndex(c, index) < Matrix(c)
      modifies this, buffer
      ensures Valid() && Abstract() == WriteRawByte(c, old(Abstract()), data, RawIndex(c, index))
    {
      hide Sane, Matrix;
      var i := RawIndex(c, index);
      if buffer[i] == data && !(c.signedChar && data >= 0x80) {
        return;
      }
      BlockBelow(c, i);
      buffer[i] := data;
      dirty := dirty[Block(c, i) := true];
    }

    method St7565WriteRaw(data: seq<bv8>)
      requires Valid()
      modifies this, buffer
      ensures Valid() && Abstract() == WriteRaw(c, old(Abstract()), data)
    {
      hide Sane, Matrix, WriteRaw;
      var size := |data|;
      if size + cursor > Matrix(c) {
        size := Matrix(c) - cursor;
      }
      ghost var s0 := Abstract();
      RawNothing(c, s0, data);
      var i := cursor;
      while i < cursor + size
        invariant cursor <= i <= cursor + size && Valid() && cursor == old(cursor)
        invariant Abstract() == WriteRaw(c, s0, data[..i - cursor])
      {
        RawNext(c, s0, data, i - cursor);
        var ch := data[i - cursor];
        if buffer[i] != ch {
          BlockBelow(c, i);
          buffer[i] := ch;
          dirty := dirty[Block(c, i) := true];
        }
        i := i + 1;
      }
      RawCut(c, s0, data, size);
    }

    method St7565WritePixel(x: Byte, y: Byte, on: bool)
      requires Valid()
      modifies this, buffer
      ensures Valid() && Abstract() == WritePixel(c, old(Abstract()), x, y, on)
    {
      hide Sane, Matrix, WithBit;
      if x >= c.width {
        return;
      }
      var index := x + y / 8 * c.width;
      if index >= Matrix(c) {
        return;
      }
      var data := WithBit(buffer[index], y % 8, on);
      if buffer[index] != data {
        BlockBelow(c, index);
        buffer[index] := data;
        dirty := dirty[Block(c, index) := true];
      }
    }

    /** The three commands that set the panel's address. */
    method SetAddress(page: nat, column: nat)
      requires page < PANEL_PAGES && column < PANEL_COLUMNS
      modifies panel`page, panel`column
      ensures panel.page == page && panel.column == column
    {
      NibblesMakeColumn(column);
      panel.SendCmd(0xB0 + page);
      panel.SendCmd(column % 16);
      panel.SendCmd(0x10 + column / 16 % 16);
    }

    /** Sends one block to its place on the panel. */
    method SendBlock(start: nat)
      requires Valid() && start + c.blockSize <= Matrix(c)
      modifies panel
      ensures Valid()
      ensures panel.ram
        == Received(old(panel.ram), Div(start, c.width), Shift(c) + Mod(start, c.width),
          buffer[start..start + c.blockSize])
    {
      hide Sane, Matrix, Received, Mod, Div, Cell;
      DisplayCoherence.SizesPositive(c);
      CellBelow(c, start);
      var startPage := Div(start, c.width);
      var startColumn := Mod(start, c.width);
      if c.rotated {
        startColumn := startColumn + (PANEL_COLUMNS - c.width);
      }
      SetAddress(startPage, c.offset + startColumn);
      panel.SendData(buffer[start..start + c.blockSize]);
    }

    method St7565Render()
      requires Valid()
      modifies this, panel
      ensures Valid() && Abstract() == Render(c, old(Abstract()))
    {
      hide Sane, Matrix, Received;
      if !initialized {
        return;
      }
      var update := 0;
      while update < |dirty| && !dirty[update]
        invariant 0 <= update <= |dirty| && forall k :: 0 <= k < update ==> !dirty[k]
      {
        update := update + 1;
      }
      DisplayCoherence.FirstIs(dirty, update);
      hide First;
      if update == |dirty| {
        return;
      }
      BlockFits(c, update);
      SendBlock(c.blockSize * update);
      dirty := dirty[update := false];
    }
  }

  function Inverse(g: seq<bv8>): (r: seq<bv8>)
    ensures |r| == |g|
  {
    seq(|g|, k requires 0 <= k < |g| => !g[k])
  }

  /** The glyph is the font's bytes, or zeros. */
  lemma {:induction false} GlyphBytes(c: Config, ch: Byte)
    requires Sane(c)
    ensures Glyph(c, ch, true) == Inverse(Glyph(c, ch, false))
    ensures ch < c.fontStart || ch > c.fontEnd ==> Glyph(c, ch, false) == seq(c.fontWidth, _ => 0)
    ensures c.fontStart <= ch <= c.fontEnd ==>
      var at := (ch - c.fontStart) * c.fontWidth;
      0 <= at && at + c.fontWidth <= |c.font| && Glyph(c, ch, false) == c.font[at..at + c.fontWidth]
  {
    if c.fontStart <= ch <= c.fontEnd {
      GlyphInFont(c, ch, c.fontWidth - 1);
    }
    hide Matrix, Sane;
  }

  lemma {:induction false} SpliceAgain(b: seq<bv8>, at: nat, g: seq<bv8>, h: seq<bv8>)
    requires at + |g| <= |b| && |h| == |g|
    ensures Splice(Splice(b, at, g), at, h) == Splice(b, at, h)
  {
  }

  lemma {:induction false} SpliceMiddle(b: seq<bv8>, at: nat, data: seq<bv8>)
    requires at + |data| <= |b|
    ensures Splice(b, at, data)[at..at + |data|] == data
  {
  }

  /** One blank of several: the line has room for the others, and they finish the job. */
  lemma {:induction false} BlankNext(c: Config, s: Screen, n: nat)
    requires Sane(c) && Ok(c, s) && n > 0 && Mod(s.cursor, c.width) + Chars(c, n) <= c.width
    ensures Room(c, s)
    ensures var p := DrawChar(c, s, 0x20, false);
            Mod(p.cursor, c.width) + Chars(c, n - 1) <= c.width && Blanks(c, s, n) == Blanks(c, p, n - 1)
  {
    LineHasRoom(c, s.cursor, n);
    hide Splice, Glyph, NextCursor, Chars, Mod, Matrix;
  }

  /** The index of the first byte of line `y`. */
  function Line(c: Config, y: nat): nat {
    y * c.width
  }

  lemma {:induction false} LineInside(c: Config, y: nat)
    requires Sane(c) && y < c.pages
    ensures Line(c, y + 1) == Line(c, y) + c.width <= Matrix(c)
  {
    MulAtLeast(c.pages - y, c.width);
    assert (c.pages - y) * c.width == Matrix(c) - y * c.width;
  }

  /** Byte `i` after panning the line that starts at `line`. */
  function Shifted(b: seq<bv8>, line: nat, width: nat, left: bool, i: nat): bv8
    requires i < |b| && line + width <= |b|
  {
    if left && line <= i < line + width - 1 then b[i + 1]
    else if !left && line < i < line + width then b[i - 1]
    else b[i]
  }

  /** One line panned, the rest as before. */
  ghost predicate LinePanned(before: seq<bv8>, after: seq<bv8>, line: nat, width: nat, left: bool)
    requires line + width <= |before|
  {
    |before| == |after| && forall i: nat :: i < |after| ==> after[i] == Shifted(before, line, width, left, i)
  }

  /** The bytes below `end` panned, the rest as before. */
  ghost predicate PannedTo(c: Config, before: seq<bv8>, after: seq<bv8>, end: nat, left: bool)
    requires Sane(c)
  {
    && |before| == |after| == Matrix(c)
    && forall i: nat :: i < |after| ==> after[i] == if i < end then before[PanSource(c, i, left)] else before[i]
  }

  lemma {:induction false} NothingPanned(c: Config, b: seq<bv8>, left: bool)
    requires Sane(c) && |b| == Matrix(c)
    ensures PannedTo(c, b, b, Line(c, 0), left)
  {
    assert Line(c, 0) == 0;
    hide Sane, Matrix, PanSource;
  }

  lemma {:induction false} AllPanned(c: Config, s: Screen, after: seq<bv8>, left: bool)
    requires Sane(c) && Ok(c, s) && PannedTo(c, s.buffer, after, Line(c, c.pages), left)
    ensures Pan(c, s, left) == s.(buffer := after, dirty := seq(c.blockCount, _ => true))
  {
    assert Line(c, c.pages) == Matrix(c);
    hide Sane, Matrix, PanSource, Line;
  }

  lemma {:induction false} PanSourceIs(c: Config, y: nat, i: nat, left: bool)
    requires Sane(c) && y < c.pages && Line(c, y) <= i < Line(c, y) + c.width
    ensures i < Matrix(c)
    ensures PanSource(c, i, left) ==
      if left && i < Line(c, y) + c.width - 1 then i + 1 else if !left && i > Line(c, y) then i - 1 else i
  {
    LineInside(c, y);
    ModUnique(i, c.width, y, i - y * c.width);
    hide Matrix, Mod;
  }

  /** Panning a line reads that line only. */
  lemma {:induction false} LinePans(c: Config, before: seq<bv8>, middle: seq<bv8>, after: seq<bv8>, y: nat, left: bool)
    requires Sane(c) && y < c.pages && Line(c, y) + c.width <= |middle| && PannedTo(c, before, middle, Line(c, y), left)
    requires LinePanned(middle, after, Line(c, y), c.width, left)
    ensures PannedTo(c, before, after, Line(c, y + 1), left)
  {
    LineInside(c, y);
    hide Sane, Matrix, PanSource, Line;
    forall i: nat | i < |after|
      ensures after[i] == if i < Line(c, y + 1) then before[PanSource(c, i, left)] else before[i]
    {
      if Line(c, y) <= i < Line(c, y) + c.width {
        PanSourceIs(c, y, i, left);
      }
    }
  }

  lemma {:induction false} NibblesMakeColumn(column: nat)
    requires column < 256
    ensures 0x10 + column / 16 % 16 < 256 && (0x10 + column / 16 % 16) / 16 == 1
    ensures (0x10 + column / 16 % 16) % 16 == column / 16
    ensures column / 16 * 16 + column % 16 == column
  {
  }

  lemma {:induction false} RawNothing(c: Config, s: Screen, data: seq<bv8>)
    requires Sane(c) && Ok(c, s)
    ensures WriteRaw(c, s, data[..0]) == s
  {
    assert Splice(s.buffer, s.cursor, []) == s.buffer;
    assert WriteRaw(c, s, data[..0]).dirty == s.dirty;
  }

  lemma {:induction false} RawCut(c: Config, s: Screen, data: seq<bv8>, n: nat)
    requires Sane(c) && Ok(c, s) && n == if |data| + s.cursor > Matrix(c) then Matrix(c) - s.cursor else |data|
    ensures WriteRaw(c, s, data[..n]) == WriteRaw(c, s, data)
  {
    assert data[..n][..n] == data[..n];
    hide Altered, Splice, Sane, Matrix;
  }

  lemma {:induction false} RawAt(c: Config, s: Screen, data: seq<bv8>, k: nat, i: nat)
    requires Sane(c) && Ok(c, s) && k <= |data| && s.cursor + k <= Matrix(c) && i < Matrix(c)
    ensures WriteRaw(c, s, data[..k]).buffer[i] ==
      if s.cursor <= i < s.cursor + k then data[i - s.cursor] else s.buffer[i]
  {
    hide Altered, Sane, Matrix;
    assert data[..k][..k] == data[..k];
  }

  /** One more byte of a raw write. */
  lemma {:induction false} RawNext(c: Config, s: Screen, data: seq<bv8>, k: nat)
    requires Sane(c) && Ok(c, s) && k < |data| && s.cursor + k < Matrix(c)
    ensures var before, i := WriteRaw(c, s, data[..k]), s.cursor + k;
            WriteRaw(c, s, data[..k + 1]) ==
              if before.buffer[i] == data[k] then before else SetByte(c, before, i, data[k])
  {
    var before, after, i := WriteRaw(c, s, data[..k]), WriteRaw(c, s, data[..k + 1]), s.cursor + k;
    RawAt(c, s, data, k, i);
    BlockBelow(c, i);
    forall j: nat | j < Matrix(c) ensures after.buffer[j] == before.buffer[i := data[k]][j] {
      RawAt(c, s, data, k, j);
      RawAt(c, s, data, k + 1, j);
    }
    hide Sane, Matrix, WriteRaw;
    assert after.buffer == before.buffer[i := data[k]];
    RawDirty(c, s, data, k);
    RawDirty(c, s, data, k + 1);
    forall b: nat | b < c.blockCount
      ensures after.dirty[b] == (before.dirty[b] || (before.buffer[i] != data[k] && b == Block(c, i)))
    {
      AlteredNext(c, s.buffer, before.buffer, i, data[k], b);
    }
    hide Altered;
    if before.buffer[i] == data[k] {
      assert after.dirty == before.dirty;
    } else {
      assert after.dirty == before.dirty[Block(c, i) := true];
    }
    RawFrame(c, s, data[..k]);
    RawFrame(c, s, data[..k + 1]);
  }

  lemma {:induction false} RawFrame(c: Config, s: Screen, data: seq<bv8>)
    requires Sane(c) && Ok(c, s)
    ensures WriteRaw(c, s, data) == s.(buffer := WriteRaw(c, s, data).buffer, dirty := WriteRaw(c, s, data).dirty)
  {
    hide Altered, Splice, Sane, Matrix;
  }

  lemma {:induction false} RawDirty(c: Config, s: Screen, data: seq<bv8>, k: nat)
    requires Sane(c) && Ok(c, s) && k <= |data| && s.cursor + k <= Matrix(c)
    ensures var r := WriteRaw(c, s, data[..k]);
            forall b: nat :: b < c.blockCount ==> r.dirty[b] == (s.dirty[b] || Altered(c, s.buffer, r.buffer, b))
  {
    hide Altered, Splice, Sane, Matrix;
  }

  lemma {:induction false} AlteredNext(c: Config, old_: seq<bv8>, now: seq<bv8>, i: nat, v: bv8, b: nat)
    requires c.blockSize > 0 && |old_| == |now| && i < |now| && now[i] == old_[i]
    ensures Altered(c, old_, now[i := v], b) <==> Altered(c, old_, now, b) || (now[i] != v && b == Block(c, i))
  {
    if now[i] != v && b == Block(c, i) {
      assert now[i := v][i] != old_[i];
    }
    if Altered(c, old_, now, b) {
      var j :| 0 <= j < |old_| && old_[j] != now[j] && Block(c, j) == b;
      assert now[i := v][j] == now[j];
    }
  }
}
