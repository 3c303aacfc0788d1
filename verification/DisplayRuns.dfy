/** Runs judged by the arguments of their calls alone: which cursors leave room for the character that follows, and
    which runs stay inside the buffer. */
module DisplayRuns {

  import opened Modular
  import opened Widths
  import opened Display
  import opened DisplayCoherence

  // ---------- single calls ----------

  /** st7565_set_cursor checks that its first column is in the buffer, not that a character fits there. */
  predicate RoomAt(c: Config, col: Byte, line: Byte) {
    Place(c, col, line) >= Matrix(c) || Place(c, col, line) + c.fontWidth <= Matrix(c)
  }

  /** A character written where the cursor was just set stays inside the buffer if and only if the place is outside,
      which sends the cursor home, or has room for it. */
  lemma {:induction false} CursorRoomExactly(c: Config, s: Screen, col: Byte, line: Byte, ch: Byte, invert: bool)
    requires Sane(c) && Ok(c, s) && ch !in {NEW_LINE, CARRIAGE_RETURN}
    ensures InRange(c, SetCursor(c, s, col, line), OpWriteChar(ch, invert)) <==> RoomAt(c, col, line)
  {
    hide Matrix, Place;
    WidthFits(c);
  }

  /** The default sizes of drivers/lcd/st7565.h, with an empty font. */
  const DEFAULTS := Config(128, 4, 32, 16, 0, false, 6, 0, 223, seq(1344, _ => 0), false)

  /** On the default display the cursor (21, 3) is accepted as it is, and every character written there has its last
      four columns behind the end of the buffer. */
  lemma {:induction false} CursorOverruns(s: Screen, ch: Byte, invert: bool)
    requires Ok(DEFAULTS, s) && ch !in {NEW_LINE, CARRIAGE_RETURN}
    ensures Sane(DEFAULTS) && SetCursor(DEFAULTS, s, 21, 3).cursor == Matrix(DEFAULTS) - 2
    ensures !InRange(DEFAULTS, SetCursor(DEFAULTS, s, 21, 3), OpWriteChar(ch, invert))
  {
    assert Place(DEFAULTS, 21, 3) == 510 && Matrix(DEFAULTS) == 512;
  }

  /** st7565_write_raw_byte brings an index behind the buffer to one past its end, not to its last byte: the byte it
      writes lies inside if and only if the index did. */
  lemma {:induction false} RawByteExactly(c: Config, s: Screen, value: bv8, index: nat)
    ensures InRange(c, s, OpWriteRawByte(value, index)) <==> index < Matrix(c)
    ensures index >= Matrix(c) ==> RawIndex(c, index) == Matrix(c)
  {
    hide Matrix;
  }

  // ---------- room over a run ----------

  lemma {:induction false} WidthFits(c: Config)
    requires Sane(c)
    ensures 0 < c.fontWidth <= Matrix(c)
  {
    MulAtLeast(c.pages, c.width);
  }

  /** A line of the buffer has room at its start. */
  lemma {:induction false} LineStartRoom(c: Config, at: nat)
    requires Sane(c) && at < Matrix(c) && Mod(at, c.width) == 0
    ensures at + c.fontWidth <= Matrix(c)
  {
    LineBelow(c, at);
    hide Matrix, Mod;
  }

  lemma {:induction false} LineStart(c: Config, at: nat)
    requires Sane(c)
    ensures Mod(at + (c.width - Mod(at, c.width)), c.width) == 0
  {
    var q := ModSplit(at, c.width);
    assert (q + 1) * c.width == q * c.width + c.width;
    ModUnique(at + (c.width - Mod(at, c.width)), c.width, q + 1, 0);
  }

  /** After a character there is room for one more, wherever it stood. */
  lemma {:induction false} NextRoom(c: Config, cursor: nat)
    requires Sane(c) && cursor < Matrix(c)
    ensures NextCursor(c, cursor) + c.fontWidth <= Matrix(c)
  {
    var next := cursor + c.fontWidth;
    LineStart(c, next);
    if next < Matrix(c) {
      LineBelow(c, next);
    }
    WidthFits(c);
    hide Matrix, Mod;
    var space := c.width - Mod(next, c.width);
    if space < c.fontWidth && next + space < Matrix(c) {
      LineStartRoom(c, next + space);
    }
  }

  lemma {:induction false} DrawnRoom(c: Config, s: Screen, ch: Byte, invert: bool)
    requires Sane(c) && Ok(c, s) && Room(c, s)
    ensures Room(c, DrawChar(c, s, ch, invert))
  {
    NextRoom(c, s.cursor);
    hide Sane, Matrix, NextCursor, Splice, Glyph;
    SizesPositive(c);
  }

  lemma {:induction false} BlanksRoom(c: Config, s: Screen, n: nat)
    requires Sane(c) && Ok(c, s) && Mod(s.cursor, c.width) + Chars(c, n) <= c.width
    ensures Room(c, Blanks(c, s, n)) <==> Room(c, s)
    decreases n
  {
    hide Sane, Matrix, Mod, Chars, NextCursor, DrawChar;
    SizesPositive(c);
    if n > 0 {
      LineHasRoom(c, s.cursor, n);
      DrawnRoom(c, s, 0x20, false);
      NextBlank(c, s);
      BlanksRoom(c, DrawChar(c, s, 0x20, false), n - 1);
    }
  }

  lemma {:induction false} NextBlank(c: Config, s: Screen)
    requires Sane(c) && Ok(c, s) && Room(c, s)
    ensures DrawChar(c, s, 0x20, false).cursor == NextCursor(c, s.cursor)
  {
  }

  lemma {:induction false} AdvanceRoom(c: Config, s: Screen, clear: bool)
    requires Sane(c) && Ok(c, s)
    ensures Room(c, AdvancePage(c, s, clear)) <==> Room(c, s) || !clear
  {
    hide Sane, Matrix, Mod, Div, Chars, Blanks;
    WidthFits(c);
    SizesPositive(c);
    var remaining := c.width - Mod(s.cursor, c.width);
    if clear {
      CharsFit(c, remaining);
      BlanksRoom(c, s, Div(remaining, c.fontWidth));
    } else {
      LineStart(c, s.cursor);
      if s.cursor + remaining < Matrix(c) {
        LineStartRoom(c, s.cursor + remaining);
      }
    }
  }

  /** Whether the buffer has room at the cursor after a call, from whether it had before and the arguments. Only a
      newline that finds none leaves the cursor where it is. */
  predicate RoomAfter(c: Config, room: bool, op: Op) {
    match op
    case OpClear => true
    case OpSetCursor(col, line) => RoomAt(c, col, line)
    case OpWriteChar(ch, _) => room || ch != NEW_LINE
    case OpAdvancePage(clear) => room || !clear
    case _ => room
  }

  predicate FitsNow(c: Config, room: bool, op: Op) {
    match op
    case OpWriteChar(ch, _) => room || ch in {NEW_LINE, CARRIAGE_RETURN}
    case OpWriteRawByte(_, index) => index < Matrix(c)
    case _ => true
  }

  /** The arguments of a run fit: every character finds room, and single bytes are written inside the buffer. */
  predicate ArgumentsFit(c: Config, room: bool, ops: seq<Op>)
    decreases |ops|
  {
    ops == [] || (FitsNow(c, room, ops[0]) && ArgumentsFit(c, RoomAfter(c, room, ops[0]), ops[1..]))
  }

  lemma {:induction false} StepRoom(c: Config, s: Screen, op: Op)
    requires Sane(c) && Ok(c, s)
    ensures InRange(c, s, op) <==> FitsNow(c, Room(c, s), op)
    ensures InRange(c, s, op) ==> (Room(c, Step(c, s, op)) <==> RoomAfter(c, Room(c, s), op))
  {
    hide Sane, Matrix, AdvancePage, DrawChar, Place, Altered, WithBit, Received, First;
    WidthFits(c);
    match op
    case OpWriteChar(ch, invert) =>
      if ch == NEW_LINE || ch == CARRIAGE_RETURN {
        AdvanceRoom(c, s, ch == NEW_LINE);
      } else if Room(c, s) {
        DrawnRoom(c, s, ch, invert);
      }
    case OpAdvancePage(clear) => AdvanceRoom(c, s, clear);
    case _ =>
  }

  /** A run stays inside the buffer if and only if its arguments fit, whatever it draws. */
  lemma {:induction false} ArgumentsExactly(c: Config, s: Screen, ops: seq<Op>)
    requires Sane(c) && Ok(c, s)
    ensures RunInRange(c, s, ops) <==> ArgumentsFit(c, Room(c, s), ops)
    decreases |ops|
  {
    hide Sane, Ok, Room, InRange, FitsNow, RoomAfter, Step;
    if ops != [] {
      StepRoom(c, s, ops[0]);
      if InRange(c, s, ops[0]) {
        ArgumentsExactly(c, Step(c, s, ops[0]), ops[1..]);
      }
    }
  }

  /** On every run of such calls from a coherent screen, each clean block is on the panel. */
  lemma {:induction false} ArgumentsCoherent(c: Config, s: Screen, ops: seq<Op>)
    requires Sane(c) && SizesFit(c) && Ok(c, s) && Coherent(c, s) && ArgumentsFit(c, Room(c, s), ops)
    ensures RunInRange(c, s, ops) && Coherent(c, Run(c, s, ops))
  {
    hide Sane, Ok, Coherent, Room, SizesFit, RunInRange, ArgumentsFit, Run;
    ArgumentsExactly(c, s, ops);
    RunCoherent(c, s, ops);
  }
}
