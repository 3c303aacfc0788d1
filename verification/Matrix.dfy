/** Turning scans of the key matrix into press and release events, with rows frozen while they may show ghosts. */
module Matrix {

  import opened Keys
  import opened MatrixBits

  /** `keyAt` tells which positions hold a key. */
  datatype Config = Config(rows: nat, cols: nat, hasGhost: bool, keyAt: (nat, nat) -> bool)

  predicate Sane(c: Config) {
    c.cols <= 32
  }

  datatype Event = Event(key: Key, pressed: bool)

  // ---------- ghosts ----------

  predicate Real(c: Config, row: nat, data: bv32, col: nat) {
    c.keyAt(row, col) && Bit(data, col)
  }

  /** The row's bits that belong to real keys, up to column `n`. */
  function RealKeys(c: Config, row: nat, data: bv32, n: nat): bv32 {
    if n == 0 then 0
    else if Real(c, row, data, n - 1) then With(RealKeys(c, row, data, n - 1), Mask(n - 1))
    else RealKeys(c, row, data, n - 1)
  }

  lemma {:induction false} RealKeysBits(c: Config, row: nat, data: bv32, n: nat, k: nat)
    requires n <= 32 && k < 32
    ensures Bit(RealKeys(c, row, data, n), k) <==> k < n && Real(c, row, data, k)
  {
    hide Meets, Mask, With;
    if n == 0 {
      MeetsNothing(0, Mask(k));
    } else {
      RealKeysBits(c, row, data, n - 1, k);
      OrBit(RealKeys(c, row, data, n - 1), n - 1, k);
    }
  }

  /** Two rows have two real pressed columns in common. */
  ghost predicate Shares(c: Config, scan: seq<bv32>, i: nat, j: nat)
    requires i < |scan| && j < |scan|
  {
    exists a: nat, b: nat :: a < b < c.cols && Real(c, i, scan[i], a) && Real(c, i, scan[i], b)
      && Real(c, j, scan[j], a) && Real(c, j, scan[j], b)
  }

  ghost predicate Ghosted(c: Config, scan: seq<bv32>, row: nat)
    requires row < |scan|
  {
    c.hasGhost && exists j: nat :: j < |scan| && j != row && Shares(c, scan, row, j)
  }

  /** A row that is frozen has another frozen row beside it. */
  lemma {:induction false} GhostsComeInPairs(c: Config, scan: seq<bv32>, row: nat)
    requires row < |scan| && Ghosted(c, scan, row)
    ensures exists j: nat :: j < |scan| && j != row && Shares(c, scan, j, row) && Ghosted(c, scan, j)
  {
    var j: nat :| j < |scan| && j != row && Shares(c, scan, row, j);
    var a: nat, b: nat :| a < b < c.cols && Real(c, row, scan[row], a) && Real(c, row, scan[row], b)
      && Real(c, j, scan[j], a) && Real(c, j, scan[j], b);
    assert Shares(c, scan, j, row);
  }

  /** Two bits of the rows' common real keys are two shared columns. */
  lemma {:induction false} CommonExactly(c: Config, scan: seq<bv32>, i: nat, j: nat)
    requires Sane(c) && i < |scan| && j < |scan|
    ensures Fewer(Common(RealKeys(c, i, scan[i], c.cols), RealKeys(c, j, scan[j], c.cols))) != 0
      <==> Shares(c, scan, i, j)
  {
    hide Fewer, Common, RealKeys, Bit;
    var x, y := RealKeys(c, i, scan[i], c.cols), RealKeys(c, j, scan[j], c.cols);
    MoreThanOneExactly(Common(x, y));
    forall k: nat | k < 32
      ensures Bit(Common(x, y), k) <==> k < c.cols && Real(c, i, scan[i], k) && Real(c, j, scan[j], k)
    {
      CommonBit(x, y, k);
      RealKeysBits(c, i, scan[i], c.cols, k);
      RealKeysBits(c, j, scan[j], c.cols, k);
    }
    hide Real;
    if TwoBits(Common(x, y)) {
      var a: nat, b: nat :| a < b < 32 && Bit(Common(x, y), a) && Bit(Common(x, y), b);
      assert Shares(c, scan, i, j);
    }
    if Shares(c, scan, i, j) {
      var a: nat, b: nat :| a < b < c.cols && Real(c, i, scan[i], a) && Real(c, i, scan[i], b)
        && Real(c, j, scan[j], a) && Real(c, j, scan[j], b);
      assert Bit(Common(x, y), a) && Bit(Common(x, y), b);
    }
  }

  lemma {:induction false} CommonBit(x: bv32, y: bv32, k: nat)
    requires k < 32
    ensures Bit(Common(x, y), k) <==> Bit(x, k) && Bit(y, k)
  {
    hide Meets, Mask;
    AndBit(x, y, k);
  }

  /** A row that shares with another has two real keys itself. */
  lemma {:induction false} SharingNeedsTwo(c: Config, scan: seq<bv32>, i: nat)
    requires Sane(c) && i < |scan| && Fewer(RealKeys(c, i, scan[i], c.cols)) == 0
    ensures !Ghosted(c, scan, i)
  {
    hide Fewer, RealKeys, Bit;
    var x := RealKeys(c, i, scan[i], c.cols);
    MoreThanOneExactly(x);
    forall k: nat | k < 32 ensures Bit(x, k) <==> k < c.cols && Real(c, i, scan[i], k) {
      RealKeysBits(c, i, scan[i], c.cols, k);
    }
    hide Real;
  }

  // ---------- one scan ----------

  ghost function NewRow(c: Config, scan: seq<bv32>, previous: seq<bv32>, row: nat): bv32
    requires row < |scan| == |previous|
  {
    if Ghosted(c, scan, row) then previous[row] else scan[row]
  }

  /** The rows remembered after a scan. */
  ghost function NewRows(c: Config, scan: seq<bv32>, previous: seq<bv32>): (rows: seq<bv32>)
    requires |scan| == |previous|
    ensures |rows| == |scan|
  {
    seq(|scan|, row requires 0 <= row < |scan| => NewRow(c, scan, previous, row))
  }

  /** The events of one row, column by column. */
  function RowEvents(row: nat, before: bv32, after: bv32, n: nat): seq<Event> {
    if n == 0 then []
    else RowEvents(row, before, after, n - 1)
         + if Bit(before, n - 1) != Bit(after, n - 1) then [Event(Key(row, n - 1), Bit(after, n - 1))] else []
  }

  ghost function ScanEvents(c: Config, scan: seq<bv32>, previous: seq<bv32>, n: nat): seq<Event>
    requires n <= |scan| == |previous|
  {
    if n == 0 then []
    else
      var after := NewRow(c, scan, previous, n - 1);
      ScanEvents(c, scan, previous, n - 1) + RowEvents(n - 1, previous[n - 1], after, c.cols)
  }

  lemma {:induction false} RowEventsExactly(row: nat, before: bv32, after: bv32, n: nat, e: Event)
    ensures e in RowEvents(row, before, after, n) <==>
      && e.key.row == row && e.key.col < n
      && Bit(before, e.key.col) != Bit(after, e.key.col) && e.pressed == Bit(after, e.key.col)
    ensures |RowEvents(row, before, after, n)| <= n
  {
    hide Bit;
    if n > 0 {
      RowEventsExactly(row, before, after, n - 1, e);
    }
  }

  /** Four real pressed keys in two rows and two columns. */
  ghost predicate Corners(c: Config, scan: seq<bv32>, i: nat, j: nat)
    requires i < |scan| && j < |scan|
  {
    exists a: nat, b: nat :: a < b < c.cols
      && c.keyAt(i, a) && c.keyAt(i, b) && c.keyAt(j, a) && c.keyAt(j, b)
      && Bit(scan[i], a) && Bit(scan[i], b) && Bit(scan[j], a) && Bit(scan[j], b)
  }

  lemma {:induction false} SharesCorners(c: Config, scan: seq<bv32>, i: nat)
    requires i < |scan|
    ensures forall j: nat :: j < |scan| ==> (Shares(c, scan, i, j) <==> Corners(c, scan, i, j))
  {
    forall j: nat | j < |scan| ensures Shares(c, scan, i, j) <==> Corners(c, scan, i, j) {
      hide Bit;
      if Shares(c, scan, i, j) {
        var a: nat, b: nat :| a < b < c.cols && Real(c, i, scan[i], a) && Real(c, i, scan[i], b)
          && Real(c, j, scan[j], a) && Real(c, j, scan[j], b);
        assert c.keyAt(i, a) && c.keyAt(i, b);
      }
      if Corners(c, scan, i, j) {
        var a: nat, b: nat :| a < b < c.cols && c.keyAt(i, a) && c.keyAt(i, b) && c.keyAt(j, a) && c.keyAt(j, b)
          && Bit(scan[i], a) && Bit(scan[i], b) && Bit(scan[j], a) && Bit(scan[j], b);
        assert Real(c, i, scan[i], a) && Real(c, i, scan[i], b) && Real(c, j, scan[j], a) && Real(c, j, scan[j], b);
      }
    }
  }

  /** A scan reports a key exactly when its state differs from the one remembered and no other row forms a rectangle of
      real pressed keys with its row; that is then the state reported. */
  lemma {:induction false} ScanReportsExactly(c: Config, scan: seq<bv32>, previous: seq<bv32>, n: nat, e: Event)
    requires n <= |scan| == |previous|
    ensures e in ScanEvents(c, scan, previous, n) <==>
      && e.key.row < n && e.key.col < c.cols
      && !(c.hasGhost && exists j: nat :: j < |scan| && j != e.key.row && Corners(c, scan, e.key.row, j))
      && Bit(previous[e.key.row], e.key.col) != Bit(scan[e.key.row], e.key.col)
      && e.pressed == Bit(scan[e.key.row], e.key.col)
  {
    hide Bit, Shares, Corners, RowEvents;
    if n > 0 {
      var row := n - 1;
      ScanReportsExactly(c, scan, previous, row, e);
      SharesCorners(c, scan, row);
      RowEventsExactly(row, previous[row], NewRow(c, scan, previous, row), c.cols, e);
    }
  }

  predicate Before(a: Key, b: Key) {
    a.row < b.row || (a.row == b.row && a.col < b.col)
  }

  /** A scan reports row by row and column by column, no key twice. */
  lemma {:induction false} ReportedInOrder(c: Config, scan: seq<bv32>, previous: seq<bv32>, n: nat, i: nat, j: nat)
    requires n <= |scan| == |previous| && i < j < |ScanEvents(c, scan, previous, n)|
    ensures Before(ScanEvents(c, scan, previous, n)[i].key, ScanEvents(c, scan, previous, n)[j].key)
  {
    hide NewRow, RowEvents;
    var events := ScanEvents(c, scan, previous, n - 1);
    var row := RowEvents(n - 1, previous[n - 1], NewRow(c, scan, previous, n - 1), c.cols);
    if j < |events| {
      ReportedInOrder(c, scan, previous, n - 1, i, j);
    } else {
      RowEventsExactly(n - 1, previous[n - 1], NewRow(c, scan, previous, n - 1), c.cols, row[j - |events|]);
      if i < |events| {
        assert events[i] in events;
        RowsBelow(c, scan, previous, n - 1, events[i]);
      } else {
        RowInOrder(n - 1, previous[n - 1], NewRow(c, scan, previous, n - 1), c.cols, i - |events|, j - |events|);
      }
    }
  }

  lemma {:induction false} RowsBelow(c: Config, scan: seq<bv32>, previous: seq<bv32>, n: nat, e: Event)
    requires n <= |scan| == |previous| && e in ScanEvents(c, scan, previous, n)
    ensures e.key.row < n
  {
    hide Ghosted, Bit;
    ScanReportsExactly(c, scan, previous, n, e);
  }

  lemma {:induction false} RowInOrder(row: nat, before: bv32, after: bv32, n: nat, i: nat, j: nat)
    requires i < j < |RowEvents(row, before, after, n)|
    ensures Before(RowEvents(row, before, after, n)[i].key, RowEvents(row, before, after, n)[j].key)
  {
    hide Bit;
    var events := RowEvents(row, before, after, n - 1);
    if j < |events| {
      RowInOrder(row, before, after, n - 1, i, j);
    } else {
      assert events[i] in events;
      RowEventsExactly(row, before, after, n - 1, events[i]);
    }
  }

  /** While two rows form such a rectangle neither changes; any other row becomes the scan's. */
  lemma {:induction false} GhostsFreeze(c: Config, scan: seq<bv32>, previous: seq<bv32>, i: nat)
    requires i < |scan| == |previous|
    ensures NewRows(c, scan, previous)[i] ==
      if c.hasGhost && exists j: nat :: j < |scan| && j != i && Corners(c, scan, i, j) then previous[i] else scan[i]
  {
    hide Shares, Corners;
    SharesCorners(c, scan, i);
  }

  /** A ghost is never reported: when the scan shows all four corners of a rectangle of real keys, no key of either
      row is. */
  lemma {:induction false} CornersSilent(c: Config, scan: seq<bv32>, previous: seq<bv32>, i: nat, j: nat, a: nat,
                                         b: nat, e: Event)
    requires c.hasGhost && |scan| == |previous| && i < |scan| && j < |scan| && i != j && a < b < c.cols
    requires forall row, col :: row in {i, j} && col in {a, b} ==> c.keyAt(row, col) && Bit(scan[row], col)
    requires e.key.row in {i, j}
    ensures e !in ScanEvents(c, scan, previous, |scan|)
    ensures NewRows(c, scan, previous)[e.key.row] == previous[e.key.row]
  {
    hide Bit;
    var other := if e.key.row == i then j else i;
    assert c.keyAt(other, a) && c.keyAt(other, b) && Bit(scan[other], a) && Bit(scan[other], b);
    assert Corners(c, scan, e.key.row, other);
    ScanReportsExactly(c, scan, previous, |scan|, e);
    GhostsFreeze(c, scan, previous, e.key.row);
  }

  // ---------- replay ----------

  function Applied(down: set<Key>, e: Event): set<Key> {
    if e.pressed then down + {e.key} else down - {e.key}
  }

  /** The keys held down after the events. */
  function Replay(down: set<Key>, events: seq<Event>): set<Key> {
    if events == [] then down else Applied(Replay(down, events[..|events| - 1]), events[|events| - 1])
  }

  /** Keys are pressed only when up and released only when down. */
  predicate Proper(down: set<Key>, events: seq<Event>) {
    events == [] || (
      var n := |events| - 1;
      Proper(down, events[..n]) && events[n].pressed == (events[n].key !in Replay(down, events[..n])))
  }

  lemma {:induction false} ReplayConcat(down: set<Key>, a: seq<Event>, b: seq<Event>)
    ensures Replay(down, a + b) == Replay(Replay(down, a), b)
    ensures Proper(down, a + b) <==> Proper(down, a) && Proper(Replay(down, a), b)
    decreases |b|
  {
    hide Applied;
    if b == [] {
      assert a + b == a;
    } else {
      var n := |b| - 1;
      assert (a + b)[..|a + b| - 1] == a + b[..n];
      ReplayConcat(down, a, b[..n]);
    }
  }

  /** Events of one key strictly alternate. */
  lemma {:induction false} EventsAlternate(down: set<Key>, events: seq<Event>, i: nat, j: nat)
    requires Proper(down, events) && i < j < |events| && events[i].key == events[j].key
    requires forall k :: i < k < j ==> events[k].key != events[i].key
    ensures events[i].pressed != events[j].pressed
  {
    ProperPrefix(down, events, j + 1);
    var e := events[..j + 1];
    assert e[..j] == events[..j];
    KeyAfter(down, events, i, j);
  }

  lemma {:induction false} ProperPrefix(down: set<Key>, events: seq<Event>, n: nat)
    requires Proper(down, events) && n <= |events|
    ensures Proper(down, events[..n])
    decreases |events|
  {
    if n < |events| {
      ProperPrefix(down, events[..|events| - 1], n);
      assert events[..|events| - 1][..n] == events[..n];
    } else {
      assert events[..n] == events;
    }
  }

  lemma {:induction false} KeyAfter(down: set<Key>, events: seq<Event>, i: nat, j: nat)
    requires i < j <= |events| && forall k :: i < k < j ==> events[k].key != events[i].key
    ensures events[i].key in Replay(down, events[..j]) <==> events[i].pressed
    decreases j
  {
    var e := events[..j];
    assert e[..j - 1] == events[..j - 1];
    if i < j - 1 {
      KeyAfter(down, events, i, j - 1);
    }
  }

  /** The keys of the remembered rows. */
  ghost predicate Shows(c: Config, down: set<Key>, rows: seq<bv32>) {
    forall key: Key :: key in down <==> Pressed(c, rows, key)
  }

  predicate Pressed(c: Config, rows: seq<bv32>, key: Key) {
    key.row < |rows| && key.col < c.cols && Bit(rows[key.row], key.col)
  }

  /** A row's events bring its keys up to date and touch no other key. */
  lemma {:induction false} RowReplay(down: set<Key>, row: nat, before: bv32, after: bv32, n: nat)
    requires forall col: nat :: col < n ==> (Key(row, col) in down <==> Bit(before, col))
    ensures Proper(down, RowEvents(row, before, after, n))
    ensures forall key: Key :: key in Replay(down, RowEvents(row, before, after, n)) <==>
      if key.row == row && key.col < n then Bit(after, key.col) else key in down
  {
    hide Bit;
    if n > 0 {
      RowReplay(down, row, before, after, n - 1);
      var e := RowEvents(row, before, after, n - 1);
      if Bit(before, n - 1) != Bit(after, n - 1) {
        assert (e + [Event(Key(row, n - 1), Bit(after, n - 1))])[..|e|] == e;
      } else {
        assert RowEvents(row, before, after, n) == e;
      }
    }
  }

  /** The events of the first `n` rows bring those rows up to date. */
  lemma {:induction false} ScanReplay(c: Config, down: set<Key>, scan: seq<bv32>, previous: seq<bv32>, n: nat)
    requires n <= |scan| == |previous| && Shows(c, down, previous)
    ensures Proper(down, ScanEvents(c, scan, previous, n))
    ensures forall key: Key :: key in Replay(down, ScanEvents(c, scan, previous, n)) <==>
      if key.row < n then key.col < c.cols && Bit(NewRow(c, scan, previous, key.row), key.col)
        else Pressed(c, previous, key)
  {
    hide Bit, NewRow, RowEvents;
    if n > 0 {
      ScanReplay(c, down, scan, previous, n - 1);
      var a := ScanEvents(c, scan, previous, n - 1);
      var after := NewRow(c, scan, previous, n - 1);
      RowReplay(Replay(down, a), n - 1, previous[n - 1], after, c.cols);
      ReplayConcat(down, a, RowEvents(n - 1, previous[n - 1], after, c.cols));
    }
  }

  lemma {:induction false} ScanShows(c: Config, down: set<Key>, scan: seq<bv32>, previous: seq<bv32>)
    requires |scan| == |previous| && Shows(c, down, previous)
    ensures var events := ScanEvents(c, scan, previous, |scan|);
            Proper(down, events) && Shows(c, Replay(down, events), NewRows(c, scan, previous))
  {
    hide NewRow, ScanEvents, Bit;
    ScanReplay(c, down, scan, previous, |scan|);
  }

  // ---------- runs ----------

  /** A series of scans: the rows remembered and all events. */
  ghost function RowsAfter(c: Config, scans: seq<seq<bv32>>): (rows: seq<bv32>)
    requires forall i :: 0 <= i < |scans| ==> |scans[i]| == c.rows
    ensures |rows| == c.rows
  {
    if scans == [] then seq(c.rows, _ => 0) else NewRows(c, scans[|scans| - 1], RowsAfter(c, scans[..|scans| - 1]))
  }

  ghost function EventsOf(c: Config, scans: seq<seq<bv32>>): seq<Event>
    requires forall i :: 0 <= i < |scans| ==> |scans[i]| == c.rows
  {
    if scans == [] then []
    else
      var n := |scans| - 1;
      EventsOf(c, scans[..n]) + ScanEvents(c, scans[n], RowsAfter(c, scans[..n]), c.rows)
  }

  /** After any series of scans, the events replayed give exactly the remembered rows, and every key's events
      alternate. */
  lemma {:induction false} EventsShowMatrix(c: Config, scans: seq<seq<bv32>>)
    requires forall i :: 0 <= i < |scans| ==> |scans[i]| == c.rows
    ensures Proper({}, EventsOf(c, scans)) && Shows(c, Replay({}, EventsOf(c, scans)), RowsAfter(c, scans))
  {
    hide Shows, NewRows, ScanEvents;
    if scans == [] {
      NothingDown(c);
    } else {
      var n := |scans| - 1;
      EventsShowMatrix(c, scans[..n]);
      var events := EventsOf(c, scans[..n]);
      ScanShows(c, Replay({}, events), scans[n], RowsAfter(c, scans[..n]));
      ReplayConcat({}, events, ScanEvents(c, scans[n], RowsAfter(c, scans[..n]), c.rows));
    }
  }

  lemma {:induction false} NothingDown(c: Config)
    ensures Shows(c, {}, seq(c.rows, _ => 0))
  {
    hide Mask;
    forall key: Key ensures !Bit(0, key.col) {
      MeetsNothing(0, Mask(key.col));
    }
  }

  // ---------- the engine ----------

  class Engine {
    const c: Config
    const previous: array<bv32>
    ghost var events: seq<Event>
    ghost var executed: seq<Event>
    ghost var ticks: nat

    constructor (c: Config)
      requires Sane(c)
      ensures Valid() && this.c == c && fresh(previous) && events == executed == []
      ensures previous[..] == seq(c.rows, _ => 0)
    {
      this.c := c;
      previous := new bv32[c.rows](_ => 0);
      events, executed, ticks := [], [], 0;
    }

    ghost predicate Valid()
      reads this
    {
      Sane(c) && previous.Length == c.rows
    }

    method GetRealKeys(row: nat, data: bv32) returns (out: bv32)
      requires Sane(c)
      ensures out == RealKeys(c, row, data, c.cols)
    {
      hide Bit, With, Mask;
      out := 0;
      for col: nat := 0 to c.cols
        invariant out == RealKeys(c, row, data, col)
      {
        if c.keyAt(row, col) && Bit(data, col) {
          out := With(out, Mask(col));
        }
      }
    }

    method HasGhostInRow(scan: seq<bv32>, row: nat) returns (ghosted: bool)
      requires Valid() && |scan| == c.rows && row < c.rows
      ensures ghosted <==> Ghosted(c, scan, row)
    {
      hide Fewer, Common, RealKeys, Shares;
      if !c.hasGhost {
        return false;
      }
      var data := GetRealKeys(row, scan[row]);
      if Fewer(data) == 0 {
        SharingNeedsTwo(c, scan, row);
        return false;
      }
      for i: nat := 0 to c.rows
        invariant forall j: nat :: j < i && j != row ==> !Shares(c, scan, row, j)
      {
        if i != row {
          var other := GetRealKeys(i, scan[i]);
          CommonExactly(c, scan, i, row);
          SharesBack(c, scan, i, row);
          if Fewer(Common(other, data)) != 0 {
            return true;
          }
        }
      }
      return false;
    }

    /** The events of a row that changed. */
    method EmitRow(row: nat, before: bv32, after: bv32, process: bool)
      requires Sane(c)
      modifies this`events, this`executed
      ensures events == old(events) + RowEvents(row, before, after, c.cols)
      ensures executed == old(executed) + if process then RowEvents(row, before, after, c.cols) else []
    {
      hide Bit;
      var changes := after ^ before;
      for col: nat := 0 to c.cols
        invariant events == old(events) + RowEvents(row, before, after, col)
        invariant executed == old(executed) + if process then RowEvents(row, before, after, col) else []
      {
        XorBit(after, before, col);
        if Bit(changes, col) {
          var e := Event(Key(row, col), Bit(after, col));
          if process {
            executed := executed + [e];
          }
          events := events + [e];
        }
      }
    }

    /** A scan that cannot be read or shows no change is a tick. */
    method MatrixTask(canRead: bool, scan: seq<bv32>, process: bool) returns (changed: bool)
      requires Valid() && |scan| == c.rows
      modifies this`events, this`executed, this`ticks, previous
      ensures changed <==> canRead && old(previous[..]) != scan
      ensures previous[..] == if canRead then NewRows(c, scan, old(previous[..])) else old(previous[..])
      ensures events == old(events) + if canRead then ScanEvents(c, scan, old(previous[..]), c.rows) else []
      ensures executed == old(executed)
        + if canRead && process then ScanEvents(c, scan, old(previous[..]), c.rows) else []
      ensures ticks == old(ticks) + if changed then 0 else 1
    {
      hide Ghosted, RowEvents, ScanEvents;
      if !canRead {
        ticks := ticks + 1;
        return false;
      }
      changed := false;
      var r: nat := 0;
      while r < c.rows && !changed
        invariant r <= c.rows
        invariant !changed ==> forall i :: 0 <= i < r ==> previous[i] == scan[i]
        invariant changed ==> previous[..] != scan
      {
        if previous[r] ^ scan[r] != 0 {
          changed := true;
          assert previous[..][r] != scan[r];
        }
        r := r + 1;
      }
      if !changed {
        assert previous[..] == scan;
        NoEvents(c, scan, c.rows);
        ticks := ticks + 1;
        return;
      }
      ProcessRows(scan, process);
    }

    method ProcessRows(scan: seq<bv32>, process: bool)
      requires Valid() && |scan| == c.rows
      modifies this`events, this`executed, previous
      ensures previous[..] == NewRows(c, scan, old(previous[..]))
      ensures events == old(events) + ScanEvents(c, scan, old(previous[..]), c.rows)
      ensures executed == old(executed) + if process then ScanEvents(c, scan, old(previous[..]), c.rows) else []
    {
      hide Ghosted, RowEvents;
      ghost var was := previous[..];
      for row: nat := 0 to c.rows
        invariant forall i :: 0 <= i < c.rows ==> previous[i] == if i < row then NewRow(c, scan, was, i) else was[i]
        invariant events == old(events) + ScanEvents(c, scan, was, row)
        invariant executed == old(executed) + if process then ScanEvents(c, scan, was, row) else []
      {
        NoRowEvents(row, was[row], was[row], c.cols);
        var current := scan[row];
        if current != previous[row] {
          var ghosted := HasGhostInRow(scan, row);
          if !ghosted {
            EmitRow(row, previous[row], current, process);
            previous[row] := current;
          }
        }
      }
    }
  }

  lemma {:induction false} SharesBack(c: Config, scan: seq<bv32>, i: nat, j: nat)
    requires i < |scan| && j < |scan|
    ensures Shares(c, scan, i, j) <==> Shares(c, scan, j, i)
  {
    hide Real;
  }

  lemma {:induction false} NoRowEvents(row: nat, before: bv32, after: bv32, n: nat)
    requires before == after
    ensures RowEvents(row, before, after, n) == []
  {
    if n > 0 {
      NoRowEvents(row, before, after, n - 1);
    }
  }

  /** An unchanged scan has no events. */
  lemma {:induction false} NoEvents(c: Config, scan: seq<bv32>, n: nat)
    requires n <= |scan|
    ensures ScanEvents(c, scan, scan, n) == [] && NewRows(c, scan, scan) == scan
  {
    hide Ghosted, RowEvents;
    if n > 0 {
      NoEvents(c, scan, n - 1);
      NoRowEvents(n - 1, scan[n - 1], scan[n - 1], c.cols);
    }
  }
}
