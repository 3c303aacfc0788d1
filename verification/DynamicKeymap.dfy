/** The keymap in EEPROM (quantum/dynamic_keymap.c:111-216) as a three-dimensional array of keycodes, its view
    as a byte buffer, and the one-entry memo in front of it (quantum/keymap_common.c:191-207). */
module DynamicKeymap {

  import opened Widths
  import opened Modular
  import opened Eeprom
  import opened Via

  const KC_NO: U16 := 0

  /** What dynamic_keymap_get_keycode answers: the cell, or KC_NO outside the keymap. */
  ghost function Lookup(l: Layout, m: seq<Byte>, layer: nat, row: nat, col: nat): U16 {
    if InKeymap(l, layer, row, col) then WordAt(m, CellAddr(l, layer, row, col)) else KC_NO
  }

  ghost predicate KeymapFits(l: Layout, size: nat) {
    l.keymapAddr + l.KeymapBytes() <= size
  }

  // ---------- cells do not overlap ----------

  lemma {:induction false} SameQuotient(q: nat, r: nat, q': nat, r': nat, n: nat)
    requires r < n && r' < n && q * n + r == q' * n + r'
    ensures q == q' && r == r'
  {
    Quotient(q, r, n);
    Quotient(q', r', n);
  }

  lemma {:induction false} SameHalf(n: nat, i: nat, n': nat, i': nat)
    requires i < 2 && i' < 2 && n * 2 + i == n' * 2 + i'
    ensures n == n' && i == i'
  {
  }

  /** Two bytes of cells share an address only if they are the same byte of the same cell. */
  lemma {:induction false} CellsApart(l: Layout, layer: nat, row: nat, col: nat, i: nat,
                                      layer': nat, row': nat, col': nat, i': nat)
    requires InKeymap(l, layer, row, col) && InKeymap(l, layer', row', col') && i < 2 && i' < 2
    requires CellAddr(l, layer, row, col) + i == CellAddr(l, layer', row', col') + i'
    ensures layer == layer' && row == row' && col == col' && i == i'
  {
    hide Layout.LayerBytes, CellAddr;
    CellInside(l, layer, row, col);
    CellInside(l, layer', row', col');
    MulNatural(row, l.cols);
    MulNatural(row', l.cols);
    var n: nat, n': nat := row * l.cols + col, row' * l.cols + col';
    SameQuotient(layer, n * 2 + i, layer', n' * 2 + i', l.LayerBytes());
    SameHalf(n, i, n', i');
    SameQuotient(row, col, row', col', l.cols);
  }

  /** Every byte of the keymap is a byte of some cell. */
  lemma {:induction false} OffsetIsCell(l: Layout, o: nat) returns (layer: nat, row: nat, col: nat, i: nat)
    requires o < l.KeymapBytes()
    ensures InKeymap(l, layer, row, col) && i < 2
    ensures CellAddr(l, layer, row, col) + i == l.keymapAddr + o
  {
    var size := l.LayerBytes();
    assert size > 0 && l.cols > 0;
    layer := Div(o, size);
    var x := Mod(o, size);
    QuotientBelow(o, l.layers, size);
    QuotientBelow(x / 2, l.rows, l.cols);
    row, col, i := Div(x / 2, l.cols), Mod(x / 2, l.cols), x % 2;
    CellInside(l, layer, row, col);
  }

  lemma {:induction false} QuotientBelow(a: nat, n: nat, unit: nat)
    requires a < n * unit
    ensures unit > 0 && Div(a, unit) < n && a == Div(a, unit) * unit + Mod(a, unit)
  {
    if a / unit >= n {
      ScaledBelow(n, a / unit + 1, unit);
    }
  }

  // ---------- the array ----------

  /** dynamic_keymap_set_keycode on the memory as a value. */
  ghost function Stored(l: Layout, m: seq<Byte>, layer: nat, row: nat, col: nat, kc: U16): (m': seq<Byte>)
    requires KeymapFits(l, |m|)
    ensures |m'| == |m|
  {
    if InKeymap(l, layer, row, col) then
      CellInside(l, layer, row, col);
      var a := CellAddr(l, layer, row, col);
      m[a := High(kc)][a + 1 := Low(kc)]
    else m
  }

  /** Setting a keycode changes that cell to it, and no other. */
  lemma {:induction false} SetThenGet(l: Layout, m: seq<Byte>, layer: nat, row: nat, col: nat, kc: U16,
                                      layer': nat, row': nat, col': nat)
    requires KeymapFits(l, |m|)
    ensures Lookup(l, Stored(l, m, layer, row, col, kc), layer', row', col')
         ==
          if (layer, row, col) == (layer', row', col') && InKeymap(l, layer, row, col) then kc
          else Lookup(l, m, layer', row', col')
  {
    if InKeymap(l, layer, row, col) && InKeymap(l, layer', row', col') {
      var a, a' := CellAddr(l, layer, row, col), CellAddr(l, layer', row', col');
      CellInside(l, layer, row, col);
      CellInside(l, layer', row', col');
      if (layer, row, col) != (layer', row', col') {
        if a + 1 == a' {
          CellsApart(l, layer, row, col, 1, layer', row', col', 0);
        } else if a == a' {
          CellsApart(l, layer, row, col, 0, layer', row', col', 0);
        } else if a == a' + 1 {
          CellsApart(l, layer, row, col, 0, layer', row', col', 1);
        }
      }
    }
  }

  /** Nothing outside the cell's two bytes changes either. */
  lemma {:induction false} SetChangesTwoBytes(l: Layout, m: seq<Byte>, layer: nat, row: nat, col: nat, kc: U16, a: nat)
    requires KeymapFits(l, |m|) && a < |m|
    requires InKeymap(l, layer, row, col) ==> a != CellAddr(l, layer, row, col) && a != CellAddr(l, layer, row, col) + 1
    ensures Stored(l, m, layer, row, col, kc)[a] == m[a]
  {
    if InKeymap(l, layer, row, col) {
      CellInside(l, layer, row, col);
    }
    hide CellAddr;
    hide Layout.KeymapBytes;
    hide Layout.LayerBytes;
  }

  // ---------- the buffer view ----------

  /** What dynamic_keymap_get_buffer puts at position `i` of the answer. */
  ghost function BufferByte(l: Layout, m: seq<Byte>, o: nat): Byte
    requires KeymapFits(l, |m|)
  {
    if o < l.KeymapBytes() then m[l.keymapAddr + o] else 0
  }

  /** The view goes on with zeros behind the keymap. */
  lemma {:induction false} BufferPastEnd(l: Layout, m: seq<Byte>, o: nat)
    requires KeymapFits(l, |m|) && o >= l.layers * l.rows * l.cols * 2
    ensures BufferByte(l, m, o) == 0
  {
    assert l.KeymapBytes() == l.layers * (l.rows * l.cols * 2) == l.layers * l.rows * l.cols * 2;
  }

  /** At every offset the buffer view shows the high or the low byte of the cell it lies in. */
  lemma {:induction false} BufferShowsCells(l: Layout, m: seq<Byte>, o: nat)
    requires KeymapFits(l, |m|) && o < l.KeymapBytes()
    ensures exists layer: nat, row: nat, col: nat, i: nat ::
              && InKeymap(l, layer, row, col) && i < 2
              && CellAddr(l, layer, row, col) + i == l.keymapAddr + o
              && BufferByte(l, m, o) == Half(Lookup(l, m, layer, row, col), i)
  {
    var layer, row, col, i := OffsetIsCell(l, o);
    CellInside(l, layer, row, col);
    var a := CellAddr(l, layer, row, col);
    hide CellAddr;
    hide Layout.KeymapBytes;
    hide Layout.LayerBytes;
    assert High(WordAt(m, a)) == m[a] && Low(WordAt(m, a)) == m[a + 1];
    assert BufferByte(l, m, o) == Half(Lookup(l, m, layer, row, col), i);
  }

  /** dynamic_keymap_set_buffer on the memory as a value: bytes beyond the keymap are dropped. */
  ghost predicate Buffered(l: Layout, m: seq<Byte>, offset: nat, data: seq<Byte>, m': seq<Byte>)
    requires KeymapFits(l, |m|)
  {
    && |m'| == |m|
    && forall a: nat :: a < |m| ==>
         m'[a] == if In(a, l.keymapAddr + offset, |data|) && a < l.keymapAddr + l.KeymapBytes()
                  then data[a - l.keymapAddr - offset] else m[a]
  }

  /** Writing bytes and reading them back through the buffer view. */
  lemma {:induction false} BufferRoundTrip(l: Layout, m: seq<Byte>, offset: nat, data: seq<Byte>, m': seq<Byte>, o: nat)
    requires KeymapFits(l, |m|) && Buffered(l, m, offset, data, m')
    ensures BufferByte(l, m', o)
         == if o < l.KeymapBytes() && offset <= o < offset + |data| then data[o - offset] else BufferByte(l, m, o)
  {
    hide Layout.KeymapBytes;
    assert o < l.KeymapBytes() ==> l.keymapAddr + o < |m|;
  }

  /** Writing one cell's two bytes through the buffer is setting its keycode. */
  lemma {:induction false} BufferSetsCell(l: Layout, m: seq<Byte>, layer: nat, row: nat, col: nat, kc: U16,
                                          m': seq<Byte>)
    requires KeymapFits(l, |m|) && InKeymap(l, layer, row, col)
    requires Buffered(l, m, CellAddr(l, layer, row, col) - l.keymapAddr, [High(kc), Low(kc)], m')
    ensures m' == Stored(l, m, layer, row, col, kc)
  {
    CellInside(l, layer, row, col);
    hide Layout.KeymapBytes;
    hide Layout.LayerBytes;
  }

  // ---------- the methods ----------

  class Keymap {
    const l: Layout
    const mem: Memory

    constructor (l: Layout, mem: Memory)
      ensures this.l == l && this.mem == mem
    {
      this.l, this.mem := l, mem;
    }

    ghost predicate Valid()
      reads mem
    {
      KeymapFits(l, mem.bytes.Length)
    }

    /** dynamic_keymap_get_keycode: a little-endian word read, with its bytes exchanged. */
    method GetKeycode(layer: nat, row: nat, col: nat) returns (kc: U16)
      requires Valid()
      ensures kc == Lookup(l, mem.bytes[..], layer, row, col)
    {
      if layer >= l.layers || row >= l.rows || col >= l.cols {
        return KC_NO;
      }
      CellInside(l, layer, row, col);
      var address := CellAddr(l, layer, row, col);
      hide CellAddr;
      hide Layout.KeymapBytes;
      hide Layout.LayerBytes;
      var low := mem.ReadByte(address);
      var high := mem.ReadByte(address + 1);
      var word: U16 := low as int + high as int * 256;
      kc := word % 256 * 256 + word / 256 % 256;
    }

    /** dynamic_keymap_set_keycode */
    method SetKeycode(layer: nat, row: nat, col: nat, kc: U16)
      requires Valid()
      modifies mem, mem.bytes
      ensures mem.bytes[..] == Stored(l, old(mem.bytes[..]), layer, row, col, kc)
    {
      if layer >= l.layers || row >= l.rows || col >= l.cols {
        return;
      }
      CellInside(l, layer, row, col);
      var address := CellAddr(l, layer, row, col);
      hide CellAddr;
      hide Layout.KeymapBytes;
      hide Layout.LayerBytes;
      mem.UpdateByte(address, High(kc));
      mem.UpdateByte(address + 1, Low(kc));
    }

    /** dynamic_keymap_get_buffer */
    method GetBuffer(offset: nat, size: nat) returns (data: seq<Byte>)
      requires Valid()
      ensures |data| == size
      ensures forall i :: 0 <= i < size ==> data[i] == BufferByte(l, mem.bytes[..], offset + i)
    {
      data := [];
      hide Layout.LayerBytes;
      var source := l.keymapAddr + offset;
      for i := 0 to size
        invariant |data| == i && source == l.keymapAddr + offset + i
        invariant forall j :: 0 <= j < i ==> data[j] == BufferByte(l, mem.bytes[..], offset + j)
      {
        if offset + i < l.KeymapBytes() {
          var b := mem.ReadByte(source);
          data := data + [b];
        } else {
          data := data + [0];
        }
        source := source + 1;
      }
    }

    /** dynamic_keymap_set_buffer */
    method SetBuffer(offset: nat, data: seq<Byte>)
      requires Valid()
      modifies mem, mem.bytes
      ensures Buffered(l, old(mem.bytes[..]), offset, data, mem.bytes[..])
    {
      hide Layout.LayerBytes;
      hide Layout.KeymapBytes;
      ghost var m := mem.bytes[..];
      var target := l.keymapAddr + offset;
      for i := 0 to |data|
        invariant target == l.keymapAddr + offset + i
        invariant Buffered(l, m, offset, data[..i], mem.bytes[..])
      {
        if offset + i < l.KeymapBytes() {
          mem.UpdateByte(target, data[i]);
        }
        target := target + 1;
      }
      assert data[..|data|] == data;
    }
  }

  // ---------- the one-entry memo ----------

  /** The static variables of keymap_key_to_keycode. */
  datatype Memo = Memo(layer: nat, row: nat, col: nat, keycode: U16)

  const EMPTY_MEMO := Memo(0xFF, 0xFF, 0xFF, 0)

  /** The memo holds what a fresh lookup would give. */
  ghost predicate Current(l: Layout, m: seq<Byte>, memo: Memo) {
    memo.keycode == Lookup(l, m, memo.layer, memo.row, memo.col)
  }

  /** At power-up the memo is current: an eight-bit layer number 0xFF is never a stored layer. */
  lemma {:induction false} EmptyMemoIsCurrent(l: Layout, m: seq<Byte>)
    requires l.layers <= 0xFF
    ensures Current(l, m, EMPTY_MEMO)
  {
  }

  /** A keycode write leaves the memo current if and only if it does not change the remembered cell. */
  lemma {:induction false} WriteKeepsMemoExactly(l: Layout, m: seq<Byte>, memo: Memo, layer: nat, row: nat, col: nat,
                                                 kc: U16)
    requires KeymapFits(l, |m|) && Current(l, m, memo)
    ensures Current(l, Stored(l, m, layer, row, col, kc), memo)
       <==> !InKeymap(l, layer, row, col) || (memo.layer, memo.row, memo.col) != (layer, row, col)
            || kc == memo.keycode
  {
    SetThenGet(l, m, layer, row, col, kc, memo.layer, memo.row, memo.col);
    hide Lookup;
    hide Stored;
  }

  /** A write of the bytes `data` leaves byte `o` of the keymap at `b`. */
  predicate Spares(offset: nat, data: seq<Byte>, o: nat, b: Byte) {
    offset <= o < offset + |data| ==> data[o - offset] == b
  }

  /** A write through the buffer view leaves the memo current if and only if it does not change either byte of the
      remembered cell. */
  lemma {:induction false} BufferKeepsMemoExactly(l: Layout, m: seq<Byte>, memo: Memo, offset: nat, data: seq<Byte>,
                                                  m': seq<Byte>)
    requires KeymapFits(l, |m|) && Current(l, m, memo) && Buffered(l, m, offset, data, m')
    requires InKeymap(l, memo.layer, memo.row, memo.col)
    ensures var o := CellAddr(l, memo.layer, memo.row, memo.col) - l.keymapAddr;
            && o >= 0
            && (Current(l, m', memo) <==>
                Spares(offset, data, o, High(memo.keycode)) && Spares(offset, data, o + 1, Low(memo.keycode)))
  {
    var a := CellAddr(l, memo.layer, memo.row, memo.col);
    CellInside(l, memo.layer, memo.row, memo.col);
    hide CellAddr, Layout.KeymapBytes, Layout.LayerBytes;
    WordSplits(m, a, memo.keycode);
    WordSplits(m', a, memo.keycode);
  }

  lemma {:induction false} WordSplits(m: seq<Byte>, a: nat, kc: U16)
    requires a + 1 < |m|
    ensures WordAt(m, a) == kc <==> m[a] == High(kc) && m[a + 1] == Low(kc)
  {
  }

  /** The reset gives every cell the keycode of the keymap in flash. */
  lemma {:induction false} ResetSetsKeymap(l: Layout, fw: Firmware, m: seq<Byte>)
    requires Separate(l, |m|)
    ensures Fits(KeymapWrites(l, fw, l.layers), |m|)
    ensures KeymapIs(l, Apply(m, KeymapWrites(l, fw, l.layers)), fw.keymap)
  {
    hide KeymapWrites, KeymapByte, EncoderByte, Layout.KeymapBytes, Layout.EncoderBytes, Layout.LayerBytes, CellAddr;
    var ws := KeymapWrites(l, fw, l.layers);
    KeymapWritesAre(l, fw, l.layers);
    var m' := Apply(m, ws);
    forall a: nat | In(a, l.keymapAddr, l.KeymapBytes())
      ensures a < |m| && m'[a] == KeymapByte(l, fw, a - l.keymapAddr) {
      LayersAreKeymap(l);
      KeymapWritesReach(l, fw, l.layers, l.LayerBytes(), l.encoders * 4, a);
      Settles(m, ws, a, KeymapByte(l, fw, a - l.keymapAddr));
    }
    forall layer: nat, row: nat, col: nat | InKeymap(l, layer, row, col)
      ensures WordAt(m', CellAddr(l, layer, row, col)) == fw.keymap(layer, row, col)
    {
      CellHolds(l, fw, m', layer, row, col);
    }
  }

  lemma {:induction false} LayersAreKeymap(l: Layout)
    ensures l.KeymapBytes() == l.layers * l.LayerBytes()
  {
  }

  /** A reset leaves the memo current if and only if flash holds the remembered keycode. */
  lemma {:induction false} ResetKeepsMemoExactly(l: Layout, fw: Firmware, m: seq<Byte>, memo: Memo)
    requires Separate(l, |m|) && InKeymap(l, memo.layer, memo.row, memo.col)
    ensures Fits(KeymapWrites(l, fw, l.layers), |m|)
    ensures Current(l, Apply(m, KeymapWrites(l, fw, l.layers)), memo)
      <==> memo.keycode == fw.keymap(memo.layer, memo.row, memo.col)
  {
    hide KeymapWrites, Apply, CellAddr, InKeymap;
    ResetSetsKeymap(l, fw, m);
  }

  class KeyToKeycode {
    const keymap: Keymap
    var memo: Memo

    constructor (keymap: Keymap)
      ensures this.keymap == keymap && memo == Memo(0xFF, 0xFF, 0xFF, 0)
    {
      this.keymap := keymap;
      memo := EMPTY_MEMO;
    }

    /** keymap_key_to_keycode for matrix keys: the direct lookup, exactly when the key is not the
        remembered one or the memo is current. No keymap write clears the memo. */
    method KeymapKeyToKeycode(layer: nat, row: nat, col: nat) returns (kc: U16)
      requires keymap.Valid()
      modifies this
      ensures var l, m := keymap.l, keymap.mem.bytes[..];
              var hit := row < l.rows && col < l.cols && (layer, row, col) == old((memo.layer, memo.row, memo.col));
              && (kc == (if row < l.rows && col < l.cols then Lookup(l, m, layer, row, col) else KC_NO)
                  <==> !hit || old(Current(l, m, memo)))
              && (memo ==
                   if row < l.rows && col < l.cols && !hit then Memo(layer, row, col, Lookup(l, m, layer, row, col))
                          else old(memo))
              && (old(Current(l, m, memo)) ==> Current(l, m, memo))
    {
      if row < keymap.l.rows && col < keymap.l.cols {
        if layer != memo.layer || row != memo.row || col != memo.col {
          var keycode := keymap.GetKeycode(layer, row, col);
          memo := Memo(layer, row, col, keycode);
        }
        return memo.keycode;
      }
      return KC_NO;
    }
  }
}
